/**
 The durable lineage payloads, written and read back: stream headers
 (src/persist/records.cpp:322-334, src/runtime/coordinator.cpp:130-145), failures and fences
 (src/persist/records.cpp:343-371, src/persist/records.cpp:460-513).
 */
module Lineage {
  import opened Identity
  import opened Bits
  import opened Evidence
  import opened Payloads
  import Authority

  /** The parts of a process incarnation besides its boot ordinal. */
  datatype Process = Process(processId: U64, nonceHi: U64, nonceLo: U64)

  // ---- Text ----

  predicate Narrow(text: string) {
    |text| <= ELEMENT_LIMIT && forall i :: 0 <= i < |text| ==> text[i] as int < 256
  }

  function ToBytes(text: string): (bytes: Bytes)
    requires Narrow(text)
    ensures |bytes| == |text| && forall i :: 0 <= i < |text| ==> bytes[i] == text[i] as int
  {
    seq(|text|, i requires 0 <= i < |text| => text[i] as int)
  }

  function ToText(bytes: Bytes): (text: string)
    ensures |text| == |bytes| && forall i :: 0 <= i < |bytes| ==> text[i] as int == bytes[i]
  {
    seq(|bytes|, i requires 0 <= i < |bytes| => bytes[i] as char)
  }

  lemma TextBack(text: string)
    requires Narrow(text)
    ensures ToText(ToBytes(text)) == text
  {
    var back := ToText(ToBytes(text));
    forall i | 0 <= i < |text|
      ensures back[i] == text[i]
    {
      assert back[i] as int == text[i] as int;
    }
  }

  lemma BytesBack(bytes: Bytes)
    requires |bytes| <= ELEMENT_LIMIT
    ensures Narrow(ToText(bytes)) && ToBytes(ToText(bytes)) == bytes
  {
  }

  // ---- Stream headers ----

  const HEADER_SHAPES: seq<Shape> :=
    [SmallShape, HalfShape, WideShape, WideShape, WideShape, WideShape, WideShape]

  function HeaderFields(version: U16, boot: U64, epoch: U64, p: Process): (fields: seq<Field>) {
    [Small(PAYLOAD_TAG), Half(version), Wide(boot), Wide(p.processId), Wide(epoch), Wide(p.nonceHi), Wide(p.nonceLo)]
  }

  function EncodeStreamHeader(version: U16, boot: U64, epoch: U64, p: Process): (payload: Bytes) {
    WriteFields(HeaderFields(version, boot, epoch, p))
  }

  /** Which process wrote the records that follow. */
  datatype Incarnation = Incarnation(boot: U64, epoch: U64, process: Process)

  ghost predicate HeaderShaped(fields: seq<Field>) {
    |fields| == 7 && forall i :: 2 <= i < 7 ==> fields[i].Wide?
  }

  function IncarnationOf(fields: seq<Field>): (header: Incarnation)
    requires HeaderShaped(fields)
  {
    Incarnation(fields[2].value, fields[4].value, Process(fields[3].value, fields[5].value, fields[6].value))
  }

  /** Replay reads the fields it needs and looks neither at the tag nor at what follows them. */
  ghost function DecodeStreamHeader(payload: Bytes): (header: Option<Incarnation>) {
    var fields := ReadAhead(HEADER_SHAPES, payload);
    if fields.None? || !HeaderShaped(fields.value) then None else Some(IncarnationOf(fields.value))
  }

  lemma HeaderDecodes(fields: seq<Field>, rest: Bytes, header: Incarnation)
    requires Shapes(fields) == HEADER_SHAPES && HeaderShaped(fields) && forall i :: 0 <= i < |fields| ==>
               Readable(fields[i])
    requires IncarnationOf(fields) == header
    ensures DecodeStreamHeader(WriteFields(fields) + rest) == Some(header)
  {
    ReadsAhead(fields, rest);
  }

  /** The identity of an incarnation reads back as it was written; every later one builds on it. */
  lemma HeaderReadsBack(version: U16, boot: U64, epoch: U64, p: Process, rest: Bytes)
    ensures DecodeStreamHeader(EncodeStreamHeader(version, boot, epoch, p) + rest) == Some(Incarnation(boot, epoch, p))
  {
    HeaderDecodes(HeaderFields(version, boot, epoch, p), rest, Incarnation(boot, epoch, p));
  }

  // ---- Failures ----

  const FAILURE_SHAPES: seq<Shape> :=
    [SmallShape, WideShape, WideShape, WideShape, WideShape, WideShape, WideShape, WideShape, WideShape, WideShape,
     WideShape, TextShape]

  predicate FailureWritable(f: FailureRecord) {
    f.subject.Valid() && f.observedAt != 0 && f.epoch <= U64_MAX && f.boot <= U64_MAX && Narrow(f.reason)
  }

  function FailureFields(f: FailureRecord, p: Process): (fields: seq<Field>)
    requires FailureWritable(f)
  {
    [Small(PAYLOAD_TAG), Wide(f.subject.id), Wide(f.subject.generation), Wide(f.evidence), Wide(f.epoch),
     Wide(p.processId), Wide(f.boot), Wide(p.nonceHi), Wide(p.nonceLo),
     Wide(f.observedAt), Wide(f.recordedAt), Text(ToBytes(f.reason))]
  }

  function EncodeFailure(f: FailureRecord, p: Process): (payload: Bytes)
    requires FailureWritable(f)
  {
    WriteFields(FailureFields(f, p))
  }

  /** The read fields have the shapes that were asked for. */
  ghost predicate FailureShaped(fields: seq<Field>) {
    |fields| == 12 && fields[0].Small? && (forall i :: 1 <= i < 11 ==> fields[i].Wide?) && fields[11].Text?
  }

  function FailureOfFields(fields: seq<Field>): (f: FailureRecord)
    requires FailureShaped(fields)
  {
    FailureRecord(SwitchKey(fields[1].value, fields[2].value), fields[3].value, fields[4].value, fields[6].value,
                  fields[9].value, fields[10].value, ToText(fields[11].bytes))
  }

  ghost function DecodeFailure(payload: Bytes): (f: Option<FailureRecord>) {
    var fields := ReadFields(FAILURE_SHAPES, payload);
    if fields.None? || !FailureShaped(fields.value) then None
    else if fields.value[0] != Small(PAYLOAD_TAG) then None
      else
        var f := FailureOfFields(fields.value);
        if !f.subject.Valid() || f.observedAt == 0 then None else Some(f)
  }

  lemma FailureDecodes(fields: seq<Field>, f: FailureRecord)
    requires Shapes(fields) == FAILURE_SHAPES && FailureShaped(fields) && forall i :: 0 <= i < |fields| ==>
               Readable(fields[i])
    requires fields[0] == Small(PAYLOAD_TAG) && FailureOfFields(fields) == f && f.subject.Valid() && f.observedAt != 0
    ensures DecodeFailure(WriteFields(fields)) == Some(f)
  {
    ReadsBack(fields);
  }

  /** A committed failure reads back as it was written. */
  lemma FailureReadsBack(f: FailureRecord, p: Process)
    requires FailureWritable(f)
    ensures DecodeFailure(EncodeFailure(f, p)) == Some(f)
  {
    TextBack(f.reason);
    FailureDecodes(FailureFields(f, p), f);
  }

  lemma FailureRefields(fields: seq<Field>, f: FailureRecord, p: Process)
    requires FailureShaped(fields) && fields[0] == Small(PAYLOAD_TAG) && Readable(fields[11])
    requires f == FailureOfFields(fields) && f.subject.Valid() && f.observedAt != 0
    requires p == Process(fields[5].value, fields[7].value, fields[8].value)
    ensures FailureWritable(f) && FailureFields(f, p) == fields
  {
    BytesBack(fields[11].bytes);
  }

  /** Only payloads of committed failures are read as failures. */
  lemma FailureReadsOnlyWritten(payload: Bytes)
    requires DecodeFailure(payload).Some?
    ensures var f := DecodeFailure(payload).value;
            FailureWritable(f) && exists p :: EncodeFailure(f, p) == payload
  {
    var fields := ReadFields(FAILURE_SHAPES, payload).value;
    ReadsOnlyWritten(FAILURE_SHAPES, payload);
    var f, p := FailureOfFields(fields), Process(fields[5].value, fields[7].value, fields[8].value);
    FailureRefields(fields, f, p);
    assert EncodeFailure(f, p) == payload;
  }

  // ---- Fences ----

  const FENCE_SHAPES: seq<Shape> :=
    [SmallShape, WideShape, WideShape, WideShape, WideShape, WideShape, WideShape, WideShape, WideShape, WideShape,
     SmallShape, WideShape, WideShape, WideShape, WideShape, TextShape]

  function ScopeByte(scope: Authority.FenceScope): (b: Byte) {
    match scope
    case Open => 0
    case Partial => 1
    case Committed => 2
  }

  predicate FenceWritable(f: Authority.FenceRecord) {
    && f.subject.Valid() && Narrow(f.reason)
    && f.id <= U64_MAX && f.epoch <= U64_MAX && f.boot <= U64_MAX
    && f.closureMembers <= U64_MAX && f.fencedGrants <= U64_MAX && f.omittedDependents <= U64_MAX
  }

  function FenceFields(f: Authority.FenceRecord, p: Process, closureDigest: U64): (fields: seq<Field>)
    requires FenceWritable(f)
  {
    [Small(PAYLOAD_TAG), Wide(f.id), Wide(f.subject.id), Wide(f.subject.generation), Wide(f.epoch),
     Wide(p.processId), Wide(f.boot), Wide(p.nonceHi), Wide(p.nonceLo), Wide(f.createdAt),
     Small(ScopeByte(f.scope)), Wide(closureDigest), Wide(f.closureMembers), Wide(f.fencedGrants),
       Wide(f.omittedDependents),
     Text(ToBytes(f.reason))]
  }

  function EncodeFence(f: Authority.FenceRecord, p: Process, closureDigest: U64): (payload: Bytes)
    requires FenceWritable(f)
  {
    WriteFields(FenceFields(f, p, closureDigest))
  }

  ghost predicate FenceShaped(fields: seq<Field>) {
    && |fields| == 16 && fields[0].Small? && fields[10].Small? && fields[15].Text?
    && (forall i :: 1 <= i < 10 ==> fields[i].Wide?) && (forall i :: 11 <= i < 15 ==> fields[i].Wide?)
  }

  function FenceOfFields(fields: seq<Field>): (f: Authority.FenceRecord)
    requires FenceShaped(fields)
  {
    Authority.FenceRecord(
      fields[1].value, SwitchKey(fields[2].value, fields[3].value), fields[4].value, fields[6].value, fields[9].value,
      if fields[10].byte == 0 then Authority.Open
         else if fields[10].byte == 1 then Authority.Partial else Authority.Committed,
      fields[12].value, fields[13].value, fields[14].value, ToText(fields[15].bytes))
  }

  ghost function DecodeFence(payload: Bytes): (f: Option<Authority.FenceRecord>) {
    var fields := ReadFields(FENCE_SHAPES, payload);
    if fields.None? || !FenceShaped(fields.value) then None
    else if fields.value[0] != Small(PAYLOAD_TAG) || fields.value[10].byte > 2 then None
      else
        var f := FenceOfFields(fields.value);
        if !f.subject.Valid() then None else Some(f)
  }

  lemma FenceDecodes(fields: seq<Field>, f: Authority.FenceRecord)
    requires Shapes(fields) == FENCE_SHAPES && FenceShaped(fields) && forall i :: 0 <= i < |fields| ==>
               Readable(fields[i])
    requires fields[0] == Small(PAYLOAD_TAG) && fields[10].byte <= 2 && FenceOfFields(fields) == f && f.subject.Valid()
    ensures DecodeFence(WriteFields(fields)) == Some(f)
  {
    ReadsBack(fields);
  }

  /** A committed fence reads back as it was written. */
  lemma FenceReadsBack(f: Authority.FenceRecord, p: Process, closureDigest: U64)
    requires FenceWritable(f)
    ensures DecodeFence(EncodeFence(f, p, closureDigest)) == Some(f)
  {
    TextBack(f.reason);
    FenceDecodes(FenceFields(f, p, closureDigest), f);
  }

  lemma FenceRefields(fields: seq<Field>, f: Authority.FenceRecord, p: Process)
    requires FenceShaped(fields) && fields[0] == Small(PAYLOAD_TAG) && fields[10].byte <= 2 && Readable(fields[15])
    requires f == FenceOfFields(fields) && f.subject.Valid()
    requires p == Process(fields[5].value, fields[7].value, fields[8].value)
    ensures FenceWritable(f) && FenceFields(f, p, fields[11].value) == fields
  {
    BytesBack(fields[15].bytes);
  }

  /** Only payloads of committed fences are read as fences. */
  lemma FenceReadsOnlyWritten(payload: Bytes)
    requires DecodeFence(payload).Some?
    ensures var f := DecodeFence(payload).value;
            FenceWritable(f) && exists p, closureDigest :: EncodeFence(f, p, closureDigest) == payload
  {
    var fields := ReadFields(FENCE_SHAPES, payload).value;
    ReadsOnlyWritten(FENCE_SHAPES, payload);
    var f, p := FenceOfFields(fields), Process(fields[5].value, fields[7].value, fields[8].value);
    FenceRefields(fields, f, p);
    assert EncodeFence(f, p, fields[11].value) == payload;
  }
}
