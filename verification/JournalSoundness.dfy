/**
 What an arbitrary file must be for replay to accept it (DurableStore::replay, src/persist/store.cpp):
 nothing is assumed about how the bytes came about.
 */
module JournalSoundness {
  import opened Identity
  import opened Bits
  import opened Records
  import opened Journal

  // ---- One decoded record ----

  /** The header of a decoded record is the one an encoder writes for it. */
  lemma HeaderSealed(header: RecordHeader, payload: Bytes, format: Format)
    requires Validate(header, format).Complete? && |payload| == header.payloadLen
    ensures Sealed(Record(header, payload), format)
  {
    var record := Record(header, payload);
    assert SealedHeader(record, format).(headerCrc := 0) == header.(headerCrc := 0);
    assert HeaderPrefix(SealedHeader(record, format)) == HeaderPrefix(header);
  }

  lemma HeaderBytes(data: Bytes)
    requires |data| >= HEADER_BYTES
    ensures data[..HEADER_BYTES] == EncodeHeader(ReadHeader(data))
  {
    ReadEncode(data);
    StoreLoad(data[24..28]);
    assert data[..HEADER_BYTES] == data[..24] + data[24..28];
  }

  lemma Reassembled(data: Bytes, record: Record, end: nat, format: Format)
    requires Sealed(record, format) && end == HEADER_BYTES + |record.payload| && end + 4 <= |data|
    requires data[..HEADER_BYTES] == EncodeHeader(record.header) && data[HEADER_BYTES..end] == record.payload
    requires LoadLE(data[end..end + 4]) == format.checksum(record.payload)
    ensures data[..end + 4] == RecordBytes(record, format)
  {
    StoreLoad(data[end..end + 4]);
    assert data[..end + 4] == data[..HEADER_BYTES] + data[HEADER_BYTES..end] + data[end..end + 4];
  }

  /** Whatever decodes as complete is the encoding of a sealed record. */
  lemma DecodeSound(data: Bytes, format: Format)
    requires Decode(data, format).disposition.Complete?
    ensures var d := Decode(data, format);
            var record := Record(d.header, d.payload);
            && Sealed(record, format) && d.consumed <= |data| && data[..d.consumed] == RecordBytes(record, format)
  {
    var d := Decode(data, format);
    HeaderSealed(d.header, d.payload, format);
    HeaderBytes(data);
    Reassembled(data, Record(d.header, d.payload), HEADER_BYTES + |d.payload|, format);
  }

  // ---- The end of a file ----

  /** The start of a record that is not all there: too short for a header, or for what the header declares. */
  ghost predicate Unfinished(tail: Bytes, format: Format) {
    if |tail| < HEADER_BYTES
    then forall i :: 0 <= i < |tail| && i < 4 ==> tail[i] == MAGIC_BYTES[i]
    else
      && tail[..4] == MAGIC_BYTES
      && Validate(ReadHeader(tail), format).Complete?
      && |tail| < HEADER_BYTES + ReadHeader(tail).payloadLen + 4
  }

  lemma ShortUnfinished(tail: Bytes, format: Format)
    requires 0 < |tail| < HEADER_BYTES
    ensures Unfinished(tail, format) <==> Decode(tail, format).disposition.TornTail?
  {
    var prefix := if |tail| < 4 then |tail| else 4;
    assert tail[..prefix] == MAGIC_BYTES[..prefix] <==>
             forall i :: 0 <= i < prefix ==> tail[i] == MAGIC_BYTES[i] by {
      if tail[..prefix] == MAGIC_BYTES[..prefix] {
        assert forall i :: 0 <= i < prefix ==> tail[i] == tail[..prefix][i] == MAGIC_BYTES[..prefix][i];
      }
    }
  }

  /** The probe of a header accepts it exactly when it may be the header of a record. */
  lemma ProbeMeans(file: Bytes, format: Format)
    requires |file| >= HEADER_BYTES
    ensures var probe := Decode(file[..HEADER_BYTES], format);
            && (Rejected(probe.disposition) <==>
                  !(file[..4] == MAGIC_BYTES && Validate(ReadHeader(file), format).Complete?))
            && (!Rejected(probe.disposition) ==> probe.header == ReadHeader(file))
  {
    var head := file[..HEADER_BYTES];
    SameHeader(file, head);
    assert head[..4] == file[..4] && MAGIC_BYTES[..4] == MAGIC_BYTES;
  }

  /** The scan of the remaining bytes ends in a torn tail exactly at an unfinished record. */
  lemma ScanUnfinished(tail: Bytes, report: ReplayReport, expected: Expected, format: Format)
    requires Unfinished(tail, format)
    ensures Scan(tail, report, expected, format) == if tail == [] then report else Torn(report, |tail|)
  {
    if 0 < |tail| < HEADER_BYTES {
      ShortUnfinished(tail, format);
    } else if |tail| >= HEADER_BYTES {
      ProbeMeans(tail, format);
    }
  }

  // ---- One step ----

  /** The file starts with this record. */
  ghost predicate Leads(file: Bytes, record: Record, format: Format) {
    Sealed(record, format) && RecordBytes(record, format) <= file
  }

  /** What one turn of the reader found. */
  datatype Turn = Whole(record: Record) | End | Bad(disposition: Disposition)

  ghost predicate Reads(file: Bytes, report: ReplayReport, expected: Expected, step: Step, turn: Turn, format: Format) {
    match turn
    case Whole(record) =>
      && Leads(file, record, format)
      && step == Admitting(report, expected, record, HEADER_BYTES + |record.payload| + 4, format)
    case End => Unfinished(file, format) && step == Stop(Torn(report, |file|))
    case Bad(disposition) => step == Stop(Refuse(report, disposition))
  }

  /** One turn reads the record the file starts with, or finds it unfinished, or refuses it. */
  lemma ReadCases(file: Bytes, report: ReplayReport, expected: Expected, format: Format) returns (turn: Turn)
    requires |file| > 0
    ensures Reads(file, report, expected, ReadOne(file, report, expected, format), turn, format)
  {
    if |file| < HEADER_BYTES {
      ShortUnfinished(file, format);
      return if Unfinished(file, format) then End else Bad(Corrupt);
    }
    ProbeMeans(file, format);
    turn := Found(file, report, expected, Decode(file[..HEADER_BYTES], format), format);
  }

  lemma Found(file: Bytes, report: ReplayReport, expected: Expected, probe: Decoded, format: Format)
    returns (turn: Turn)
    requires |file| >= HEADER_BYTES
    requires !Rejected(probe.disposition) ==>
               && probe.header == ReadHeader(file) && file[..4] == MAGIC_BYTES
               && Validate(probe.header, format).Complete?
    ensures Reads(file, report, expected, Judged(file, report, expected, probe, format), turn, format)
  {
    if Rejected(probe.disposition) {
      return Bad(probe.disposition);
    }
    var total := HEADER_BYTES + probe.header.payloadLen + 4;
    if |file| < total {
      return End;
    }
    var d := Decode(file[..total], format);
    if !d.disposition.Complete? {
      return Bad(d.disposition);
    }
    turn := FoundWhole(file, report, expected, total, d, format);
  }

  lemma FoundWhole(file: Bytes, report: ReplayReport, expected: Expected, total: nat, d: Decoded, format: Format)
    returns (turn: Turn)
    requires HEADER_BYTES <= total <= |file| && total == HEADER_BYTES + ReadHeader(file).payloadLen + 4
    requires d == Decode(file[..total], format) && d.disposition.Complete?
    ensures turn == Whole(Record(d.header, d.payload))
    ensures Reads(file, report, expected, Admitting(report, expected, turn.record, total, format), turn, format)
  {
    LeadsWhole(file, total, format);
    turn := Whole(Record(d.header, d.payload));
  }

  lemma LeadsWhole(file: Bytes, total: nat, format: Format)
    requires HEADER_BYTES <= total <= |file| && total == HEADER_BYTES + ReadHeader(file).payloadLen + 4
    requires Decode(file[..total], format).disposition.Complete?
    ensures var d := Decode(file[..total], format);
            Leads(file, Record(d.header, d.payload), format) && |d.payload| + HEADER_BYTES + 4 == total
  {
    var data := file[..total];
    SameHeader(file, data);
    DecodeSound(data, format);
    assert data[..total] == data;
  }

  lemma ChainedMore(records: seq<Record>, record: Record, format: Format)
    requires Chained(records, format) && Sealed(record, format)
    requires records != [] ==> record.header.seqNo == Next(records[|records| - 1].header.seqNo)
    ensures Chained(records + [record], format)
  {
    var longer := records + [record];
    forall i | 0 <= i < |longer|
      ensures Sealed(longer[i], format)
    {
      assert i < |records| ==> Sealed(records[i], format);
    }
  }

  lemma AdmitSound(records: seq<Record>, record: Record, format: Format)
    requires Chained(records, format) && Sealed(record, format)
    ensures var admitted := Admit(Accepted(records), After(records), record, format);
            && (admitted.status.Ok? ==>
                  && Chained(records + [record], format) && |records| < format.limits.maxJournalRecords
                  && admitted == Accepted(records + [record]))
            && (!admitted.status.Ok? ==>
                  admitted.records == records && !admitted.truncatedTail && admitted.recoveredBytes == 0)
  {
    if records == [] || record.header.seqNo == Next(records[|records| - 1].header.seqNo) {
      ChainedMore(records, record, format);
    }
  }

  // ---- Whole files ----

  /** The bytes are these records one after the other, then possibly the start of one more. */
  ghost predicate Holds(file: Bytes, records: seq<Record>, tail: Bytes, format: Format) {
    && Chained(records, format) && |records| <= format.limits.maxJournalRecords
    && Unfinished(tail, format) && file == JournalBytes(records, format) + tail
  }

  lemma JournalAppend(records: seq<Record>, record: Record, rest: Bytes, format: Format)
    requires Chained(records + [record], format)
    ensures Chained(records, format) && Sealed(record, format)
    ensures JournalBytes(records + [record], format) + rest
         == JournalBytes(records, format) + (RecordBytes(record, format) + rest)
  {
    var longer := records + [record];
    assert longer[..|records|] == records && longer[..|longer|] == longer && longer[|records|] == record;
    JournalPrefix(longer, |records|, format);
    JournalNext(longer, |longer|, rest, format);
  }

  /** What the scan makes of the rest of a file, after accepting these records. */
  ghost predicate Sound(file: Bytes, records: seq<Record>, result: ReplayReport, format: Format)
    requires Chained(records, format)
  {
    && records <= result.records && Chained(result.records, format)
    && (result.status.Ok? ==>
          exists tail ::
            && Holds(JournalBytes(records, format) + file, result.records, tail, format)
            && result == if tail == [] then Accepted(result.records) else Torn(Accepted(result.records), |tail|))
    && (!result.status.Ok? ==> !result.truncatedTail && result.recoveredBytes == 0)
  }

  lemma {:induction false} ScanSound(file: Bytes, records: seq<Record>, format: Format)
    requires Chained(records, format) && |records| <= format.limits.maxJournalRecords
    ensures Sound(file, records, Scan(file, Accepted(records), After(records), format), format)
    decreases |file|
  {
    if |file| == 0 {
      SoundEnd(file, records, [], Accepted(records), format);
    } else {
      var report, expected := Accepted(records), After(records);
      var step := ReadOne(file, report, expected, format);
      var turn := ReadCases(file, report, expected, format);
      ScanStep(file, report, expected, step, format);
      if step.Stop? {
        SoundStop(file, records, step, turn, format);
      } else {
        SoundMore(file, records, step, turn, format);
        var rest := file[step.consumed..];
        ScanSound(rest, records + [turn.record], format);
        SoundNext(file, records, turn.record, rest, Scan(file, report, expected, format), format);
      }
    }
  }

  lemma SoundStop(file: Bytes, records: seq<Record>, step: Step, turn: Turn, format: Format)
    requires Chained(records, format) && |records| <= format.limits.maxJournalRecords
    requires |file| > 0 && step.Stop? && Reads(file, Accepted(records), After(records), step, turn, format)
    ensures Sound(file, records, step.report, format)
  {
    match turn
    case Whole(record) => AdmitSound(records, record, format);
    case End => SoundEnd(file, records, file, Torn(Accepted(records), |file|), format);
    case Bad(disposition) => RefuseSound(records, disposition);
  }

  lemma RefuseSound(records: seq<Record>, disposition: Disposition)
    ensures var report := Refuse(Accepted(records), disposition);
            !report.status.Ok? && report.records == records && !report.truncatedTail && report.recoveredBytes == 0
  {
  }

  lemma SoundEnd(file: Bytes, records: seq<Record>, tail: Bytes, result: ReplayReport, format: Format)
    requires Chained(records, format) && |records| <= format.limits.maxJournalRecords
    requires Unfinished(tail, format) && file == tail
    requires result == if tail == [] then Accepted(records) else Torn(Accepted(records), |tail|)
    ensures Sound(file, records, result, format)
  {
    assert Holds(JournalBytes(records, format) + file, records, tail, format);
  }

  lemma SoundMore(file: Bytes, records: seq<Record>, step: Step, turn: Turn, format: Format)
    requires Chained(records, format)
    requires step.Continue? && Reads(file, Accepted(records), After(records), step, turn, format)
    ensures turn.Whole? && Sealed(turn.record, format) && Chained(records + [turn.record], format)
    ensures |records| < format.limits.maxJournalRecords
    ensures 0 < step.consumed <= |file| && file == RecordBytes(turn.record, format) + file[step.consumed..]
    ensures step.report == Accepted(records + [turn.record]) && step.expected == After(records + [turn.record])
  {
    AdmitSound(records, turn.record, format);
  }

  lemma SoundNext(file: Bytes, records: seq<Record>, record: Record, rest: Bytes, result: ReplayReport, format: Format)
    requires Chained(records, format) && Chained(records + [record], format)
    requires Sealed(record, format) && file == RecordBytes(record, format) + rest
    requires Sound(rest, records + [record], result, format)
    ensures Sound(file, records, result, format)
  {
    JournalAppend(records, record, rest, format);
    assert records <= records + [record];
  }

  /**
   Replay is sound for every file: what it accepts are sealed records numbered without a gap, and if
   it succeeds, the file is exactly their encodings and the bytes it asks to drop, which are the
   start of a record that is not all there. If it fails, it asks for no truncation.
   */
  lemma ReplaySound(file: Bytes, format: Format)
    ensures var report := Scan(file, EMPTY_REPORT, Anything, format);
            && Chained(report.records, format)
            && (report.status.Ok? ==>
                  && report.recoveredBytes <= |file|
                  && Holds(file, report.records, file[|file| - report.recoveredBytes..], format)
                  && (report.truncatedTail <==> report.recoveredBytes > 0))
            && (!report.status.Ok? ==> !report.truncatedTail && report.recoveredBytes == 0)
  {
    var report := Scan(file, EMPTY_REPORT, Anything, format);
    ScanSound(file, [], format);
    assert JournalBytes([], format) + file == file;
    if report.status.Ok? {
      var tail :| && Holds(file, report.records, tail, format)
                  && report == if tail == [] then Accepted(report.records) else Torn(Accepted(report.records), |tail|);
      assert file[|file| - |tail|..] == tail;
    }
  }

  /** Replay succeeds for exactly the files that are a journal and possibly an unfinished record. */
  lemma ReplayAccepts(file: Bytes, format: Format)
    ensures Scan(file, EMPTY_REPORT, Anything, format).status.Ok? <==>
              exists records, tail :: Holds(file, records, tail, format)
  {
    var report := Scan(file, EMPTY_REPORT, Anything, format);
    if report.status.Ok? {
      ReplaySound(file, format);
    }
    if records, tail :| Holds(file, records, tail, format) {
      assert records[..|records|] == records;
      ScanJournal(records, |records|, tail, format);
      ScanUnfinished(tail, Accepted(records), After(records), format);
    }
  }

  /**
   A lost or repeated record is never passed over: where the numbering of sealed records first has
   a gap, replay stops, with exactly the records before the gap accepted and nothing dropped.
   */
  lemma GapRefused(records: seq<Record>, next: Record, rest: Bytes, format: Format)
    requires records != [] && |records| <= format.limits.maxJournalRecords
    requires Chained(records, format) && Sealed(next, format)
    requires next.header.seqNo != Next(records[|records| - 1].header.seqNo)
    ensures var report := Scan(JournalBytes(records, format) + (RecordBytes(next, format) + rest),
                               EMPTY_REPORT, Anything, format);
            && report.status == (if next.header.seqNo < Next(records[|records| - 1].header.seqNo) then RegressedStatus
                                 else CorruptStatus)
            && report.records == records && report.corruptRecords == 1
            && !report.truncatedTail && report.recoveredBytes == 0
  {
    assert records[..|records|] == records;
    ScanJournal(records, |records|, RecordBytes(next, format) + rest, format);
    ScanRecord(next, rest, Accepted(records), After(records), format);
  }
}
