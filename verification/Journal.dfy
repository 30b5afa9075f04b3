/**
 The append-only journal as a byte sequence (src/persist/store.cpp): the streaming replay scan,
 exact torn-tail recovery after a crash at any byte, and refusal of any corrupted byte.
 */
module Journal {
  import opened Identity
  import opened Bits
  import opened Records

  datatype Status = Ok | CorruptStatus | UnsupportedStatus | RegressedStatus | ExhaustedStatus

  datatype Expected = Anything | Exactly(seqNo: U64)

  datatype ReplayReport = ReplayReport(
    records: seq<Record>,
    corruptRecords: nat,
    tornRecords: nat,
    unsupportedRecords: nat,
    recoveredBytes: nat,
    truncatedTail: bool,
    cleanShutdown: bool,
    lastSequence: U64,
    status: Status)

  const EMPTY_REPORT := ReplayReport([], 0, 0, 0, 0, false, false, 0, Ok)

  /** 64-bit successor. */
  function Next(seqNo: U64): (next: U64) {
    if seqNo == U64_MAX then 0 else seqNo + 1
  }

  function Torn(report: ReplayReport, bytes: nat): (result: ReplayReport) {
    report.(truncatedTail := true, tornRecords := report.tornRecords + 1, recoveredBytes := bytes)
  }

  function Refuse(report: ReplayReport, disposition: Disposition): (result: ReplayReport) {
    if disposition.Unsupported?
    then report.(unsupportedRecords := report.unsupportedRecords + 1, status := UnsupportedStatus)
    else report.(corruptRecords := report.corruptRecords + 1, status := CorruptStatus)
  }

  /** Accounting for one decoded record: continuity first, then the record bound. */
  function Admit(report: ReplayReport, expected: Expected, record: Record, format: Format): (result: ReplayReport)
    ensures report.records <= result.records
  {
    var seqNo := record.header.seqNo;
    if expected.Exactly? && seqNo != expected.seqNo then
      report.(corruptRecords := report.corruptRecords + 1,
              status := if seqNo < expected.seqNo then RegressedStatus else CorruptStatus)
    else
      var noted := report.(lastSequence := seqNo, cleanShutdown := record.header.kind == SHUTDOWN_CLEAN);
      if |report.records| >= format.limits.maxJournalRecords then noted.(status := ExhaustedStatus)
      else noted.(records := report.records + [record])
  }

  datatype Step = Stop(report: ReplayReport) | Continue(report: ReplayReport, expected: Expected, consumed: nat)

  function Admitting(report: ReplayReport, expected: Expected, record: Record, consumed: nat, format: Format)
    : (step: Step)
  {
    var admitted := Admit(report, expected, record, format);
    if !admitted.status.Ok? then Stop(admitted) else Continue(admitted, Exactly(Next(record.header.seqNo)), consumed)
  }

  /** What stands behind a probed header: exactly the bytes that header declares. */
  function Judged(file: Bytes, report: ReplayReport, expected: Expected, probe: Decoded, format: Format): (step: Step)
    requires |file| >= HEADER_BYTES
    ensures step.Continue? ==> 0 < step.consumed <= |file| && step.report.recoveredBytes == report.recoveredBytes
    ensures step.Stop? ==> step.report.recoveredBytes in {report.recoveredBytes, |file|}
    ensures report.records <= step.report.records
  {
    var total := HEADER_BYTES + probe.header.payloadLen + 4;
    if Rejected(probe.disposition) then Stop(Refuse(report, probe.disposition))
    else if |file| < total then Stop(Torn(report, |file|))
    else
      var decoded := Decode(file[..total], format);
      if !decoded.disposition.Complete? then Stop(Refuse(report, decoded.disposition))
      else Admitting(report, expected, Record(decoded.header, decoded.payload), total, format)
  }

  /** One turn of the reader: a header, then the record behind it. */
  function ReadOne(file: Bytes, report: ReplayReport, expected: Expected, format: Format): (step: Step)
    requires |file| > 0
    ensures step.Continue? ==> 0 < step.consumed <= |file| && step.report.recoveredBytes == report.recoveredBytes
    ensures step.Stop? ==> step.report.recoveredBytes in {report.recoveredBytes, |file|}
    ensures report.records <= step.report.records
  {
    if |file| < HEADER_BYTES then
      if Decode(file, format).disposition.TornTail? then Stop(Torn(report, |file|)) else Stop(Refuse(report, Corrupt))
    else Judged(file, report, expected, Decode(file[..HEADER_BYTES], format), format)
  }

  /** The replay of the bytes that remain to be read. */
  function Scan(file: Bytes, report: ReplayReport, expected: Expected, format: Format): (result: ReplayReport)
    decreases |file|
  {
    if |file| == 0 then report
    else
      match ReadOne(file, report, expected, format)
      case Stop(final) => final
      case Continue(admitted, next, consumed) => Scan(file[consumed..], admitted, next, format)
  }

  lemma ScanStep(file: Bytes, report: ReplayReport, expected: Expected, step: Step, format: Format)
    requires |file| > 0 && step == ReadOne(file, report, expected, format)
    ensures Scan(file, report, expected, format)
         == if step.Stop? then step.report else Scan(file[step.consumed..], step.report, step.expected, format)
  {
  }

  /** The streaming reader over a whole file. */
  method Replay(file: Bytes, format: Format) returns (report: ReplayReport)
    ensures report == Scan(file, EMPTY_REPORT, Anything, format)
  {
    report := EMPTY_REPORT;
    var rest, expected := file, Anything;
    ghost var result := Scan(file, report, expected, format);
    while |rest| > 0
      invariant Scan(rest, report, expected, format) == result
      decreases |rest|
    {
      var step := ReadOne(rest, report, expected, format);
      ScanStep(rest, report, expected, step, format);
      report := step.report;
      if step.Stop? {
        return;
      }
      expected, rest := step.expected, rest[step.consumed..];
    }
  }

  // ---- Concatenations ----

  ghost function Flatten(parts: seq<Bytes>): (bytes: Bytes) {
    if parts == [] then [] else Flatten(parts[..|parts| - 1]) + parts[|parts| - 1]
  }

  lemma FlattenNext(parts: seq<Bytes>, n: nat, rest: Bytes)
    requires n < |parts|
    ensures Flatten(parts[..n + 1]) + rest == Flatten(parts[..n]) + (parts[n] + rest)
  {
    assert parts[..n + 1][..n] == parts[..n];
  }

  /** How many whole parts survive a cut. */
  ghost function Survivors(parts: seq<Bytes>, cut: nat): (n: nat)
    ensures n <= |parts|
  {
    if parts == [] || cut >= |Flatten(parts)| then |parts| else Survivors(parts[..|parts| - 1], cut)
  }

  /** The first n parts survive a cut whole, and what remains is a strict prefix of the next part. */
  ghost predicate CutAt(parts: seq<Bytes>, cut: nat, n: nat)
    requires cut <= |Flatten(parts)| && n <= |parts|
  {
    var size := |Flatten(parts[..n])|;
    && size <= cut
    && (n == |parts| ==> cut == size)
    && (n < |parts| ==>
          && cut - size < |parts[n]|
          && cut < |Flatten(parts[..n + 1])|
          && Flatten(parts)[..cut] == Flatten(parts[..n]) + parts[n][..cut - size])
  }

  lemma CutLast(before: seq<Bytes>, last: Bytes, cut: nat)
    requires |Flatten(before)| <= cut < |Flatten(before)| + |last|
    ensures Flatten(before + [last]) == Flatten(before) + last
    ensures CutAt(before + [last], cut, |before|)
  {
    var parts := before + [last];
    var n := |before|;
    assert parts[..n] == before && parts[..n + 1] == parts;
  }

  lemma CutShorter(before: seq<Bytes>, last: Bytes, cut: nat, n: nat)
    requires cut <= |Flatten(before)| && n < |before| && CutAt(before, cut, n)
    ensures Flatten(before + [last]) == Flatten(before) + last
    ensures CutAt(before + [last], cut, n)
  {
    var parts := before + [last];
    assert parts[..|before|] == before;
    assert Flatten(parts) == Flatten(before) + last;
    assert parts[..n] == before[..n] && parts[..n + 1] == before[..n + 1];
    assert Flatten(parts)[..cut] == Flatten(before)[..cut];
  }

  /** The survivors are the maximal prefix of whole parts. */
  lemma {:induction false} CutShape(parts: seq<Bytes>, cut: nat)
    requires cut <= |Flatten(parts)|
    ensures CutAt(parts, cut, Survivors(parts, cut))
  {
    var count := |parts|;
    if parts == [] || cut >= |Flatten(parts)| {
      assert parts[..count] == parts;
    } else {
      var before, last := parts[..count - 1], parts[count - 1];
      assert parts == before + [last];
      if cut < |Flatten(before)| {
        CutShape(before, cut);
        CutShorter(before, last, cut, Survivors(before, cut));
      } else {
        CutLast(before, last, cut);
      }
    }
  }

  lemma CutKept(parts: seq<Bytes>, cut: nat, n: nat)
    requires cut <= |Flatten(parts)| && n <= |parts| && CutAt(parts, cut, n)
    ensures |Flatten(parts[..n])| <= |Flatten(parts)| && Flatten(parts)[..|Flatten(parts[..n])|] == Flatten(parts[..n])
  {
    var kept := Flatten(parts[..n]);
    if n < |parts| {
      assert Flatten(parts)[..|kept|] == Flatten(parts)[..cut][..|kept|] == kept;
    } else {
      assert parts[..n] == parts;
    }
  }

  /** The part a changed byte belongs to. */
  lemma {:induction false} LocateCorruption(parts: seq<Bytes>, changed: Bytes, i: nat)
    returns (n: nat, part: Bytes, rest: Bytes, j: nat)
    requires Apart(Flatten(parts), changed, i)
    ensures n < |parts| && changed == Flatten(parts[..n]) + (part + rest)
    ensures Apart(parts[n], part, j)
  {
    var count := |parts|;
    var before := parts[..count - 1];
    var head, last := Flatten(before), parts[count - 1];
    ApartSplit(head, last, changed, i);
    if i < |head| {
      n, part, rest, j := LocateCorruption(before, changed[..|head|], i);
      assert before[..n] == parts[..n];
      assert Flatten(before[..n]) + (part + rest) + last == Flatten(before[..n]) + (part + (rest + last));
      rest := rest + last;
    } else {
      n, part, rest, j := count - 1, changed[|head|..], [], i - |head|;
      assert part + rest == part;
    }
  }

  // ---- Journals built by appending ----

  /** A record exactly as the encoder seals it. */
  ghost predicate Sealed(record: Record, format: Format) {
    Encodable(record, format) && record.header == SealedHeader(record, format)
  }

  ghost predicate Contiguous(records: seq<Record>) {
    forall i :: 0 < i < |records| ==> records[i].header.seqNo == Next(records[i - 1].header.seqNo)
  }

  /** Records as appending leaves them: sealed and numbered without a gap, however many. */
  ghost predicate Chained(records: seq<Record>, format: Format) {
    (forall i :: 0 <= i < |records| ==> Sealed(records[i], format)) && Contiguous(records)
  }

  /** The encodings of the records, one part each. */
  ghost function Parts(records: seq<Record>, format: Format): (parts: seq<Bytes>)
    requires forall i :: 0 <= i < |records| ==> Sealed(records[i], format)
    ensures |parts| == |records|
    ensures forall i :: 0 <= i < |records| ==> Sealed(records[i], format) && parts[i] == RecordBytes(records[i], format)
  {
    seq(|records|, i requires 0 <= i < |records| =>
      assert Sealed(records[i], format); RecordBytes(records[i], format))
  }

  ghost function JournalBytes(records: seq<Record>, format: Format): (bytes: Bytes)
    requires forall i :: 0 <= i < |records| ==> Sealed(records[i], format)
  {
    Flatten(Parts(records, format))
  }

  lemma PartsPrefix(records: seq<Record>, n: nat, format: Format)
    requires forall i :: 0 <= i < |records| ==> Sealed(records[i], format)
    requires n <= |records|
    ensures Parts(records[..n], format) == Parts(records, format)[..n]
  {
  }

  /** What the scan has accumulated after accepting exactly these records. */
  ghost function Accepted(records: seq<Record>): (report: ReplayReport) {
    if records == [] then EMPTY_REPORT
    else
      var last := records[|records| - 1].header;
      EMPTY_REPORT.(records := records, lastSequence := last.seqNo, cleanShutdown := last.kind == SHUTDOWN_CLEAN)
  }

  ghost function After(records: seq<Record>): (expected: Expected) {
    if records == [] then Anything else Exactly(Next(records[|records| - 1].header.seqNo))
  }

  /** A whole record at the head of the remaining bytes is consumed exactly. */
  lemma ScanRecord(record: Record, rest: Bytes, report: ReplayReport, expected: Expected, format: Format)
    requires Sealed(record, format) && report.status.Ok?
    ensures Scan(RecordBytes(record, format) + rest, report, expected, format)
         == var admitted := Admit(report, expected, record, format);
            if !admitted.status.Ok? then admitted
            else Scan(rest, admitted, Exactly(Next(record.header.seqNo)), format)
  {
    var bytes := RecordBytes(record, format);
    var file := bytes + rest;
    DecodePrefix(record, format, HEADER_BYTES);
    assert file[..HEADER_BYTES] == bytes[..HEADER_BYTES];
    DecodeEncoded(record, format, []);
    assert bytes + [] == bytes && file[..|bytes|] == bytes && file[|bytes|..] == rest;
  }

  /** Scanning past the first n records of a journal accepts exactly those, up to the record bound. */
  lemma {:induction false} ScanJournal(records: seq<Record>, n: nat, rest: Bytes, format: Format)
    requires Chained(records, format) && n <= |records| && n <= format.limits.maxJournalRecords
    ensures Scan(JournalBytes(records[..n], format) + rest, EMPTY_REPORT, Anything, format)
         == Scan(rest, Accepted(records[..n]), After(records[..n]), format)
  {
    if n == 0 {
      assert records[..0] == [] && [] + rest == rest;
    } else {
      JournalNext(records, n, rest, format);
      ScanJournal(records, n - 1, RecordBytes(records[n - 1], format) + rest, format);
      ScanNext(records, n, rest, format);
    }
  }

  lemma ScanNext(records: seq<Record>, n: nat, rest: Bytes, format: Format)
    requires Chained(records, format) && 0 < n <= |records| && n <= format.limits.maxJournalRecords
    ensures Scan(RecordBytes(records[n - 1], format) + rest, Accepted(records[..n - 1]), After(records[..n - 1]),
                 format)
         == Scan(rest, Accepted(records[..n]), After(records[..n]), format)
  {
    ScanRecord(records[n - 1], rest, Accepted(records[..n - 1]), After(records[..n - 1]), format);
    AdmitNext(records, n, format);
  }

  lemma JournalNext(records: seq<Record>, n: nat, rest: Bytes, format: Format)
    requires Chained(records, format) && 0 < n <= |records|
    ensures JournalBytes(records[..n], format) + rest ==
            JournalBytes(records[..n - 1], format) + (RecordBytes(records[n - 1], format) + rest)
  {
    PartsPrefix(records, n, format);
    PartsPrefix(records, n - 1, format);
    FlattenNext(Parts(records, format), n - 1, rest);
  }

  lemma AdmitNext(records: seq<Record>, n: nat, format: Format)
    requires Chained(records, format) && 0 < n <= |records| && n <= format.limits.maxJournalRecords
    ensures Admit(Accepted(records[..n - 1]), After(records[..n - 1]), records[n - 1], format) == Accepted(records[..n])
  {
    assert records[..n] == records[..n - 1] + [records[n - 1]];
  }

  // ---- Crash at any byte ----

  /** A nonempty strict prefix of a record is reported as torn, whole. */
  lemma ScanTail(record: Record, m: nat, report: ReplayReport, expected: Expected, format: Format)
    requires Sealed(record, format) && m < |RecordBytes(record, format)|
    ensures Scan(RecordBytes(record, format)[..m], report, expected, format) ==
            if m == 0 then report else Torn(report, m)
  {
    var tail := RecordBytes(record, format)[..m];
    if 0 < m < HEADER_BYTES {
      DecodePrefix(record, format, m);
    } else if m >= HEADER_BYTES {
      DecodePrefix(record, format, HEADER_BYTES);
      assert tail[..HEADER_BYTES] == RecordBytes(record, format)[..HEADER_BYTES];
    }
  }

  /** How many whole records of a journal survive a cut. */
  ghost function WholeRecords(records: seq<Record>, cut: nat, format: Format): (n: nat)
    requires forall i :: 0 <= i < |records| ==> Sealed(records[i], format)
    ensures n <= |records|
  {
    Survivors(Parts(records, format), cut)
  }

  lemma ScanTorn(records: seq<Record>, n: nat, m: nat, file: Bytes, format: Format)
    requires Chained(records, format) && n < |records| && n <= format.limits.maxJournalRecords
    requires Sealed(records[n], format) && m < |RecordBytes(records[n], format)|
    requires file == JournalBytes(records[..n], format) + RecordBytes(records[n], format)[..m]
    ensures Scan(file, EMPTY_REPORT, Anything, format)
         == if m == 0 then Accepted(records[..n]) else Torn(Accepted(records[..n]), m)
  {
    ScanJournal(records, n, RecordBytes(records[n], format)[..m], format);
    ScanTail(records[n], m, Accepted(records[..n]), After(records[..n]), format);
  }

  lemma ScanWhole(records: seq<Record>, format: Format)
    requires Chained(records, format) && |records| <= format.limits.maxJournalRecords
    ensures Scan(JournalBytes(records, format), EMPTY_REPORT, Anything, format) == Accepted(records)
  {
    var bytes := JournalBytes(records, format);
    assert records[..|records|] == records && bytes + [] == bytes;
    ScanJournal(records, |records|, [], format);
  }

  /** The first n records survive a cut whole, and what remains is a strict prefix of the next one. */
  ghost predicate CutOf(records: seq<Record>, cut: nat, n: nat, format: Format)
    requires Chained(records, format) && cut <= |JournalBytes(records, format)| && n <= |records|
  {
    var size := |JournalBytes(records[..n], format)|;
    && size <= cut && (n == |records| ==> cut == size)
    && (n < |records| ==>
          && Sealed(records[n], format) && cut - size < |RecordBytes(records[n], format)|
          && JournalBytes(records, format)[..cut]
             == JournalBytes(records[..n], format) + RecordBytes(records[n], format)[..cut - size])
  }

  lemma CutRecords(records: seq<Record>, cut: nat, format: Format)
    requires Chained(records, format) && cut <= |JournalBytes(records, format)|
    ensures CutOf(records, cut, WholeRecords(records, cut, format), format)
  {
    var parts := Parts(records, format);
    CutShape(parts, cut);
    PartsPrefix(records, Survivors(parts, cut), format);
  }

  lemma ScanCut(records: seq<Record>, cut: nat, n: nat, format: Format)
    requires Chained(records, format) && cut <= |JournalBytes(records, format)| && n <= |records|
    requires CutOf(records, cut, n, format) && n <= format.limits.maxJournalRecords
    ensures var size := |JournalBytes(records[..n], format)|;
            Scan(JournalBytes(records, format)[..cut], EMPTY_REPORT, Anything, format)
            == if cut == size then Accepted(records[..n]) else Torn(Accepted(records[..n]), cut - size)
  {
    if n == |records| {
      assert records[..n] == records && JournalBytes(records, format)[..cut] == JournalBytes(records, format);
      ScanWhole(records, format);
    } else {
      var size := |JournalBytes(records[..n], format)|;
      ScanTorn(records, n, cut - size, JournalBytes(records, format)[..cut], format);
    }
  }

  /** The scan of a cut journal: the survivors accepted, the remaining bytes torn. */
  lemma CrashScan(records: seq<Record>, cut: nat, format: Format)
    requires Chained(records, format) && cut <= |JournalBytes(records, format)|
    ensures var n := WholeRecords(records, cut, format);
            var size := |JournalBytes(records[..n], format)|;
            && size <= cut
            && (n <= format.limits.maxJournalRecords ==>
                  Scan(JournalBytes(records, format)[..cut], EMPTY_REPORT, Anything, format)
                  == if cut == size then Accepted(records[..n]) else Torn(Accepted(records[..n]), cut - size))
            && (n > format.limits.maxJournalRecords ==>
                  Scan(JournalBytes(records, format)[..cut], EMPTY_REPORT, Anything, format) ==
                    Overrun(records, format))
  {
    var n := WholeRecords(records, cut, format);
    CutRecords(records, cut, format);
    if n <= format.limits.maxJournalRecords {
      ScanCut(records, cut, n, format);
    } else {
      CutMaximal(records, cut, format);
      ScanCutOver(records, cut, n, format);
    }
  }

  // ---- More records than replay accepts ----

  /** What replay reports when one record too many follows. */
  ghost function Overrun(records: seq<Record>, format: Format): (report: ReplayReport)
    requires |records| > format.limits.maxJournalRecords
  {
    var limit := format.limits.maxJournalRecords;
    Accepted(records[..limit + 1]).(records := records[..limit], status := ExhaustedStatus)
  }

  lemma {:induction false} FlattenPrefix(parts: seq<Bytes>, n: nat)
    requires n <= |parts|
    ensures |Flatten(parts[..n])| <= |Flatten(parts)| && Flatten(parts)[..|Flatten(parts[..n])|] == Flatten(parts[..n])
  {
    if n == |parts| {
      assert parts[..n] == parts;
    } else {
      var before := parts[..|parts| - 1];
      FlattenPrefix(before, n);
      assert before[..n] == parts[..n];
      assert Flatten(parts)[..|Flatten(before)|] == Flatten(before);
    }
  }

  lemma JournalPrefix(records: seq<Record>, n: nat, format: Format)
    requires Chained(records, format) && n <= |records|
    ensures Chained(records[..n], format)
    ensures |JournalBytes(records[..n], format)| <= |JournalBytes(records, format)|
    ensures JournalBytes(records, format)[..|JournalBytes(records[..n], format)|] == JournalBytes(records[..n], format)
  {
    PartsPrefix(records, n, format);
    FlattenPrefix(Parts(records, format), n);
  }

  /** The scan stops at the first record past the bound, whatever follows it. */
  lemma ScanOver(records: seq<Record>, rest: Bytes, format: Format)
    requires Chained(records, format) && |records| > format.limits.maxJournalRecords
    ensures Scan(JournalBytes(records[..format.limits.maxJournalRecords + 1], format) + rest, EMPTY_REPORT, Anything,
                 format)
         == Overrun(records, format)
  {
    var limit := format.limits.maxJournalRecords;
    JournalNext(records, limit + 1, rest, format);
    ScanJournal(records, limit, RecordBytes(records[limit], format) + rest, format);
    ScanRecord(records[limit], rest, Accepted(records[..limit]), After(records[..limit]), format);
    AdmitOver(records, format);
  }

  lemma AdmitOver(records: seq<Record>, format: Format)
    requires Chained(records, format) && |records| > format.limits.maxJournalRecords
    ensures var limit := format.limits.maxJournalRecords;
            Admit(Accepted(records[..limit]), After(records[..limit]), records[limit], format) ==
              Overrun(records, format)
  {
    var limit := format.limits.maxJournalRecords;
    assert records[..limit + 1] == records[..limit] + [records[limit]];
  }

  lemma ScanOverFile(records: seq<Record>, file: Bytes, format: Format)
    requires Chained(records, format) && |records| > format.limits.maxJournalRecords
    requires JournalBytes(records[..format.limits.maxJournalRecords + 1], format) <= file
    ensures Scan(file, EMPTY_REPORT, Anything, format) == Overrun(records, format)
  {
    var head := JournalBytes(records[..format.limits.maxJournalRecords + 1], format);
    assert file == head + file[|head|..];
    ScanOver(records, file[|head|..], format);
  }

  lemma JournalNested(records: seq<Record>, m: nat, n: nat, format: Format)
    requires Chained(records, format) && m <= n <= |records|
    ensures JournalBytes(records[..m], format) <= JournalBytes(records[..n], format)
  {
    JournalPrefix(records, n, format);
    JournalPrefix(records[..n], m, format);
    assert records[..n][..m] == records[..m];
  }

  lemma ScanCutOver(records: seq<Record>, cut: nat, n: nat, format: Format)
    requires Chained(records, format) && cut <= |JournalBytes(records, format)|
    requires format.limits.maxJournalRecords < n <= |records| && |JournalBytes(records[..n], format)| <= cut
    ensures Scan(JournalBytes(records, format)[..cut], EMPTY_REPORT, Anything, format) == Overrun(records, format)
  {
    var limit := format.limits.maxJournalRecords + 1;
    JournalNested(records, limit, n, format);
    JournalNested(records, n, |records|, format);
    assert records[..|records|] == records;
    PrefixWithin(JournalBytes(records[..limit], format), JournalBytes(records[..n], format),
                 JournalBytes(records, format), cut);
    ScanOverFile(records, JournalBytes(records, format)[..cut], format);
  }

  lemma PrefixWithin(a: Bytes, b: Bytes, whole: Bytes, cut: nat)
    requires a <= b <= whole && |b| <= cut <= |whole|
    ensures a <= whole[..cut]
  {
  }

  /** A journal replays exactly while it holds no more records than the bound. */
  lemma ReplayWithin(records: seq<Record>, format: Format)
    requires Chained(records, format)
    ensures var report := Scan(JournalBytes(records, format), EMPTY_REPORT, Anything, format);
            && (report.status.Ok? <==> |records| <= format.limits.maxJournalRecords)
            && (report.status.Ok? ==> report == Accepted(records))
            && (!report.status.Ok? ==> report == Overrun(records, format))
  {
    if |records| <= format.limits.maxJournalRecords {
      ScanWhole(records, format);
    } else {
      var bytes := JournalBytes(records, format);
      assert records[..|records|] == records && bytes[..|bytes|] == bytes;
      ScanCutOver(records, |bytes|, |records|, format);
    }
  }

  /**
   Crash consistency: after a cut at any byte, replay succeeds with exactly the maximal whole-record
   prefix, reports a torn tail iff the cut is inside a record, and the bytes it asks to drop are
   exactly the torn ones. It fails only where more records survive than the bound admits, and then
   asks for no truncation.
   */
  lemma CrashConsistency(records: seq<Record>, cut: nat, format: Format)
    requires Chained(records, format) && cut <= |JournalBytes(records, format)|
    ensures var n := WholeRecords(records, cut, format);
            var kept := JournalBytes(records[..n], format);
            var file := JournalBytes(records, format)[..cut];
            var report := Scan(file, EMPTY_REPORT, Anything, format);
            && |kept| <= cut && (n < |records| ==> cut < |JournalBytes(records[..n + 1], format)|)
            && (report.status.Ok? <==> n <= format.limits.maxJournalRecords)
            && (report.status.Ok? ==>
                  && report.records == records[..n] && report.corruptRecords == 0
                  && report.lastSequence == Accepted(records[..n]).lastSequence
                  && (report.truncatedTail <==> cut != |kept|)
                  && report.recoveredBytes == cut - |kept|
                  && file[..cut - report.recoveredBytes] == kept)
            && (!report.status.Ok? ==>
                  report.status.ExhaustedStatus? && !report.truncatedTail
                  && report.records == records[..format.limits.maxJournalRecords])
  {
    var n := WholeRecords(records, cut, format);
    CrashScan(records, cut, format);
    CutMaximal(records, cut, format);
    CutReport(records, n, JournalBytes(records[..n], format), JournalBytes(records, format)[..cut],
              Scan(JournalBytes(records, format)[..cut], EMPTY_REPORT, Anything, format), format);
  }

  /** What the scan of a cut journal says. */
  lemma CutReport(records: seq<Record>, n: nat, kept: Bytes, file: Bytes, report: ReplayReport, format: Format)
    requires n <= |records| && |kept| <= |file| && file[..|kept|] == kept
    requires report == if n > format.limits.maxJournalRecords then Overrun(records, format)
                       else if |file| == |kept| then Accepted(records[..n])
                       else Torn(Accepted(records[..n]), |file| - |kept|)
    ensures report.status.Ok? <==> n <= format.limits.maxJournalRecords
    ensures report.status.Ok? ==>
              && report.records == records[..n] && report.corruptRecords == 0
              && report.lastSequence == Accepted(records[..n]).lastSequence
              && (report.truncatedTail <==> |file| != |kept|)
              && report.recoveredBytes == |file| - |kept|
              && file[..|file| - report.recoveredBytes] == kept
    ensures !report.status.Ok? ==>
              report.status.ExhaustedStatus? && !report.truncatedTail
              && report.records == records[..format.limits.maxJournalRecords]
  {
  }

  lemma CutMaximal(records: seq<Record>, cut: nat, format: Format)
    requires Chained(records, format) && cut <= |JournalBytes(records, format)|
    ensures var n := WholeRecords(records, cut, format);
            var kept := JournalBytes(records[..n], format);
            && |kept| <= cut && JournalBytes(records, format)[..|kept|] == kept
            && (n < |records| ==> cut < |JournalBytes(records[..n + 1], format)|)
  {
    var parts := Parts(records, format);
    var n := Survivors(parts, cut);
    CutShape(parts, cut);
    CutKept(parts, cut, n);
    PartsPrefix(records, n, format);
    if n < |records| {
      PartsPrefix(records, n + 1, format);
    }
  }

  // ---- One corrupted byte ----

  /** Corruption at the head of the remaining bytes stops the scan with a failure and no truncation. */
  lemma ScanCorrupted(record: Record, changed: Bytes, rest: Bytes, i: nat, report: ReplayReport, expected: Expected,
                      format: Format)
    requires Detects(format.checksum) && Sealed(record, format) && Apart(RecordBytes(record, format), changed, i)
    ensures var result := Scan(changed + rest, report, expected, format);
            && !result.status.Ok?
            && result.records == report.records
            && result.truncatedTail == report.truncatedTail
  {
    var bytes, file := RecordBytes(record, format), changed + rest;
    assert file[..HEADER_BYTES] == changed[..HEADER_BYTES];
    if i < HEADER_BYTES {
      HeaderCorruptionRefused(record, format, changed, i);
    } else {
      assert changed[..HEADER_BYTES] == changed[..i][..HEADER_BYTES] == bytes[..i][..HEADER_BYTES] ==
             bytes[..HEADER_BYTES];
      DecodePrefix(record, format, HEADER_BYTES);
      assert file[..|bytes|] == changed + [];
      CorruptionRefused(record, format, changed, [], i);
    }
  }

  /**
   Corruption is never repaired: replay of a journal with any one changed byte fails, accepts only
   records before the change, and asks for no truncation.
   */
  lemma CorruptionNeverRepaired(records: seq<Record>, changed: Bytes, i: nat, format: Format)
    requires Detects(format.checksum) && Chained(records, format)
    requires Apart(JournalBytes(records, format), changed, i)
    ensures var report := Scan(changed, EMPTY_REPORT, Anything, format);
            && !report.status.Ok? && !report.truncatedTail
            && report.records <= records
  {
    var n, bytes, rest, j := LocateCorruption(Parts(records, format), changed, i);
    PartsPrefix(records, n, format);
    assert Sealed(records[n], format);
    if n <= format.limits.maxJournalRecords {
      ScanJournal(records, n, bytes + rest, format);
      ScanCorrupted(records[n], bytes, rest, j, Accepted(records[..n]), After(records[..n]), format);
      assert records[..n] <= records;
    } else {
      CorruptedPastBound(records, n, bytes + rest, format);
    }
  }

  lemma CorruptedPastBound(records: seq<Record>, n: nat, tail: Bytes, format: Format)
    requires Chained(records, format) && format.limits.maxJournalRecords < n <= |records|
    ensures Scan(JournalBytes(records[..n], format) + tail, EMPTY_REPORT, Anything, format) == Overrun(records, format)
  {
    JournalNested(records, format.limits.maxJournalRecords + 1, n, format);
    ScanOverFile(records, JournalBytes(records[..n], format) + tail, format);
  }
}
