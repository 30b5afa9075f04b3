/**
 The durable store over one journal file (class DurableStore of src/persist/store.cpp). The file
 is a byte sequence; a crash keeps an arbitrary prefix of it, and opening it again recovers.
 */
module DurableStore {
  import opened Identity
  import opened Bits
  import opened Records
  import opened Journal

  datatype StoreStatus = Done | Closed | Exhausted | InvalidKind | IoError

  datatype OpenMode = CreateNew | OpenExisting | OpenOrCreate

  datatype OpenStatus = Opened | AlreadyExists | NotFound | IntegrityFailure(status: Status)

  /** Where the file system lets a compaction down, if anywhere. */
  datatype CompactFate = StagingFails | ReplaceFails | ReopenFails | Completes

  /** The bytes of a record that a write gets to the file. */
  function Reached(bytes: Bytes, written: nat): (left: Bytes) {
    if written < |bytes| then bytes[..written] else bytes
  }

  /** The record an append writes. */
  function NewRecord(kind: U16, flags: U32, seqNo: U64, payload: Bytes, format: Format): (record: Record)
    requires |payload| <= MAX_RECORD_PAYLOAD
  {
    var draft := Record(RecordHeader(RECORD_MAGIC, FORMAT_VERSION, kind, flags, seqNo, 0, 0), payload);
    Record(SealedHeader(draft, format), payload)
  }

  ghost function NextSequence(records: seq<Record>): (next: U64) {
    Next(Accepted(records).lastSequence)
  }

  /** The file holds exactly these records and the next append continues their numbering. */
  ghost predicate Represents(file: Bytes, nextSequence: U64, records: seq<Record>, format: Format) {
    && Chained(records, format)
    && file == JournalBytes(records, format)
    && nextSequence == NextSequence(records)
  }

  lemma NewRecordSealed(kind: U16, flags: U32, seqNo: U64, payload: Bytes, format: Format)
    requires |payload| <= Ceiling(format) && ValidKind(kind)
    ensures Sealed(NewRecord(kind, flags, seqNo, payload, format), format)
  {
  }

  /** Appending the next record keeps the journal replayable. */
  lemma AppendRepresents(file: Bytes, nextSequence: U64, records: seq<Record>, record: Record, format: Format)
    requires Represents(file, nextSequence, records, format)
    requires Sealed(record, format) && record.header.seqNo == nextSequence
    ensures Represents(file + RecordBytes(record, format), Next(nextSequence), records + [record], format)
  {
    ChainedNext(records, record, format);
    JournalBytesNext(records, record, format);
  }

  lemma ChainedNext(records: seq<Record>, record: Record, format: Format)
    requires Chained(records, format)
    requires Sealed(record, format) && record.header.seqNo == NextSequence(records)
    ensures Chained(records + [record], format)
  {
    var longer := records + [record];
    forall i | 0 <= i < |longer|
      ensures Sealed(longer[i], format)
    {
      assert i < |records| ==> Sealed(records[i], format);
    }
  }

  lemma JournalBytesNext(records: seq<Record>, record: Record, format: Format)
    requires Chained(records, format) && Chained(records + [record], format) && Sealed(record, format)
    ensures JournalBytes(records + [record], format) == JournalBytes(records, format) + RecordBytes(record, format)
  {
    var longer := records + [record];
    PartsPrefix(longer, |records|, format);
    assert longer[..|records|] == records;
    assert Parts(longer, format)[..|records|] == Parts(records, format);
  }

  class DurableStore {
    const format: Format
    var file: Bytes
    var isOpen: bool
    var nextSequence: U64
    var recordsWritten: nat

    constructor (format: Format, file: Bytes, nextSequence: U64)
      ensures this.format == format && this.file == file && this.nextSequence == nextSequence
      ensures isOpen && recordsWritten == 0
    {
      this.format, this.file, this.nextSequence := format, file, nextSequence;
      isOpen, recordsWritten := true, 0;
    }

    ghost function View(): (disk: Disk)
      reads this
    {
      Disk(file, nextSequence, recordsWritten, isOpen)
    }

    /**
     Opens a journal. A record that fails its integrity check refuses the open and leaves the
     file untouched; a torn tail is dropped, exactly. Returns what is on disk afterwards.
     */
    static method Open(format: Format, mode: OpenMode, present: bool, content: Bytes)
      returns (status: OpenStatus, store: DurableStore?, report: ReplayReport, disk: Bytes)
      ensures status.Opened? <==> store != null
      ensures status.AlreadyExists? <==> present && mode.CreateNew?
      ensures status.NotFound? <==> !present && mode.OpenExisting?
      ensures !status.Opened? ==> disk == content
      ensures var scan := Scan(content, EMPTY_REPORT, Anything, format);
              && (status.IntegrityFailure? <==> present && !mode.CreateNew? && !scan.status.Ok?)
              && (status.Opened? && present ==>
                    report == scan && scan.recoveredBytes <= |content|
                    && disk == (if scan.truncatedTail then content[..|content| - scan.recoveredBytes] else content))
      ensures status.Opened? && !present ==> disk == [] && report == EMPTY_REPORT
      ensures store != null ==>
                && fresh(store) && store.file == disk && store.format == format && store.isOpen
                && store.nextSequence == Next(report.lastSequence) && store.recordsWritten == 0
      ensures present && !mode.CreateNew? ==>
                && Reopened(content, format).open == (store != null) && Reopened(content, format).file == disk
                && (store != null ==> store.View() == Reopened(content, format))
    {
      report, disk := EMPTY_REPORT, content;
      if mode.CreateNew? && present {
        return AlreadyExists, null, report, disk;
      }
      if mode.OpenExisting? && !present {
        return NotFound, null, report, disk;
      }
      if present {
        report := Replay(content, format);
        if !report.status.Ok? {
          return IntegrityFailure(report.status), null, report, disk;
        }
        TornWithin(content, EMPTY_REPORT, Anything, format);
        if report.truncatedTail {
          disk := content[..|content| - report.recoveredBytes];
        }
      } else {
        disk := [];
      }
      store := new DurableStore(format, disk, Next(report.lastSequence));
      status := Opened;
    }

    /**
     Appends one record. `written` is how many of its bytes reach the file, and `flushed` whether
     they are then forced out. A failure of either leaves what was written behind, the counters
     unchanged and the store open.
     */
    method Append(kind: U16, payload: Bytes, flags: U32, written: nat, flushed: bool) returns (status: StoreStatus)
      modifies this`file, this`nextSequence, this`recordsWritten
      ensures !old(isOpen) ==> status == Closed
      ensures old(isOpen) && old(recordsWritten) >= format.limits.maxJournalRecords ==> status == Exhausted
      ensures status.Done? || status.IoError? ==> |payload| <= Ceiling(format) && ValidKind(kind)
      ensures status.Done? ==>
                && file == old(file) + RecordBytes(NewRecord(kind, flags, old(nextSequence), payload, format), format)
                && nextSequence == Next(old(nextSequence)) && recordsWritten == old(recordsWritten) + 1
      ensures status.IoError? ==>
                file == old(file) + Reached(RecordBytes(NewRecord(kind, flags, old(nextSequence), payload, format),
                                                        format), written)
      ensures !status.Done? ==> nextSequence == old(nextSequence) && recordsWritten == old(recordsWritten)
      ensures !status.Done? && !status.IoError? ==> file == old(file)
      ensures old(isOpen) && old(recordsWritten) < format.limits.maxJournalRecords && ValidKind(kind) &&
              |payload| <= Ceiling(format) ==>
                status == if written >= HEADER_BYTES + |payload| + 4 && flushed then Done else IoError
      ensures written >= HEADER_BYTES + |payload| + 4 && flushed ==>
                View() == Concrete(old(View()), AppendEvent(kind, flags, payload), format)
    {
      if !isOpen {
        return Closed;
      }
      if recordsWritten >= format.limits.maxJournalRecords {
        return Exhausted;
      }
      if !ValidKind(kind) {
        return InvalidKind;
      }
      if |payload| > Ceiling(format) {
        return Exhausted;
      }
      var bytes := RecordBytes(NewRecord(kind, flags, nextSequence, payload, format), format);
      file := file + Reached(bytes, written);
      if written < |bytes| || !flushed {
        return IoError;
      }
      nextSequence := Next(nextSequence);
      recordsWritten := recordsWritten + 1;
      return Done;
    }

    /**
     Replaces the journal with exactly the supplied records, or leaves it as it was. Once the old
     file has been closed for the replacement, a failure leaves the store closed.
     */
    method Compact(records: seq<Record>, fate: CompactFate) returns (status: StoreStatus)
      modifies this`file, this`isOpen, this`nextSequence, this`recordsWritten
      ensures status.Done? <==>
                && old(isOpen) && |records| <= format.limits.maxJournalRecords && fate.Completes?
                && forall i :: 0 <= i < |records| ==> Encodable(records[i], format)
      ensures status.Done? ==>
                && isOpen && file == Staged(records, |records|, format)
                && nextSequence == (if records == [] then 1 else Next(records[|records| - 1].header.seqNo))
                && recordsWritten == |records|
      ensures !status.Done? ==> nextSequence == old(nextSequence) && recordsWritten == old(recordsWritten)
      ensures !status.Done? ==>
                var staged := old(isOpen) && |records| <= format.limits.maxJournalRecords && !fate.StagingFails?
                              && forall i :: 0 <= i < |records| ==> Encodable(records[i], format);
                && isOpen == (old(isOpen) && !staged)
                && file == if staged && fate.ReopenFails? then Staged(records, |records|, format) else old(file)
    {
      if !isOpen {
        return Closed;
      }
      if |records| > format.limits.maxJournalRecords {
        return Exhausted;
      }
      var ok, staging := Stage(records, format);
      if !ok || fate.StagingFails? {
        return IoError;
      }
      isOpen := false;
      if fate.ReplaceFails? {
        return IoError;
      }
      file := staging;
      if fate.ReopenFails? {
        return IoError;
      }
      isOpen := true;
      nextSequence := if records == [] then 1 else Next(records[|records| - 1].header.seqNo);
      recordsWritten := |records|;
      return Done;
    }
  }

  /** A scan never asks for more bytes to be dropped than there are. */
  lemma {:induction false} TornWithin(file: Bytes, report: ReplayReport, expected: Expected, format: Format)
    requires report.recoveredBytes == 0
    ensures Scan(file, report, expected, format).recoveredBytes <= |file|
    decreases |file|
  {
    if |file| > 0 {
      var step := ReadOne(file, report, expected, format);
      if step.Continue? {
        TornWithin(file[step.consumed..], step.report, step.expected, format);
      }
    }
  }

  // ---- Histories of appends and crashes ----

  datatype Event = AppendEvent(kind: U16, flags: U32, payload: Bytes) | CrashEvent(cut: nat)

  /** The file and what the store over it counts, if it could be opened. */
  datatype Disk = Disk(file: Bytes, nextSequence: U64, written: nat, open: bool)

  const FRESH := Disk([], 1, 0, true)

  /** An append that an opening with this many appends behind it does not refuse. */
  predicate Admits(open: bool, written: nat, kind: U16, payload: Bytes, format: Format) {
    open && written < format.limits.maxJournalRecords && ValidKind(kind) && |payload| <= Ceiling(format)
  }

  /** What an event does to the bytes: an append whose write succeeds, or a crash and the next opening. */
  function Concrete(disk: Disk, event: Event, format: Format): (after: Disk) {
    match event
    case AppendEvent(kind, flags, payload) =>
      if !Admits(disk.open, disk.written, kind, payload, format) then disk
      else Disk(disk.file + RecordBytes(NewRecord(kind, flags, disk.nextSequence, payload, format), format),
                Next(disk.nextSequence), disk.written + 1, true)
    case CrashEvent(cut) => Reopened(Reached(disk.file, cut), format)
  }

  /** What opening makes of a journal: nothing is touched when the scan fails. */
  function Reopened(left: Bytes, format: Format): (after: Disk) {
    TornWithin(left, EMPTY_REPORT, Anything, format);
    Trimmed(left, Scan(left, EMPTY_REPORT, Anything, format))
  }

  function Trimmed(left: Bytes, report: ReplayReport): (after: Disk)
    requires report.recoveredBytes <= |left|
  {
    if report.status.Ok?
    then Disk(if report.truncatedTail then left[..|left| - report.recoveredBytes] else left, Next(report.lastSequence),
              0, true)
    else Disk(left, 1, 0, false)
  }

  /** The log of records, how many of their bytes are in the file, and the state of the store. */
  datatype Log = Log(records: seq<Record>, reach: nat, written: nat, open: bool)

  function Least(a: nat, b: nat): (m: nat) {
    if a < b then a else b
  }

  /** How many whole records a crash leaves. */
  ghost function Left(log: Log, cut: nat, format: Format): (n: nat)
    requires Chained(log.records, format)
    ensures n <= |log.records|
  {
    WholeRecords(log.records, Least(cut, log.reach), format)
  }

  /**
   What the same event does to the log. A crash leaves whole records; the next opening drops the
   rest of a torn one, or is refused when there are more records than it may accept.
   */
  ghost function Abstract(log: Log, event: Event, format: Format): (after: Log)
    requires Chained(log.records, format)
  {
    match event
    case AppendEvent(kind, flags, payload) =>
      if !Admits(log.open, log.written, kind, payload, format) then log
      else
        var record := NewRecord(kind, flags, NextSequence(log.records), payload, format);
        Log(log.records + [record], log.reach + |RecordBytes(record, format)|, log.written + 1, true)
    case CrashEvent(cut) =>
      var n := Left(log, cut, format);
      if n <= format.limits.maxJournalRecords
      then Log(log.records[..n], |JournalBytes(log.records[..n], format)|, 0, true)
      else Log(log.records, Least(cut, log.reach), 0, false)
  }

  /** The file is the log up to its reach; an open store holds all of it and continues its numbering. */
  ghost predicate Refines(disk: Disk, log: Log, format: Format) {
    && Chained(log.records, format) && log.reach <= |JournalBytes(log.records, format)|
    && disk.file == JournalBytes(log.records, format)[..log.reach]
    && disk.open == log.open && disk.written == log.written
    && (log.open ==> Represents(disk.file, disk.nextSequence, log.records, format))
  }

  lemma EventRefines(disk: Disk, log: Log, event: Event, format: Format)
    requires Refines(disk, log, format)
    ensures Refines(Concrete(disk, event, format), Abstract(log, event, format), format)
  {
    match event
    case AppendEvent(kind, flags, payload) =>
      if Admits(log.open, log.written, kind, payload, format) {
        AppendRefines(disk, log, NewRecord(kind, flags, disk.nextSequence, payload, format), format);
      }
    case CrashEvent(cut) => CrashRefines(disk, log, cut, format);
  }

  lemma AppendRefines(disk: Disk, log: Log, record: Record, format: Format)
    requires Refines(disk, log, format) && log.open
    requires Sealed(record, format) && record.header.seqNo == disk.nextSequence
    ensures Refines(Disk(disk.file + RecordBytes(record, format), Next(disk.nextSequence), disk.written + 1, true),
                    Log(log.records + [record], log.reach + |RecordBytes(record, format)|, log.written + 1, true),
                    format)
  {
    AppendRepresents(disk.file, disk.nextSequence, log.records, record, format);
    var longer := JournalBytes(log.records + [record], format);
    assert |disk.file| == log.reach;
    assert longer[..|longer|] == longer;
  }

  lemma CrashRefines(disk: Disk, log: Log, cut: nat, format: Format)
    requires Refines(disk, log, format)
    ensures Refines(Concrete(disk, CrashEvent(cut), format), Abstract(log, CrashEvent(cut), format), format)
  {
    var file, reach, n := JournalBytes(log.records, format), Least(cut, log.reach), Left(log, cut, format);
    CutAgain(file, log.reach, cut);
    if n <= format.limits.maxJournalRecords {
      CutReopens(log.records, reach, format);
      KeptRefines(log.records, n, format);
    } else {
      CrashConsistency(log.records, reach, format);
    }
  }

  lemma CutAgain(file: Bytes, reach: nat, cut: nat)
    requires reach <= |file|
    ensures Reached(file[..reach], cut) == file[..Least(cut, reach)]
  {
  }

  lemma KeptRefines(records: seq<Record>, n: nat, format: Format)
    requires Chained(records, format) && n <= |records|
    ensures var kept := JournalBytes(records[..n], format);
            Refines(Disk(kept, Next(Accepted(records[..n]).lastSequence), 0, true), Log(records[..n], |kept|, 0, true),
                    format)
  {
    var kept := JournalBytes(records[..n], format);
    assert kept[..|kept|] == kept;
  }

  lemma CutReopens(records: seq<Record>, bound: nat, format: Format)
    requires Chained(records, format) && bound <= |JournalBytes(records, format)|
    requires WholeRecords(records, bound, format) <= format.limits.maxJournalRecords
    ensures var n := WholeRecords(records, bound, format);
            Reopened(JournalBytes(records, format)[..bound], format)
            == Disk(JournalBytes(records[..n], format), Next(Accepted(records[..n]).lastSequence), 0, true)
  {
    CrashScan(records, bound, format);
    CutMaximal(records, bound, format);
    var n := WholeRecords(records, bound, format);
    var kept, left := JournalBytes(records[..n], format), JournalBytes(records, format)[..bound];
    assert left[..|kept|] == kept;
    ScanTrims(left, kept, Accepted(records[..n]), format);
  }

  lemma ScanTrims(left: Bytes, kept: Bytes, accepted: ReplayReport, format: Format)
    requires |kept| <= |left| && left[..|kept|] == kept
    requires accepted.status.Ok? && !accepted.truncatedTail && accepted.recoveredBytes == 0
    requires Scan(left, EMPTY_REPORT, Anything, format) ==
             if |left| == |kept| then accepted else Torn(accepted, |left| - |kept|)
    ensures Reopened(left, format) == Disk(kept, Next(accepted.lastSequence), 0, true)
  {
    TrimExact(left, kept, accepted);
  }

  lemma TrimExact(left: Bytes, kept: Bytes, accepted: ReplayReport)
    requires |kept| <= |left| && left[..|kept|] == kept
    requires accepted.status.Ok? && !accepted.truncatedTail && accepted.recoveredBytes == 0
    ensures Trimmed(left, if |left| == |kept| then accepted else Torn(accepted, |left| - |kept|))
         == Disk(kept, Next(accepted.lastSequence), 0, true)
  {
  }

  function RunConcrete(events: seq<Event>, format: Format): (disk: Disk) {
    if events == [] then FRESH
    else Concrete(RunConcrete(events[..|events| - 1], format), events[|events| - 1], format)
  }

  /** The log after a history of any length. */
  ghost function RunAbstract(events: seq<Event>, format: Format): (log: Log)
    ensures Chained(log.records, format)
  {
    if events == [] then Log([], 0, 0, true)
    else
      var before, event := RunAbstract(events[..|events| - 1], format), events[|events| - 1];
      AbstractChained(before, event, format);
      Abstract(before, event, format)
  }

  lemma AbstractChained(log: Log, event: Event, format: Format)
    requires Chained(log.records, format)
    ensures Chained(Abstract(log, event, format).records, format)
  {
    if event.AppendEvent? && Admits(log.open, log.written, event.kind, event.payload, format) {
      var record := NewRecord(event.kind, event.flags, NextSequence(log.records), event.payload, format);
      NewRecordSealed(event.kind, event.flags, NextSequence(log.records), event.payload, format);
      ChainedNext(log.records, record, format);
    }
  }

  /**
   The byte store refines the record log over every history of appends, crashes and openings:
   whatever was appended and wherever the crashes cut, an open store's file is exactly the
   surviving records, in order, and the next append continues their numbering.
   */
  lemma {:induction false} HistoryRefines(events: seq<Event>, format: Format)
    ensures Refines(RunConcrete(events, format), RunAbstract(events, format), format)
  {
    if events == [] {
      assert JournalBytes([], format) == [];
    } else {
      var before, event := events[..|events| - 1], events[|events| - 1];
      HistoryRefines(before, format);
      EventRefines(RunConcrete(before, format), RunAbstract(before, format), event, format);
    }
  }

  /**
   After any history, a crash can be recovered from if and only if it leaves at most as many whole
   records as replay accepts. Past that, opening is refused and the file stays as the crash left it.
   */
  lemma CrashRecoverable(events: seq<Event>, cut: nat, format: Format)
    ensures var disk, log := RunConcrete(events, format), RunAbstract(events, format);
            var left := Reached(disk.file, cut);
            var report := Scan(left, EMPTY_REPORT, Anything, format);
            && (report.status.Ok? <==> Left(log, cut, format) <= format.limits.maxJournalRecords)
            && (!report.status.Ok? ==>
                  && report.status.ExhaustedStatus? && Reopened(left, format) == Disk(left, 1, 0, false)
                  && report.records == log.records[..format.limits.maxJournalRecords])
  {
    HistoryRefines(events, format);
    var log := RunAbstract(events, format);
    CutAgain(JournalBytes(log.records, format), log.reach, cut);
    CrashConsistency(log.records, Least(cut, log.reach), format);
  }

  function Appends(events: seq<Event>): (count: nat) {
    if events == [] then 0
    else Appends(events[..|events| - 1]) + if events[|events| - 1].AppendEvent? then 1 else 0
  }

  /** With no more appends than the bound, every pattern of crashes can be recovered from. */
  lemma {:induction false} AppendsRecoverable(events: seq<Event>, format: Format)
    requires Appends(events) <= format.limits.maxJournalRecords
    ensures RunAbstract(events, format).open && |RunAbstract(events, format).records| <= Appends(events)
  {
    if events != [] {
      AppendsRecoverable(events[..|events| - 1], format);
    }
  }

  ghost predicate OnlyAppends(events: seq<Event>, format: Format) {
    forall i :: 0 <= i < |events| ==>
      events[i].AppendEvent? && ValidKind(events[i].kind) && |events[i].payload| <= Ceiling(format)
  }

  /** Within one opening the store counts its records, and stops at the bound. */
  lemma {:induction false} OneOpening(events: seq<Event>, format: Format)
    requires OnlyAppends(events, format)
    ensures var log := RunAbstract(events, format);
            log.open && |log.records| == log.written == Least(|events|, format.limits.maxJournalRecords)
  {
    if events != [] {
      OneOpening(events[..|events| - 1], format);
    }
  }

  /** So what one opening appended can always be opened again. */
  lemma FirstOpeningRecovers(events: seq<Event>, cut: nat, format: Format)
    requires OnlyAppends(events, format)
    ensures Concrete(RunConcrete(events, format), CrashEvent(cut), format).open
  {
    OneOpening(events, format);
    CrashRecoverable(events, cut, format);
  }

  /** A crash that loses nothing leaves every record. */
  lemma NothingLost(events: seq<Event>, cut: nat, format: Format)
    requires RunConcrete(events, format).open && cut >= |RunConcrete(events, format).file|
    ensures Left(RunAbstract(events, format), cut, format) == |RunAbstract(events, format).records|
  {
    HistoryRefines(events, format);
    CutMaximal(RunAbstract(events, format).records, RunAbstract(events, format).reach, format);
  }

  lemma RunNext(events: seq<Event>, event: Event, format: Format)
    ensures RunConcrete(events + [event], format) == Concrete(RunConcrete(events, format), event, format)
    ensures RunAbstract(events + [event], format) == Abstract(RunAbstract(events, format), event, format)
  {
    assert (events + [event])[..|events|] == events;
  }

  /** A store that holds more records than the bound cannot be opened again as it is. */
  lemma OverfullRefused(events: seq<Event>, cut: nat, format: Format)
    requires RunConcrete(events, format).open && cut >= |RunConcrete(events, format).file|
    requires |RunAbstract(events, format).records| > format.limits.maxJournalRecords
    ensures var disk := RunConcrete(events, format);
            && Scan(disk.file, EMPTY_REPORT, Anything, format).status.ExhaustedStatus?
            && Concrete(disk, CrashEvent(cut), format) == Disk(disk.file, 1, 0, false)
  {
    NothingLost(events, cut, format);
    CrashRecoverable(events, cut, format);
  }

  lemma SecondOpening(first: seq<Event>, kept: nat, more: Event, format: Format)
    requires 0 < |first| == format.limits.maxJournalRecords
    requires OnlyAppends(first, format) && OnlyAppends([more], format)
    requires kept >= |RunConcrete(first, format).file|
    ensures var log := RunAbstract(first + [CrashEvent(kept)] + [more], format);
            log.open && log.written == 1 && |log.records| == |first| + 1
  {
    OneOpening(first, format);
    HistoryRefines(first, format);
    NothingLost(first, kept, format);
    RunNext(first, CrashEvent(kept), format);
    RunNext(first + [CrashEvent(kept)], more, format);
    assert more == [more][0];
  }

  /**
   But two openings can append more than one may read: the bound's worth of records, an opening
   that loses none of them, and one append more. Every append was accepted, and the next opening
   is refused.
   */
  lemma SecondOpeningRefused(first: seq<Event>, kept: nat, more: Event, cut: nat, format: Format)
    requires 0 < |first| == format.limits.maxJournalRecords
    requires OnlyAppends(first, format) && OnlyAppends([more], format)
    requires kept >= |RunConcrete(first, format).file|
    requires cut >= |RunConcrete(first + [CrashEvent(kept)] + [more], format).file|
    ensures var events := first + [CrashEvent(kept)] + [more];
            var disk := RunConcrete(events, format);
            && disk.open && disk.written == 1 && |RunAbstract(events, format).records| == |first| + 1
            && Scan(disk.file, EMPTY_REPORT, Anything, format).status.ExhaustedStatus?
            && Concrete(disk, CrashEvent(cut), format) == Disk(disk.file, 1, 0, false)
  {
    var events := first + [CrashEvent(kept)] + [more];
    SecondOpening(first, kept, more, format);
    HistoryRefines(events, format);
    OverfullRefused(events, cut, format);
  }

  // ---- A write that failed ----

  /** Reopening after a failed write keeps the records before it, and the failed one only if it is whole. */
  lemma FailedWriteRecovers(file: Bytes, nextSequence: U64, records: seq<Record>, record: Record, written: nat,
                            format: Format)
    requires Represents(file, nextSequence, records, format) && |records| < format.limits.maxJournalRecords
    requires Sealed(record, format) && record.header.seqNo == nextSequence
    ensures var bytes := RecordBytes(record, format);
            var after := Reopened(file + Reached(bytes, written), format);
            after.open
            && Represents(after.file, after.nextSequence,
                       if written < |bytes| then records else records + [record], format)
  {
    var bytes, longer := RecordBytes(record, format), records + [record];
    AppendRepresents(file, nextSequence, records, record, format);
    LastSurvivors(records, record, written, format);
    if written < |bytes| {
      SliceAfter(file, bytes, written);
      ReopensTo(longer, |file| + written, |records|, file + bytes[..written], format);
      assert longer[..|records|] == records;
    } else {
      SliceAfter(file, bytes, |bytes|);
      ReopensTo(longer, |file| + |bytes|, |longer|, file + bytes, format);
      assert longer[..|longer|] == longer;
    }
  }

  lemma SliceAfter(file: Bytes, bytes: Bytes, written: nat)
    requires written <= |bytes|
    ensures (file + bytes)[..|file| + written] == file + bytes[..written]
  {
  }

  lemma ReopensTo(records: seq<Record>, cut: nat, n: nat, left: Bytes, format: Format)
    requires Chained(records, format) && cut <= |JournalBytes(records, format)| &&
             left == JournalBytes(records, format)[..cut]
    requires n == WholeRecords(records, cut, format) && n <= format.limits.maxJournalRecords
    ensures var after := Reopened(left, format);
            after.open && Represents(after.file, after.nextSequence, records[..n], format)
  {
    CutReopens(records, cut, format);
    KeptRefines(records, n, format);
  }

  lemma LastSurvivors(records: seq<Record>, record: Record, written: nat, format: Format)
    requires Chained(records, format) && Chained(records + [record], format) && Sealed(record, format)
    ensures var bytes, size := RecordBytes(record, format), |JournalBytes(records, format)|;
            && (written < |bytes| ==> WholeRecords(records + [record], size + written, format) == |records|)
            && WholeRecords(records + [record], size + |bytes|, format) == |records| + 1
  {
    var longer := records + [record];
    JournalBytesNext(records, record, format);
    PartsPrefix(longer, |records|, format);
    assert longer[..|records|] == records;
    var parts := Parts(longer, format);
    assert parts[..|records|] == Parts(records, format);
    if written < |RecordBytes(record, format)| {
      var cut := |JournalBytes(records, format)| + written;
      assert Survivors(parts, cut) == Survivors(parts[..|records|], cut) == |records|;
    }
  }

  lemma {:induction false} ScanKeeps(file: Bytes, report: ReplayReport, expected: Expected, format: Format)
    ensures report.records <= Scan(file, report, expected, format).records
    decreases |file|
  {
    if |file| > 0 {
      var step := ReadOne(file, report, expected, format);
      ScanStep(file, report, expected, step, format);
      if step.Continue? {
        ScanKeeps(file[step.consumed..], step.report, step.expected, format);
      }
    }
  }

  /** Whatever lands on top of a failed write, the records before it are still read. */
  lemma EarlierRecordsRead(file: Bytes, nextSequence: U64, records: seq<Record>, more: Bytes, format: Format)
    requires Represents(file, nextSequence, records, format) && |records| <= format.limits.maxJournalRecords
    ensures records <= Scan(file + more, EMPTY_REPORT, Anything, format).records
  {
    assert records[..|records|] == records;
    ScanJournal(records, |records|, more, format);
    ScanKeeps(more, Accepted(records), After(records), format);
  }

  /**
   A failed flush after a whole write does not advance the numbering. The next append is then
   acknowledged under a number already in the file, and the journal no longer replays.
   */
  lemma RepeatedNumberRefused(file: Bytes, nextSequence: U64, records: seq<Record>, record: Record, again: Record,
                              format: Format)
    requires Represents(file, nextSequence, records, format) && |records| < format.limits.maxJournalRecords
    requires Sealed(record, format) && Sealed(again, format) &&
             record.header.seqNo == again.header.seqNo == nextSequence
    ensures var report := Scan(file + RecordBytes(record, format) + RecordBytes(again, format), EMPTY_REPORT,
                               Anything, format);
            && !report.status.Ok? && report.records == records + [record] && !report.truncatedTail
  {
    var longer, last := records + [record], RecordBytes(again, format);
    AppendRepresents(file, nextSequence, records, record, format);
    assert longer[..|longer|] == longer;
    ScanJournal(longer, |longer|, last, format);
    assert last + [] == last;
    ScanRecord(again, [], Accepted(longer), After(longer), format);
  }

  /**
   A record that fits inside what a torn record still lacks is swallowed by it: its append is
   acknowledged, and replay takes it for part of the torn tail.
   */
  lemma SwallowedByTorn(file: Bytes, nextSequence: U64, records: seq<Record>, record: Record, written: nat,
                        more: Bytes, format: Format)
    requires Represents(file, nextSequence, records, format) && |records| <= format.limits.maxJournalRecords
    requires Sealed(record, format) && HEADER_BYTES <= written && written + |more| < |RecordBytes(record, format)|
    ensures Scan(file + (RecordBytes(record, format)[..written] + more), EMPTY_REPORT, Anything, format)
         == Torn(Accepted(records), written + |more|)
  {
    assert records[..|records|] == records;
    ScanJournal(records, |records|, RecordBytes(record, format)[..written] + more, format);
    ScanSwallows(record, written, more, Accepted(records), After(records), format);
  }

  lemma ScanSwallows(record: Record, written: nat, more: Bytes, report: ReplayReport, expected: Expected,
                     format: Format)
    requires Encodable(record, format) && HEADER_BYTES <= written && written + |more| < |RecordBytes(record, format)|
    requires |report.records| <= format.limits.maxJournalRecords
    ensures Scan(RecordBytes(record, format)[..written] + more, report, expected, format)
         == Torn(report, written + |more|)
  {
    DecodePrefix(record, format, HEADER_BYTES);
    SliceHead(RecordBytes(record, format), written, more, HEADER_BYTES);
  }

  lemma SliceHead(bytes: Bytes, written: nat, more: Bytes, cut: nat)
    requires cut <= written <= |bytes|
    ensures (bytes[..written] + more)[..cut] == bytes[..cut]
  {
  }

  // ---- Compaction ----

  function Seal(record: Record, format: Format): (sealed: Record)
    requires |record.payload| <= MAX_RECORD_PAYLOAD
  {
    Record(SealedHeader(record, format), record.payload)
  }

  ghost function SealAll(records: seq<Record>, format: Format): (sealed: seq<Record>)
    requires forall i :: 0 <= i < |records| ==> Encodable(records[i], format)
    ensures |sealed| == |records|
    ensures forall i :: 0 <= i < |records| ==> Encodable(records[i], format) && sealed[i] == Seal(records[i], format)
  {
    seq(|records|, i requires 0 <= i < |records| => assert Encodable(records[i], format); Seal(records[i], format))
  }

  lemma SealAllSealed(records: seq<Record>, format: Format)
    requires forall i :: 0 <= i < |records| ==> Encodable(records[i], format)
    ensures forall i :: 0 <= i < |records| ==> Sealed(SealAll(records, format)[i], format)
  {
  }

  /** The encodings of the first n records, one after the other. */
  function Staged(records: seq<Record>, n: nat, format: Format): (bytes: Bytes)
    requires n <= |records| && forall i :: 0 <= i < n ==> Encodable(records[i], format)
  {
    if n == 0 then []
    else
      assert Encodable(records[n - 1], format);
      Staged(records, n - 1, format) + RecordBytes(records[n - 1], format)
  }

  /**
   The bytes a compaction writes. Every record is encoded before anything is replaced; one that
   cannot be encoded refuses the whole compaction.
   */
  method Stage(records: seq<Record>, format: Format) returns (ok: bool, staging: Bytes)
    ensures ok <==> forall i :: 0 <= i < |records| ==> Encodable(records[i], format)
    ensures ok ==> staging == Staged(records, |records|, format)
  {
    staging := [];
    for index := 0 to |records|
      invariant forall i :: 0 <= i < index ==> Encodable(records[i], format)
      invariant staging == Staged(records, index, format)
    {
      var encoded := EncodeRecord(records[index], format);
      if encoded.Refused? {
        return false, staging;
      }
      staging := staging + encoded.bytes;
    }
    ok := true;
  }

  lemma {:induction false} StagedIsFlat(records: seq<Record>, parts: seq<Bytes>, n: nat, format: Format)
    requires n <= |records| == |parts|
    requires forall i :: 0 <= i < |records| ==>
               Encodable(records[i], format) && parts[i] == RecordBytes(records[i], format)
    ensures Staged(records, n, format) == Flatten(parts[..n])
  {
    if n > 0 {
      StagedIsFlat(records, parts, n - 1, format);
      assert parts[..n][..n - 1] == parts[..n - 1];
      assert Encodable(records[n - 1], format) && parts[n - 1] == RecordBytes(records[n - 1], format);
    }
  }

  lemma SealedPart(records: seq<Record>, i: nat, format: Format)
    requires i < |records| && forall k :: 0 <= k < |records| ==> Encodable(records[k], format)
    ensures Encodable(records[i], format) && Sealed(SealAll(records, format)[i], format)
    ensures RecordBytes(SealAll(records, format)[i], format) == RecordBytes(records[i], format)
  {
    SealAllSealed(records, format);
    assert Encodable(records[i], format);
  }

  /** Compacting to contiguously numbered records gives a journal of exactly those records. */
  lemma CompactionRepresents(records: seq<Record>, format: Format)
    requires forall i :: 0 <= i < |records| ==> Encodable(records[i], format)
    requires Contiguous(records)
    ensures Represents(Staged(records, |records|, format),
                       if records == [] then 1 else Next(records[|records| - 1].header.seqNo),
                       SealAll(records, format), format)
  {
    SealAllSealed(records, format);
    var sealed := SealAll(records, format);
    forall i | 0 < i < |sealed|
      ensures sealed[i].header.seqNo == Next(sealed[i - 1].header.seqNo)
    {
      assert records[i].header.seqNo == Next(records[i - 1].header.seqNo);
    }
    var parts := Parts(sealed, format);
    forall i | 0 <= i < |records|
      ensures Encodable(records[i], format) && parts[i] == RecordBytes(records[i], format)
    {
      SealedPart(records, i, format);
    }
    StagedIsFlat(records, parts, |records|, format);
    assert parts[..|records|] == parts;
  }
}
