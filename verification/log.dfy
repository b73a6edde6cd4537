/**
 `Pacct::Log` of ext/pacct/pacct_c.c: an accounting file read and appended one
 fixed-size `struct acct_v3` record at a time through a stdio stream.

 The file is a sequence of records; the stream position is a record index
 (every seek the code makes lands on a record boundary); `numEntries` is the
 count the log computed when it was opened and has kept up to date since.
 Each operation is a transition that returns the log's next state together
 with its outcome. A raised exception still returns the state, because the
 Ruby object survives the exception with its stream wherever the failed call
 left it.
 */
module Logs {
  import opened Errors
  import opened Entries
  import opened Arithmetic

  /** `sizeof(struct acct_v3)` on Linux. */
  const RECORD_SIZE: nat := 64

  /** The range of a C `int`. */
  const INT_MIN: int := -0x8000_0000
  const INT_MAX: int := 0x7fff_ffff

  /** The fopen modes a log accepts. */
  datatype Mode =
    | Read          // "rb"
    | Write         // "wb"
    | ReadUpdate    // "r+b"
    | WriteUpdate   // "w+b"

  function ModeName(m: Mode): string
  {
    match m
    case Read => "rb"
    case Write => "wb"
    case ReadUpdate => "r+b"
    case WriteUpdate => "w+b"
  }

  /** fread can succeed on the stream. */
  predicate Readable(m: Mode) { m != Write }

  /** fwrite can succeed on the stream. */
  predicate Writable(m: Mode) { m != Read }

  /** fopen creates the file or empties it. */
  predicate Truncates(m: Mode) { m == Write || m == WriteUpdate }

  /** The mode argument of `Log.new`: absent means "rb"; anything other than
      the four names is refused. */
  function ParseMode(mode: Option<string>): (r: Result<Mode>)
    ensures mode.None? ==> r == Ok(Read)
    ensures mode.Some? ==> (r.Ok? <==> exists m: Mode :: ModeName(m) == mode.value)
    ensures mode.Some? && r.Ok? ==> ModeName(r.value) == mode.value
    ensures r.Err? ==> r.error == ArgumentError
  {
    match mode
    case None => Ok(Read)
    case Some(s) =>
      if s == "rb" then assert ModeName(Read) == s; Ok(Read)
      else if s == "wb" then assert ModeName(Write) == s; Ok(Write)
      else if s == "r+b" then assert ModeName(ReadUpdate) == s; Ok(ReadUpdate)
      else if s == "w+b" then assert ModeName(WriteUpdate) == s; Ok(WriteUpdate)
      else
        assert forall m: Mode :: ModeName(m) != s;
        Err(ArgumentError)
  }

  /** Every mode's name parses back to that mode. */
  lemma ModeNameParses(m: Mode)
    ensures ParseMode(Some(ModeName(m))) == Ok(m)
  {
  }

  /** Fewer bytes than a record. */
  type Slack = n: nat | n < RECORD_SIZE

  /** A file on disk: whole records followed by `slack` stray bytes. */
  datatype DiskFile = DiskFile(records: seq<Entry>, slack: Slack)

  function Length(f: DiskFile): nat
  {
    |f.records| * RECORD_SIZE + f.slack
  }

  /** The state of a `Pacct::Log`. */
  datatype PacctLog = PacctLog(
    records: seq<Entry>,   // what the file holds
    cursor: nat,           // the stream position, in records
    numEntries: nat,       // log->num_entries
    mode: Mode,
    isOpen: bool           // log->file != NULL
  )

  /** The states the operations keep: the count matches the file and the
      stream is not past its end. */
  predicate Valid(log: PacctLog)
  {
    log.numEntries == |log.records| && log.cursor <= |log.records|
  }

  /** A state and what the operation returned or raised. */
  datatype Step<+T> = Step(log: PacctLog, result: Result<T>)

  /** The entries an `each_entry` block received, the state afterwards, and
      the exception that ended the iteration, if any. */
  datatype Iteration = Iteration(log: PacctLog, yielded: seq<Entry>, failure: Option<ErrorKind>)

  // ---------------------------------------------------------------------------
  // Opening
  // ---------------------------------------------------------------------------

  /** `(n * RECORD_SIZE + s) / RECORD_SIZE` and its remainder. */
  lemma LengthInRecords(f: DiskFile)
    ensures Length(f) % RECORD_SIZE == f.slack
    ensures Length(f) / RECORD_SIZE == |f.records|
  {
    DivUnique(Length(f), RECORD_SIZE, |f.records|);
    assert Length(f) == (Length(f) / RECORD_SIZE) * RECORD_SIZE + Length(f) % RECORD_SIZE;
  }

  /** `Log.new(filename, mode)`. `file` is what lies at `filename`, `None` when
      nothing does. The mode is checked before the file is touched; a "w" mode
      creates or empties the file, an "r" mode needs it to exist; a length
      that is not a whole number of records is refused. */
  function Open(file: Option<DiskFile>, mode: Option<string>): (r: Result<PacctLog>)
    ensures r == Err(ArgumentError) <==> ParseMode(mode).Err?
    ensures r.Ok? <==> (ParseMode(mode).Ok? &&
              (Truncates(ParseMode(mode).value) || (file.Some? && file.value.slack == 0)))
    ensures r.Err? ==> r.error in {ArgumentError, IOError}
    ensures r.Ok? ==> Valid(r.value) && r.value.isOpen && r.value.cursor == 0
    ensures r.Ok? ==> r.value.mode == ParseMode(mode).value
    ensures r.Ok? ==> r.value.records == if Truncates(r.value.mode) then [] else file.value.records
  {
    match ParseMode(mode)
    case Err(k) => Err(k)
    case Ok(m) =>
      if Truncates(m) then Ok(PacctLog([], 0, 0, m, true))
      else if file.None? then Err(IOError)
      else
        LengthInRecords(file.value);
        if Length(file.value) % RECORD_SIZE != 0 then Err(IOError)
        else Ok(PacctLog(file.value.records, 0, Length(file.value) / RECORD_SIZE, m, true))
  }

  // ---------------------------------------------------------------------------
  // Reading
  // ---------------------------------------------------------------------------

  /** `pacct_entry_new(log)`: one fread of a whole record at the stream
      position. It fails on a write-only stream and at the end of the file. */
  function ReadRecord(log: PacctLog): (s: Step<Entry>)
    ensures s.result.Ok? <==> Readable(log.mode) && log.cursor < |log.records|
    ensures s.result.Ok? ==>
              s.result.value == log.records[log.cursor] && s.log == log.(cursor := log.cursor + 1)
    ensures s.result.Err? ==> s.result.error == IOError && s.log == log
  {
    if Readable(log.mode) && log.cursor < |log.records|
    then Step(log.(cursor := log.cursor + 1), Ok(log.records[log.cursor]))
    else Step(log, Err(IOError))
  }

  function Min(a: nat, b: nat): nat { if a < b then a else b }

  /** The records from index `from` on, at most `count` of them. */
  function Window(records: seq<Entry>, from: nat, count: nat): seq<Entry>
  {
    if from >= |records| then [] else records[from..Min(from + count, |records|)]
  }

  lemma WindowStep(records: seq<Entry>, from: nat, count: nat)
    requires from < |records| && count > 0
    ensures Window(records, from, count) == [records[from]] + Window(records, from + 1, count - 1)
  {
  }

  /** The loop of `each_entry`: `count` successive reads, stopping at the
      first one that fails. */
  function ReadRecords(log: PacctLog, count: nat): (it: Iteration)
    decreases count
    ensures it.yielded == if Readable(log.mode) then Window(log.records, log.cursor, count) else []
    ensures it.failure.None? <==> count == 0 || (Readable(log.mode) && log.cursor + count <= |log.records|)
    ensures it.failure.Some? ==> it.failure.value == IOError
    ensures it.log == log.(cursor := log.cursor + |it.yielded|)
  {
    if count == 0 then Iteration(log, [], None)
    else
      var first := ReadRecord(log);
      match first.result
      case Err(k) => Iteration(first.log, [], Some(k))
      case Ok(e) =>
        var rest := ReadRecords(first.log, count - 1);
        WindowStep(log.records, log.cursor, count);
        Iteration(rest.log, [e] + rest.yielded, rest.failure)
  }

  /** The start arguments `each_entry` refuses before touching the stream:
      one outside a C `int`, or one past the last record. */
  predicate StartOutOfRange(log: PacctLog, start: Option<int>)
  {
    start.Some? && (start.value < INT_MIN || start.value > INT_MAX || start.value > log.numEntries)
  }

  /** `each_entry(start)`: seek to record `start` (0 when absent) and yield
      every record from there to the last counted one. A negative start makes
      the seek fail. */
  function EachEntry(log: PacctLog, start: Option<int>): (it: Iteration)
    requires log.isOpen || StartOutOfRange(log, start)
    ensures it.failure == Some(RangeError) <==> StartOutOfRange(log, start)
    ensures it.failure == Some(SeekError) <==> !StartOutOfRange(log, start) && start.Some? && start.value < 0
    ensures it.log == log.(cursor := it.log.cursor)
    ensures Valid(log) && !StartOutOfRange(log, start) && (start.None? || start.value >= 0) ==>
              var from := if start.None? then 0 else start.value;
              if Readable(log.mode) then
                it == Iteration(log.(cursor := |log.records|), log.records[from..], None)
              else
                it.yielded == [] && (it.failure.None? <==> from == |log.records|)
    ensures Valid(log) ==> Valid(it.log)
  {
    var from := if start.None? then 0 else start.value;
    if StartOutOfRange(log, start) then Iteration(log, [], Some(RangeError))
    else if from < 0 then Iteration(log, [], Some(SeekError))
    else
      var it := ReadRecords(log.(cursor := from), log.numEntries - from);
      assert Valid(log) ==> Window(log.records, from, log.numEntries - from) == log.records[from..];
      it
  }

  /** `last_entry`: nil for an empty log; otherwise seek to the final record,
      read it and seek back to where the stream was. */
  function LastEntry(log: PacctLog): (s: Step<Option<Entry>>)
    requires log.isOpen || log.numEntries == 0
    ensures log.numEntries == 0 ==> s == Step(log, Ok(None))
    ensures Valid(log) && log.numEntries > 0 && Readable(log.mode) ==>
              s == Step(log, Ok(Some(log.records[|log.records| - 1])))
    ensures Valid(log) && log.numEntries > 0 && !Readable(log.mode) ==>
              s == Step(log.(cursor := |log.records| - 1), Err(IOError))
    ensures s.log == log.(cursor := s.log.cursor)
    ensures Valid(log) ==> Valid(s.log)
  {
    if log.numEntries == 0 then Step(log, Ok(None))
    else if |log.records| == 0 then Step(log, Err(SeekError))
    else
      var read := ReadRecord(log.(cursor := |log.records| - 1));
      match read.result
      case Err(k) => Step(read.log, Err(k))
      case Ok(e) => Step(read.log.(cursor := log.cursor), Ok(Some(e)))
  }

  /** `num_entries`: the count passed through a C `int`, so it wraps modulo
      2^32 into the signed 32-bit range. */
  function NumEntries(log: PacctLog): (n: int)
    ensures INT_MIN <= n <= INT_MAX
    ensures (n - log.numEntries) % 0x1_0000_0000 == 0
    ensures log.numEntries <= INT_MAX ==> n == log.numEntries
  {
    var low := log.numEntries % 0x1_0000_0000;
    if low > INT_MAX then low - 0x1_0000_0000 else low
  }

  // ---------------------------------------------------------------------------
  // Writing and closing
  // ---------------------------------------------------------------------------

  /** `write_entry(entry)`: seek to the end, append the record, count it and
      seek back. A failed write raises before the count or the position is
      restored. */
  function WriteEntry(log: PacctLog, e: Entry): (s: Step<()>)
    requires log.isOpen
    ensures s.result.Ok? <==> Writable(log.mode)
    ensures s.result.Ok? ==> s.log == log.(records := log.records + [e], numEntries := log.numEntries + 1)
    ensures s.result.Err? ==> s.result.error == IOError
    ensures s.result.Err? ==> s.log == log.(cursor := |log.records|)
    ensures Valid(log) ==> Valid(s.log)
  {
    if Writable(log.mode)
    then Step(log.(records := log.records + [e], numEntries := log.numEntries + 1), Ok(()))
    else Step(log.(cursor := |log.records|), Err(IOError))
  }

  /** `close`: the stream is closed once; closing again does nothing. */
  function Close(log: PacctLog): (r: PacctLog)
    ensures !r.isOpen
    ensures r.records == log.records && r.numEntries == log.numEntries
    ensures r.mode == log.mode && r.cursor == log.cursor
    ensures Valid(log) ==> Valid(r)
  {
    if log.isOpen then log.(isOpen := false) else log
  }
}
