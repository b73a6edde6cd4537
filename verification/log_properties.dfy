/**
 Properties of `Pacct::Log` that span several calls: what is appended is read
 back in order, `last_entry` sees the latest append and leaves the stream
 where it was, iteration can be repeated, and `close` can be repeated. The
 scenarios of spec/log_spec.rb appear at the end as instances.
 */
module LogProperties {
  import opened Errors
  import opened Entries
  import opened Logs

  /** Repeated `write_entry`: append each entry in turn, stopping at the first
      write that fails. */
  function WriteAll(log: PacctLog, es: seq<Entry>): (s: Step<()>)
    requires log.isOpen
    decreases |es|
    ensures s.result.Ok? <==> |es| == 0 || Writable(log.mode)
    ensures s.result.Ok? ==>
              s.log == log.(records := log.records + es, numEntries := log.numEntries + |es|)
    ensures s.result.Err? ==> s.result.error == IOError && s.log == log.(cursor := |log.records|)
  {
    if |es| == 0 then Step(log, Ok(()))
    else
      var first := WriteEntry(log, es[0]);
      if first.result.Err? then first
      else
        assert (log.records + [es[0]]) + es[1..] == log.records + es;
        WriteAll(first.log, es[1..])
  }

  /** Appending keeps the count in step with the file and the stream in it. */
  lemma WriteAllKeepsValid(log: PacctLog, es: seq<Entry>)
    requires log.isOpen && Valid(log)
    ensures Valid(WriteAll(log, es).log)
  {
  }

  /** "w+b" yields an empty, open, read-write log at position 0. */
  lemma OpenForUpdateIsEmpty(file: Option<DiskFile>)
    ensures Open(file, Some("w+b")) == Ok(PacctLog([], 0, 0, WriteUpdate, true))
  {
    assert ParseMode(Some("w+b")) == Ok(WriteUpdate);
  }

  /** Appending to the empty "w+b" log leaves exactly the appended records,
      counted, with the stream still at the start. */
  lemma WriteAllFromEmpty(es: seq<Entry>)
    ensures WriteAll(PacctLog([], 0, 0, WriteUpdate, true), es).result.Ok?
    ensures WriteAll(PacctLog([], 0, 0, WriteUpdate, true), es).log
            == PacctLog(es, 0, |es|, WriteUpdate, true)
  {
    var log := PacctLog([], 0, 0, WriteUpdate, true);
    var s := WriteAll(log, es);
    assert Writable(log.mode);
    assert s.result.Ok?;
    assert s.log == log.(records := log.records + es, numEntries := log.numEntries + |es|);
    assert log.records + es == es;
    assert s.log == PacctLog(es, 0, |es|, WriteUpdate, true);
  }

  /** Entries appended to a log opened with "w+b" are read back by
      `each_entry` in the order they were written, and `num_entries` counts
      them. */
  lemma WrittenEntriesReadBack(file: Option<DiskFile>, es: seq<Entry>)
    ensures Open(file, Some("w+b")).Ok?
    ensures var w := WriteAll(Open(file, Some("w+b")).value, es);
            w.result.Ok? &&
            EachEntry(w.log, None) == Iteration(w.log.(cursor := |es|), es, None) &&
            (|es| <= INT_MAX ==> NumEntries(w.log) == |es|)
  {
    OpenForUpdateIsEmpty(file);
    WriteAllFromEmpty(es);
    var after := PacctLog(es, 0, |es|, WriteUpdate, true);
    assert Valid(after) && Readable(after.mode);
    assert EachEntry(after, None) == Iteration(after.(cursor := |es|), es[0..], None);
    assert es[0..] == es;
  }

  /** On a stream that reads and writes, `last_entry` right after
      `write_entry(e)` returns `e`, and neither call moves the stream. */
  lemma LastEntryAfterWrite(log: PacctLog, e: Entry)
    requires log.isOpen && Valid(log)
    requires log.mode == ReadUpdate || log.mode == WriteUpdate
    ensures WriteEntry(log, e).result.Ok?
    ensures LastEntry(WriteEntry(log, e).log) == Step(WriteEntry(log, e).log, Ok(Some(e)))
    ensures WriteEntry(log, e).log.cursor == log.cursor
  {
  }

  /** Running `each_entry` again after it finished yields the same records. */
  lemma EachEntryRepeatable(log: PacctLog, start: Option<int>)
    requires log.isOpen && Valid(log)
    ensures EachEntry(EachEntry(log, start).log, start).yielded == EachEntry(log, start).yielded
    ensures EachEntry(EachEntry(log, start).log, start).failure == EachEntry(log, start).failure
  {
  }

  /** A closed log stays closed, and closing it again changes nothing. */
  lemma CloseIdempotent(log: PacctLog)
    ensures Close(Close(log)) == Close(log)
  {
  }

  /** Opening with "wb" or "w+b" gives an empty log whatever was on disk:
      there is no last entry and nothing to iterate. */
  lemma WriteModeStartsEmpty(file: Option<DiskFile>, mode: string)
    requires mode == "wb" || mode == "w+b"
    ensures Open(file, Some(mode)).Ok?
    ensures NumEntries(Open(file, Some(mode)).value) == 0
    ensures LastEntry(Open(file, Some(mode)).value).result == Ok(None)
    ensures EachEntry(Open(file, Some(mode)).value, None).yielded == []
    ensures EachEntry(Open(file, Some(mode)).value, None).failure == None
  {
    assert ModeName(Write) == "wb" && ModeName(WriteUpdate) == "w+b";
  }

  // ---------------------------------------------------------------------------
  // The scenarios of the log test suite
  // ---------------------------------------------------------------------------

  /** A one-record file: iterating from 0 yields the record, from 1 yields
      nothing, and 2 is out of range. */
  lemma SeekParameterExample(e: Entry)
    ensures Open(Some(DiskFile([e], 0)), None).Ok?
    ensures var log := Open(Some(DiskFile([e], 0)), None).value;
            EachEntry(log, None).yielded == [e] &&
            EachEntry(log, Some(1)) == Iteration(log.(cursor := 1), [], None) &&
            EachEntry(log, Some(2)).failure == Some(RangeError)
  {
    LengthInRecords(DiskFile([e], 0));
  }

  /** An empty file has no last entry; reading a record from it fails. */
  lemma EmptyFileExample()
    ensures Open(Some(DiskFile([], 0)), None) == Ok(PacctLog([], 0, 0, Read, true))
    ensures LastEntry(PacctLog([], 0, 0, Read, true)).result == Ok(None)
    ensures ReadRecord(PacctLog([], 0, 0, Read, true)).result == Err(IOError)
  {
    LengthInRecords(DiskFile([], 0));
  }

  /** A missing file cannot be opened for reading; a ragged one is refused,
      with the default mode as with "r+b". */
  lemma OpenFailures(records: seq<Entry>, slack: Slack)
    requires slack > 0
    ensures Open(None, None) == Err(IOError)
    ensures Open(Some(DiskFile(records, slack)), None) == Err(IOError)
    ensures Open(Some(DiskFile(records, slack)), Some("r+b")) == Err(IOError)
    ensures Open(Some(DiskFile(records, slack)), Some("a")) == Err(ArgumentError)
  {
    LengthInRecords(DiskFile(records, slack));
  }

  /** Writing through a stream opened "rb" raises IOError and counts nothing. */
  lemma WriteOnReadOnlyFails(file: DiskFile, e: Entry)
    requires file.slack == 0
    ensures Open(Some(file), Some("rb")).Ok?
    ensures var log := Open(Some(file), Some("rb")).value;
            WriteEntry(log, e).result == Err(IOError) &&
            NumEntries(WriteEntry(log, e).log) == NumEntries(log)
  {
    LengthInRecords(file);
  }

  /** The suite's record, appended through "r+b" to an existing file, comes
      back from `last_entry` with every field as set. */
  lemma SuiteEntryWrittenAndReadBack(file: DiskFile, e: Entry)
    requires file.slack == 0
    requires SuiteEntry(100, 4096) == Ok(e)
    ensures Open(Some(file), Some("r+b")).Ok?
    ensures var log := Open(Some(file), Some("r+b")).value;
            var w := WriteEntry(log, e);
            w.result.Ok? &&
            LastEntry(w.log).result == Ok(Some(e)) &&
            w.log.numEntries == log.numEntries + 1
    ensures CommandName(e) == [108, 115] && UserTime(e, 100) == 1 && SystemTime(e, 100) == 1
    ensures Memory(e, 4096) == 100000 && e.pid == 3 && e.exitcode == 2
  {
    SuiteEntryReadsBack();
    LengthInRecords(file);
    var log := Open(Some(file), Some("r+b")).value;
    LastEntryAfterWrite(log, e);
  }
}
