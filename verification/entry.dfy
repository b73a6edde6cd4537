/**
 One acct(5) `struct acct_v3` record (a `Pacct::Entry`) and the accessors of
 ext/pacct/pacct_c.c that transform its fields: CPU times and memory go
 through the comp_t codec, the command name is a bounded NUL-terminated copy,
 and the remaining fields are stored verbatim.

 The clock-tick rate (`sysconf(_SC_CLK_TCK)`) and the page size
 (`getpagesize()`) are read from the system when the extension loads; here
 they are positive parameters.
 */
module Entries {
  import opened Errors
  import opened CompT
  import opened Arithmetic

  type Byte = b: nat | b < 0x100

  /** An unsigned 32-bit field. */
  type U32 = x: nat | x < 0x1_0000_0000

  /** A clock-tick rate or a page size. */
  type Positive = n: nat | n > 0 witness 1

  /** ACCT_COMM of <sys/acct.h>: the length of the command-name buffer. */
  const ACCT_COMM: nat := 16

  /** Bytes per kilobyte, the unit `memory` is reported in. */
  const KILOBYTE: nat := 1024

  /** `n` NUL bytes. */
  function Zeros(n: nat): (z: seq<Byte>)
    ensures |z| == n
    ensures forall i :: 0 <= i < n ==> z[i] == 0
  {
    seq(n, i => 0)
  }

  /** The `char ac_comm[ACCT_COMM]` buffer. */
  type CommBuffer = s: seq<Byte> | |s| == ACCT_COMM witness Zeros(ACCT_COMM)

  /** The fields of `struct acct_v3` that the extension reads or writes, plus
      the parent process id. */
  datatype Entry = Entry(
    pid: U32,             // ac_pid
    ppid: U32,            // ac_ppid
    uid: U32,             // ac_uid
    gid: U32,             // ac_gid
    utime: CompT,         // ac_utime, clock ticks
    stime: CompT,         // ac_stime, clock ticks
    mem: CompT,           // ac_mem, pages
    etimeBits: U32,       // ac_etime, the raw bits of a float
    btime: U32,           // ac_btime, seconds since the epoch
    exitcode: U32,        // ac_exitcode
    comm: CommBuffer      // ac_comm
  )

  /** `Entry.new`: a record whose every byte is zero. */
  function NewEntry(): (e: Entry)
    ensures e.pid == 0 && e.ppid == 0 && e.uid == 0 && e.gid == 0
    ensures e.etimeBits == 0 && e.btime == 0 && e.exitcode == 0
    ensures Decode(e.utime) == 0 && Decode(e.stime) == 0 && Decode(e.mem) == 0
    ensures forall i :: 0 <= i < ACCT_COMM ==> e.comm[i] == 0
  {
    Entry(0, 0, 0, 0, 0, 0, 0, 0, 0, 0, Zeros(ACCT_COMM))
  }

  // ---------------------------------------------------------------------------
  // CPU times
  // ---------------------------------------------------------------------------

  /** `user_time`: whole seconds of user CPU time. */
  function UserTime(e: Entry, ticksPerSecond: Positive): (r: int)
    ensures 0 <= r
    ensures r * ticksPerSecond <= Decode(e.utime) < r * ticksPerSecond + ticksPerSecond
  {
    Quotient(Decode(e.utime), ticksPerSecond)
  }

  /** `system_time`: whole seconds of system CPU time. */
  function SystemTime(e: Entry, ticksPerSecond: Positive): (r: int)
    ensures 0 <= r
    ensures r * ticksPerSecond <= Decode(e.stime) < r * ticksPerSecond + ticksPerSecond
  {
    Quotient(Decode(e.stime), ticksPerSecond)
  }

  /** `cpu_time`: the two tick counts are added before dividing. */
  function CpuTime(e: Entry, ticksPerSecond: Positive): (r: int)
    ensures 0 <= r
    ensures r * ticksPerSecond <= Decode(e.utime) + Decode(e.stime)
                                < r * ticksPerSecond + ticksPerSecond
  {
    Quotient(Decode(e.utime) + Decode(e.stime), ticksPerSecond)
  }

  /** `user_time=`: the seconds are converted to ticks and encoded; an
      encoder overflow leaves the record unchanged and raises RangeError. */
  function SetUserTime(e: Entry, seconds: nat, ticksPerSecond: Positive): (r: Result<Entry>)
    ensures r.Err? <==> seconds * ticksPerSecond >= Pow2(36)
    ensures r.Err? ==> r.error == RangeError
    ensures r.Ok? ==> r.value == e.(utime := r.value.utime)
    ensures r.Ok? && ExactlyRepresentable(seconds * ticksPerSecond) ==>
              Decode(r.value.utime) == seconds * ticksPerSecond
  {
    EncodeOverflow(seconds * ticksPerSecond);
    RoundTripExactIff(seconds * ticksPerSecond);
    match Encode(seconds * ticksPerSecond)
    case Ok(c) => Ok(e.(utime := c))
    case Err(k) => Err(k)
  }

  /** `system_time=`, as `user_time=` for the system CPU time. */
  function SetSystemTime(e: Entry, seconds: nat, ticksPerSecond: Positive): (r: Result<Entry>)
    ensures r.Err? <==> seconds * ticksPerSecond >= Pow2(36)
    ensures r.Err? ==> r.error == RangeError
    ensures r.Ok? ==> r.value == e.(stime := r.value.stime)
    ensures r.Ok? && ExactlyRepresentable(seconds * ticksPerSecond) ==>
              Decode(r.value.stime) == seconds * ticksPerSecond
  {
    EncodeOverflow(seconds * ticksPerSecond);
    RoundTripExactIff(seconds * ticksPerSecond);
    match Encode(seconds * ticksPerSecond)
    case Ok(c) => Ok(e.(stime := c))
    case Err(k) => Err(k)
  }

  // ---------------------------------------------------------------------------
  // Memory
  // ---------------------------------------------------------------------------

  /** `memory`: pages converted to kilobytes, rounding down. */
  function Memory(e: Entry, pageSize: Positive): (r: int)
    ensures 0 <= r
    ensures r * pageSize <= Decode(e.mem) * KILOBYTE < r * pageSize + pageSize
  {
    Quotient(Decode(e.mem) * KILOBYTE, pageSize)
  }

  /** `memory=`: kilobytes converted to pages, rounding down, then encoded. */
  function SetMemory(e: Entry, kilobytes: nat, pageSize: Positive): (r: Result<Entry>)
    ensures r.Err? <==> kilobytes * pageSize / KILOBYTE >= Pow2(36)
    ensures r.Err? ==> r.error == RangeError
    ensures r.Ok? ==> r.value == e.(mem := r.value.mem)
    ensures r.Ok? && ExactlyRepresentable(kilobytes * pageSize / KILOBYTE) ==>
              Decode(r.value.mem) == kilobytes * pageSize / KILOBYTE
  {
    EncodeOverflow(kilobytes * pageSize / KILOBYTE);
    RoundTripExactIff(kilobytes * pageSize / KILOBYTE);
    match Encode(kilobytes * pageSize / KILOBYTE)
    case Ok(c) => Ok(e.(mem := c))
    case Err(k) => Err(k)
  }

  // ---------------------------------------------------------------------------
  // Command name
  // ---------------------------------------------------------------------------

  /** The C string held in a buffer: the bytes before the first NUL, or the
      whole buffer when it holds none. */
  function UpToNul(s: seq<Byte>): (r: seq<Byte>)
    ensures |r| <= |s| && r == s[..|r|]
    ensures forall i :: 0 <= i < |r| ==> r[i] != 0
    ensures |r| < |s| ==> s[|r|] == 0
  {
    if |s| == 0 || s[0] == 0 then [] else [s[0]] + UpToNul(s[1..])
  }

  /** `strncpy(dst, src, n)` on a C string `src` (one without NUL bytes): the
      first `n` bytes of `src`, padded with NULs up to `n` when it is shorter. */
  function Strncpy(src: seq<Byte>, n: nat): (r: seq<Byte>)
    requires 0 !in src
    ensures |r| == n
    ensures forall i :: 0 <= i < n && i < |src| ==> r[i] == src[i]
    ensures forall i :: |src| <= i < n ==> r[i] == 0
  {
    if |src| >= n then src[..n] else src + Zeros(n - |src|)
  }

  /** `command_name`: the C string in `ac_comm`. */
  function CommandName(e: Entry): (r: seq<Byte>)
    ensures |r| <= ACCT_COMM && r == e.comm[..|r|]
    ensures 0 !in r
    ensures |r| < ACCT_COMM ==> e.comm[|r|] == 0
  {
    UpToNul(e.comm)
  }

  /** `command_name=`: at most ACCT_COMM - 1 bytes of the name are copied and
      the last byte of the buffer is always NUL. A name holding a NUL byte is
      refused with ArgumentError, as the C-string conversion does. */
  function SetCommandName(e: Entry, name: seq<Byte>): (r: Result<Entry>)
    ensures r.Err? <==> 0 in name
    ensures r.Err? ==> r.error == ArgumentError
    ensures r.Ok? ==> r.value == e.(comm := r.value.comm)
    ensures r.Ok? ==> r.value.comm[ACCT_COMM - 1] == 0
  {
    if 0 in name then Err(ArgumentError)
    else Ok(e.(comm := Strncpy(name, ACCT_COMM - 1) + [0]))
  }

  // ---------------------------------------------------------------------------
  // Properties of the accessors
  // ---------------------------------------------------------------------------

  /** Every accessor of a fresh record reads zero or the empty name. */
  lemma NewEntryReadsZero(ticksPerSecond: Positive, pageSize: Positive)
    ensures UserTime(NewEntry(), ticksPerSecond) == 0
    ensures SystemTime(NewEntry(), ticksPerSecond) == 0
    ensures CpuTime(NewEntry(), ticksPerSecond) == 0
    ensures Memory(NewEntry(), pageSize) == 0
    ensures CommandName(NewEntry()) == []
    ensures NewEntry().pid == 0 && NewEntry().uid == 0 && NewEntry().gid == 0
    ensures NewEntry().btime == 0 && NewEntry().exitcode == 0
  {
  }

  /** Setting a CPU time and reading it back gives the seconds set, whenever
      their tick count is exactly representable. */
  lemma UserTimeRoundTrip(e: Entry, seconds: nat, ticksPerSecond: Positive)
    requires ExactlyRepresentable(seconds * ticksPerSecond)
    ensures SetUserTime(e, seconds, ticksPerSecond).Ok?
    ensures UserTime(SetUserTime(e, seconds, ticksPerSecond).value, ticksPerSecond) == seconds
  {
    RoundTripExactIff(seconds * ticksPerSecond);
    MulDivCancel(seconds, ticksPerSecond);
  }

  lemma SystemTimeRoundTrip(e: Entry, seconds: nat, ticksPerSecond: Positive)
    requires ExactlyRepresentable(seconds * ticksPerSecond)
    ensures SetSystemTime(e, seconds, ticksPerSecond).Ok?
    ensures SystemTime(SetSystemTime(e, seconds, ticksPerSecond).value, ticksPerSecond) == seconds
  {
    RoundTripExactIff(seconds * ticksPerSecond);
    MulDivCancel(seconds, ticksPerSecond);
  }

  /** `cpu_time` is the sum of `user_time` and `system_time`, or one more when
      the leftover ticks of the two add up to a whole second. */
  lemma CpuTimeIsSum(e: Entry, ticksPerSecond: Positive)
    ensures UserTime(e, ticksPerSecond) + SystemTime(e, ticksPerSecond)
            <= CpuTime(e, ticksPerSecond)
            <= UserTime(e, ticksPerSecond) + SystemTime(e, ticksPerSecond) + 1
  {
    DivOfSum(Decode(e.utime), Decode(e.stime), ticksPerSecond);
  }

  /** Setting the memory and reading it back gives the kilobytes set, when
      `kilobytes * pageSize` is a multiple of 1024 (no rounding to whole
      pages) and the page count is exactly representable. */
  lemma MemoryRoundTrip(e: Entry, kilobytes: nat, pageSize: Positive)
    requires (kilobytes * pageSize) % KILOBYTE == 0
    requires ExactlyRepresentable(kilobytes * pageSize / KILOBYTE)
    ensures SetMemory(e, kilobytes, pageSize).Ok?
    ensures Memory(SetMemory(e, kilobytes, pageSize).value, pageSize) == kilobytes
  {
    var pages := kilobytes * pageSize / KILOBYTE;
    RoundTripExactIff(pages);
    assert pages * KILOBYTE == kilobytes * pageSize;
    MulDivCancel(kilobytes, pageSize);
  }

  /** The NUL-terminated name is the bytes before the terminator. */
  lemma {:induction false} UpToNulOfTerminated(p: seq<Byte>, rest: seq<Byte>)
    requires 0 !in p
    requires |rest| > 0 && rest[0] == 0
    ensures UpToNul(p + rest) == p
  {
    if |p| > 0 {
      assert (p + rest)[1..] == p[1..] + rest;
      UpToNulOfTerminated(p[1..], rest);
    }
  }

  /** After `command_name = s`, `command_name` gives back the first
      ACCT_COMM - 1 bytes of `s`. */
  lemma CommandNameRoundTrip(e: Entry, name: seq<Byte>)
    requires 0 !in name
    ensures SetCommandName(e, name).Ok?
    ensures CommandName(SetCommandName(e, name).value)
            == name[..if |name| < ACCT_COMM - 1 then |name| else ACCT_COMM - 1]
  {
    var k := if |name| < ACCT_COMM - 1 then |name| else ACCT_COMM - 1;
    var buffer := Strncpy(name, ACCT_COMM - 1) + [0];
    assert buffer == name[..k] + (buffer[k..]);
    UpToNulOfTerminated(name[..k], buffer[k..]);
  }

  /** The page count of 100000 kB on 4096-byte pages, 400000, has 19 bits
      and its low six bits clear, so it survives the codec. */
  lemma FourHundredThousandIsExact()
    ensures ExactlyRepresentable(400000)
  {
    Pow2Values();
    assert Pow2(18) == 0x4_0000 by {
      assert Pow2(14) == 2 * Pow2(13);
      assert Pow2(15) == 2 * Pow2(14);
      assert Pow2(16) == 2 * Pow2(15);
      assert Pow2(17) == 2 * Pow2(16);
      assert Pow2(18) == 2 * Pow2(17);
    }
    assert Pow2(19) == 2 * Pow2(18);
    BitLengthIs(400000, 19);
    assert Excess(400000) == 6;
    assert LowBitsClear(400000, 6) by {
      assert LowBitsClear(6250, 0);
      assert LowBitsClear(12500, 1);
      assert LowBitsClear(25000, 2);
      assert LowBitsClear(50000, 3);
      assert LowBitsClear(100000, 4);
      assert LowBitsClear(200000, 5);
    }
  }

  /** The record the log test suite builds: process 3, exit code 2, command
      "ls", one second of user and of system time, 100000 kB of memory. */
  function SuiteEntry(ticksPerSecond: Positive, pageSize: Positive): Result<Entry>
  {
    match SetCommandName(NewEntry().(pid := 3, exitcode := 2), [108, 115])
    case Err(k) => Err(k)
    case Ok(e1) =>
      match SetUserTime(e1, 1, ticksPerSecond)
      case Err(k) => Err(k)
      case Ok(e2) =>
        match SetSystemTime(e2, 1, ticksPerSecond)
        case Err(k) => Err(k)
        case Ok(e3) => SetMemory(e3, 100000, pageSize)
  }

  /** At 100 ticks per second on 4096-byte pages every field of the suite's
      record reads back as it was set. */
  lemma SuiteEntryReadsBack()
    ensures SuiteEntry(100, 4096).Ok?
    ensures CommandName(SuiteEntry(100, 4096).value) == [108, 115]
    ensures UserTime(SuiteEntry(100, 4096).value, 100) == 1
    ensures SystemTime(SuiteEntry(100, 4096).value, 100) == 1
    ensures Memory(SuiteEntry(100, 4096).value, 4096) == 100000
    ensures SuiteEntry(100, 4096).value.pid == 3
    ensures SuiteEntry(100, 4096).value.exitcode == 2
  {
    var e0 := NewEntry().(pid := 3, exitcode := 2);
    CommandNameRoundTrip(e0, [108, 115]);
    var e1 := SetCommandName(e0, [108, 115]).value;
    assert CommandName(e1) == [108, 115];
    EncodeSmall(100);
    UserTimeRoundTrip(e1, 1, 100);
    var e2 := SetUserTime(e1, 1, 100).value;
    SystemTimeRoundTrip(e2, 1, 100);
    var e3 := SetSystemTime(e2, 1, 100).value;
    assert e3.comm == e1.comm && e3.utime == e2.utime;
    assert 100000 * 4096 / KILOBYTE == 400000;
    FourHundredThousandIsExact();
    RoundTripExactIff(400000);
    var e4 := SetMemory(e3, 100000, 4096).value;
    assert Decode(e4.mem) == 400000;
    assert SuiteEntry(100, 4096) == Ok(e4);
    assert e4.comm == e1.comm && e4.utime == e2.utime && e4.stime == e3.stime;
  }

  /** Setting 10^12 kB on 4096-byte pages overflows the exponent. */
  lemma HugeMemoryOverflows(e: Entry)
    ensures SetMemory(e, 1_000_000_000_000, 4096) == Err(RangeError)
  {
    Pow2Values();
  }
}
