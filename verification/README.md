# pacct: a Dafny model of the acct(5) log reader/writer

This project models the C core of the `pacct` Ruby extension
(`ext/pacct/pacct_c.c`). The extension reads and appends Linux process-accounting
files, which are flat sequences of fixed-size `struct acct_v3` records. The model
has three parts:

- **`CompT`** (`comp_t.dfy`): the 16-bit `comp_t` codec, with a 13-bit mantissa
  and a 3-bit base-8 exponent. It covers `comp_t_to_ulong` and `ulong_to_comp_t`
  exactly as the C code computes them. The encoder departs from a consistent
  truncating encoder in two ways, and the model keeps both.
  - It shifts the mantissa by the raw excess `e = bitlen - 13` but records
    `ceil(e / 3)` as the exponent. When `e` is not a multiple of 3, decoding
    gives more than was encoded: 8192 encodes to 0x3000, which decodes to 32768.
  - It tests for overflow before rounding the exponent up. Values of 35 and
    36 bits get exponent `8 & 7 = 0`, so decoding gives back only `v >> e`:
    2^34 encodes to 0x1000, which decodes to 4096.

  A `TruncatingEncode` reference (a truncating encoder whose shift and
  exponent agree; the kernel's own encoder rounds instead) sits beside the codec. A lemma states exactly
  which inputs it agrees with the as-written encoder on.
- **`Entries`** (`entry.dfy`): the record (`Pacct::Entry`) and its accessors.
  - Each CPU time is converted between seconds and clock ticks and passed
    through the codec.
  - Memory is converted between kilobytes and pages, then passed through the
    codec.
  - The command name is a bounded copy that is always NUL-terminated.
  - `Entry.new` gives an all-zero record.
  - The tick rate and the page size are positive parameters.
- **`Logs`** and **`LogProperties`** (`log.dfy`, `log_properties.dfy`): `Pacct::Log`.
  - Its state is the records in the file, the stream position (counted in
    records), `num_entries`, the open mode and the open flag.
  - `new`, `each_entry`, `last_entry`, `num_entries`, `write_entry` and `close`
    are transitions. Each returns the next state and the value returned or
    the exception raised (`Errors.Result`).
  - `each_entry` returns the records it would yield to its block.
- **`Arithmetic`** (`arith.dfy`) holds facts about natural-number division that
  the conversions and the record count rely on. **`Errors`** (`errors.dfy`)
  holds the exception kinds and the `Option` and `Result` wrappers.

## Model

| member | source | states |
|---|---|---|
| CompT.Decode | ext/pacct/pacct_c.c:43-45 | the decoded value is at least the mantissa field and below 2^34; a comp_t with exponent field 0 decodes to itself |
| CompT.DecodeIsScaledMantissa | ext/pacct/pacct_c.c:43-45 | a comp_t decodes to its 13-bit mantissa times 8 to the power of its 3-bit exponent |
| CompT.PackFields | ext/pacct/pacct_c.c:44 | a comp_t is exactly its mantissa field (low 13 bits) packed with its exponent field (top 3 bits) |
| CompT.Pack | ext/pacct/pacct_c.c:84 | packing a 13-bit mantissa and a 3-bit exponent gives a comp_t whose two fields read back as those values |
| CompT.DecodeExamples | spec/entry_spec.rb:6-8 | 1 decodes to 1; `(1<<13)\|1` decodes to 8; `(3<<13)\|20` decodes to `20<<9` |
| CompT.CountBits | ext/pacct/pacct_c.c:62-69 | the bit-counting loop returns the bit length n of its argument: `2^(n-1) <= l < 2^n`, and 0 for 0 |
| CompT.RoundedExponent | ext/pacct/pacct_c.c:79-82 | the exponent before masking is the ceiling of `e / 3` (`3x - 2 <= e <= 3x`) |
| CompT.Encode | ext/pacct/pacct_c.c:61-86 | `ulong_to_comp_t` fails exactly when the value has more than 36 bits, always with RangeError, and a value of at most 13 bits encodes to itself; EncodeLarge, ExponentField and RoundTripExactIff describe the other results |
| CompT.EncodeSmall | ext/pacct/pacct_c.c:70-71 | values below 2^13, 0 included, encode to themselves and decode back exactly |
| CompT.EncodeOverflow | ext/pacct/pacct_c.c:74-78 | the encoder raises an error exactly when the value is 2^36 or more, and the error is RangeError |
| CompT.ExponentField | ext/pacct/pacct_c.c:79-84 | the masked exponent for each excess the overflow test passes: `e/3` on multiples of 3; above `e/3` for other excesses up to 21; 0 for excesses 22 and 23 |
| CompT.EncodeLarge | ext/pacct/pacct_c.c:72-84 | for 14 to 36 bits the mantissa field is `v >> e`, a full 13-bit value, and the exponent field is `ceil(e/3) mod 8` |
| CompT.RoundTripTruncates | ext/pacct/pacct_c.c:84 | when `e` is a multiple of 3, decode after encode clears the low `e` bits, `(v>>e)<<e`, losing less than 2^e |
| CompT.RoundTripOvershoots | ext/pacct/pacct_c.c:84 | when `e` is not a multiple of 3 and the value is below 2^34, decode after encode gives more than the input |
| CompT.ExponentWraps | ext/pacct/pacct_c.c:74-84 | values from 2^34 to below 2^36 pass the overflow test but get exponent 0, so decode gives `v >> e`, less than the input |
| CompT.RoundTripExactIff | ext/pacct/pacct_c.c:61-86 | encode then decode returns the input if and only if the input is exactly representable: below 2^13, or below 2^34 with a multiple-of-3 excess and its low `e` bits clear |
| CompT.OvershootExample | ext/pacct/pacct_c.c:84 | 8192 encodes to 0x3000, which decodes to 32768 |
| CompT.WrapExample | ext/pacct/pacct_c.c:76-84 | 2^34 encodes to 0x1000, which decodes to 4096 |
| CompT.TruncatingEncodeFloor | ext/pacct/pacct_c.c:61-86 | the truncating reference encoder fails exactly from 2^34, and it never decodes above its input |
| CompT.TruncatingAgreesOnMultiples | ext/pacct/pacct_c.c:72-84 | for 14 to 36 bits with an excess that is a multiple of 3, the as-written and truncating reference encoders agree |
| CompT.TruncatingDiffersOffMultiples | ext/pacct/pacct_c.c:72-84 | below 2^34 with an excess that is not a multiple of 3, the as-written encoder differs from the truncating reference one |
| CompT.EncodeAgreesWithTruncatingIff | ext/pacct/pacct_c.c:61-86 | the two encoders agree if and only if the value is below 2^13, at least 2^36, or has an excess that is a multiple of 3 |
| Entries.NewEntry | ext/pacct/pacct_c.c:218-219 | `Entry.new` zeroes the whole record: every numeric field, each comp_t field (which decodes to 0) and every byte of the command buffer |
| Entries.UserTime | ext/pacct/pacct_c.c:482-487 | `user_time` is the user tick count divided by the tick rate, rounding down: a non-negative `r` with `r × rate <= ticks < (r + 1) × rate`; UserTimeRoundTrip relates it to `user_time=` |
| Entries.SystemTime | ext/pacct/pacct_c.c:504-509 | `system_time`: the same floor quotient for the system tick count; SystemTimeRoundTrip relates it to `system_time=` |
| Entries.CpuTime | ext/pacct/pacct_c.c:526-531 | `cpu_time` is the floor quotient of the sum of both tick counts by the tick rate; CpuTimeIsSum relates it to the two separate times |
| Entries.Memory | ext/pacct/pacct_c.c:580-586 | `memory` is the floor quotient of pages × 1024 by the page size: a non-negative `r` with `r × pageSize <= pages × 1024 < (r + 1) × pageSize`; MemoryRoundTrip relates it to `memory=` |
| Entries.SetUserTime | ext/pacct/pacct_c.c:492-499 | `user_time=` raises RangeError exactly when seconds × tick rate reach 2^36; on success only the user-time field changes, and it decodes to the tick count when that count is representable |
| Entries.SetSystemTime | ext/pacct/pacct_c.c:514-521 | `system_time=`: the same contract for the system-time field |
| Entries.SetMemory | ext/pacct/pacct_c.c:591-598 | `memory=` raises RangeError exactly when kilobytes × page size / 1024 reaches 2^36; on success only the memory field changes, and it decodes to that page count when it is representable |
| Entries.NewEntryReadsZero | ext/pacct/pacct_c.c:218-219 | every accessor of a new entry reads 0 or the empty name |
| Entries.UserTimeRoundTrip | ext/pacct/pacct_c.c:482-499 | setting the user time and reading it back gives the seconds set whenever their tick count is exactly representable |
| Entries.SystemTimeRoundTrip | ext/pacct/pacct_c.c:504-521 | the same round trip for the system time |
| Entries.CpuTimeIsSum | ext/pacct/pacct_c.c:526-531 | `cpu_time` lies between `user_time + system_time` and one more than that, because the ticks are added before dividing |
| Entries.MemoryRoundTrip | ext/pacct/pacct_c.c:580-598 | setting the memory and reading it back gives the kilobytes set when the page count is exact (no rounding) and exactly representable |
| Entries.UpToNul | ext/pacct/pacct_c.c:603-608 | the C string in a buffer is its longest NUL-free prefix, ending at the first NUL |
| Entries.Strncpy | ext/pacct/pacct_c.c:617 | for a source without NUL bytes (a C string), the copy has exactly n bytes: the source's bytes where it has them, NUL after its end |
| Entries.CommandName | ext/pacct/pacct_c.c:603-608 | `command_name` is a prefix of the 16-byte buffer with no NUL in it, stopping at the first NUL when there is one; CommandNameRoundTrip relates it to `command_name=` |
| Entries.SetCommandName | ext/pacct/pacct_c.c:613-621 | a name holding a NUL byte is refused with ArgumentError; otherwise only the command field changes and its last byte is NUL |
| Entries.CommandNameRoundTrip | ext/pacct/pacct_c.c:600-621 | after `command_name = s`, `command_name` returns the first `min(\|s\|, 15)` bytes of `s` |
| Entries.FourHundredThousandIsExact | spec/log_spec.rb:78 | 100000 kB on 4096-byte pages is 400000 pages, which the codec stores exactly (excess 6) |
| Entries.SuiteEntryReadsBack | spec/log_spec.rb:69-80 | the test suite's record, at 100 ticks per second and 4096-byte pages, reads back every field as set |
| Entries.HugeMemoryOverflows | spec/entry_spec.rb:17-22 | setting 10^12 kB of memory raises RangeError |
| Logs.ParseMode | ext/pacct/pacct_c.c:155-170 | an absent mode means "rb"; a given mode is accepted if and only if it is the name of one of the four modes; anything else raises ArgumentError |
| Logs.ModeNameParses | ext/pacct/pacct_c.c:14-19 | each of the four mode names parses back to its mode |
| Logs.LengthInRecords | ext/pacct/pacct_c.c:184-192 | a file of n records plus s stray bytes has length ≡ s modulo the record size, and n records when s is 0 |
| Logs.Open | ext/pacct/pacct_c.c:149-195 | ArgumentError exactly for a bad mode, before the file is touched; otherwise success exactly when the mode truncates, or the file exists and holds whole records; a new log is open at position 0 with its count equal to its records, which are empty for "w" modes |
| Logs.ReadRecord | ext/pacct/pacct_c.c:210-217 | a read succeeds exactly on a readable stream before the end of the file; it returns the record at the position and advances by one; a failed read raises IOError and moves nothing |
| Logs.ReadRecords | ext/pacct/pacct_c.c:257-260 | n successive reads yield the next n records, or as many as remain; they fail with IOError exactly when fewer remain or the stream is write-only; the position advances by the number yielded |
| Logs.EachEntry | ext/pacct/pacct_c.c:238-263 | RangeError exactly when start is outside a C int or past the count; a seek failure for a negative start; otherwise, on a consistent log, it yields records `start..` in file order; only the position changes |
| Logs.LastEntry | ext/pacct/pacct_c.c:268-288 | nil for a log with no entries; on a readable consistent log it returns the final record and leaves the log as it was; on a write-only stream it raises IOError with the stream left on the final record |
| Logs.NumEntries | ext/pacct/pacct_c.c:293-299 | the count through a C int: equal to the count up to 2^31 - 1, otherwise congruent to it modulo 2^32 within the int range |
| Logs.WriteEntry | ext/pacct/pacct_c.c:307-329 | succeeds exactly on a writable stream; it then appends the record and adds one to the count with the position unchanged; otherwise it raises IOError with the file and count unchanged and the stream at the end |
| Logs.Close | ext/pacct/pacct_c.c:197-208 | after close the log is closed; its records, count, mode and position are kept, so a consistent log stays consistent |
| LogProperties.WriteAll | ext/pacct/pacct_c.c:307-329 | repeated appends succeed exactly on a writable stream and add the entries in order to the file and to the count; on failure nothing is appended |
| LogProperties.WriteAllKeepsValid | ext/pacct/pacct_c.c:320-324 | appending keeps the count equal to the number of records in the file |
| LogProperties.WriteAllFromEmpty | ext/pacct/pacct_c.c:317-326 | appending to an empty read-write log leaves exactly the appended records, all counted, with the stream still at the start |
| LogProperties.OpenForUpdateIsEmpty | ext/pacct/pacct_c.c:172-192 | opening with "w+b" gives an empty, open log at position 0 |
| LogProperties.WrittenEntriesReadBack | spec/log_spec.rb:82-96 | entries appended to a "w+b" log are yielded back by `each_entry` in order, and `num_entries` counts them |
| LogProperties.LastEntryAfterWrite | spec/log_spec.rb:52-57 | on a read-write stream, `last_entry` right after `write_entry(e)` returns `e`, and neither call moves the stream |
| LogProperties.EachEntryRepeatable | spec/log_spec.rb:40-46 | a second `each_entry` yields the same records with the same outcome as the first |
| LogProperties.CloseIdempotent | ext/pacct/pacct_c.c:201-204 | closing a closed log changes nothing |
| LogProperties.WriteModeStartsEmpty | spec/log_spec.rb:102-107 | opening with "wb" or "w+b" always succeeds, with no entries, no last entry and nothing to iterate |
| LogProperties.SeekParameterExample | spec/log_spec.rb:31-38 | in a one-record file, `each_entry` from 0 yields the record, from 1 yields nothing, and from 2 raises RangeError |
| LogProperties.EmptyFileExample | spec/log_spec.rb:48-59 | an empty file opens with no entries and no last entry, and reading a record from it raises IOError |
| LogProperties.OpenFailures | spec/log_spec.rb:61-67 | a missing file cannot be opened for reading; a file with stray bytes raises IOError, both with the default mode and with "r+b"; an unknown mode raises ArgumentError |
| LogProperties.WriteOnReadOnlyFails | spec/log_spec.rb:98-100 | `write_entry` through an "rb" stream raises IOError and leaves the count as it was |
| LogProperties.SuiteEntryWrittenAndReadBack | spec/log_spec.rb:82-96 | the suite's record appended through "r+b" comes back from `last_entry`, its fields read as set, and the count grows by one |

## Left out

- Ruby binding glue is not modelled: object allocation, argument scanning, method registration and `Init_pacct_c`. The tick rate and page size that `Init_pacct_c` reads from the system are parameters instead.
- CHECK_CALL's error messages and errno handling are not modelled. A failed seek is the single outcome `SeekError`. The "wrong size" seek in `new` and the restoring seeks cannot fail on a regular file, so they are not modelled as failing.
- User and group names are not modelled: they are lookups in the system's password and group databases. A failed lookup raises SystemCallError, with ENODATA when errno is 0.
- `wall_time` is not modelled because it is floating point; `etimeBits` stores the field's raw bits.
- `start_time` goes through Ruby's `Time`; the model keeps only the raw `btime` field.
- `process_id=` and `exit_code=` are plain field stores through `NUM2INT` and are not modelled as functions; `Entry` keeps the stored `U32` fields. There is no `user_id=` or `group_id=`: those fields change only through `user_name=` and `group_name=`, which are left out with the name lookups.
- The `process_id`, `user_id`, `group_id` and `exit_code` getters pass their unsigned 32-bit fields through `INT2NUM`, which reads values of 2^31 or more as negative; the model keeps the unsigned field values and does not model that wrap.
- `print_bin` and the unit-test hooks are not modelled. The hooks appear only as the scenarios they set up: a read from an empty file and a write through a read-only stream.
- stdio buffering and the real filesystem are not modelled, and neither is another process changing the file. The model's only short reads and writes are those the stream mode or the end of the file forces. A partial record at the end of the file cannot arise, because `new` refuses such files.
- fopen failures other than a missing file in an "r" mode are not modelled, for example missing permissions or a missing directory. Neither is a filename holding a NUL byte, which raises ArgumentError.
- The record's byte layout is not modelled; the record size is the constant 64 (`sizeof(struct acct_v3)` on Linux).
- The filename copy that is never NUL-terminated is left out, because it is a memory-safety matter and not behaviour.
- Entries.SetUserTime: the input is a natural number. The C setter multiplies a signed `long` by the tick rate, which can be negative or overflow.
- Entries.SetSystemTime: the input is a natural number, as for the user time.
- Entries.SetMemory: the input is a natural number, as for the user time.
- Entries.CpuTimeIsSum: the getters return unbounded quotients. The C getters pass them through `INT2NUM`, which wraps results of 2^31 or more (for memory, above 2^33 pages at 4096-byte pages).
- Entries.UpToNul: on a buffer with no NUL, the model returns all 16 bytes. The C getter's `strlen` would read past the buffer instead.
- `each_entry`'s documentation promises a block taking `|entry, index|`, but the code yields only the entry (ext/pacct/pacct_c.c:259); the model follows the code and yields entries only.
- Logs.EachEntry: the block is not modelled. It receives the records in order, and a block that calls back into the same log is left out, as is `break`. The loop's C `int` index is assumed not to overflow, which needs more than 2^31 records.
- Logs.EachEntry, Logs.LastEntry and Logs.WriteEntry require an open log whenever they would touch the stream. So `each_entry` may be called on a closed log only with an out-of-range start, and `last_entry` only when the count is 0. No operation checks `log->file`, so on a closed log the C code would hand a NULL stream to stdio. The "already closed" error the test suite expects (spec/log_spec.rb:109-116) does not exist in the code.
