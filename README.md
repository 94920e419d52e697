# elf_det helpers in Dafny

elf_det is a Linux kernel module. Given a PID written to `/proc/elf_det/pid`,
it reports on that process. The module in `src/elf_det.c` prints the PID,
the name, the CPU usage, the code and data bounds, a BSS guess taken from
the third memory area, and one entry of the saved auxiliary vector. A set of
header-only C helpers is written for fuller reports: heap and stack ranges,
per-thread states and CPU affinity, memory-pressure statistics and open
sockets. They turn raw process facts into derived, bounded values. The module
in `src/elf_det.c` calls none of them. This project models and verifies
those helpers:

- `src/elf_helpers.h` holds six of them: CPU usage in permyriad, BSS and heap
  ranges, the half-open address test, the task-state letter, and the CPU
  affinity list.
- `src/elf_det.h` holds the same six with identical bodies. It adds the procfs
  glue (the PID write buffer, the read/EOF toggle, the procfile line), the
  memory-map rendering (size with unit, bar width, one region's text block),
  the network-interface tally, the memory-pressure helpers and the socket name
  tables.

The six shared helpers are modelled once, in `ElfHelpers`, and cited by their
lines in `src/elf_helpers.h`.

The modules are:

- `CTypes`: the C integer widths as subset types (`u8`, `u16`, `u64` for
  `unsigned long` on LP64, `i32` for `int`, `i64` for `long`), `Option`, and
  small arithmetic lemmas.
- `CStrings`:
  - decimal formatting (`%d`, `%lu`) and its inverse;
  - `snprintf` as the function `Put`: the first `n - 1` characters and a NUL
    are stored, and the call returns the full length;
  - reading a C string back (`CStr`);
  - `StreamIn`, the invariant of the C idiom `len += snprintf(buf + len, size - len, ...)`:
    the buffer holds the part of the concatenated texts that fits, then a NUL,
    and is otherwise untouched.
- `ElfHelpers`: the six shared helpers. `build_cpu_affinity_string` is a method
  over a nullable buffer, with its loop and invariants. It is specified by the
  function `AffinityText`.
- `ProcfsIo`:
  - `update_pid_write_buffer`, as a method with the `memset` and `memcpy` loops;
  - `procfile_read_should_finish`, on an `int` cell;
  - `format_procfile_output`.
- `MemoryStats`: RSS, pages to KB, fault totals, the OOM score range, the usage
  percentage, the swap-pressure rule and `format_page_fault_stats`.
- `SocketNames`: the address family, socket type and TCP state tables (TCP
  states as numbered by Linux for the RFC 793, section 3.2 state diagram),
  each with its inverse table.
- `Visualization`:
  - `format_size_with_unit`;
  - `calculate_bar_width`;
  - `generate_region_visualization`, as a method that drives the bar loops
    over the buffer.
- `NetdevTally`: `add_netdev_count` as a method of a class whose array and
  length stand for the caller's `list` and `*list_len`. It is specified by
  `TallyStep`, and `TallyAll` folds `TallyStep` over a run of calls.

C NULL pointers are modelled as follows:

- a NULL buffer is the `null` of an `array?<char>`;
- a NULL string argument is `None`;
- a NULL `int *` is a `null` `IntCell?`.

## Model

| member | source | states |
|---|---|---|
| CStrings.DecimalRoundTrip | src/elf_helpers.h:135 | the `%d` text of a non-negative number is all digits and reads back as that number |
| CStrings.Snprintf | src/elf_det.h:66 | snprintf into a buffer of size n stores the first n - 1 characters and a NUL (nothing when n is 0), leaves the rest alone, and returns the text's full length |
| CStrings.SnprintfAppend | src/elf_det.h:295-307 | one more `len += snprintf(buf + len, size - len, s)` keeps the buffer holding the fitting prefix of all texts so far, and len their total length |
| CStrings.StreamAppend | src/elf_det.h:295-307 | the buffer invariant of the append idiom is preserved by appending one more text |
| CStrings.CStrOfPut | src/elf_det.h:66 | a reader of the buffer after snprintf sees the text cut to n - 1 characters |
| CStrings.StreamCStr | src/elf_det.h:295-307 | after a run of appends, a reader sees the concatenated texts cut to size - 1 characters |
| ElfHelpers.UsagePermyriad | src/elf_helpers.h:14-19 | 0 when no time elapsed; otherwise the floor of 10000 * total / delta, not clamped |
| ElfHelpers.UsageMonotonic | src/elf_helpers.h:14-19 | more CPU time over the same interval never gives lower usage |
| ElfHelpers.UsageFullScale | src/elf_helpers.h:14-19 | k times the interval of CPU time reads exactly k * 10000 |
| ElfHelpers.UsageExamples | src/elf_det_tests.c:11-15 | the unit-test values 0, 5000, 2500, 10000 and 0 |
| ElfHelpers.ComputeBssRange | src/elf_helpers.h:26-39 | success iff end_data <= start_brk, then exactly that range; otherwise 0 with a zero range; the range is never inverted |
| ElfHelpers.ComputeHeapRange | src/elf_helpers.h:49-61 | success iff start_brk <= brk (empty heap allowed), then exactly that range; otherwise 0 with a zero range |
| ElfHelpers.IsAddressInRange | src/elf_helpers.h:67-76 | true iff start <= addr < end; always false for an inverted range |
| ElfHelpers.AddressRangeSplit | src/elf_helpers.h:67-76 | cutting a range at an interior point puts each address in exactly one half |
| ElfHelpers.ThreadStateChar | src/elf_helpers.h:89-109 | '?' exactly for the codes outside the seven known task states |
| ElfHelpers.ThreadStateCode | src/elf_helpers.h:89-109 | the inverse table maps a letter only to a known state code |
| ElfHelpers.ThreadStateExamples | src/elf_det_tests.c:63-71 | codes 0, 1, 2, 4, 8, 32, 64 give 'R', 'S', 'D', 'T', 't', 'Z', 'X'; 0x9999 and 0xFFFF give '?' |
| ElfHelpers.ThreadStateRoundTrip | src/elf_helpers.h:89-109 | the seven states and their letters are in one-to-one correspondence; '?' stands for none of them |
| ElfHelpers.EnabledCpus | src/elf_helpers.h:131-133 | the CPUs listed are exactly the indices below max_cpus whose mask entry is non-zero, in increasing order |
| ElfHelpers.PiecesJoined | src/elf_helpers.h:135-141 | the "%d," pieces with the last comma dropped are the comma-joined CPU list |
| ElfHelpers.AffinityText | src/elf_helpers.h:122-146 | the string left in the buffer ("none", or the part of the formatted pieces that fits, without its trailing comma when nothing was cut) has no NUL and is shorter than the buffer |
| ElfHelpers.AffinityStreamNoNul | src/elf_helpers.h:131-137 | the texts the loop formats contain no NUL |
| ElfHelpers.AffinityStreamComplete | src/elf_helpers.h:131-137 | when the buffer never fills, the loop formats a "%d," piece for every enabled CPU |
| ElfHelpers.AffinityListsEnabledCpus | src/elf_helpers.h:122-146 | with room in the buffer the text is the comma-joined list of enabled CPUs, or "none" when there is none, and the as-written result is that text's length (4 for "none") |
| ElfHelpers.AffinityStreamSingleDigits | src/elf_helpers.h:131-137 | with single-digit CPUs every formatted piece fits, so the formatted length stays below the buffer size |
| ElfHelpers.AffinityStreamSkipsZeros | src/elf_helpers.h:131-133 | a run of zero mask entries formats nothing |
| ElfHelpers.AffinityStreamDigitRun | src/elf_helpers.h:131-137 | over single-digit CPUs with room for every piece, the loop appends a digit and a comma for each enabled CPU, in order |
| ElfHelpers.AffinityEmittedDigits | src/elf_helpers.h:131-137 | with at most ten CPUs and room for every piece, the whole loop formats exactly those digit-and-comma pieces |
| ElfHelpers.EvenCpusCut | src/elf_helpers.h:131-137 | on CPUs 0, 2, 4, 6 the loop stops after "0,2," either at max_cpus 4 or because a 6-byte buffer fails the `len < buf_size - 2` guard |
| ElfHelpers.AffinitySingleDigitsInBounds | src/elf_helpers.h:139-142 | for at most ten CPUs the as-written NUL store is inside the buffer and the returned length is the text's length |
| ElfHelpers.AffinityAsWrittenOverrun | src/elf_helpers.h:131-141 | CPUs 0 and 100 with max_cpus 101 and buf_size 5: len reaches 6, so the as-written code stores NUL at index 5, out of bounds, and returns 5 for the text "0,10" |
| ElfHelpers.AffinityFinish | src/elf_helpers.h:139-142 | replacing the last character kept in the buffer by NUL leaves the affinity text as a C string |
| ElfHelpers.AffinityNone | src/elf_helpers.h:144-145 | with no CPU formatted the buffer holds "none" and the function returns 4 |
| ElfHelpers.BuildCpuAffinityString | src/elf_helpers.h:122-146 | 0 for a NULL buffer or one under 5; otherwise the buffer holds the affinity text as a C string, the result r is its length, bytes after index r + 1 are untouched, and the result is the original's wherever the original stays in bounds |
| ElfHelpers.AffinityExampleEven | src/elf_det_tests.c:83-85 | mask 1,0,1,0,1,0,1,0 gives "0,2,4,6" and 7 |
| ElfHelpers.AffinityExampleAll | src/elf_det_tests.c:88-90 | all eight CPUs give "0,1,2,3,4,5,6,7" and 15 |
| ElfHelpers.AffinityExampleNone | src/elf_det_tests.c:93-95 | an empty mask gives "none" and 4 |
| ElfHelpers.AffinityExampleSingle | src/elf_det_tests.c:98-100 | only CPU 7 gives "7", only CPU 0 gives "0", each with 1 |
| ElfHelpers.AffinityExampleTruncated | src/elf_det_tests.c:206-214 | max_cpus 4 gives "0,2" and 3; a 6-byte buffer gives "0,2" |
| ProcfsIo.PidBufferLayout | src/elf_det.h:34-37 | after the copy: the copied bytes, NUL up to dst_size, the rest of dst untouched |
| ProcfsIo.PidBufferForgetsOld | src/elf_det.h:35-37 | the first dst_size bytes do not depend on the previous contents, so no stale bytes survive |
| ProcfsIo.PidBufferCString | src/elf_det.h:34-37 | a reader of dst sees exactly the copied input |
| ProcfsIo.PidBufferIdempotent | src/elf_det.h:31-39 | writing the same input twice leaves the same buffer as writing it once |
| ProcfsIo.UpdatePidWriteBuffer | src/elf_det.h:24-40 | 0 and dst untouched for NULL pointers or size 0; otherwise copies min(src_len, dst_size - 1) bytes, zero-fills the rest of dst_size, and returns that count |
| ProcfsIo.ReadStep | src/elf_det.h:45-57 | a set flag gives EOF and clears the flag; a clear flag gives data and sets it |
| ProcfsIo.ReadStepTwice | src/elf_det.h:45-57 | two reads in a row give one data and one EOF and restore the flag |
| ProcfsIo.ReadsAlternate | src/elf_det.h:45-57 | successive reads alternate data and EOF, starting with data from a clear flag |
| ProcfsIo.ProcfileReadShouldFinish | src/elf_det.h:45-57 | a NULL flag means EOF; otherwise the result and the new flag are those of ReadStep |
| ProcfsIo.ProcfileText | src/elf_det.h:66 | the line is "buff variable : ", the stored text, then a newline |
| ProcfsIo.ProcfileTextInjective | src/elf_det.h:66 | distinct stored texts give distinct lines |
| ProcfsIo.FormatProcfileOutput | src/elf_det.h:60-67 | 0 and nothing written for NULL src or out, or out_size <= 0; otherwise snprintf of the line, returning its full length (src is a C string, so it holds no NUL) |
| ProcfsIo.ProcfileOutputReadBack | src/elf_det.h:66 | a reader sees the line cut to out_size - 1 characters, and the whole line when it fits |
| MemoryStats.RssPages | src/elf_det.h:349-354 | RSS is the sum of its three parts and at least each of them |
| MemoryStats.RssMonotonic | src/elf_det.h:349-354 | growing any part never shrinks RSS |
| MemoryStats.PagesToKb | src/elf_det.h:366-367 | the KB count equals the bytes of that many 4096-byte pages |
| MemoryStats.PagesToKbShifted | src/elf_det.h:363-364 | the kernel's shift by PAGE_SHIFT - 10 gives the KB count of pages of 2^PAGE_SHIFT bytes |
| MemoryStats.PagesToKbBranchesAgree | src/elf_det.h:361-369 | with PAGE_SHIFT 12 the kernel and user-space branches agree |
| MemoryStats.TotalFaults | src/elf_det.h:374-378 | the total is major plus minor faults, at least each of them, and equals the major count only when there are no minor faults |
| MemoryStats.TotalFaultsMonotonic | src/elf_det.h:374-378 | more faults of either kind never lower the total |
| MemoryStats.IsValidOomScoreAdj | src/elf_det.h:384-387 | true exactly on -1000..1000 |
| MemoryStats.OomRangeSymmetric | src/elf_det.h:384-387 | the range is closed under negation, contains 0 and excludes -1001 and 1001 |
| MemoryStats.UsagePercent | src/elf_det.h:393-399 | 0 for a zero total; otherwise the floor of used * 100 / total, not clamped |
| MemoryStats.UsagePercentBounded | src/elf_det.h:393-399 | using no more than the total gives at most 100, and all of it exactly 100 |
| MemoryStats.UsagePercentMonotonic | src/elf_det.h:393-399 | more used memory never gives a lower percentage |
| MemoryStats.IsHighMemoryPressure | src/elf_det.h:421-427 | high iff swap * 10 > rss; with no RSS, iff any swap |
| MemoryStats.PressureThreshold | src/elf_det.h:421-427 | high iff swap exceeds a tenth of RSS rounded down |
| MemoryStats.PressureMonotonic | src/elf_det.h:421-427 | more swap or less RSS never turns high pressure off |
| MemoryStats.PressureExamples | src/elf_det.h:421-427 | exactly 10% is not high, one KB more is; no RSS is high only with swap |
| MemoryStats.FaultStatsTotalField | src/elf_det.h:412-414 | the line ends with ", Total: " and a decimal number that reads back as major plus minor faults |
| MemoryStats.FaultStatsTextShape | src/elf_det.h:412-414 | the summary line has no NUL and is 25 characters plus its three numbers |
| MemoryStats.FaultStatsFitSmallestBuffer | src/elf_det.h:409-414 | with fewer than a million faults the line is never cut off, even in the smallest buffer accepted |
| MemoryStats.FormatPageFaultStats | src/elf_det.h:404-415 | 0 and nothing written for a NULL buffer or one under 50; otherwise snprintf of the summary line, returning its full length |
| SocketNames.SocketFamilyName | src/elf_det.h:434-448 | "UNKNOWN" exactly for the codes other than 1, 2, 10, 16 |
| SocketNames.SocketFamilyCode | src/elf_det.h:434-448 | the inverse table yields only known family codes |
| SocketNames.SocketFamilyRoundTrip | src/elf_det.h:434-448 | the known families and their names are in one-to-one correspondence; "UNKNOWN" is none of them |
| SocketNames.SocketTypeName | src/elf_det.h:455-467 | "UNKNOWN" exactly for the codes other than 1, 2, 3 |
| SocketNames.SocketTypeCode | src/elf_det.h:455-467 | the inverse table yields only known type codes |
| SocketNames.SocketTypeRoundTrip | src/elf_det.h:455-467 | the known types and their names are in one-to-one correspondence; "UNKNOWN" is none of them |
| SocketNames.SocketStateName | src/elf_det.h:474-504 | "UNKNOWN" exactly outside 1..12; state k is the k-th name of the TCP state list |
| SocketNames.SocketStateCode | src/elf_det.h:474-504 | the inverse table finds a name's state number, or none for a name not in the list |
| SocketNames.SocketStateRoundTrip | src/elf_det.h:474-504 | every state 1..12 is recovered from its name |
| SocketNames.SocketStateNameRoundTrip | src/elf_det.h:474-504 | every accepted name prints back as itself; "UNKNOWN" is not accepted |
| SocketNames.StateNamesDistinct | src/elf_det.h:474-504 | the twelve state names are pairwise distinct |
| Visualization.SizeUnit | src/elf_det.h:232-238 | MB exactly from 1 MiB, B exactly below 1 KiB |
| Visualization.SizeQuotientBounds | src/elf_det.h:232-238 | the text is the quotient, a space and the unit; the quotient rounds the size down to whole units, is below 1024 unless MB and at least 1 unless B |
| Visualization.SizeTextReadBack | src/elf_det.h:226-239 | the text is a number, a space and the unit; number times unit is the size rounded down to a whole unit, below 1024 unless MB and at least 1 unless B |
| Visualization.SizeTextShort | src/elf_det.h:226-239 | the text has no NUL and at most 17 characters, so it always fits the 32-byte size_str |
| Visualization.SizeTextExamples | src/elf_det_tests.c:106-132 | the unit-test texts "512 B", "0 B", "1023 B", "1 KB", "2 KB", "1 MB", "5 MB" |
| Visualization.FormatSizeWithUnit | src/elf_det.h:226-239 | 0 and nothing written for a NULL buffer or one under 10; otherwise snprintf of the size text, returning its full length |
| Visualization.BarWidth | src/elf_det.h:245-261 | 0 for a zero total or region; otherwise the floor of region * bar / total, raised to 1 when that is 0 |
| Visualization.BarWidthBounded | src/elf_det.h:245-261 | a region no larger than the total never gets more than the whole bar |
| Visualization.BarWidthMonotonic | src/elf_det.h:245-261 | a larger region never gets a shorter bar |
| Visualization.BarWidthExamples | src/elf_det_tests.c:138-157 | the unit-test widths 5, 25, 50, 1, 0, 0, and 1 for a zero-width bar |
| Visualization.RegionStreamIdeal | src/elf_det.h:295-307 | with room for the whole bar the text is the padded name, size, width '=' and bar_width - width spaces, and it fits |
| Visualization.RegionExampleCode | src/elf_det_tests.c:164-172 | the CODE region of 1 MB with 25 of 50 columns renders "CODE  (1 MB)" and a bar of 25 '=' |
| Visualization.AppendRun | src/elf_det.h:301-305 | a bar loop appends its character as many times as both the count and the buffer guard allow |
| Visualization.AppendBar | src/elf_det.h:301-307 | the two bar loops and the closing "]\n\n" append '=' up to width, ' ' up to bar_width, both as room allows, then the closing text, keeping the buffer invariant |
| Visualization.SizeString | src/elf_det.h:281-296 | formatting into the 32-byte `size_str` and reading it back with `%s` gives exactly the size text |
| Visualization.GenerateRegionVisualization | src/elf_det.h:274-310 | 0 and nothing written without region or buffer, with a buffer under 100, or for an absent or empty region; otherwise the buffer holds the fitting prefix of the region text and the result is its full length |
| Visualization.RegionTextSeen | src/elf_det.h:295-307 | a reader of the buffer sees the region text cut to buf_size - 1 characters |
| Visualization.RegionStreamNoNul | src/elf_det.h:295-307 | the region text has no NUL when the name has none, so a reader stops only at the terminator |
| NetdevTally.FirstIndexOf | src/elf_det.h:326-331 | the first entry with the interface index, or none when no entry has it |
| NetdevTally.TallyStepShape | src/elf_det.h:323-341 | one call keeps indices distinct, grows the list by at most one entry and never past max_entries, and changes no entry of another interface |
| NetdevTally.TallyStepCountsListed | src/elf_det.h:326-331 | a call for a listed interface adds one to its count; the length and every other entry stay as they were |
| NetdevTally.TallyStepUnlisted | src/elf_det.h:333-340 | an unlisted interface is appended at index len with count 1 and its name cut to 15 characters while len < max_entries; on a full list nothing changes and it stays unlisted |
| NetdevTally.TallyStepInvariant | src/elf_det.h:315-341 | one call preserves the tally invariant: distinct, within capacity, names fit 15 characters, each count is the number of calls for it, every used interface listed while not full |
| NetdevTally.TallyAllInvariant | src/elf_det.h:315-341 | every run of calls from an empty list satisfies the tally invariant |
| NetdevTally.TallyExample | src/elf_det.h:315-341 | eth0, eth0, eth1 gives eth0 counted twice then eth1 once |
| NetdevTally.NetdevList.AddNetdevCount | src/elf_det.h:315-341 | the entries in use become TallyStep of the old ones; the unused slots and the array are unchanged |

## Left out

- `src/elf_det.c` (the kernel walkers over `task_struct`, VMAs, threads and sockets, and the procfs handlers) and `src/proc_elf_ctrl.c` (the user-space control tool) are not part of this model. They call into the kernel and the C library, and they call none of the header helpers.
- `strncpy_from_user`, the procfs registration and every other kernel interface are not modelled.
- Unsigned wrap-around is excluded by preconditions rather than computed modulo 2^64. The affected members are `ElfHelpers.UsagePermyriad`, `MemoryStats.RssPages`, `MemoryStats.PagesToKb`, `MemoryStats.PagesToKbShifted`, `MemoryStats.TotalFaults`, `MemoryStats.UsagePercent`, `MemoryStats.IsHighMemoryPressure`, `MemoryStats.FaultStatsText` and `Visualization.BarWidth`.
- Visualization.BarWidth: requires a non-negative bar width and a quotient that fits in an `int`. The C conversion of a negative `int` to `unsigned long`, and its narrowing of the quotient back to `int`, are not modelled.
- Visualization.GenerateRegionVisualization: requires `len` to be at most `buf_size` before every snprintf, that is, |header| + 7 <= `buf_size`. With `len == buf_size` the closing snprintf gets size 0 and stores nothing, which the model covers. Otherwise the C passes a negative size to snprintf (converted to a huge `size_t`), which is undefined behaviour. A NULL `region->name` is not modelled; the name is a string without NUL.
- CStrings.Snprintf: returns the full length as an unbounded integer. The C snprintf's negative result for a text longer than `INT_MAX` is not modelled. The same holds for the members that return its result: `FormatProcfileOutput`, `FormatPageFaultStats`, `FormatSizeWithUnit` and `GenerateRegionVisualization`.
- ElfHelpers.BuildCpuAffinityString: is the corrected definition, with `len` capped at `buf_size` before the NUL store. The original's out-of-bounds store cannot be expressed on a Dafny array. The original's return value is modelled by `AffinityLenAsWritten`, and the two agree wherever the original stays in bounds. `cpu_mask` is a sequence of at least `max_cpus` entries; a NULL mask is not representable. The C `int len` overflowing for buffers near 2^31 is not modelled.
- NetdevTally.NetdevList.AddNetdevCount: the count is an unbounded integer. The C `int` overflow after 2^31 uses of one interface is not modelled. A NULL `list` or `list_len` is not representable, since the object stands for both. The `char name[16]` field is modelled as the string it holds, which is at most 15 characters.
- ProcfsIo.UpdatePidWriteBuffer: requires `src` and `dst` to be different buffers, because overlapping `memcpy` is undefined behaviour.
- MemoryStats.PagesToKbShifted: the kernel's `PAGE_SHIFT` is a parameter, because the platform fixes it. The shift of an `unsigned long` is required not to overflow (`pages * 2^(PAGE_SHIFT - 10) < 2^64`); the wrapped result of a larger shift is not modelled.
- Visualization.GenerateRegionVisualization: the C reads `size_str` back with `%s`. The model proves that this read gives the size text, having shown that the text fits the 32-byte buffer. It does not model the unused return value of `format_size_with_unit`.
- The header comment of `is_address_in_range` calls the range "inclusive". The code and its unit tests treat the end as exclusive, and the model follows the code.

## Findings

| source | as written | input that shows it | evidently intended | confidence | as-written member | corrected member |
|---|---|---|---|---|---|---|
| src/elf_helpers.h:131-141 | `len` adds up snprintf's untruncated return values, then the code stores NUL at `out_buf[len - 1]` and returns `len - 1` | CPUs 0 and 100 set, `max_cpus` 101, `buf_size` 5: "0," fits, "100," is cut to "10", `len` becomes 6, NUL is stored at `out_buf[5]` past the 5-byte buffer, and 5 is returned for the 4-character "0,10" (the same code is at src/elf_det.h:190-200) | cap `len` at `buf_size` before the store, so the NUL stays inside the buffer and the result is the string's length | not executed | ElfHelpers.AffinityAsWrittenOverrun | ElfHelpers.BuildCpuAffinityString |
