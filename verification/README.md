# polyA_trimmer in Dafny

This project models the trimming core of `polyA_trimmer`, a tool that removes
poly-A / poly-T tails (and heads) from sequencing reads and drops reads that
become too short. The core has three parts:

- two boundary scanners: `trimm_end` scans a read backwards from its last base,
  and `trimm_begin` scans it forwards from its first base;
- the per-read decision in `main`: scan for 'A', fall back to 'T', keep the
  read when `end - begin >= min_read_length`, write the slice `[begin, end)` of
  the sequence and of the quality string, and add the removed bases to
  `total_trimmed_bases`;
- the record loop that applies this decision to every record.

Both scanners count how many bases differ from a target base; that count is
`Counting.Mismatches`. Each scanner stops at a "break", the first position
(seen from where it starts) at which the count exceeds `max_error`.

- `Boundaries.IsEndBreak` and `Boundaries.IsBeginBreak` describe the break
  declaratively.
- `Boundaries.EndBreak` and `Boundaries.BeginBreak` compute it by searching
  with `Mismatches` directly. They are independent of the loops.
- `Boundaries.EndBoundary` and `Boundaries.BeginBoundary` give the value each
  scanner returns.
- The loop methods `TrimEnd` and `TrimBegin` follow the C loops step by step,
  `break` included. They are proved to return those values.

The per-read decision is `Trimmer.Decide`. `Trimmer.TrimRead` and
`Trimmer.ProcessRecord` carry it out, `Trimmer.PrintSubstr` models
`print_substr`, and `Trimmer.TrimAll` models the record loop. The running
total is specified by `Trimmer.TotalTrimmed` and the written records by
`Trimmer.Emitted`.

Modules: `Counting` (counting.dfy), `Boundaries` (boundaries.dfy) and
`Trimmer` (trimmer.dfy).

Index conventions follow the code exactly:

- The end boundary is the break itself and is exclusive, so the mismatch that
  stopped the backward scan is cut off too.
- The begin boundary is `break - 1` and is inclusive, so the last base of the
  leading run is kept.
- `trimm_end` says "no trim" with `size`, and `trimm_begin` with `0`.
- With `max_error >= 0`, a single scan over a sequence made entirely of its
  base, at least `min_length` long, gives `-1` from `trimm_end` and
  `size - 1` from `trimm_begin` (`Boundaries.EndAllBase`,
  `Boundaries.BeginAllBase`).

Notable behaviour of the code:

- For the read "CGATAAAAA" with thresholds (3, 0, 5), the kept interval is
  `[0, 3)` ("CGA"). The 'T' at index 3 is where the backward scan stops, and
  it is cut off with the tail (`Trimmer.ExampleShortTail`).
- A read with neither 'A' nor 'T' is left untrimmed when
  `0 <= max_error < min_length` (`Trimmer.NoTargetBaseUntrimmed`). With a
  larger tolerance, a run of up to `max_error` mismatching bases can already
  count as a tail or a head.
- Every kept record is written as FASTQ (`@name`, the sequence slice, `+name`,
  the quality slice). There is no FASTA branch.
- The begin fallback to 'T' is triggered by the value 0, even when the 'A'
  scan did find a qualifying run that ends at index 0
  (`Trimmer.BeginFallbackAfterGenuineTrim`).
- The 'A' scans run first. Once `max_error >= min_length`, an 'A' scan can
  already answer for an all-'T' read. The 'T' begin fallback still runs
  whenever the 'A' begin answers 0. For example, "TTT" with (1, 1, 0) gets
  end 1 from the 'A' scan and begin 2 from the 'T' scan. With
  `0 <= max_error < min_length <= size`, both boundaries of an all-'T' read
  come from the 'T' fallbacks (`Trimmer.AllTReadDropped`).

## Model

| member | source | states |
|---|---|---|
| `Counting.Mismatches` | polyA_trimmer.cpp:44 | the mismatch count of a window `[lo, hi)` against `base` never exceeds the window's width |
| `Counting.MismatchesNone` | polyA_trimmer.cpp:44 | a window has no mismatch iff every base in it equals `base` (both directions) |
| `Counting.MismatchesAll` | polyA_trimmer.cpp:44 | the count equals the window's width iff no base in it equals `base` (both directions) |
| `Counting.MismatchesSplit` | polyA_trimmer.cpp:42-47 | the count over `[lo, hi)` is the sum of the counts over `[lo, mid)` and `[mid, hi)`, which is what makes the backward scan's running count a suffix count |
| `Counting.MismatchesMonotone` | polyA_trimmer.cpp:42-47 | widening a window never lowers its count: the running `error` never decreases as either scan advances |
| `Boundaries.LastOverflowFrom` | polyA_trimmer.cpp:42-47 | the backward search result stays in `[-1, k]` |
| `Boundaries.LastOverflowFromFinds` | polyA_trimmer.cpp:42-47 | the found index's suffix exceeds `max_error`, and no suffix starting between it and `k` does |
| `Boundaries.EndBreak` | polyA_trimmer.cpp:42-47 | the backward scan stops at an index in `[-1, size)`; -1 means it ran off the front |
| `Boundaries.EndBreakIsBreak` | polyA_trimmer.cpp:42-47 | the stop index satisfies the declarative break condition: every suffix after it has at most `max_error` mismatches, and (unless -1) the suffix starting at it has more |
| `Boundaries.EndBreakUnique` | polyA_trimmer.cpp:42-47 | at most one index satisfies the break condition, so the condition determines where the scan stops |
| `Boundaries.EndBoundary` | polyA_trimmer.cpp:48-51 | `trimm_end` returns either `size` or an index `i` in `[-1, size)` whose run `size - i - 1` is at least `min_length` |
| `Boundaries.TrimEnd` | polyA_trimmer.cpp:38-52 | the backward loop with its early `break` returns exactly `EndBoundary` for every input, including negative thresholds and the empty sequence |
| `Boundaries.EndBreakLongestRun` | polyA_trimmer.cpp:42-47 | with `max_error >= 0`, the run after the break is the longest suffix within `max_error` mismatches: every suffix starting after the break stays within it, and every suffix starting at or before the break exceeds it |
| `Boundaries.EndBreakCount` | polyA_trimmer.cpp:42-47 | with `max_error >= 0`, the suffix after the break has at most `max_error` mismatches; if the break is a real index, the base there differs from `base` and the suffix from it has exactly `max_error + 1` mismatches |
| `Boundaries.EndBoundaryNoTrim` | polyA_trimmer.cpp:48-49 | with `max_error >= 0`, `trimm_end` returns `size` iff no suffix of at least `min_length` bases stays within `max_error` mismatches |
| `Boundaries.EndCutsAtLastMismatch` | polyA_trimmer.cpp:42-51 | with `max_error = 0`, a sequence ending in a pure run of `base` of at least `min_length` bases gets the index of the mismatch before the run as its end, so that mismatch is cut |
| `Boundaries.EndAllBase` | polyA_trimmer.cpp:48-51 | with `max_error >= 0`, a sequence made only of `base`, at least `min_length` long, gives -1 |
| `Boundaries.EndNoBase` | polyA_trimmer.cpp:48-49 | a sequence without `base` gives `size` ("no trim") when `0 <= max_error < min_length` |
| `Boundaries.EndTooManyMismatchesNearEnd` | polyA_trimmer.cpp:44-49 | if the last `min_length` bases already hold more than `max_error` mismatches, `trimm_end` returns `size` |
| `Boundaries.FirstOverflowFrom` | polyA_trimmer.cpp:58-63 | the forward search result stays in `[k, size]` |
| `Boundaries.FirstOverflowFromFinds` | polyA_trimmer.cpp:58-63 | the found index's prefix through it exceeds `max_error`, and no prefix ending between `k` and it does |
| `Boundaries.BeginBreak` | polyA_trimmer.cpp:58-63 | the forward scan stops at an index in `[0, size]`; `size` means it ran off the end |
| `Boundaries.BeginBreakIsBreak` | polyA_trimmer.cpp:58-63 | the stop index satisfies the declarative break condition: every non-empty prefix before it has at most `max_error` mismatches, and (unless `size`) the prefix through it has more |
| `Boundaries.BeginBreakUnique` | polyA_trimmer.cpp:58-63 | at most one index satisfies the forward break condition |
| `Boundaries.BeginBoundary` | polyA_trimmer.cpp:64-67 | `trimm_begin` returns 0, or `i - 1` where `i` is the break and `i >= min_length`; with `min_length >= 1` the result is in `[0, size)`, or 0 for an empty sequence |
| `Boundaries.TrimBegin` | polyA_trimmer.cpp:54-68 | the forward loop with its early `break` returns exactly `BeginBoundary` for every input |
| `Boundaries.BeginBreakLongestRun` | polyA_trimmer.cpp:58-63 | with `max_error >= 0`, the prefix `[0, i)` before the break has at most `max_error` mismatches, as does every shorter prefix, and every longer prefix exceeds it |
| `Boundaries.BeginBreakCount` | polyA_trimmer.cpp:58-63 | with `max_error >= 0`, a real break sits on a base different from `base`, and the prefix through it has exactly `max_error + 1` mismatches |
| `Boundaries.BeginBoundaryLongestPrefix` | polyA_trimmer.cpp:58-67 | with `max_error >= 0`: if no prefix of at least `min_length` bases stays within `max_error` mismatches, the result is 0; otherwise the result plus one is the length of the longest prefix that does |
| `Boundaries.BeginBoundaryTolerant` | polyA_trimmer.cpp:58-67 | with `max_error >= 1` one base can never overflow, so on a non-empty sequence `trimm_begin` answers an index in `[0, size)` whatever `min_length` is; an empty sequence gets -1 or 0 |
| `Boundaries.BeginAllBase` | polyA_trimmer.cpp:64-67 | with `max_error >= 0`, a sequence made only of `base`, at least `min_length` long, gives `size - 1` |
| `Boundaries.BeginNoBase` | polyA_trimmer.cpp:64-65 | a sequence without `base` gives 0 when `0 <= max_error < min_length` |
| `Boundaries.BeginTooManyMismatchesNearStart` | polyA_trimmer.cpp:60-65 | if the first `min_length` bases already hold more than `max_error` mismatches, `trimm_begin` returns 0 |
| `Trimmer.WellFormed` | polyA_trimmer.cpp:112-113 | defines the records the loop accepts: the quality string is as long as the sequence (otherwise the parser reports a truncated quality string) |
| `Trimmer.SliceDefined` | polyA_trimmer.cpp:64-67 | defines the thresholds under which every written slice lies inside the read: `min_length >= 1` or `max_error >= 1` |
| `Trimmer.ReadEnd` | polyA_trimmer.cpp:93-95 | the end after the 'A' scan and its 'T' fallback is either `size` ("no trim") or an index in `[-1, size)` leaving a tail of at least `min_length` bases |
| `Trimmer.ReadBegin` | polyA_trimmer.cpp:97-99 | the begin after the 'A' scan and its 'T' fallback is 0 or an index whose head is at least `min_length` long; with `min_length >= 1` it is in `[0, size)` (or 0) |
| `Trimmer.Decide` | polyA_trimmer.cpp:91-110 | defines the whole per-read decision (begin, end, keep, increment) that `TrimRead` computes; its properties are the lemmas below |
| `Trimmer.TrimRead` | polyA_trimmer.cpp:91-110 | the scans with their fallbacks, the keep test and the increment agree with `Decide` on every read |
| `Trimmer.DecisionInBounds` | polyA_trimmer.cpp:93-99 | when `min_length >= 1` or `max_error >= 1`: the chosen end is in `[-1, size]`; a non-empty interval starts at a real index; on a non-empty read the begin is in `[0, size)`; with `min_length >= 1` the begin is never negative |
| `Trimmer.KeptInterval` | polyA_trimmer.cpp:101-106 | a read is kept iff `end - begin >= min_read_length`; when `min_length >= 1` or `max_error >= 1`, and `min_read_length >= 1`, a kept read has `0 <= begin < end <= size` |
| `Trimmer.IncrementBounds` | polyA_trimmer.cpp:101-110 | a kept read adds `size - (end - begin)` and a dropped read adds `size`; when `min_length >= 1` or `max_error >= 1` the increment is never negative, and with `min_read_length >= 0` it is at most `size` |
| `Trimmer.ReadEndNoTrim` | polyA_trimmer.cpp:93-95 | with `max_error >= 0` the end stays at `size` iff no suffix of at least `min_length` bases is within `max_error` mismatches of 'A' or of 'T' |
| `Trimmer.BeginFallbackAfterGenuineTrim` | polyA_trimmer.cpp:97-99 | for "TTTTC" with thresholds (1, 1, 0) the 'A' begin scan finds a qualifying run (break at 1) and returns 0; that 0 triggers the 'T' scan, which moves the begin to 4 |
| `Trimmer.AllAReadDropped` | polyA_trimmer.cpp:93-110 | a read of only 'A' with `max_error >= 0` and `1 <= min_length <= size` gets end -1 and begin `size - 1`, so it is dropped and adds its whole length when `min_read_length >= 0` |
| `Trimmer.AllTReadDropped` | polyA_trimmer.cpp:93-110 | a read of only 'T' with `0 <= max_error < min_length <= size` gets "no trim" from both 'A' scans; the 'T' fallbacks then give end -1 and begin `size - 1`, so it is dropped and adds its whole length when `min_read_length >= 0` |
| `Trimmer.NoTargetBaseUntrimmed` | polyA_trimmer.cpp:93-99 | a read with neither 'A' nor 'T' keeps the whole interval `[0, size)` when `0 <= max_error < min_length` |
| `Trimmer.ExampleShortTail` | polyA_trimmer.cpp:91-110 | "CGATAAAAA" with (3, 0, 5): begin 0, end 3, dropped, adds 9 |
| `Trimmer.ExampleLongTail` | polyA_trimmer.cpp:91-110 | "CGATAAAAAAAAAA" with (3, 0, 5): begin 0, end 3, dropped, adds 14; the surviving length is what is compared |
| `Trimmer.ZeroMinLengthBeginsBeforeStart` | polyA_trimmer.cpp:64-67 | with `min_length = 0`, "CA" gets begin -1 and is kept, so `print_substr` would start before the buffer |
| `Trimmer.Substr` | polyA_trimmer.cpp:72-73 | the characters of `[begin, end)`: length `end - begin` (0 when `begin >= end`), and position k holds `s[begin + k]` |
| `Trimmer.Trimmed` | polyA_trimmer.cpp:103-106 | defines the record written for a kept read: its name and the slice `[begin, end)` of `Decide` applied to both sequence and quality; its shape is `TrimmedShape` |
| `Trimmer.PrintSubstr` | polyA_trimmer.cpp:70-75 | the line written has length `end - begin` (0 when `begin >= end`), and its k-th character is `s[begin + k]` |
| `Trimmer.WriteRecord` | polyA_trimmer.cpp:103-106 | a kept read is written with its own name and the same slice `[begin, end)` of its sequence and of its quality string |
| `Trimmer.TrimmedShape` | polyA_trimmer.cpp:103-106 | the written record keeps the name, its quality string is as long as its sequence, both are `max(0, end - begin)` long, and position k holds input position `begin + k` |
| `Trimmer.ProcessRecord` | polyA_trimmer.cpp:91-110 | one pass of the loop body: keeps iff `Decide` keeps, writes the trimmed record, and reports `Decide`'s increment |
| `Trimmer.ParsedCount` | polyA_trimmer.cpp:89 | the records processed are exactly those before the first record whose quality length differs from its sequence length |
| `Trimmer.Emitted` | polyA_trimmer.cpp:101-106 | the records written for the first `n` reads, in order, one per kept read, so at most `n` of them |
| `Trimmer.TotalTrimmed` | polyA_trimmer.cpp:107-110 | defines `total_trimmed_bases` after the first `n` reads as the sum of their `Decide` increments; its bounds are `TotalWithinBases` and `TotalStep` |
| `Trimmer.TrimAll` | polyA_trimmer.cpp:89-113 | the record loop writes `Emitted` and accumulates `TotalTrimmed` over the processed records, and reports truncation iff it stopped before the end of the input |
| `Trimmer.EmittedWellFormed` | polyA_trimmer.cpp:103-106 | no record is written malformed: every written quality string is as long as its sequence |
| `Trimmer.TrimmedPlusEmittedIsInput` | polyA_trimmer.cpp:101-110 | with `min_read_length >= 0`, `total_trimmed_bases` plus the bases written equals the bases read |
| `Trimmer.TotalWithinBases` | polyA_trimmer.cpp:107-110 | when `min_length >= 1` or `max_error >= 1`, and `min_read_length >= 0`, the total lies between 0 and the bases read so far |
| `Trimmer.TotalStep` | polyA_trimmer.cpp:107-110 | when `min_length >= 1` or `max_error >= 1`, the total never decreases from one record to the next; with `min_read_length >= 0` each record raises it by at most its own length |

## Left out

- Argument handling (`argc` check, `atoi`), opening and closing files, and the final `printf` of the total (polyA_trimmer.cpp:79-88, 114-119). These are process plumbing. The thresholds are a `Config` value, and the total is a result of `TrimAll`.
- The record parser (`kseq_read`, `KSEQ_INIT`, gzip). kseq.h is not part of this model. Records are an input sequence of (name, sequence, quality). The parser's only modelled behaviour is its truncated-quality stop: the loop ends at the first record whose quality length differs from its sequence length, and `TrimAll` reports it as `truncated`.
- The bytes of the `@name` and `+name` header lines and the newlines. A written record is modelled as its name and its two slices.
- FASTA input, whose records carry no quality string. The code prints the quality slice regardless, so reading a missing quality string is outside any defined behaviour.
- C `int` overflow of `size`, `end - begin` and `total_trimmed_bases`. Integers are unbounded. `strlen` stopping early at an embedded NUL is not modelled either: `size` is the sequence length.
- Trimmer.TrimAll: requires `SliceDefined`, that is `min_length >= 1` or `max_error >= 1`. The excluded configurations have `min_length <= 0` and `max_error <= 0`. There the begin scan stops at index 0 whenever the first base differs from the scanned base, and always when `max_error < 0`. `trimm_begin` then returns -1 for such reads, for example "CA" in `ZeroMinLengthBeginsBeforeStart`. A kept read then makes `print_substr` read before the sequence. C gives that read no meaning, so the model does not define it.
- Trimmer.ProcessRecord: requires `SliceDefined`, for the same out-of-bounds reason. So do `Trimmer.Trimmed`, `Trimmer.Emitted` and the lemmas about them.
- Idempotence of a second pass over trimmed output is not stated. The code does not promise it, and the asymmetric boundaries make it doubtful.
