# Parallel statistics calculator: host-side algorithms

This project models, in Dafny, the sequential integer and text algorithms
that the host program of the parallel statistics calculator (`host.cpp`)
runs around its OpenCL dispatches, and proves properties of them:

- **Work-group sizing** (`max_factor`, module `WorkPartition`). It divides
  prime factors out of `n` smallest-first. It keeps the largest quotient met
  on the way that does not exceed the device limit `top`, starting from a
  default of 2. The quotients form the chain `n, n/p1, n/(p1*p2), ...`
  (`QuotientChain`). The function `MaxFactor` is the running maximum over
  that chain. The method `MaxFactorLoop` is the source's double loop, proved
  to terminate for every `n` and to compute `MaxFactor`.
- **Pre-padding** of the reduction input to a multiple of 16 (module `Padding`).
- **Multi-pass reduction bookkeeping** (module `Reduction`). Each pass takes
  `group_size = max_factor(elements, max_groups)`, then sets
  `elements = ceil(elements / group_size)` and `stride *= group_size`.
  The kernels themselves are not modelled. What is modelled is the
  `elements`/`stride` state machine and the arguments of every dispatch
  (`Dispatch`: global size, group size, stride). It is proved that:
  - the loop stops with one element left;
  - the live positions `k * stride` (for `k < elements`) always cover the
    padded buffer and never lie past it;
  - the final stride is the product of the group sizes;
  - the final stride is less than twice the buffer length.

  The input is padded with 0 as the source does. The effect of that padding
  on a minimum or maximum is stated separately (see Findings).
- **Percentile walk** at the end of `main` (module `Percentiles`). It works
  on the histogram's bin counts. Each marker is the first bin whose running
  count reaches `N/4`, `N/2` or `3N/4`.
- **Last-column scan** of `parse_file` (module `ColumnScan`). It maps the
  file contents to the text of each value field.

Values are modelled as `int`. Floating point is outside the model.

## Where the documented intent and the code differ

The model follows the code in each of these places:

- `max_factor` does not always return a divisor of `n`. When no chain entry
  fits under `top`, and for every `n <= 1`, it returns its default 2. So for
  odd `n` the result does not divide `n`: `MaxFactor(9, 2) == 2`. With
  `top < 2` the result exceeds `top`. It is also not the largest divisor
  under `top`: the chain of 12 is `12, 6, 3`, so `MaxFactor(12, 4) == 3`.
  The documented intent is a divisor of `n` that is at most the limit, with
  1 as the fallback.
- The percentile thresholds are `N/4`, `N/2` and `(N*3)/4` with floor
  division. The documented intent rounds the quartile ranks up. With five
  values in five bins the code's markers fall on the first, second and third
  bins (`FiveSingleBins`). The documented intent places them one bin later
  for the quartiles.
- Because `max_factor` can fall back to 2, a reduction pass can be
  dispatched with a group size that does not divide its work item count.
  Over a padded buffer of 272 elements with at most 16 work items per group,
  the fifth pass has 17 work items in groups of 2 (`NonUniformDispatch`).
  OpenCL 1.x rejects such a dispatch. The documented intent is a group size
  that divides the problem size.
- Padding uses 0 for every reduction, including minimum and maximum. See
  Findings.

## Model

| member | source | states |
|---|---|---|
| `WorkPartition.QuotientChain` | host.cpp:97-104 | The quotients the factorisation visits are empty exactly when `n <= 1`. Otherwise they start at `n`, strictly decrease, and each is at least 2 and divides `n`. |
| `WorkPartition.BestAtMost` | host.cpp:100-102 | The running maximum is at least its start value. It is either the start value or a chain entry that is at most `top`. No chain entry that is at most `top` exceeds it. |
| `WorkPartition.MaxFactor` | host.cpp:94-108 | The result is at least 2. It is either 2, or a chain entry that divides `n` and is at most `top`. It is at least every chain entry at most `top`. It equals `n` when `2 < n <= top`. |
| `WorkPartition.DivideOutStep` | host.cpp:99-104 | When `d` divides `n` and nothing in `[2, d)` does, dividing by `d` moves one step along the quotient chain. The quotient is smaller and still has no divisor in `[2, d)`. |
| `WorkPartition.NextCandidate` | host.cpp:105 | After the inner loop, no value in `[2, d+1)` divides `n`. While `n > 1` the next candidate `d+1` does not exceed `n`, which is the outer loop's termination argument. |
| `WorkPartition.MaxFactorLoop` | host.cpp:94-108 | The source's double loop terminates for every `n` and returns `MaxFactor(n, top)`. |
| `WorkPartition.FallbackIsNotADivisor` | host.cpp:95-107 | With `n = 9, top = 2` the result is 2, which does not divide 9. Every `n <= 1` gives 2. |
| `WorkPartition.NotTheLargestDivisor` | host.cpp:97-103 | The chain of 12 is `12, 6, 3`. With `top = 4` the result is 3, although 4 divides 12. |
| `WorkPartition.FallbackMayExceedTop` | host.cpp:96 | With `top = 1` the result 2 exceeds `top`. |
| `Padding.PaddedLength` | host.cpp:141-146 | The padded length is the least multiple of 16 that is at least the input length, and fewer than 16 above it. |
| `Padding.Pad` | host.cpp:141-147 | The padded copy has the padded length. The input is an unchanged prefix, and every appended element is the filler. |
| `Padding.PadRoundTrip` | host.cpp:144-147 | Dropping the appended elements gives back the input. The copy equals the input exactly when the input length is already a multiple of 16. |
| `Padding.PadIdempotent` | host.cpp:141-147 | Padding an already padded buffer changes nothing. |
| `Reduction.CeilDiv` | host.cpp:177 | The rounded-up group count `r` is the least with `r * g >= e`. |
| `Reduction.CeilDivShrinks` | host.cpp:177 | With at least 2 elements and a group size of at least 2, the new count is positive and strictly smaller. |
| `Reduction.Pass` | host.cpp:166-180 | One pass strictly decreases `elements`, keeps it at least 1, and at least doubles `stride`. |
| `Reduction.PassCovers` | host.cpp:176-180 | A pass preserves coverage: `stride * elements` is at least the padded length, and `stride * (elements - 1)` stays below it. |
| `Reduction.ProgressStep` | host.cpp:162-180 | One pass of the loop keeps its invariant. The stride stays the product of the group sizes issued, and keeps covering a non-empty buffer while staying below twice its length. The dispatches issued followed by the schedule still to come remain the whole reference schedule. |
| `Reduction.ProgressDone` | host.cpp:162-180 | When the loop stops, the dispatches issued are the whole schedule. A non-empty buffer has exactly one element left, with the stride between the buffer length and twice it. |
| `Reduction.StrideBound` | host.cpp:166-180 | A pass from a covering state leaves the stride below twice the padded length. |
| `Reduction.ScheduleCovers` | host.cpp:162-180 | From a covering state, the schedule has fewer dispatches than elements. Every dispatch has more than one work item, uses `max_factor` of its work-item count as group size, and covers the buffer without reading past it. |
| `Reduction.ScheduleChained` | host.cpp:166-180 | The schedule starts with the dispatch of its starting state. Every dispatch has groups of at least 2. Each later dispatch has the previous one's rounded-up group count as work items and its stride times its group size as stride. |
| `Reduction.ScheduleWellFormed` | host.cpp:162-180 | From a covering state, the schedule has fewer dispatches than elements. Every dispatch has more than one work item, uses `max_factor` of its work-item count as group size, and covers the buffer without reading past it. Each dispatch continues from the previous one's rounded-up count and multiplied stride. |
| `Reduction.ReducePasses` | host.cpp:150-180 | The loop issues the reference schedule. For a non-empty buffer it stops with `elements == 1`. The final stride is the product of the group sizes, at least the buffer length and below twice it. A buffer of at most one element gets no dispatch. |
| `Reduction.ZeroPaddingKeepsSum` | host.cpp:141-147 | Padding a non-empty input with 0 leaves its sum unchanged. |
| `Reduction.ZeroPaddedReduce` | host.cpp:141-147 | With zero padding, a sum over the padded buffer equals the sum of the input. |
| `Reduction.ZeroPaddingCorruptsMin` | host.cpp:141-147 | With zero padding and a length that is not a multiple of 16, the minimum of positive values becomes 0, below their true minimum. |
| `Reduction.ZeroPaddingCorruptsMax` | host.cpp:141-147 | With zero padding and a length that is not a multiple of 16, the maximum of negative values becomes 0, above their true maximum. |
| `Reduction.ZeroPaddedMinOfOneReading` | host.cpp:141-147 | The single reading 5 reduces to a minimum of 0. |
| `Reduction.PaddedReduce` | host.cpp:141-147 | Padding with a value the operation absorbs leaves the sum, minimum and maximum of the input unchanged. |
| `Reduction.Reduce` | host.cpp:138-180 | One reduction pads with 0 to the least multiple of 16 that holds the input, keeping the input as prefix. For a sum, the padded buffer combines to the input's own value. The dispatches are the reference schedule over the padded length. The clause naming `ZeroPaddedReduce` only links to the padding finding and adds nothing to this. |
| `Reduction.FallbackPass` | host.cpp:166-180 | A pass whose group size is the fallback 2 is dispatched with groups of 2. It halves the element count, rounding up, and doubles the stride. |
| `Reduction.FallbackGroupsOf272` | host.cpp:94-108 | With at most 16 work items per group, `max_factor` of 272, 136, 68, 34 and 17 is the fallback 2. |
| `Reduction.NonUniformDispatch` | host.cpp:162-177 | Over a padded buffer of 272 elements with at most 16 work items per group, the fifth dispatch has 17 work items in groups of 2. So its group size does not divide its work item count. |
| `Percentiles.Thresholds` | host.cpp:310-312 | The thresholds are the floors of `N/4`, `N/2` and `3N/4`. They are ordered and none exceeds `N`. |
| `Percentiles.FirstReachWithin` | host.cpp:321-336 | A marker, when present, is a bin whose running count reaches the threshold, and no earlier bin's count does. An absent marker means no bin reaches it. |
| `Percentiles.PercentileWalk` | host.cpp:307-336 | The one-pass walk with three one-shot flags returns, for each threshold, the first bin whose running count reaches it, or nothing. |
| `Percentiles.TrackStep` | host.cpp:321-336 | One bin of the walk for one threshold. A set flag stays set with its bin. An unset flag is set, with the current bin, exactly when the running count reaches the threshold. Flag and bin keep describing the first reach among the bins seen so far. |
| `Percentiles.FirstReachUnique` | host.cpp:321-336 | A bin that reaches the threshold after no earlier bin did is the marker. This is the converse of `FirstReachWithin`. |
| `Percentiles.FirstReachMonotone` | host.cpp:321-336 | A lower threshold is reached no later than a higher one. |
| `Percentiles.MarkersOrdered` | host.cpp:310-336 | The 25th-percentile bin comes no later than the median bin, which comes no later than the 75th-percentile bin. |
| `Percentiles.ZeroThresholdFiresAtFirstBin` | host.cpp:311-325 | A threshold of at most 0 fires at bin 0 when that bin's count is not negative. So with fewer than four values the 25th percentile is bin 0. |
| `Percentiles.AllMarkersFire` | host.cpp:321-336 | When the bins hold at least `N` values, all three markers fire. |
| `Percentiles.FiveSingleBins` | host.cpp:310-336 | Five values in five bins give thresholds 1, 2 and 3, and markers at bins 0, 1 and 2. |
| `ColumnScan.NextReturn` | host.cpp:63-66 | The end of a field is the first carriage return at or after the given position, or none. |
| `ColumnScan.Scan` | host.cpp:47-82 | Every captured field is non-empty and has no carriage return after its first character. |
| `ColumnScan.ScanSpendsFiveSpaces` | host.cpp:47-81 | Each captured field uses up five counted spaces. So the scan yields at most a fifth as many fields as the spaces it counts, including those already counted. |
| `ColumnScan.SkipWord` | host.cpp:48-55 | Characters other than spaces change neither the count nor the fields. |
| `ColumnScan.SkipColumn` | host.cpp:48-55 | A space-free column and the space after it move the count on by one and capture nothing. |
| `ColumnScan.ScanToLastSpace` | host.cpp:48-56 | Skipping space-free leading columns brings the scan to the fifth space with four spaces counted. |
| `ColumnScan.Capture` | host.cpp:55-81 | At the fifth space, the value up to the carriage return is captured. The count resets to 0 and the scan resumes after the line. |
| `ColumnScan.MissingReturn` | host.cpp:63-66 | With no carriage return after the fifth space, the scan runs past the end of the buffer. |
| `ColumnScan.ScanLine` | host.cpp:47-81 | One well-formed line yields its value column, and the scan continues after it with the count reset. |
| `ColumnScan.ScanRender` | host.cpp:47-81 | Scanning a file of well-formed lines yields exactly their value columns, in order. |
| `ColumnScan.UnixLineEndingFails` | host.cpp:63-66 | A line ended by a line feed alone leaves no carriage return to stop at, so the scan runs past the end. |

## Findings

| source | as written | input that shows it | evidently intended | confidence | as-written member | corrected member |
|---|---|---|---|---|---|---|
| host.cpp:141-147 | `reduce` pads its copy with 0 for every operation, including `reduce_min` and `reduce_max` (host.cpp:288-289) | one reading of 5: fifteen zeros are appended, the padded minimum is 0, the true minimum is 5 | pad with a value the operation absorbs: 0 for a sum, an element of the input for a minimum or maximum | medium, not executed; assumes each reduce kernel combines every element of the buffer it is given (`kernels.cl` is not part of this model) | `Reduction.ZeroPaddingCorruptsMin` | `Reduction.PaddedReduce` |

## Left out

- OpenCL plumbing is not modelled: context, queue, buffers, `enqueue*`, `setArg`, local memory, events, profiling and timing prints. These are calls into a device API.
- Kernel semantics (`reduce_add`, `reduce_min`, `reduce_max`, `diff_squared`, `histogram`) are not modelled. `kernels.cl` is not part of this model. A pass is a dispatch record. Only the value findings assume that a kernel combines its whole buffer (`Fold`).
- `diff_sq` and `bucket_sort` are left out. Beyond their `max_factor` call, they only issue one dispatch each.
- Floating-point arithmetic is not modelled: mean, variance, `sqrt`, `bin_count = (int)(range*10)+1`, the bin-to-value conversion `i/10.0f + minimum`, and float rounding in sums. Values are modelled as exact integers.
- The file I/O and `atof` of `parse_file` are left out. `ColumnScan` returns the text of each field.
- CLI parsing, `print_help`, `getchar` and the `Utils.h` helpers are left out.
- Integers are unbounded. In `max_factor` the quotients never exceed `n`. The candidate `d` is incremented once more after the last prime factor is divided out (host.cpp:105), so it reaches the largest prime factor of `n` plus one, which is `n + 1` when `n` is prime. Only `n == INT_MAX` (2^31 - 1, a prime) therefore overflows. `reduce` never passes such a value, because its sizes come from a buffer padded to a multiple of 16. The reduction stride stays below twice the padded length (`ReducePasses`), so the 32-bit `int` in `reduce` overflows only for buffers of 2^30 elements or more. This is not modelled further.
- ReducePasses: assumes the device accepts every dispatch. That includes a dispatch whose group size does not divide its work item count (`NonUniformDispatch`). It also includes one whose group size exceeds `max_groups`: when the kernel's `CL_KERNEL_WORK_GROUP_SIZE` is 1, the fallback 2 of `max_factor` is above the limit (`FallbackMayExceedTop`). OpenCL 1.x rejects both kinds of dispatch with `CL_INVALID_WORK_GROUP_SIZE`. With exceptions enabled (host.cpp:2) the source would then throw a `cl::Error`, caught at host.cpp:344, and never reach one element. That outcome is not modelled.
- For an empty input, no padding is added (host.cpp:142-144), so the device buffer of host.cpp:154 has size 0. OpenCL rejects a zero-size buffer with `CL_INVALID_BUFFER_SIZE`, so `reduce` throws a `cl::Error`, which host.cpp:344 catches. The read of `values[0]` at host.cpp:194 is never reached. This is the path an unreadable file takes: `parse_file` leaves the readings empty and host.cpp:284 reduces them. In the model, `ReducePasses` ends with `elements == 0` and issues no dispatch. The throw is not modelled.
