# Tick auto-skipping, modelled in Dafny

Chart.js picks the tick labels an axis draws with its `autoSkip` routine. The routine
takes the axis's ordered ticks (some flagged `major`) and the number of labels that fit,
and returns an order-preserving subset of the ticks. The steps are:

- Compute the capacity of the axis and cap it by the configured `maxTicksLimit`.
- Collect the indices of the major ticks.
- If the majors alone exceed the limit, keep every `ceil(numMajor / limit)`-th major.
- Otherwise keep every major, and decimate the minor ticks before the first major,
  between consecutive majors and after the last one. Each of these segments is walked by
  `skip` with a spacing chosen by `calculateSpacing`.
- Without majors, decimate the whole axis.

The project has three modules:

- `Wrappers` holds `Option`.
- `JsMath` holds `Math.ceil` and `Math.round` on exact reals, plus `min` and `max`.
- `AutoSkip` holds the routine and its helpers, one member per source function, and the
  lemmas about them.

The source pushes every kept tick into one shared output array. Each method here takes
the array built so far and returns it extended, together with the source indices of the
ticks it pushed (`picked`). Every result is therefore stated as
`Gather(ticks, picked)`: a subsequence of the input with strictly increasing indices.

`skip` is specified by the positions it aims at. `Mark(start, step, k)` is `start` for
`k = 0` and `round(start + k * step)` after that. The output is exactly the marks lying
in `[max(start, 0), min(end, n))` (`ExactlyMarksIn`), and they are consecutive marks
(`MarkRun`). `skipMajors` is specified by `EveryNth`: the picks are
`m[0], m[s], m[2s], …`, and the next one would fall past the end.

The driver is split in two:

- `AutoSkip` computes the limit and the major indices.
- `SkipToLimit` makes the three-way selection, taking the limit as a plain integer. Its
  majors-that-fit branch is `SkipAroundMajors`, and that branch's loop over inner
  segments is `SkipBetweenMajors`.

Each branch's outcome is one predicate, shared by the methods that reach it:

- `MajorsThinned`: too many majors, so every `s`-th major is kept.
- `AroundMajorsKept`: the majors fit. A tick is kept exactly when some `skip` call over
  a segment keeps it (`KeptAroundMajors`). The segments are the one before the first
  major, those between consecutive majors, and the one after the last major. Each
  segment's call keeps exactly its marks inside its clamped window (`SegmentMark`).
- `AxisDecimated`: no majors, so positions `0, s, 2s, …` are kept.

Three behaviours of the code differ from what one might expect. The model follows the
code in each:

- **The even-spacing test.** One might expect the majors to count as evenly spaced
  when consecutive differences are constant. The code instead compares every gap with
  the first entry `arr[0]` (`GapsEqualFirst`). `GapsEqualFirstIffMultiples` proves that
  the test holds exactly for `d, 2d, 3d, …` with at least two entries. So strictly
  ascending major indices starting at 0 never count as even.
- **When spacing is recomputed.** One might expect the spacing to be recomputed only
  for the segments between majors. The code recomputes it whenever `majorEnd` is
  present and non-zero, which includes both boundary segments. It uses the unclamped
  length `majorEnd - majorStart`.
- **The tick count.** One might expect the result never to exceed the limit. The code
  guarantees that only when there are no majors, or more majors than the limit. When the
  majors fit, the minor ticks around them can push the count past the limit.
  `MajorsFitExceedLimit` shows this with three ticks, a single major at index 1, and a
  limit of 1. Before the major, `skip` keeps index 0: its recomputed step is infinite,
  and `start` is always kept. The major itself is kept too. After the major the step is
  infinite as well, so nothing more is kept, and exactly two ticks come out. The model
  proves the count bound only for the two branches where it holds.

## Model

| member | source | states |
|---|---|---|
| `JsMath.Ceil` | src/core/core.scale.autoskip.ts:102 | `Math.ceil`: the least integer not below `x` |
| `JsMath.Round` | src/core/core.scale.autoskip.ts:135 | `Math.round`: the integer within half of `x`, with halves going up |
| `AutoSkip.DetermineMaxTicks` | src/core/core.scale.autoskip.ts:44-50 | the capacity is the floor of the smaller of `length / tickSize + (offset ? 0 : 1)` and `maxLength / tickSize`: it is at most both, and one of them is less than it plus one |
| `AutoSkip.TicksLimit` | src/core/core.scale.autoskip.ts:15 | the limit never exceeds the capacity; a set (non-zero) `maxTicksLimit` caps it and is reached unless the capacity is lower; an unset or zero one leaves the capacity |
| `AutoSkip.MajorIndicesExact` | src/core/core.scale.autoskip.ts:80-89 | the major indices are strictly ascending, each names a major tick, and every major tick's index is among them |
| `AutoSkip.GetMajorIndices` | src/core/core.scale.autoskip.ts:80-89 | the scan returns the major indices in left-to-right order (`MajorIndicesOf`, characterised by `MajorIndicesExact`) |
| `AutoSkip.GapsEqualFirstIffMultiples` | src/core/core.scale.autoskip.ts:159-163 | every gap equals the first entry exactly when there are two or more entries and entry `i` is `(i + 1)` times the first. So a strictly ascending list starting at 0 never passes. An all-zero list does pass: `getEvenSpacing` returns 0, which `calculateSpacing` treats as not even |
| `AutoSkip.GetEvenSpacing` | src/core/core.scale.autoskip.ts:151-165 | the result is `false` (None) below two entries, else the first entry exactly when every gap equals it; a value returned for strictly ascending input is positive |
| `AutoSkip.FirstAbove` | src/core/core.scale.autoskip.ts:68-73 | the index found is of the first factor strictly above the raw spacing, every earlier one being at or below it; None when all are at or below |
| `AutoSkip.CalculateSpacing` | src/core/core.scale.autoskip.ts:57-75 | the spacing is at least 1; it is the first of all-but-the-last factors of the even major spacing that exceeds `n / ticksLimit`, and otherwise `max(n / ticksLimit, 1)`, including when the spacing is not even or is 0 |
| `AutoSkip.StrideExtend` | src/core/core.scale.autoskip.ts:104-107 | pushing the major at position `count * s` extends the picks `m[0], m[s], …` by one and advances the position by `s` |
| `AutoSkip.SkipMajors` | src/core/core.scale.autoskip.ts:97-110 | the kept ticks are exactly `m[0], m[s], m[2s], …` for `s = ceil(spacing)`, up to the end of `m`, in ascending order, appended to the output |
| `AutoSkip.MajorSkipWithinLimit` | src/core/core.scale.autoskip.ts:23-25 | with more majors than the limit, keeping every `ceil(numMajor / limit)`-th major keeps only major ticks and at most `limit` of them |
| `AutoSkip.DecimationWithinLimit` | src/core/core.scale.autoskip.ts:59 | keeping positions `0, s, …, (p - 1)s` below `n` with `s >= n / limit` keeps at most `limit` of them |
| `AutoSkip.SkipStep` | src/core/core.scale.autoskip.ts:125-129 | after `ceil` and the recomputation made when `majorEnd` is truthy, a finite step is at least 1, and at least `ceil(spacing)` over a positive length; an infinite or NaN step is `Unbounded` |
| `AutoSkip.MarkIncreasing` | src/core/core.scale.autoskip.ts:135 | with a step of at least 1, mark `k` lies at least `k - j` beyond mark `j`, and earlier marks exist whenever a later one does |
| `AutoSkip.MarkRunIsExact` | src/core/core.scale.autoskip.ts:138-144 | a run of consecutive marks inside the window, with those before it below and the next at or past the end, is exactly the set of marks in the window, strictly ascending |
| `AutoSkip.SkipNegativeMarks` | src/core/core.scale.autoskip.ts:131-136 | the first loop stops at the first mark at or beyond 0, or at an unbounded step; every mark passed over is negative |
| `AutoSkip.Skip` | src/core/core.scale.autoskip.ts:119-145 | the kept indices are exactly the marks `round(start + k * step)` lying in `[max(start, 0), min(end, n))`, strictly ascending and consecutive, and include `start` whenever `0 <= start < end`; they are appended to the output |
| `AutoSkip.IncreasingSpread` | src/core/core.scale.autoskip.ts:32 | strictly ascending major indices spread at least `numMajor - 1` from first to last |
| `AutoSkip.AverageSpacingPositive` | src/core/core.scale.autoskip.ts:32 | with two majors or more, `avgMajorSpacing` is defined and at least 1 |
| `AutoSkip.MarksFromZero` | src/core/core.scale.autoskip.ts:40 | from 0 with an integer step `s`, mark `k` is `k * s` |
| `AutoSkip.WholeAxisSkipWithinLimit` | src/core/core.scale.autoskip.ts:40 | without majors, `skip` over the whole axis keeps positions `0, s, 2s, …` below `n`: the first tick when there is one, enough to cover `n`, and at most `limit` |
| `AutoSkip.SkipSegment` | src/core/core.scale.autoskip.ts:119-145 | `skip` over a segment whose start and end are both given keeps exactly the marks of that segment in its clamped window (`SegmentKept`), strictly ascending, and includes `start` when it lies in the window |
| `AutoSkip.InnerMarkExtend` | src/core/core.scale.autoskip.ts:34-36 | appending what segment `i` keeps to exactly what the first `i` segments keep gives exactly what the first `i + 1` segments keep |
| `AutoSkip.InnerMarkBounds` | src/core/core.scale.autoskip.ts:34-36 | whatever the first `i` inner segments keep lies in `[m[0], m[i])` |
| `AutoSkip.SkipBetweenMajors` | src/core/core.scale.autoskip.ts:34-36 | the picks are exactly what the `skip` calls over `[m[j], m[j + 1])` keep, for every `j`. They include each major but the last, lie in `[m[0], m[last])`, are strictly ascending, and are appended to the output |
| `AutoSkip.AroundMajorsJoin` | src/core/core.scale.autoskip.ts:33-37 | joining exactly what the segment before the first major, the inner segments and the segment after the last major keep gives exactly the ticks `KeptAroundMajors` |
| `AutoSkip.KeptWithinWindow` | src/core/core.scale.autoskip.ts:32-37 | with two majors or more, any kept tick lies in `[first - avgMajorSpacing, last + avgMajorSpacing)` |
| `AutoSkip.SkipAroundMajors` | src/core/core.scale.autoskip.ts:30-38 | `AroundMajorsKept`: the picks are exactly the ticks some segment's `skip` call keeps, so a minor tick is kept only when it is a mark of its segment. Every major is kept, the picks are strictly ascending, and with two majors or more they lie in `[first - avgMajorSpacing, last + avgMajorSpacing)` |
| `AutoSkip.SkipToLimit` | src/core/core.scale.autoskip.ts:17-41 | per branch: `MajorsThinned`, every `ceil(numMajor / limit)`-th major, only majors, at most `limit`; or `AroundMajorsKept` with the spacing `calculateSpacing` chooses (`ChosenSpacing`); or `AxisDecimated`, `0, s, 2s, …` with `s = ceil(max(n / limit, 1))`, at most `limit` |
| `AutoSkip.AutoSkip` | src/core/core.scale.autoskip.ts:12-42 | the result is a subsequence of the ticks with strictly ascending indices, empty for no ticks. It meets the branch outcomes of `SkipToLimit` for the limit (the capacity, capped by a set `maxTicksLimit`) and the major indices (none when majors are disabled) |
| `AutoSkip.MajorsFitExceedLimit` | src/core/core.scale.autoskip.ts:26-38 | three ticks with one major at index 1 on a scale whose limit is 1: `autoSkip` keeps exactly indices 0 and 1, two ticks against a limit of 1 |

## Left out

- The `Scale` object is not modelled. The values it supplies (length, maximum length,
  tick size, offset, `maxTicksLimit`, major enablement) are fields of a plain `Scale`
  datatype.
- `_factorize` lives in `helpers.math`, which is not part of this model. It is a
  function parameter `factorize`, and nothing is assumed about its output.
- IEEE-754 arithmetic is replaced by exact reals: rounding error is not modelled.
  `NaN` and `Infinity` appear only where `skip`'s step becomes infinite or NaN, as the
  `Unbounded` step.
- AutoSkip.AutoSkip: requires a limit of at least 1 and a positive tick size. These
  cases are not modelled:
  - A zero tick size makes the capacity infinite or NaN.
  - A limit of 0 makes `n / limit` infinite, or NaN when there are no ticks. JavaScript
    then keeps exactly one tick: the first major in `skipMajors`, or `ticks[0]` in `skip`
    when there is a tick.
  - A negative `maxTicksLimit` is truthy, so `||` keeps it as the limit. The number of
    majors then always exceeds the limit, and `skipMajors` runs with a finite stride of
    0 or less. It keeps the first major and nothing more, or nothing when there are no
    majors.
- A fractional `maxTicksLimit` is not modelled: the configured limit is an integer.
- AutoSkip.SkipToLimit: proves no count bound when the majors fit the limit, because the
  code does not keep one (see the three-tick example above).
- The property that running the selection again on its own output never grows the
  result is not modelled. It relates two runs with different lengths and capacities,
  and the source promises nothing about it.
- The tick payload (label, value) is opaque. Only the `major` flag is read.
- The shared output array is a value threaded through the methods. Aliasing of that
  array with `ticks` is not modelled.
