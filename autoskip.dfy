/**
 * Tick auto-skipping for chart axes: given the ordered ticks of an axis (some of them
 * major) and how many labels fit, choose an order-preserving subset of the ticks so
 * that their labels do not overlap.
 *
 * The source threads one output array through the helpers, pushing ticks into it.
 * Here every helper takes the array built so far (`newTicks`) and returns it extended,
 * together with the source indices of the ticks it pushed (`picked`), so that the
 * result can be stated as a subsequence of the input.
 */
module AutoSkip {
  import opened Wrappers
  import opened JsMath

  // ---------------------------------------------------------------------------
  // Data model
  // ---------------------------------------------------------------------------

  /** A tick of the axis: an opaque value (label, position) and the major flag. */
  datatype Tick<V> = Tick(value: V, major: bool)

  /** What `autoSkip` reads of the scale: its geometry and its tick options. */
  datatype Scale = Scale(
    length: real,                 // the scale's pixel length
    maxLength: real,              // the chart's maximum pixel length for the scale
    tickSize: real,               // the pixel footprint of one tick and its label
    offset: bool,                 // whether ticks sit between grid lines
    maxTicksLimit: Option<int>,   // the configured limit; absent or 0 means "not set"
    majorEnabled: bool)           // whether major ticks are treated specially

  ghost predicate StrictlyIncreasing(s: seq<int>) {
    forall i, j :: 0 <= i < j < |s| ==> s[i] < s[j]
  }

  ghost predicate IndicesOf<V>(idx: seq<nat>, ticks: seq<Tick<V>>) {
    forall j :: 0 <= j < |idx| ==> idx[j] < |ticks|
  }

  /** The ticks at the given source indices, in that order. */
  function Gather<V>(ticks: seq<Tick<V>>, idx: seq<nat>): seq<Tick<V>>
    requires IndicesOf(idx, ticks)
  {
    seq(|idx|, j requires 0 <= j < |idx| => ticks[idx[j]])
  }

  lemma GatherAppend<V>(ticks: seq<Tick<V>>, a: seq<nat>, b: seq<nat>)
    requires IndicesOf(a, ticks) && IndicesOf(b, ticks)
    ensures IndicesOf(a + b, ticks)
    ensures Gather(ticks, a + b) == Gather(ticks, a) + Gather(ticks, b)
  {
  }

  // ---------------------------------------------------------------------------
  // Capacity: determineMaxTicks and the effective limit
  // ---------------------------------------------------------------------------

  /**
   * How many ticks fit: the largest whole number of tick footprints that fits both
   * the scale's length (plus one slot when ticks are not offset) and the chart's
   * maximum length.
   */
  function DetermineMaxTicks(length: real, maxLength: real, tickSize: real, offset: bool): (r: int)
    requires tickSize > 0.0
    ensures r as real <= length / tickSize + (if offset then 0.0 else 1.0)
    ensures r as real <= maxLength / tickSize
    ensures r as real + 1.0 > length / tickSize + (if offset then 0.0 else 1.0)
         || r as real + 1.0 > maxLength / tickSize
  {
    var maxScale := length / tickSize + (if offset then 0.0 else 1.0);
    var maxChart := maxLength / tickSize;
    MinReal(maxScale, maxChart).Floor
  }

  /**
   * `min(maxTicksLimit || determined, determined)`: the configured limit caps the
   * capacity when it is set (present and non-zero); otherwise the capacity rules.
   */
  function TicksLimit(maxTicksLimit: Option<int>, determined: int): (r: int)
    ensures r <= determined
    ensures maxTicksLimit.Some? && maxTicksLimit.value != 0 ==>
              r <= maxTicksLimit.value && (r == maxTicksLimit.value || r == determined)
    ensures maxTicksLimit.None? || maxTicksLimit.value == 0 ==> r == determined
  {
    var configured := if maxTicksLimit.Some? && maxTicksLimit.value != 0 then maxTicksLimit.value else determined;
    Min(configured, determined)
  }

  function EffectiveLimit(scale: Scale): int
    requires scale.tickSize > 0.0
  {
    TicksLimit(scale.maxTicksLimit,
               DetermineMaxTicks(scale.length, scale.maxLength, scale.tickSize, scale.offset))
  }

  // ---------------------------------------------------------------------------
  // Major indices: getMajorIndices
  // ---------------------------------------------------------------------------

  /** The indices of the major ticks, in the order a left-to-right scan finds them. */
  function MajorIndicesOf<V>(ticks: seq<Tick<V>>): seq<nat>
  {
    if ticks == [] then []
    else MajorIndicesOf(ticks[..|ticks| - 1]) + (if ticks[|ticks| - 1].major then [|ticks| - 1] else [])
  }

  /** The major indices are exactly the indices of major ticks, strictly ascending. */
  lemma {:induction false} MajorIndicesExact<V>(ticks: seq<Tick<V>>)
    ensures StrictlyIncreasing(MajorIndicesOf(ticks))
    ensures forall j :: 0 <= j < |MajorIndicesOf(ticks)| ==>
              MajorIndicesOf(ticks)[j] < |ticks| && ticks[MajorIndicesOf(ticks)[j]].major
    ensures forall i :: 0 <= i < |ticks| && ticks[i].major ==> i in MajorIndicesOf(ticks)
  {
    if ticks != [] {
      var init := ticks[..|ticks| - 1];
      MajorIndicesExact(init);
      assert forall i :: 0 <= i < |init| ==> init[i] == ticks[i];
    }
  }

  method GetMajorIndices<V>(ticks: seq<Tick<V>>) returns (result: seq<nat>)
    ensures result == MajorIndicesOf(ticks)
  {
    result := [];
    for i := 0 to |ticks|
      invariant result == MajorIndicesOf(ticks[..i])
    {
      assert ticks[..i + 1][..i] == ticks[..i];
      if ticks[i].major {
        result := result + [i];
      }
    }
    assert ticks[..|ticks|] == ticks;
  }

  /** The major indices `autoSkip` works with: none when major ticks are disabled. */
  function MajorsConsidered<V>(scale: Scale, ticks: seq<Tick<V>>): seq<nat>
  {
    if scale.majorEnabled then MajorIndicesOf(ticks) else []
  }

  // ---------------------------------------------------------------------------
  // Spacing: getEvenSpacing and calculateSpacing
  // ---------------------------------------------------------------------------

  /**
   * The test `getEvenSpacing` makes: at least two entries, and every consecutive gap
   * equal to the FIRST ENTRY (not to the first gap).
   */
  ghost predicate GapsEqualFirst(arr: seq<int>) {
    |arr| >= 2 && forall i :: 1 <= i < |arr| ==> Gap(arr, i) == arr[0]
  }

  /** The distance from entry `i - 1` to entry `i`. */
  function Gap(arr: seq<int>, i: int): int
    requires 1 <= i < |arr|
  {
    arr[i] - arr[i - 1]
  }

  /** What `getEvenSpacing` returns: the first entry when the test passes, `false` (None) otherwise. */
  ghost function EvenSpacing(arr: seq<int>): Option<int>
  {
    if GapsEqualFirst(arr) then Some(arr[0]) else None
  }

  /**
   * The test holds exactly for the sequences `d, 2d, 3d, …` of length two or more.
   * Hence a strictly ascending list starting at 0 never passes, while an all-zero list
   * does, with spacing 0.
   */
  lemma {:induction false} GapsEqualFirstIffMultiples(arr: seq<int>)
    ensures GapsEqualFirst(arr) <==>
              |arr| >= 2 && forall i :: 0 <= i < |arr| ==> arr[i] == (i + 1) * arr[0]
  {
    if GapsEqualFirst(arr) {
      var i := 0;
      while i < |arr|
        invariant 0 <= i <= |arr|
        invariant forall j :: 0 <= j < i ==> arr[j] == (j + 1) * arr[0]
      {
        if i > 0 {
          assert Gap(arr, i) == arr[0];
          assert arr[i - 1] == i * arr[0];
          assert arr[i] == (i + 1) * arr[0];
        }
        i := i + 1;
      }
    }
    if |arr| >= 2 && forall i :: 0 <= i < |arr| ==> arr[i] == (i + 1) * arr[0] {
      forall i | 1 <= i < |arr|
        ensures Gap(arr, i) == arr[0]
      {
        assert arr[i] == (i + 1) * arr[0];
        assert arr[i - 1] == i * arr[0];
      }
    }
  }

  method GetEvenSpacing(arr: seq<int>) returns (r: Option<int>)
    ensures r == EvenSpacing(arr)
    ensures r.Some? && StrictlyIncreasing(arr) ==> r.value > 0
  {
    if |arr| < 2 {
      return None;
    }
    var diff := arr[0];
    for i := 1 to |arr|
      invariant forall j :: 1 <= j < i ==> Gap(arr, j) == diff
    {
      if Gap(arr, i) != diff {
        return None;
      }
    }
    if StrictlyIncreasing(arr) {
      assert Gap(arr, 1) == diff;
    }
    return Some(diff);
  }

  /** The index of the first entry of `fs` strictly greater than `x`, if there is one. */
  function FirstAbove(fs: seq<int>, x: real): (r: Option<nat>)
    ensures r.Some? ==> r.value < |fs| && fs[r.value] as real > x
                        && forall i :: 0 <= i < r.value ==> fs[i] as real <= x
    ensures r.None? ==> forall i :: 0 <= i < |fs| ==> fs[i] as real <= x
  {
    if fs == [] then None
    else if fs[0] as real > x then Some(0)
    else match FirstAbove(fs[1..], x)
      case Some(j) => Some(j + 1)
      case None => None
  }

  /**
   * The step sizes `calculateSpacing` tries: when the major spacing is even (and
   * non-zero), the factors of it, all but the last one.
   */
  function Candidates(even: Option<int>, factorize: int -> seq<int>): seq<int>
  {
    if even.Some? && even.value != 0 then
      var fs := factorize(even.value);
      if |fs| == 0 then [] else fs[..|fs| - 1]
    else []
  }

  /**
   * The spacing between kept ticks: the first candidate factor above the raw spacing
   * `n / ticksLimit`, else the raw spacing but at least 1.
   */
  ghost function ChosenSpacing(majorIndices: seq<nat>, n: nat, ticksLimit: int, factorize: int -> seq<int>): (r: real)
    requires ticksLimit >= 1
    ensures r >= 1.0
  {
    var raw := n as real / ticksLimit as real;
    var cs := Candidates(EvenSpacing(majorIndices), factorize);
    match FirstAbove(cs, raw)
    case Some(j) => cs[j] as real
    case None => MaxReal(raw, 1.0)
  }

  /** `calculateSpacing`: scan the candidate factors, returning early at the first one above the raw spacing. */
  method CalculateSpacing(majorIndices: seq<nat>, n: nat, ticksLimit: int, factorize: int -> seq<int>)
    returns (spacing: real)
    requires ticksLimit >= 1
    ensures spacing == ChosenSpacing(majorIndices, n, ticksLimit, factorize)
  {
    var evenMajorSpacing := GetEvenSpacing(majorIndices);
    var raw := n as real / ticksLimit as real;
    if evenMajorSpacing.None? || evenMajorSpacing.value == 0 {
      return MaxReal(raw, 1.0);
    }
    var factors := factorize(evenMajorSpacing.value);
    ghost var cs := Candidates(evenMajorSpacing, factorize);
    var i := 0;
    while i < |factors| - 1
      invariant 0 <= i <= |factors|
      invariant cs == if |factors| == 0 then [] else factors[..|factors| - 1]
      invariant forall j :: 0 <= j < i ==> factors[j] as real <= raw
    {
      if factors[i] as real > raw {
        assert cs[i] == factors[i];
        return factors[i] as real;
      }
      i := i + 1;
    }
    return MaxReal(raw, 1.0);
  }

  // ---------------------------------------------------------------------------
  // Decimating the major ticks: skipMajors
  // ---------------------------------------------------------------------------

  /** `picked` is `m[0], m[s], m[2s], …` as far as it goes. */
  ghost predicate StridePrefix(picked: seq<nat>, m: seq<nat>, s: nat) {
    forall j :: 0 <= j < |picked| ==> j * s < |m| && picked[j] == m[j * s]
  }

  /**
   * `picked` is `m[0], m[s], m[2s], …`: every `s`-th entry of `m` from the first,
   * and no further one.
   */
  ghost predicate EveryNth(picked: seq<nat>, m: seq<nat>, s: nat) {
    StridePrefix(picked, m, s) && |picked| * s >= |m|
  }

  /** Taking the entry at the next stride position extends the prefix by one. */
  lemma StrideExtend(picked: seq<nat>, m: seq<nat>, s: nat, pos: int)
    requires StridePrefix(picked, m, s) && pos == |picked| * s && pos < |m|
    ensures StridePrefix(picked + [m[pos]], m, s)
    ensures pos + s == |picked + [m[pos]]| * s
  {
    var p := picked + [m[pos]];
    forall j | 0 <= j < |p|
      ensures j * s < |m| && p[j] == m[j * s]
    {
      if j == |picked| {
        assert j * s == pos;
      }
    }
  }

  /**
   * `skipMajors`: keep the ticks found at every `ceil(spacing)`-th major index,
   * starting with the first major.
   */
  method SkipMajors<V>(ticks: seq<Tick<V>>, newTicks: seq<Tick<V>>, majorIndices: seq<nat>, spacing: real)
    returns (result: seq<Tick<V>>, picked: seq<nat>)
    requires spacing > 0.0
    requires StrictlyIncreasing(majorIndices) && IndicesOf(majorIndices, ticks)
    ensures IndicesOf(picked, ticks) && StrictlyIncreasing(picked)
    ensures EveryNth(picked, majorIndices, Ceil(spacing))
    ensures result == newTicks + Gather(ticks, picked)
  {
    var s := Ceil(spacing);
    var count := 0;
    var next: Option<nat> := if |majorIndices| > 0 then Some(majorIndices[0]) else None;
    ghost var pos := 0;
    result, picked := newTicks, [];
    for i := 0 to |ticks|
      invariant count == |picked| && pos == count * s
      invariant next == if pos < |majorIndices| then Some(majorIndices[pos]) else None
      invariant next.Some? ==> next.value >= i
      invariant StridePrefix(picked, majorIndices, s)
      invariant IndicesOf(picked, ticks) && StrictlyIncreasing(picked)
      invariant forall j :: 0 <= j < |picked| ==> picked[j] < i
      invariant result == newTicks + Gather(ticks, picked)
    {
      if next == Some(i) {
        StrideExtend(picked, majorIndices, s, pos);
        result := result + [ticks[i]];
        picked := picked + [i];
        count, pos := count + 1, pos + s;
        next := if count * s < |majorIndices| then Some(majorIndices[count * s]) else None;
      }
    }
  }

  // ---------------------------------------------------------------------------
  // Decimating a segment: skip
  // ---------------------------------------------------------------------------

  /**
   * The step `skip` walks with. `Unbounded` stands for the JavaScript results
   * `Infinity` and `NaN` (a recomputation dividing by `floor(length / spacing) == 0`,
   * or `majorStart` absent): no position after `start` is ever reached.
   */
  datatype Step = Finite(size: real) | Unbounded

  /**
   * `ceil(spacing)`, recomputed as `length / floor(length / spacing)` over
   * `length = majorEnd - majorStart` whenever `majorEnd` is truthy (present and
   * non-zero). The step is never below 1.
   */
  function SkipStep(spacing: real, majorStart: Option<int>, majorEnd: Option<int>): (step: Step)
    requires spacing > 0.0
    ensures step.Finite? ==> step.size >= 1.0
    ensures step.Finite? && majorStart.Some? && majorEnd.Some? && majorEnd.value != 0 ==>
              var length := majorEnd.value - majorStart.value;
              length > 0 ==> step.size >= Ceil(spacing) as real
  {
    var s := Ceil(spacing);
    if majorEnd.Some? && majorEnd.value != 0 then
      if majorStart.None? then Unbounded
      else
        var length := majorEnd.value - majorStart.value;
        var q := (length as real / s as real).Floor;
        if q == 0 then Unbounded
        else
          StepAtLeastOne(length, s, q);
          Finite(length as real / q as real)
    else Finite(s as real)
  }

  lemma StepAtLeastOne(length: int, s: int, q: int)
    requires s >= 1 && q == (length as real / s as real).Floor && q != 0
    ensures length as real / q as real >= 1.0
    ensures length > 0 ==> length as real / q as real >= s as real
  {
    var L, S, Q := length as real, s as real, q as real;
    var x := L / S;
    assert q == x.Floor;
    if length > 0 {
      FloorAtLeast(x, 0);
      assert Q <= x;
      MulBelow(Q, L, S);
      DivAbove(L, Q, S);
    } else {
      NonPositiveShrinks(L, S);
      FloorAtLeast(x, length);
      DivNegative(L, Q);
    }
  }

  lemma FloorAtLeast(x: real, n: int)
    requires x >= n as real
    ensures x.Floor >= n
  {
  }

  lemma MulBelow(q: real, l: real, s: real)
    requires s > 0.0 && q <= l / s
    ensures q * s <= l
  {
    assert q * s <= (l / s) * s;
  }

  lemma DivAbove(l: real, q: real, s: real)
    requires q > 0.0 && q * s <= l
    ensures l / q >= s
  {
    assert (l / q) * q == l;
  }

  lemma NonPositiveShrinks(l: real, s: real)
    requires l <= 0.0 && s >= 1.0
    ensures l / s >= l
  {
    assert (l / s) * s == l;
    assert l / s <= 0.0;
    assert l / s * s <= l / s;
  }

  lemma DivNegative(l: real, q: real)
    requires q < 0.0 && l <= q
    ensures l / q >= 1.0
  {
    assert (l / q) * q == l;
  }

  /**
   * The `k`-th position `skip` aims at: `start` itself, then `round(start + k * step)`;
   * `None` when the step is unbounded.
   */
  function Mark(start: int, step: Step, k: nat): Option<int>
  {
    if k == 0 then Some(start)
    else match step
      case Finite(size) => Some(Round(start as real + k as real * size))
      case Unbounded => None
  }

  /** Scaling by a factor of at least 1 widens the gap between two non-negative reals. */
  lemma ScaledGap(j: real, k: real, size: real)
    requires 0.0 <= j <= k && size >= 1.0
    ensures k * size - j * size >= k - j
  {
    assert k * size - j * size == (k - j) * size;
    assert (k - j) * size - (k - j) == (k - j) * (size - 1.0);
  }

  /** Later marks lie strictly beyond earlier ones, by at least one per step. */
  lemma MarkIncreasing(start: int, step: Step, j: nat, k: nat)
    requires step.Finite? ==> step.size >= 1.0
    requires j < k && Mark(start, step, k).Some?
    ensures Mark(start, step, j).Some?
    ensures Mark(start, step, j).value + (k - j) <= Mark(start, step, k).value
  {
    var size := step.size;
    var later := start as real + k as real * size;
    ScaledGap(j as real, k as real, size);
    var a, b := Mark(start, step, j).value, Mark(start, step, k).value;
    assert b as real > later - 0.5;
    if j > 0 {
      assert a as real <= start as real + j as real * size + 0.5;
      assert (b - a) as real > (k - j - 1) as real;
    }
  }


  /**
   * `picked` holds, in order, the marks numbered `k0`, `k0 + 1`, … that lie in
   * `[lo, hi)`; the marks before `k0` lie below `lo` and the next one at or beyond `hi`.
   */
  ghost predicate MarkRun(picked: seq<nat>, start: int, step: Step, lo: int, hi: int, k0: nat) {
    && (forall j :: 0 <= j < |picked| ==> Mark(start, step, k0 + j) == Some(picked[j]) && lo <= picked[j] < hi)
    && (forall k: nat :: k < k0 ==> Mark(start, step, k).Some? && Mark(start, step, k).value < lo)
    && (Mark(start, step, k0 + |picked|).None? || Mark(start, step, k0 + |picked|).value >= hi)
  }

  ghost predicate IsMark(start: int, step: Step, x: int) {
    exists k: nat :: Mark(start, step, k) == Some(x)
  }

  /** `picked` is exactly the marks lying in `[lo, hi)`, strictly ascending. */
  ghost predicate ExactlyMarksIn(picked: seq<nat>, start: int, step: Step, lo: int, hi: int) {
    && StrictlyIncreasing(picked)
    && (forall j :: 0 <= j < |picked| ==> lo <= picked[j] < hi && IsMark(start, step, picked[j]))
    && (forall k: nat :: Mark(start, step, k).Some? && lo <= Mark(start, step, k).value < hi ==>
          Mark(start, step, k).value in picked)
  }

  /** A run of consecutive marks is exactly the set of marks in its window. */
  lemma MarkRunIsExact(picked: seq<nat>, start: int, step: Step, lo: int, hi: int, k0: nat)
    requires step.Finite? ==> step.size >= 1.0
    requires MarkRun(picked, start, step, lo, hi, k0)
    ensures ExactlyMarksIn(picked, start, step, lo, hi)
  {
    forall i, j | 0 <= i < j < |picked|
      ensures picked[i] < picked[j]
    {
      assert Mark(start, step, k0 + j) == Some(picked[j]);
      MarkIncreasing(start, step, k0 + i, k0 + j);
    }
    forall j | 0 <= j < |picked|
      ensures IsMark(start, step, picked[j])
    {
      assert Mark(start, step, k0 + j) == Some(picked[j]);
    }
    forall k: nat | Mark(start, step, k).Some? && lo <= Mark(start, step, k).value < hi
      ensures Mark(start, step, k).value in picked
    {
      var past := k0 + |picked|;
      if k >= past {
        if k > past {
          MarkIncreasing(start, step, past, k);
        }
        assert false;
      }
      assert picked[k - k0] == Mark(start, step, k).value;
    }
  }

  /**
   * The first loop of `skip`: step past the marks that fall before index 0. The mark
   * reached is the first one at or beyond 0, or `None` when the step is unbounded.
   */
  method SkipNegativeMarks(start: int, step: Step) returns (count: nat, next: Option<int>)
    requires step.Finite? ==> step.size >= 1.0
    ensures next == Mark(start, step, count)
    ensures next.None? || next.value >= 0
    ensures forall k: nat :: k < count ==> Mark(start, step, k).Some? && Mark(start, step, k).value < 0
  {
    count, next := 0, Mark(start, step, 0);
    while next.Some? && next.value < 0
      invariant next == Mark(start, step, count)
      invariant next.Some? ==> next.value >= start + count
      invariant forall k: nat :: k < count ==> Mark(start, step, k).Some? && Mark(start, step, k).value < 0
      decreases -start - count
    {
      if Mark(start, step, count + 1).Some? {
        MarkIncreasing(start, step, count, count + 1);
      }
      count := count + 1;
      next := Mark(start, step, count);
    }
  }

  /**
   * `skip`: walk the indices of `[max(start, 0), min(end, n))`, where `start` and `end`
   * default to 0 and `n`, and push the ticks found at the marks.
   */
  method Skip<V>(ticks: seq<Tick<V>>, newTicks: seq<Tick<V>>, spacing: real,
                 majorStart: Option<int>, majorEnd: Option<int>)
    returns (result: seq<Tick<V>>, picked: seq<nat>)
    requires spacing > 0.0
    ensures var start := majorStart.GetOr(0);
            var step := SkipStep(spacing, majorStart, majorEnd);
            var lo := Max(start, 0);
            var hi := Min(majorEnd.GetOr(|ticks|), |ticks|);
            && IndicesOf(picked, ticks)
            && ExactlyMarksIn(picked, start, step, lo, hi)
            && (exists k0: nat :: MarkRun(picked, start, step, lo, hi, k0))
            && (0 <= start < hi ==> start in picked)
    ensures IndicesOf(picked, ticks) && result == newTicks + Gather(ticks, picked)
  {
    var start := majorStart.GetOr(0);
    var end := Min(majorEnd.GetOr(|ticks|), |ticks|);
    var step := SkipStep(spacing, majorStart, majorEnd);
    var count, next := SkipNegativeMarks(start, step);

    ghost var k0 := count;
    var lo := Max(start, 0);
    result, picked := newTicks, [];
    var i := lo;
    while i < end
      invariant lo <= i <= Max(lo, end)
      invariant k0 <= count && |picked| == count - k0
      invariant next == Mark(start, step, count)
      invariant next.Some? ==> next.value >= i
      invariant forall j :: 0 <= j < |picked| ==> Mark(start, step, k0 + j) == Some(picked[j]) && lo <= picked[j] < i
      invariant IndicesOf(picked, ticks)
      invariant result == newTicks + Gather(ticks, picked)
    {
      if next == Some(i) {
        result := result + [ticks[i]];
        picked := picked + [i];
        if Mark(start, step, count + 1).Some? {
          MarkIncreasing(start, step, count, count + 1);
        }
        count := count + 1;
        next := Mark(start, step, count);
      }
      i := i + 1;
    }
    assert MarkRun(picked, start, step, lo, end, k0);
    MarkRunIsExact(picked, start, step, lo, end, k0);
    if 0 <= start < end {
      assert Mark(start, step, 0) == Some(start);
    }
  }

  // ---------------------------------------------------------------------------
  // The driver: autoSkip
  // ---------------------------------------------------------------------------

  /** `round((last - first) / (numMajor - 1))` when there are two majors or more. */
  function AverageMajorSpacing(majors: seq<nat>): Option<int>
  {
    if |majors| > 1 then Some(Round((majors[|majors| - 1] as int - majors[0] as int) as real / (|majors| - 1) as real))
    else None
  }

  /** The last of strictly increasing integers lies at least `|m| - 1` beyond the first. */
  lemma {:induction false} IncreasingSpread(m: seq<int>)
    requires |m| >= 1 && StrictlyIncreasing(m)
    ensures m[|m| - 1] - m[0] >= |m| - 1
  {
    if |m| > 1 {
      var init := m[..|m| - 1];
      IncreasingSpread(init);
      assert init[|init| - 1] == m[|m| - 2] && init[0] == m[0];
    }
  }

  /** With two majors or more, the average major spacing is at least 1. */
  lemma AverageSpacingPositive(majors: seq<nat>)
    requires |majors| >= 2 && StrictlyIncreasing(majors)
    ensures AverageMajorSpacing(majors).Some? && AverageMajorSpacing(majors).value >= 1
  {
    IncreasingSpread(majors);
    var gap := (majors[|majors| - 1] as int - majors[0] as int) as real;
    var d := (|majors| - 1) as real;
    QuotientAtLeastOne(gap, d);
  }

  lemma QuotientAtLeastOne(a: real, b: real)
    requires 0.0 < b <= a
    ensures a / b >= 1.0
  {
    var q := a / b;
    assert q * b == a;
    assert (q - 1.0) * b == a - b >= 0.0;
  }

  /**
   * Keeping every `s`-th of `n` positions, with `s` at least `n / limit`, keeps at
   * most `limit` of them: if the last kept one, number `p - 1`, falls short of `n`.
   */
  lemma DecimationWithinLimit(p: nat, s: int, n: int, limit: int)
    requires limit >= 1 && s >= 1
    requires p >= 1 ==> (p - 1) * s < n
    requires s as real >= n as real / limit as real
    ensures p <= limit
  {
    var L, S, N := limit as real, s as real, n as real;
    assert L * S >= N by {
      assert L * (N / L) == N;
    }
    assert (limit * s) as real == L * S;
    if p >= 1 {
      FactorOut(p - 1, limit, s);
    }
  }

  lemma FactorOut(a: int, b: int, s: int)
    requires s > 0 && a * s < b * s
    ensures a < b
  {
  }

  /** Two strictly increasing runs, the first entirely below the second, join into one. */
  lemma JoinIncreasing(a: seq<nat>, b: seq<nat>, bound: int)
    requires StrictlyIncreasing(a) && StrictlyIncreasing(b)
    requires forall j :: 0 <= j < |a| ==> a[j] < bound
    requires forall j :: 0 <= j < |b| ==> bound <= b[j]
    ensures StrictlyIncreasing(a + b)
  {
  }

  /** On an integer step from 0, the marks are the exact multiples of the step. */
  lemma MarksFromZero(s: int, k: nat)
    requires s >= 1
    ensures Mark(0, Finite(s as real), k) == Some(k * s)
  {
    assert (k as real) * (s as real) == (k * s) as real;
  }

  /**
   * Keeping every `ceil(numMajor / limit)`-th major tick keeps only major ticks, and
   * no more than the limit.
   */
  lemma MajorSkipWithinLimit<V>(ticks: seq<Tick<V>>, majors: seq<nat>, picked: seq<nat>, limit: int)
    requires 1 <= limit < |majors|
    requires forall j :: 0 <= j < |majors| ==> majors[j] < |ticks| && ticks[majors[j]].major
    requires EveryNth(picked, majors, Ceil(|majors| as real / limit as real))
    ensures |picked| <= limit
    ensures forall j :: 0 <= j < |picked| ==> ticks[picked[j]].major
  {
    var s := Ceil(|majors| as real / limit as real);
    if |picked| >= 1 {
      assert (|picked| - 1) * s < |majors|;
    }
    DecimationWithinLimit(|picked|, s, |majors|, limit);
    forall j | 0 <= j < |picked|
      ensures ticks[picked[j]].major
    {
      assert picked[j] == majors[j * s];
    }
  }

  /**
   * Without majors, `skip` over the whole axis with step `s >= n / limit` keeps
   * positions `0, s, 2s, …` below `n`: the first tick, and no more than the limit.
   */
  lemma WholeAxisSkipWithinLimit(picked: seq<nat>, s: int, n: nat, limit: int, k0: nat)
    requires limit >= 1 && s >= 1 && s as real >= n as real / limit as real
    requires MarkRun(picked, 0, Finite(s as real), 0, n, k0)
    ensures forall j :: 0 <= j < |picked| ==> picked[j] == j * s
    ensures |picked| * s >= n
    ensures |picked| <= limit
    ensures n > 0 ==> picked[0] == 0
  {
    assert Mark(0, Finite(s as real), 0) == Some(0);
    assert k0 == 0;
    forall j | 0 <= j < |picked|
      ensures picked[j] == j * s
    {
      MarksFromZero(s, j);
    }
    MarksFromZero(s, |picked|);
    if |picked| >= 1 {
      assert picked[|picked| - 1] == (|picked| - 1) * s;
    }
    DecimationWithinLimit(|picked|, s, n, limit);
  }

  /**
   * `x` is kept by the `skip` call over the segment from `start` to `end`: it is one of
   * that call's marks and lies in its clamped window `[max(start, 0), min(end, n))`.
   */
  ghost predicate SegmentMark(n: nat, spacing: real, start: int, end: int, x: int)
    requires spacing > 0.0
  {
    Max(start, 0) <= x < Min(end, n) && IsMark(start, SkipStep(spacing, Some(start), Some(end)), x)
  }

  /** `seg` is exactly what the `skip` call over the segment from `start` to `end` keeps. */
  ghost predicate SegmentKept(seg: seq<nat>, n: nat, spacing: real, start: int, end: int)
    requires spacing > 0.0
  {
    && (forall k :: 0 <= k < |seg| ==> SegmentMark(n, spacing, start, end, seg[k]))
    && (forall x {:trigger SegmentMark(n, spacing, start, end, x)} :: SegmentMark(n, spacing, start, end, x) ==> x in seg)
  }

  /** What `skip` keeps over one segment, stated index by index and value by value. */
  lemma SegmentExact(seg: seq<nat>, n: nat, spacing: real, start: int, end: int)
    requires spacing > 0.0
    requires ExactlyMarksIn(seg, start, SkipStep(spacing, Some(start), Some(end)), Max(start, 0), Min(end, n))
    ensures SegmentKept(seg, n, spacing, start, end)
  {
    var step := SkipStep(spacing, Some(start), Some(end));
    forall x | SegmentMark(n, spacing, start, end, x)
      ensures x in seg
    {
      var k: nat :| Mark(start, step, k) == Some(x);
    }
  }

  /**
   * `skip` over the segment from `start` to `end`, both given, as the major-tick
   * branch of `autoSkip` calls it: the picks are exactly the segment's marks.
   */
  method SkipSegment<V>(ticks: seq<Tick<V>>, newTicks: seq<Tick<V>>, spacing: real, start: int, end: int)
    returns (result: seq<Tick<V>>, seg: seq<nat>)
    requires spacing > 0.0
    ensures IndicesOf(seg, ticks) && StrictlyIncreasing(seg)
    ensures result == newTicks + Gather(ticks, seg)
    ensures forall k :: 0 <= k < |seg| ==> start <= seg[k] < end
    ensures SegmentKept(seg, |ticks|, spacing, start, end)
    ensures 0 <= start < Min(end, |ticks|) ==> start in seg
  {
    result, seg := Skip(ticks, newTicks, spacing, Some(start), Some(end));
    SegmentExact(seg, |ticks|, spacing, start, end);
  }

  /** `x` is kept by one of the `skip` calls over `[m[j], m[j + 1])` with `j < upto`. */
  ghost predicate InnerMarkBelow(n: nat, m: seq<nat>, spacing: real, upto: nat, x: int)
    requires spacing > 0.0 && upto < |m|
    decreases upto
  {
    upto > 0 &&
    (InnerMarkBelow(n, m, spacing, upto - 1, x) || SegmentMark(n, spacing, m[upto - 1], m[upto], x))
  }

  /** `x` is kept by the `skip` call over one of the segments between consecutive majors. */
  ghost predicate InnerMark(n: nat, m: seq<nat>, spacing: real, x: int)
    requires spacing > 0.0 && |m| > 0
  {
    InnerMarkBelow(n, m, spacing, |m| - 1, x)
  }

  /** `picked` is exactly what the `skip` calls over the first `upto` inner segments keep. */
  ghost predicate InnerKeptBelow(picked: seq<nat>, n: nat, m: seq<nat>, spacing: real, upto: nat)
    requires spacing > 0.0 && upto < |m|
  {
    && (forall k :: 0 <= k < |picked| ==> InnerMarkBelow(n, m, spacing, upto, picked[k]))
    && (forall x {:trigger InnerMarkBelow(n, m, spacing, upto, x)} :: InnerMarkBelow(n, m, spacing, upto, x) ==> x in picked)
  }

  /** What the first `upto` inner segments keep lies between the first major and major `upto`. */
  lemma {:induction false} InnerMarkBounds(n: nat, m: seq<nat>, spacing: real, upto: nat, x: int)
    requires spacing > 0.0 && upto < |m| && StrictlyIncreasing(m)
    requires InnerMarkBelow(n, m, spacing, upto, x)
    ensures m[0] <= x < m[upto]
  {
    if InnerMarkBelow(n, m, spacing, upto - 1, x) {
      InnerMarkBounds(n, m, spacing, upto - 1, x);
    }
  }

  /**
   * Appending what `skip` keeps over segment `i`, from `lo == m[i]` to `hi == m[i + 1]`,
   * extends the picks of the first `i` segments to those of the first `next == i + 1`.
   */
  lemma InnerMarkExtend(n: nat, m: seq<nat>, spacing: real, i: nat, next: nat, lo: int, hi: int,
                        picked: seq<nat>, seg: seq<nat>)
    requires spacing > 0.0 && next == i + 1 < |m| && lo == m[i] && hi == m[i + 1]
    requires InnerKeptBelow(picked, n, m, spacing, i)
    requires SegmentKept(seg, n, spacing, lo, hi)
    ensures InnerKeptBelow(picked + seg, n, m, spacing, next)
  {
    forall k | 0 <= k < |picked + seg|
      ensures InnerMarkBelow(n, m, spacing, next, (picked + seg)[k])
    {
      if k < |picked| {
        assert (picked + seg)[k] == picked[k];
      } else {
        assert SegmentMark(n, spacing, m[i], m[i + 1], seg[k - |picked|]);
      }
    }
    forall x | InnerMarkBelow(n, m, spacing, next, x)
      ensures x in picked + seg
    {
      if InnerMarkBelow(n, m, spacing, i, x) {
        assert x in picked;
      } else {
        assert x in seg;
      }
    }
  }

  /**
   * The loop of `autoSkip` over consecutive major ticks: each segment
   * `[majorIndices[i], majorIndices[i + 1])` is decimated by `spacing`, and what it
   * keeps is appended to the output.
   */
  method SkipBetweenMajors<V>(ticks: seq<Tick<V>>, newTicks: seq<Tick<V>>, majorIndices: seq<nat>, spacing: real)
    returns (result: seq<Tick<V>>, picked: seq<nat>)
    requires spacing > 0.0
    requires |majorIndices| > 0 && StrictlyIncreasing(majorIndices)
    requires forall j :: 0 <= j < |majorIndices| ==> majorIndices[j] < |ticks|
    ensures IndicesOf(picked, ticks) && StrictlyIncreasing(picked)
    ensures result == newTicks + Gather(ticks, picked)
    ensures forall k :: 0 <= k < |picked| ==> majorIndices[0] <= picked[k] < majorIndices[|majorIndices| - 1]
    ensures forall j :: 0 <= j < |majorIndices| - 1 ==> majorIndices[j] in picked
    ensures InnerKeptBelow(picked, |ticks|, majorIndices, spacing, |majorIndices| - 1)
  {
    var seg: seq<nat>;
    result, picked := newTicks, [];
    for i := 0 to |majorIndices| - 1
      invariant IndicesOf(picked, ticks) && StrictlyIncreasing(picked)
      invariant result == newTicks + Gather(ticks, picked)
      invariant forall k :: 0 <= k < |picked| ==> majorIndices[0] <= picked[k] < majorIndices[i]
      invariant forall j :: 0 <= j < i ==> majorIndices[j] in picked
      invariant InnerKeptBelow(picked, |ticks|, majorIndices, spacing, i)
    {
      var lo, hi := majorIndices[i], majorIndices[i + 1];
      result, seg := SkipSegment(ticks, result, spacing, lo, hi);
      InnerMarkExtend(|ticks|, majorIndices, spacing, i, i + 1, lo, hi, picked, seg);
      assert lo in seg;
      JoinIncreasing(picked, seg, lo);
      GatherAppend(ticks, picked, seg);
      picked := picked + seg;
    }
  }

  /** Where `autoSkip` starts the segment before the first major: `avgMajorSpacing` before it, or 0. */
  function PreStart(m: seq<nat>): int
    requires |m| > 0
  {
    match AverageMajorSpacing(m)
    case Some(avg) => m[0] - avg
    case None => 0
  }

  /** Where `autoSkip` ends the segment after the last major: `avgMajorSpacing` after it, or `n`. */
  function PostEnd(m: seq<nat>, n: nat): int
    requires |m| > 0
  {
    match AverageMajorSpacing(m)
    case Some(avg) => m[|m| - 1] + avg
    case None => n
  }

  /**
   * `x` is kept when the majors `m` all fit: it is kept by the `skip` call over the
   * segment before the first major, over one between consecutive majors, or over the
   * one after the last major.
   */
  ghost predicate KeptAroundMajors(n: nat, m: seq<nat>, spacing: real, x: int)
    requires spacing > 0.0 && |m| > 0
  {
    || SegmentMark(n, spacing, PreStart(m), m[0], x)
    || InnerMark(n, m, spacing, x)
    || SegmentMark(n, spacing, m[|m| - 1], PostEnd(m, n), x)
  }

  /**
   * The three parts, each exactly what its `skip` calls keep, make up exactly
   * `KeptAroundMajors`; `preStart`, `first`, `last` and `postEnd` name the bounds of
   * the outer segments.
   */
  lemma AroundMajorsJoin(n: nat, m: seq<nat>, spacing: real, preStart: int, first: int, last: int, postEnd: int,
                         pre: seq<nat>, inner: seq<nat>, post: seq<nat>)
    requires spacing > 0.0 && |m| > 0
    requires preStart == PreStart(m) && first == m[0] && last == m[|m| - 1] && postEnd == PostEnd(m, n)
    requires SegmentKept(pre, n, spacing, preStart, first)
    requires InnerKeptBelow(inner, n, m, spacing, |m| - 1)
    requires SegmentKept(post, n, spacing, last, postEnd)
    ensures forall k :: 0 <= k < |pre + inner + post| ==> KeptAroundMajors(n, m, spacing, (pre + inner + post)[k])
    ensures forall x {:trigger KeptAroundMajors(n, m, spacing, x)} ::
              KeptAroundMajors(n, m, spacing, x) ==> x in pre + inner + post
  {
    var all := pre + inner + post;
    forall k | 0 <= k < |all|
      ensures KeptAroundMajors(n, m, spacing, all[k])
    {
      if k < |pre| {
        assert all[k] == pre[k];
      } else if k < |pre| + |inner| {
        assert all[k] == inner[k - |pre|];
      } else {
        assert all[k] == post[k - |pre| - |inner|];
      }
    }
  }

  /**
   * With two majors or more, whatever the segments keep lies within `avgMajorSpacing`
   * of the first and the last major.
   */
  lemma KeptWithinWindow(n: nat, m: seq<nat>, spacing: real, x: int)
    requires spacing > 0.0 && |m| >= 2 && StrictlyIncreasing(m)
    requires KeptAroundMajors(n, m, spacing, x)
    ensures AverageMajorSpacing(m).Some?
    ensures m[0] - AverageMajorSpacing(m).value <= x < m[|m| - 1] + AverageMajorSpacing(m).value
  {
    AverageSpacingPositive(m);
    if InnerMark(n, m, spacing, x) {
      InnerMarkBounds(n, m, spacing, |m| - 1, x);
    }
  }

  /**
   * The outcome of the branch for major ticks that all fit: every major is kept, the
   * picks are exactly what the `skip` calls keep over the segment before the first
   * major, those between consecutive majors and the one after the last major, and with
   * two majors or more nothing lies `avgMajorSpacing` or more away from the first and
   * last majors.
   */
  ghost predicate AroundMajorsKept(picked: seq<nat>, n: nat, m: seq<nat>, spacing: real)
    requires spacing > 0.0 && |m| > 0
  {
    && (forall j :: 0 <= j < |m| ==> m[j] in picked)
    && (forall k :: 0 <= k < |picked| ==> KeptAroundMajors(n, m, spacing, picked[k]))
    && (forall x {:trigger KeptAroundMajors(n, m, spacing, x)} :: KeptAroundMajors(n, m, spacing, x) ==> x in picked)
    && (|m| >= 2 ==>
          && AverageMajorSpacing(m).Some?
          && forall k :: 0 <= k < |picked| ==>
               m[0] - AverageMajorSpacing(m).value <= picked[k] < m[|m| - 1] + AverageMajorSpacing(m).value)
  }

  /**
   * The branch of `autoSkip` for major ticks that all fit: the ticks kept are exactly
   * those the `skip` calls keep over the segment before the first major, the segments
   * between consecutive majors and the segment after the last one. Every major is kept,
   * and with two majors or more nothing lies `avgMajorSpacing` or more away from the
   * first and last majors.
   */
  method SkipAroundMajors<V>(ticks: seq<Tick<V>>, majorIndices: seq<nat>, spacing: real)
    returns (newTicks: seq<Tick<V>>, picked: seq<nat>)
    requires spacing > 0.0
    requires |majorIndices| > 0 && StrictlyIncreasing(majorIndices)
    requires forall j :: 0 <= j < |majorIndices| ==> majorIndices[j] < |ticks|
    ensures IndicesOf(picked, ticks) && StrictlyIncreasing(picked)
    ensures newTicks == Gather(ticks, picked)
    ensures AroundMajorsKept(picked, |ticks|, majorIndices, spacing)
  {
    var numMajorIndices := |majorIndices|;
    var first := majorIndices[0];
    var last := majorIndices[numMajorIndices - 1];
    var avgMajorSpacing: Option<int> :=
      if numMajorIndices > 1 then Some(Round((last as int - first as int) as real / (numMajorIndices - 1) as real))
      else None;
    assert avgMajorSpacing == AverageMajorSpacing(majorIndices);
    if numMajorIndices > 1 {
      AverageSpacingPositive(majorIndices);
    }
    var preStart := if avgMajorSpacing.None? then 0 else first - avgMajorSpacing.value;
    var postEnd := if avgMajorSpacing.None? then |ticks| else last + avgMajorSpacing.value;
    assert preStart == PreStart(majorIndices) && postEnd == PostEnd(majorIndices, |ticks|);

    var pre, inner, post: seq<nat>;
    newTicks, pre := SkipSegment(ticks, [], spacing, preStart, first);
    assert newTicks == Gather(ticks, pre);
    newTicks, inner := SkipBetweenMajors(ticks, newTicks, majorIndices, spacing);
    GatherAppend(ticks, pre, inner);
    assert newTicks == Gather(ticks, pre + inner);
    newTicks, post := SkipSegment(ticks, newTicks, spacing, last, postEnd);
    GatherAppend(ticks, pre + inner, post);
    picked := pre + inner + post;
    assert newTicks == Gather(ticks, picked);
    assert last in post;

    JoinIncreasing(pre, inner, first);
    JoinIncreasing(pre + inner, post, last);
    AroundMajorsJoin(|ticks|, majorIndices, spacing, preStart, first, last, postEnd, pre, inner, post);
    if numMajorIndices >= 2 {
      forall k | 0 <= k < |picked|
        ensures first - avgMajorSpacing.value <= picked[k] < last + avgMajorSpacing.value
      {
        KeptWithinWindow(|ticks|, majorIndices, spacing, picked[k]);
      }
    }
  }

  /**
   * The outcome of the branch for more major ticks than the limit: the picks are
   * `m[0], m[s], m[2s], …` for `s = ceil(|m| / limit)`, all of them major ticks, and
   * no more than `limit`.
   */
  ghost predicate MajorsThinned<V>(picked: seq<nat>, ticks: seq<Tick<V>>, m: seq<nat>, limit: int)
    requires limit >= 1
  {
    && EveryNth(picked, m, Ceil(|m| as real / limit as real))
    && |picked| <= limit
    && (forall j :: 0 <= j < |picked| ==> picked[j] < |ticks| && ticks[picked[j]].major)
  }

  /**
   * The outcome of the branch without major ticks: the picks are `0, s, 2s, …` for
   * `s = ceil(max(n / limit, 1))`, enough to cover the `n` ticks, starting with the
   * first tick when there is one, and no more than `limit`.
   */
  ghost predicate AxisDecimated(picked: seq<nat>, n: nat, limit: int)
    requires limit >= 1
  {
    var s := Ceil(MaxReal(n as real / limit as real, 1.0));
    && (forall j :: 0 <= j < |picked| ==> picked[j] == j * s)
    && |picked| * s >= n
    && |picked| <= limit
    && (n > 0 ==> picked[0] == 0)
  }

  /**
   * The selection `autoSkip` makes once the limit and the major indices are known:
   * the ticks to draw, and their source indices `picked`. When the major ticks
   * outnumber the limit, every `ceil(numMajor / limit)`-th major tick is kept and
   * nothing else. Otherwise every major tick is kept, with the ticks around them
   * decimated as `SkipAroundMajors` states; without majors, every
   * `ceil(max(n / limit, 1))`-th tick is kept from the first one, and no more than
   * the limit.
   */
  method SkipToLimit<V>(ticks: seq<Tick<V>>, majorIndices: seq<nat>, ticksLimit: int, factorize: int -> seq<int>)
    returns (newTicks: seq<Tick<V>>, picked: seq<nat>)
    requires ticksLimit >= 1
    requires StrictlyIncreasing(majorIndices)
    requires forall j :: 0 <= j < |majorIndices| ==> majorIndices[j] < |ticks| && ticks[majorIndices[j]].major
    ensures IndicesOf(picked, ticks) && StrictlyIncreasing(picked)
    ensures newTicks == Gather(ticks, picked)
    ensures |majorIndices| > ticksLimit ==> MajorsThinned(picked, ticks, majorIndices, ticksLimit)
    ensures 0 < |majorIndices| <= ticksLimit ==>
              AroundMajorsKept(picked, |ticks|, majorIndices, ChosenSpacing(majorIndices, |ticks|, ticksLimit, factorize))
    ensures majorIndices == [] ==> AxisDecimated(picked, |ticks|, ticksLimit)
  {
    var numMajorIndices := |majorIndices|;

    // If there are too many major ticks to display them all
    if numMajorIndices > ticksLimit {
      newTicks, picked := SkipMajors(ticks, [], majorIndices, numMajorIndices as real / ticksLimit as real);
      MajorSkipWithinLimit(ticks, majorIndices, picked, ticksLimit);
      return;
    }

    var spacing := CalculateSpacing(majorIndices, |ticks|, ticksLimit, factorize);
    if numMajorIndices > 0 {
      newTicks, picked := SkipAroundMajors(ticks, majorIndices, spacing);
      return;
    }

    newTicks, picked := Skip(ticks, [], spacing, None, None);
    ghost var k0: nat :| MarkRun(picked, 0, Finite(Ceil(spacing) as real), 0, |ticks|, k0);
    WholeAxisSkipWithinLimit(picked, Ceil(spacing), |ticks|, ticksLimit, k0);
  }

  /**
   * `autoSkip`: the ticks to draw so that their labels do not overlap, and their
   * source indices `picked`. The limit is the capacity of the axis, capped by the
   * configured `maxTicksLimit`; the major indices are those of the major ticks when
   * major ticks are enabled, and none otherwise.
   */
  method AutoSkip<V>(scale: Scale, ticks: seq<Tick<V>>, factorize: int -> seq<int>)
    returns (newTicks: seq<Tick<V>>, picked: seq<nat>)
    requires scale.tickSize > 0.0
    requires EffectiveLimit(scale) >= 1
    ensures IndicesOf(picked, ticks) && StrictlyIncreasing(picked)
    ensures newTicks == Gather(ticks, picked)
    ensures |ticks| == 0 ==> picked == []
    ensures var limit := EffectiveLimit(scale);
            var majors := MajorsConsidered(scale, ticks);
            && (|majors| > limit ==> MajorsThinned(picked, ticks, majors, limit))
            && (0 < |majors| <= limit ==>
                  AroundMajorsKept(picked, |ticks|, majors, ChosenSpacing(majors, |ticks|, limit, factorize)))
            && (majors == [] ==> AxisDecimated(picked, |ticks|, limit))
  {
    var determinedMaxTicks := DetermineMaxTicks(scale.length, scale.maxLength, scale.tickSize, scale.offset);
    var ticksLimit := TicksLimit(scale.maxTicksLimit, determinedMaxTicks);
    assert ticksLimit == EffectiveLimit(scale);
    var majorIndices: seq<nat> := [];
    if scale.majorEnabled {
      majorIndices := GetMajorIndices(ticks);
      MajorIndicesExact(ticks);
    }
    assert majorIndices == MajorsConsidered(scale, ticks);
    newTicks, picked := SkipToLimit(ticks, majorIndices, ticksLimit, factorize);
    assert |ticks| == 0 ==> picked == [] by {
      if |picked| > 0 {
        assert picked[0] < |ticks|;
      }
    }
  }

  /** Strictly ascending picks drawn from `{0, 1}` that include both are exactly `[0, 1]`. */
  lemma OnlyZeroAndOne(p: seq<nat>)
    requires StrictlyIncreasing(p) && 0 in p && 1 in p
    requires forall k :: 0 <= k < |p| ==> p[k] <= 1
    ensures p == [0, 1]
  {
    var z :| 0 <= z < |p| && p[z] == 0;
    var i :| 0 <= i < |p| && p[i] == 1;
    assert z != i;
    IncreasingSpread(p);
    assert p[|p| - 1] <= 1;
    assert p[0] < p[1];
  }

  /**
   * When the major ticks fit, the minor ticks around them can push the count past the
   * limit. Three ticks with a single major in the middle, on a scale that fits one
   * label: the segment before the major keeps the first tick, since `skip` always keeps
   * its start, the major is kept, and the segment after it, whose recomputed step is
   * infinite, keeps nothing more. Two ticks come out against a limit of 1.
   */
  method MajorsFitExceedLimit<V>(a: V, b: V, c: V, factorize: int -> seq<int>)
    returns (scale: Scale, newTicks: seq<Tick<V>>, picked: seq<nat>)
    ensures scale.tickSize > 0.0 && EffectiveLimit(scale) == 1
    ensures newTicks == [Tick(a, false), Tick(b, true)]
    ensures picked == [0, 1]
  {
    scale := Scale(1.0, 1.0, 1.0, true, None, true);
    var ticks := [Tick(a, false), Tick(b, true), Tick(c, false)];
    assert EffectiveLimit(scale) == 1;
    assert MajorIndicesOf(ticks[..1]) == [] by {
      assert ticks[..1][..0] == [];
    }
    assert MajorIndicesOf(ticks[..2]) == [1] by {
      assert ticks[..2][..1] == ticks[..1];
    }
    assert ticks[..3][..2] == ticks[..2];
    assert MajorsConsidered(scale, ticks) == [1];
    assert !GapsEqualFirst([1]);
    assert ChosenSpacing([1], 3, 1, factorize) == 3.0;
    newTicks, picked := AutoSkip(scale, ticks, factorize);

    // The segment before the major is [0, 1) and starts with a mark at 0.
    var pre := SkipStep(3.0, Some(0), Some(1));
    assert Mark(0, pre, 0) == Some(0);
    assert KeptAroundMajors(3, [1], 3.0, 0);
    // The segment after the major is [1, 3): `floor(2 / 3)` is 0, so its step is unbounded.
    var post := SkipStep(3.0, Some(1), Some(3));
    assert post == Unbounded;
    forall x | KeptAroundMajors(3, [1], 3.0, x)
      ensures x == 0 || x == 1
    {
      assert !InnerMarkBelow(3, [1], 3.0, 0, x);
      if SegmentMark(3, 3.0, 1, 3, x) {
        var k: nat :| Mark(1, post, k) == Some(x);
      }
    }
    assert 0 in picked && 1 in picked;
    OnlyZeroAndOne(picked);
  }
}
