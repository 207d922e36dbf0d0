/** "Nice" axis ticks (src/data/layout.ts, `niceNumber` and `calcTickPositions`). */
module TickEngine {
  import opened Types
  import opened Numbers

  /** A step of the form f * 10^k with f in {1, 2, 5, 10}; 10 * 10^k is 10^(k+1). */
  ghost predicate IsNiceStep(step: real) {
    exists k: int :: step == Pow10(k) || step == 2.0 * Pow10(k) || step == 5.0 * Pow10(k)
  }

  /** The leading fraction of a value, in [1, 10), rounded to 1, 2, 5 or 10 with the
      thresholds 1.5, 3 and 7: never below 2/3 nor above 5/3 of the fraction. */
  function NiceFraction(fraction: real): (nice: real)
    ensures nice == 1.0 || nice == 2.0 || nice == 5.0 || nice == 10.0
    ensures 1.0 <= fraction < 10.0 ==> fraction * 2.0 / 3.0 < nice <= fraction * 5.0 / 3.0
  {
    if fraction < 1.5 then 1.0
    else if fraction < 3.0 then 2.0
    else if fraction < 7.0 then 5.0
    else 10.0
  }

  /** With 10^k <= value < 10^(k+1), the leading fraction value / 10^k lies in [1, 10). */
  lemma LeadingFraction(value: real, k: int)
    requires value > 0.0 && Pow10(k) <= value < Pow10(k + 1)
    ensures 1.0 <= value / Pow10(k) < 10.0
  {
    Pow10Succ(k);
    FractionInDecade(value, Pow10(k));
  }

  /** The nice fraction of value, times 10^k, stays within 2/3 to 5/3 of `value`. */
  lemma ScaledNiceBounds(value: real, k: int, nice: real)
    requires value > 0.0 && Pow10(k) <= value < Pow10(k + 1)
    requires nice == NiceFraction(value / Pow10(k)) * Pow10(k)
    ensures value * 2.0 / 3.0 < nice <= value * 5.0 / 3.0
  {
    LeadingFraction(value, k);
    NiceFractionScaled(value, Pow10(k), value / Pow10(k), NiceFraction(value / Pow10(k)));
  }

  /** The bounds of the nice fraction of `value / p`, scaled back by `p`. */
  lemma NiceFractionScaled(value: real, p: real, fraction: real, f: real)
    requires p > 0.0 && fraction == value / p && 1.0 <= fraction < 10.0
    requires f == NiceFraction(fraction)
    ensures value * 2.0 / 3.0 < f * p <= value * 5.0 / 3.0
  {
    DivTimes(value, p);
    ScaledBounds(value, p, fraction, f);
  }

  /** The nice fraction of value, times 10^k, is a nice step. */
  lemma ScaledNiceIsNice(value: real, k: int, nice: real)
    requires nice == NiceFraction(value / Pow10(k)) * Pow10(k)
    ensures IsNiceStep(nice)
  {
    Pow10Succ(k);
    if NiceFraction(value / Pow10(k)) == 10.0 {
      assert nice == Pow10(k + 1);
    }
  }

  /** `value` rounded to a nice step: its leading fraction value / 10^k, where
      10^k <= value < 10^(k+1), becomes 1, 2, 5 or 10. The result is within a factor
      of 2/3 to 5/3 of `value`. */
  function NiceNumber(value: real): real
    requires value > 0.0
  {
    var exponent := Exponent(value);
    var p := Pow10(exponent);
    NiceFraction(value / p) * p
  }

  /** The nice number stays within 2/3 to 5/3 of `value`. */
  lemma NiceNumberBounds(value: real)
    requires value > 0.0
    ensures value * 2.0 / 3.0 < NiceNumber(value) <= value * 5.0 / 3.0
  {
    var k := Exponent(value);
    ExponentBrackets(value);
    NiceNumberUnfold(value, Pow10(k));
    ScaledNiceBounds(value, k, NiceNumber(value));
  }

  /** Every nice number is a nice step: 1, 2 or 5 times a power of ten. */
  lemma NiceNumberIsNiceStep(value: real)
    requires value > 0.0
    ensures IsNiceStep(NiceNumber(value))
  {
    var k := Exponent(value);
    ExponentBrackets(value);
    NiceNumberUnfold(value, Pow10(k));
    ScaledNiceIsNice(value, k, NiceNumber(value));
  }

  /** Any k with 10^k <= value < 10^(k+1) is the exponent `NiceNumber` works with. */
  lemma NiceNumberAt(value: real, k: int)
    requires value > 0.0 && Pow10(k) <= value < Pow10(k + 1)
    ensures NiceNumber(value) == NiceFraction(value / Pow10(k)) * Pow10(k)
  {
    ExponentUnique(value, k);
    NiceNumberUnfold(value, Pow10(k));
  }

  lemma NiceNumberUnfold(value: real, p: real)
    requires value > 0.0 && p == Pow10(Exponent(value))
    ensures NiceNumber(value) == NiceFraction(value / p) * p
  {
  }


  /** A nice step is its own nice number. */
  lemma NiceNumberFixesNiceSteps(step: real)
    requires step > 0.0 && IsNiceStep(step)
    ensures NiceNumber(step) == step
  {
    var k :| step == Pow10(k) || step == 2.0 * Pow10(k) || step == 5.0 * Pow10(k);
    if step == Pow10(k) {
      NiceMultipleFixed(step, k, 1.0);
    } else if step == 2.0 * Pow10(k) {
      NiceMultipleFixed(step, k, 2.0);
    } else {
      NiceMultipleFixed(step, k, 5.0);
    }
  }

  /** 1, 2 or 5 times 10^k has exponent k, fraction 1, 2 or 5, and is its own nice number. */
  lemma NiceMultipleFixed(step: real, k: int, m: real)
    requires m == 1.0 || m == 2.0 || m == 5.0
    requires step == m * Pow10(k)
    ensures NiceNumber(step) == step
  {
    var p := Pow10(k);
    Pow10Succ(k);
    ScaleMonotone(1.0, m, p);
    ScaleStrictMonotone(m, 10.0, p);
    MultipleOver(m, p);
    assert step / p == m;
    assert NiceFraction(m) == m;
    NiceNumberAt(step, k);
  }


  /** Rounding to a nice step twice is rounding once. */
  lemma NiceNumberIdempotent(value: real)
    requires value > 0.0
    ensures NiceNumber(NiceNumber(value)) == NiceNumber(value)
  {
    NiceNumberIsNiceStep(value);
    NiceNumberFixesNiceSteps(NiceNumber(value));
  }

  /** `niceNumber`: the exponent of `value`, its leading fraction, the nice fraction
      picked by the thresholds 1.5, 3 and 7, scaled back by 10^exponent. */
  method RoundToNiceNumber(value: real) returns (nice: real)
    requires value > 0.0
    ensures nice == NiceNumber(value)
  {
    var exponent := Exponent(value);
    var fraction := value / Pow10(exponent);
    var niceFraction: real;
    if fraction < 1.5 {
      niceFraction := 1.0;
    } else if fraction < 3.0 {
      niceFraction := 2.0;
    } else if fraction < 7.0 {
      niceFraction := 5.0;
    } else {
      niceFraction := 10.0;
    }
    nice := niceFraction * Pow10(exponent);
    NiceNumberUnfold(value, Pow10(exponent));
  }

  /** The tick step tried for a given `maxTickCount`: the range split into
      `maxTickCount - 1` parts, rounded to a nice step. */
  function TickStep(min: real, max: real, maxTickCount: int): (step: real)
    requires min < max && maxTickCount >= 2
    ensures step > 0.0
    ensures step <= (max - min) / (maxTickCount - 1) as real * 5.0 / 3.0
  {
    NiceNumberBounds((max - min) / (maxTickCount - 1) as real);
    NiceNumber((max - min) / (maxTickCount - 1) as real)
  }

  /** The least multiple of `step` not below `x` is Ceil(x / step) steps. */
  lemma SnapUp(x: real, step: real)
    requires step > 0.0
    ensures x <= Ceil(x / step) as real * step < x + step
  {
    var q := x / step;
    var c := Ceil(q) as real;
    DivTimes(x, step);
    ScaleMonotone(q, c, step);
    var below := c - 1.0;
    assert below < q;
    ScaleStrictMonotone(below, q, step);
    assert below * step < x;
    assert below * step == c * step - step;
  }

  /** No multiple of `step` below Ceil(x / step) steps reaches `x`. */
  lemma SnapUpLeast(x: real, step: real, j: int)
    requires step > 0.0 && j as real * step >= x
    ensures j >= Ceil(x / step)
  {
    var q := x / step;
    DivTimes(x, step);
    ScaleCancel(q, j as real, step);
  }

  /** The greatest multiple of `step` not above `x` is Floor(x / step) steps. */
  lemma SnapDown(x: real, step: real)
    requires step > 0.0
    ensures x - step < Floor(x / step) as real * step <= x
  {
    var q := x / step;
    var f := Floor(q) as real;
    DivTimes(x, step);
    ScaleMonotone(f, q, step);
    var above := f + 1.0;
    ScaleStrictMonotone(q, above, step);
    assert above * step == f * step + step;
  }

  /** No multiple of `step` above Floor(x / step) steps stays below `x`. */
  lemma SnapDownGreatest(x: real, step: real, j: int)
    requires step > 0.0 && j as real * step <= x
    ensures j <= Floor(x / step)
  {
    var q := x / step;
    DivTimes(x, step);
    ScaleCancel(j as real, q, step);
  }

  /** The snapping of layout.ts: `Math.floor` of min/step, raised one step when below
      `min`, is the least multiple of step not below `min`. */
  lemma RaisedFloorIsCeil(min: real, step: real)
    requires step > 0.0
    ensures var low := Floor(min / step) as real * step;
      (if low < min then low + step else low) == Ceil(min / step) as real * step
  {
    var q := min / step;
    FloorCeil(q);
    assert min == q * step;
    if Floor(q) as real < q {
      assert Floor(q) as real * step < q * step;
    } else {
      assert Floor(q) as real * step == q * step;
    }
  }

  /** The snapping of layout.ts: `Math.ceil` of max/step, lowered one step when above
      `max`, is the greatest multiple of step not above `max`. */
  lemma LoweredCeilIsFloor(max: real, step: real)
    requires step > 0.0
    ensures var high := Ceil(max / step) as real * step;
      (if high > max then high - step else high) == Floor(max / step) as real * step
  {
    var q := max / step;
    FloorCeil(q);
    assert max == q * step;
    if Floor(q) as real < q {
      assert Ceil(q) as real * step > q * step;
    } else {
      assert Ceil(q) as real * step == q * step;
    }
  }

  /** The number of ticks for a given `maxTickCount`: the multiples of its step that lie
      in [min, max]. */
  function SnappedTickCount(min: real, max: real, maxTickCount: int): int
    requires min < max && maxTickCount >= 2
  {
    var step := TickStep(min, max, maxTickCount);
    Floor(max / step) - Ceil(min / step) + 1
  }

  /** Once `maxTickCount` reaches 2 * minTickCount + 1 the step is fine enough for
      `minTickCount` ticks, so the doubling in `calcTickPositions` stops. */
  lemma EnoughTicksEventually(min: real, max: real, minTickCount: int, maxTickCount: int)
    requires min < max && maxTickCount >= 2
    ensures maxTickCount >= 2 * minTickCount + 1 ==>
      SnappedTickCount(min, max, maxTickCount) >= minTickCount
  {
    if maxTickCount >= 2 * minTickCount + 1 {
      var range := max - min;
      var parts := (maxTickCount - 1) as real;
      var step := TickStep(min, max, maxTickCount);
      StepsInRange(range, step, parts);
      QuotientDifference(max, min, step);
      SnapDown(max, step);
      SnapUp(min, step);
      var high := Floor(max / step) as real;
      var low := Ceil(min / step) as real;
      assert high - low > range / step - 2.0;
    }
  }

  /** A step at most 5/3 of range / parts fits at least 3/5 of `parts` times in `range`. */
  lemma StepsInRange(range: real, step: real, parts: real)
    requires range > 0.0 && step > 0.0 && parts > 0.0
    requires step <= range / parts * 5.0 / 3.0
    ensures range / step >= parts * 3.0 / 5.0
  {
    var rough := range / parts;
    DivTimes(range, parts);
    ScaleMonotone(step, rough * 5.0 / 3.0, parts);
    assert rough * 5.0 / 3.0 * parts == range * 5.0 / 3.0;
    assert parts * 3.0 / 5.0 * step == step * parts * 3.0 / 5.0;
    DivTimes(range, step);
    ScaleCancel(parts * 3.0 / 5.0, range / step, step);
  }

  /** How far `maxTickCount` is from the count at which the doubling must stop. */
  function RefinementsLeft(minTickCount: int, maxTickCount: int): nat
  {
    if maxTickCount < 2 * minTickCount + 1 then 2 * minTickCount + 1 - maxTickCount else 0
  }

  /** The `maxTickCount` at which the doubling of `calcTickPositions` stops: the first of
      maxTickCount, 2 maxTickCount, 4 maxTickCount, ... that gives at least
      `minTickCount` ticks. It is never larger than needed: either the count asked for,
      or below 4 * minTickCount + 2. */
  function SettledMaxTickCount(min: real, max: real, minTickCount: int, maxTickCount: int): (n: int)
    requires min < max && maxTickCount >= 2
    ensures n >= maxTickCount
    ensures n == maxTickCount || n < 4 * minTickCount + 2
    decreases RefinementsLeft(minTickCount, maxTickCount)
  {
    EnoughTicksEventually(min, max, minTickCount, maxTickCount);
    if SnappedTickCount(min, max, maxTickCount) >= minTickCount then maxTickCount
    else SettledMaxTickCount(min, max, minTickCount, 2 * maxTickCount)
  }

  /** The settled `maxTickCount` gives at least `minTickCount` ticks. */
  lemma {:induction false} SettledGivesEnoughTicks(min: real, max: real, minTickCount: int, maxTickCount: int)
    requires min < max && maxTickCount >= 2
    ensures SnappedTickCount(min, max, SettledMaxTickCount(min, max, minTickCount, maxTickCount))
      >= minTickCount
    decreases RefinementsLeft(minTickCount, maxTickCount)
  {
    EnoughTicksEventually(min, max, minTickCount, maxTickCount);
    if SnappedTickCount(min, max, maxTickCount) < minTickCount {
      SettledGivesEnoughTicks(min, max, minTickCount, 2 * maxTickCount);
    }
  }

  /** The multiples of `step` in [min, max] as a `Ticks` record: the least and the
      greatest of them and all of them in increasing order. */
  function SnappedTicks(min: real, max: real, step: real): (t: Ticks)
    requires step > 0.0
    ensures t.step == step
    ensures forall i :: 0 <= i < |t.positions| ==> min <= t.positions[i] <= max
  {
    var low := Ceil(min / step);
    var high := Floor(max / step);
    var first := low as real * step;
    var positions := seq(if low <= high then high - low + 1 else 0, k => TickValue(first, step, k));
    assert forall i :: 0 <= i < |positions| ==> min <= positions[i] <= max by {
      forall i | 0 <= i < |positions| ensures min <= positions[i] <= max {
        TickValueIsMultiple(low, step, i);
        MultipleWithin(min, max, step, low, high, low + i);
      }
    }
    Ticks(first, high as real * step, step, positions)
  }

  /** The i-th tick from `first`. */
  function TickValue(first: real, step: real, i: int): real
  {
    first + i as real * step
  }

  /** One more tick appends the next tick value. */
  lemma TicksSnoc(first: real, step: real, n: nat)
    ensures seq(n + 1, k => TickValue(first, step, k))
      == seq(n, k => TickValue(first, step, k)) + [TickValue(first, step, n)]
  {
    var a := seq(n + 1, k => TickValue(first, step, k));
    var b := seq(n, k => TickValue(first, step, k)) + [TickValue(first, step, n)];
    assert |a| == |b|;
    forall k | 0 <= k < |a|
      ensures a[k] == b[k]
    {
      if k < n {
        assert b[k] == TickValue(first, step, k);
      }
    }
  }

  /** With the snapped ends and their count in hand, the snapped ticks are those ends and
      the count of values from the lower one. */
  lemma SnappedTicksFrom(min: real, max: real, step: real, niceMin: real, niceMax: real, n: int)
    requires step > 0.0
    requires niceMin == Ceil(min / step) as real * step
    requires niceMax == Floor(max / step) as real * step
    requires n == Floor(max / step) - Ceil(min / step) + 1 && n >= 0
    ensures SnappedTicks(min, max, step) == Ticks(niceMin, niceMax, step, seq(n, k => TickValue(niceMin, step, k)))
  {
  }

  /** The ticks of [min, max]: a nice step, the range snapped inward to multiples of the
      step, and every multiple of the step in the snapped range, at least `minTickCount`
      of them. With too few ticks the search doubles `maxTickCount` and starts again. */
  method CalcTickPositions(min: real, max: real, minTickCount: int := 5, maxTickCount: int := 9)
    returns (ticks: Ticks)
    requires min < max && maxTickCount >= 2
    ensures ticks == SnappedTicks(min, max,
      TickStep(min, max, SettledMaxTickCount(min, max, minTickCount, maxTickCount)))
    ensures |ticks.positions| >= minTickCount
    decreases RefinementsLeft(minTickCount, maxTickCount)
  {
    var range := max - min;
    var roughStep := range / (maxTickCount - 1) as real;
    assert roughStep == (max - min) / (maxTickCount - 1) as real;
    var niceStep := RoundToNiceNumber(roughStep);
    assert niceStep == TickStep(min, max, maxTickCount);
    var niceMin, niceMax, tickCount := SnapInward(min, max, niceStep);
    TickCountNonNegative(min, max, niceStep);

    if tickCount < minTickCount {
      EnoughTicksEventually(min, max, minTickCount, maxTickCount);
      ticks := CalcTickPositions(min, max, minTickCount, maxTickCount * 2);
      return;
    }

    var positions := ListTicks(niceMin, niceMax, niceStep, tickCount);
    ticks := Ticks(niceMin, niceMax, niceStep, positions);
    assert SettledMaxTickCount(min, max, minTickCount, maxTickCount) == maxTickCount;
    SnappedTicksFrom(min, max, niceStep, niceMin, niceMax, tickCount);
  }

  /** The inward snapping of [min, max]: `Math.floor` of min / step, raised one step when
      below `min`, and `Math.ceil` of max / step, lowered one step when above `max`, are
      the least and the greatest multiples of `step` within the range; the tick count
      is the rounded number of steps between them, plus one. */
  method SnapInward(min: real, max: real, step: real)
    returns (niceMin: real, niceMax: real, tickCount: int)
    requires step > 0.0
    ensures niceMin == Ceil(min / step) as real * step
    ensures niceMax == Floor(max / step) as real * step
    ensures tickCount == Floor(max / step) - Ceil(min / step) + 1
    ensures tickCount >= 1 ==> niceMin + (tickCount - 1) as real * step <= niceMax
  {
    niceMin := Floor(min / step) as real * step;
    niceMax := Ceil(max / step) as real * step;
    RaisedFloorIsCeil(min, step);
    LoweredCeilIsFloor(max, step);

    if niceMin < min {
      niceMin := niceMin + step;
    }
    if niceMax > max {
      niceMax := niceMax - step;
    }

    ghost var low, high := Ceil(min / step), Floor(max / step);
    RoundedTickCount(niceMin, niceMax, step, low, high);
    tickCount := Round((niceMax - niceMin) / step) + 1;
    LastTickWithin(niceMin, niceMax, step, low, high);
  }

  /** Over a non-empty range the snapped ends are at most one step past each other,
      so the tick count is never negative. */
  lemma TickCountNonNegative(min: real, max: real, step: real)
    requires min < max && step > 0.0
    ensures Floor(max / step) - Ceil(min / step) + 1 >= 0
  {
    QuotientDifference(max, min, step);
    DivTimes(max - min, step);
  }

  /** From low * step, high - low further steps reach high * step exactly. */
  lemma LastTickWithin(niceMin: real, niceMax: real, step: real, low: int, high: int)
    requires niceMin == low as real * step && niceMax == high as real * step
    ensures niceMin + (high - low) as real * step == niceMax
  {
  }

  /** The tick loop: `tickCount` values niceMin + i * step, each kept when it does not
      pass niceMax (with a tolerance of 1e-10), which all do when the last one does. */
  method ListTicks(niceMin: real, niceMax: real, step: real, tickCount: int)
    returns (positions: seq<real>)
    requires step > 0.0 && tickCount >= 0
    ensures tickCount >= 1 && niceMin + (tickCount - 1) as real * step <= niceMax ==>
      positions == seq(tickCount, k => TickValue(niceMin, step, k))
    ensures |positions| <= if tickCount >= 0 then tickCount else 0
  {
    positions := [];
    for i := 0 to tickCount
      invariant |positions| <= i
      invariant tickCount >= 1 && niceMin + (tickCount - 1) as real * step <= niceMax ==>
        positions == seq(i, k => TickValue(niceMin, step, k))
    {
      var tickValue := niceMin + i as real * step;
      if tickCount >= 1 && niceMin + (tickCount - 1) as real * step <= niceMax {
        ScaleMonotone(i as real, (tickCount - 1) as real, step);
        assert tickValue <= niceMax;
        TicksSnoc(niceMin, step, i);
      }
      if tickValue <= niceMax + 0.0000000001 {
        positions := positions + [tickValue];
      }
    }
  }

  /** The rounded step count between two multiples of `step` is the difference of
      their multipliers. */
  lemma RoundedTickCount(niceMin: real, niceMax: real, step: real, low: int, high: int)
    requires step > 0.0 && niceMin == low as real * step && niceMax == high as real * step
    ensures Round((niceMax - niceMin) / step) == high - low
  {
    var d := (high - low) as real;
    var x := niceMax - niceMin;
    assert x == d * step;
    DivTimes(d * step, step);
    assert x / step == d;
    RoundInteger(high - low);
  }

  /** Snapped ticks, when there are any, run from their `min` to their `max`, both
      within [min, max], one `step` apart. */
  lemma SnappedTicksWithin(min: real, max: real, step: real)
    requires step > 0.0
    ensures var t := SnappedTicks(min, max, step);
      |t.positions| > 0 ==>
        min <= t.min <= t.max <= max &&
        t.positions[0] == t.min && t.positions[|t.positions| - 1] == t.max &&
        forall i :: 0 < i < |t.positions| ==> t.positions[i] == t.positions[i - 1] + step
  {
    var t := SnappedTicks(min, max, step);
    var low, high := Ceil(min / step), Floor(max / step);
    if |t.positions| > 0 {
      SnapUp(min, step);
      SnapDown(max, step);
      ScaleMonotone(low as real, high as real, step);
      LastTickWithin(t.min, t.max, step, low, high);
    }
  }

  /** Every snapped tick is an integer multiple of `step` within [min, max]. */
  lemma SnappedTicksAreMultiples(min: real, max: real, step: real, i: int)
    requires step > 0.0
    requires 0 <= i < |SnappedTicks(min, max, step).positions|
    ensures SnappedTicks(min, max, step).positions[i] == (Ceil(min / step) + i) as real * step
    ensures min <= SnappedTicks(min, max, step).positions[i] <= max
  {
    var low, high := Ceil(min / step), Floor(max / step);
    assert SnappedTicks(min, max, step).positions[i] == TickValue(low as real * step, step, i);
    TickValueIsMultiple(low, step, i);
    MultipleWithin(min, max, step, low, high, low + i);
  }

  /** The `i`-th tick from the multiple `low * step` is the multiple `(low + i) * step`. */
  lemma TickValueIsMultiple(low: int, step: real, i: int)
    ensures TickValue(low as real * step, step, i) == (low + i) as real * step
  {
  }

  /** A multiple of `step` between the two snapped ends lies within [min, max]. */
  lemma MultipleWithin(min: real, max: real, step: real, low: int, high: int, j: int)
    requires step > 0.0
    requires low == Ceil(min / step) && high == Floor(max / step)
    requires low <= j <= high
    ensures min <= j as real * step <= max
  {
    MultipleAboveMin(min, step, low, j);
    MultipleBelowMax(max, step, high, j);
  }

  /** A multiple of `step` from Ceil(min / step) steps on is not below `min`. */
  lemma MultipleAboveMin(min: real, step: real, low: int, j: int)
    requires step > 0.0 && low == Ceil(min / step) && low <= j
    ensures min <= j as real * step
  {
    SnapUp(min, step);
    ScaleMonotone(low as real, j as real, step);
    calc {
      min;
    <= low as real * step;
    <= j as real * step;
    }
  }

  /** A multiple of `step` up to Floor(max / step) steps is not above `max`. */
  lemma MultipleBelowMax(max: real, step: real, high: int, j: int)
    requires step > 0.0 && high == Floor(max / step) && j <= high
    ensures j as real * step <= max
  {
    SnapDown(max, step);
    ScaleMonotone(j as real, high as real, step);
    calc {
      j as real * step;
    <= high as real * step;
    <= max;
    }
  }

  /** Every integer multiple of `step` within [min, max] is a snapped tick. */
  lemma SnappedTicksCoverMultiples(min: real, max: real, step: real, j: int)
    requires step > 0.0
    requires min <= j as real * step <= max
    ensures var t := SnappedTicks(min, max, step);
      0 <= j - Ceil(min / step) < |t.positions| &&
      t.positions[j - Ceil(min / step)] == j as real * step
  {
    SnapUpLeast(min, step, j);
    SnapDownGreatest(max, step, j);
  }
}
