/** The parts of JavaScript's `Math` that the layout code uses, over the reals:
    `Math.min`/`Math.max` of a spread array, `Math.floor`, `Math.ceil`,
    `Math.round`, and `Math.floor(Math.log10(v))` with `Math.pow(10, k)`. */
module Numbers {

  /** `Math.min(...s)` of a non-empty array: an element of `s` below every element. */
  function Min(s: seq<real>): (m: real)
    requires |s| > 0
    ensures m in s
    ensures forall i :: 0 <= i < |s| ==> m <= s[i]
  {
    if |s| == 1 then s[0]
    else
      var rest := Min(s[1..]);
      if s[0] <= rest then s[0] else rest
  }

  /** `Math.max(...s)` of a non-empty array: an element of `s` above every element. */
  function Max(s: seq<real>): (m: real)
    requires |s| > 0
    ensures m in s
    ensures forall i :: 0 <= i < |s| ==> s[i] <= m
  {
    if |s| == 1 then s[0]
    else
      var rest := Max(s[1..]);
      if s[0] >= rest then s[0] else rest
  }

  /** An element of `s` that no element is below is `Min(s)`. */
  lemma MinIsLeast(s: seq<real>, v: real)
    requires v in s && forall i :: 0 <= i < |s| ==> v <= s[i]
    ensures Min(s) == v
  {
    var i :| 0 <= i < |s| && s[i] == Min(s);
  }

  /** An element of `s` that no element is above is `Max(s)`. */
  lemma MaxIsGreatest(s: seq<real>, v: real)
    requires v in s && forall i :: 0 <= i < |s| ==> s[i] <= v
    ensures Max(s) == v
  {
    var i :| 0 <= i < |s| && s[i] == Max(s);
  }

  /** `Math.floor`: the greatest integer not above `x`. */
  function Floor(x: real): (n: int)
    ensures n as real <= x < n as real + 1.0
  {
    x.Floor
  }

  /** `Math.ceil`: the least integer not below `x`. */
  function Ceil(x: real): (n: int)
    ensures n as real - 1.0 < x <= n as real
  {
    -((-x).Floor)
  }

  /** `Math.round`: the nearest integer, halves rounded up. */
  function Round(x: real): (n: int)
    ensures x - 0.5 < n as real <= x + 0.5
  {
    (x + 0.5).Floor
  }

  /** The two integers next to a real coincide exactly when it is an integer. */
  lemma FloorCeil(x: real)
    ensures Floor(x) as real == x ==> Ceil(x) == Floor(x)
    ensures Floor(x) as real < x ==> Ceil(x) == Floor(x) + 1
  {
  }

  /** Rounding an integer gives it back. */
  lemma RoundInteger(n: int)
    ensures Round(n as real) == n
  {
  }

  /** Scaling by a positive factor keeps order. */
  lemma ScaleMonotone(a: real, b: real, c: real)
    requires c > 0.0 && a <= b
    ensures a * c <= b * c
  {
  }

  /** Scaling by a positive factor keeps strict order. */
  lemma ScaleStrictMonotone(a: real, b: real, c: real)
    requires c > 0.0 && a < b
    ensures a * c < b * c
  {
  }

  /** A positive factor can be cancelled from both sides of an inequality. */
  lemma ScaleCancel(a: real, b: real, c: real)
    requires c > 0.0 && a * c <= b * c
    ensures a <= b
  {
  }

  /** Division by a common divisor distributes over subtraction. */
  lemma QuotientDifference(a: real, b: real, s: real)
    requires s != 0.0
    ensures a / s - b / s == (a - b) / s
  {
  }

  /** A multiple of `s` divided by `s` is the multiplier. */
  lemma MultipleOver(m: real, s: real)
    requires s != 0.0
    ensures m * s / s == m
  {
  }

  /** Dividing and multiplying by the same non-zero number cancel. */
  lemma DivTimes(x: real, s: real)
    requires s != 0.0
    ensures x / s * s == x
  {
  }

  /** A value between p and 10 p has a leading fraction value / p in [1, 10). */
  lemma FractionInDecade(value: real, p: real)
    requires p > 0.0 && p <= value < 10.0 * p
    ensures 1.0 <= value / p < 10.0
  {
    var fraction := value / p;
    DivTimes(value, p);
    if fraction < 1.0 {
      ScaleStrictMonotone(fraction, 1.0, p);
      assert false;
    }
    if fraction >= 10.0 {
      ScaleMonotone(10.0, fraction, p);
      assert false;
    }
  }

  /** The bounds of a scaled nice fraction carry over to the scaled value. */
  lemma ScaledBounds(value: real, p: real, fraction: real, nice: real)
    requires p > 0.0 && value == fraction * p
    requires fraction * 2.0 / 3.0 < nice <= fraction * 5.0 / 3.0
    ensures value * 2.0 / 3.0 < nice * p <= value * 5.0 / 3.0
  {
    ScaleStrictMonotone(fraction * 2.0 / 3.0, nice, p);
    ScaleMonotone(nice, fraction * 5.0 / 3.0, p);
  }

  /** `Math.pow(10, k)` for an integer exponent `k`, negative ones included. */
  function Pow10(k: int): (p: real)
    ensures p > 0.0
    decreases if k >= 0 then k else -k
  {
    if k == 0 then 1.0
    else if k > 0 then 10.0 * Pow10(k - 1)
    else Pow10(k + 1) / 10.0
  }

  lemma Pow10Succ(k: int)
    ensures Pow10(k + 1) == 10.0 * Pow10(k)
  {
  }

  /** Powers of ten grow strictly with the exponent. */
  lemma {:induction false} Pow10Monotone(j: int, k: int)
    requires j < k
    ensures Pow10(j) < Pow10(k)
    decreases k - j
  {
    Pow10Succ(k - 1);
    if j < k - 1 {
      Pow10Monotone(j, k - 1);
    }
  }

  /** The measure `Exponent` recurses on: it shrinks as `v` moves towards [1, 10). */
  function ExponentMeasure(v: real): int
    requires v > 0.0
  {
    if v >= 1.0 then v.Floor else 10 + (1.0 / v).Floor
  }

  /** Dividing a value of at least 10 by 10 brings it closer to [1, 10). */
  lemma MeasureShrinksDown(v: real)
    requires v >= 10.0
    ensures ExponentMeasure(v / 10.0) < ExponentMeasure(v)
  {
    assert (v / 10.0).Floor as real <= v / 10.0 <= v - 9.0;
  }

  /** Multiplying a value below 1 by 10 brings it closer to [1, 10). */
  lemma MeasureShrinksUp(v: real)
    requires 0.0 < v < 1.0
    ensures ExponentMeasure(v * 10.0) < ExponentMeasure(v)
  {
    var w := v * 10.0;
    assert 1.0 / v > 1.0;
    if w < 1.0 {
      assert 1.0 / w == (1.0 / v) / 10.0;
      assert 1.0 / v >= 10.0;
      assert (1.0 / w).Floor as real <= (1.0 / v) / 10.0 <= 1.0 / v - 9.0;
    }
  }

  /** `Math.floor(Math.log10(v))`, by moving the decimal point until `v` lies in
      [1, 10): non-negative exactly from 1 on, and 0 on [1, 10). */
  function Exponent(v: real): (k: int)
    requires v > 0.0
    ensures v >= 1.0 <==> k >= 0
    ensures v < 10.0 ==> k <= 0
    decreases ExponentMeasure(v)
  {
    if v >= 10.0 then
      MeasureShrinksDown(v);
      Exponent(v / 10.0) + 1
    else if v < 1.0 then
      MeasureShrinksUp(v);
      Exponent(v * 10.0) - 1
    else
      0
  }

  /** The exponent k of `v` brackets it: 10^k <= v < 10^(k+1). */
  lemma {:induction false} ExponentBrackets(v: real)
    requires v > 0.0
    ensures Pow10(Exponent(v)) <= v < Pow10(Exponent(v) + 1)
    decreases ExponentMeasure(v)
  {
    if v >= 10.0 {
      MeasureShrinksDown(v);
      ExponentBrackets(v / 10.0);
      Pow10Succ(Exponent(v / 10.0));
      Pow10Succ(Exponent(v / 10.0) + 1);
    } else if v < 1.0 {
      MeasureShrinksUp(v);
      ExponentBrackets(v * 10.0);
      Pow10Succ(Exponent(v * 10.0) - 1);
      Pow10Succ(Exponent(v * 10.0));
    } else {
      assert Pow10(1) == 10.0 * Pow10(0);
    }
  }

  /** The exponent is the only integer that brackets `v` between powers of ten. */
  lemma ExponentUnique(v: real, k: int)
    requires v > 0.0
    requires Pow10(k) <= v < Pow10(k + 1)
    ensures Exponent(v) == k
  {
    ExponentBrackets(v);
    var e := Exponent(v);
    if e < k {
      // 10^(e+1) <= 10^k <= v contradicts v < 10^(e+1)
      if e + 1 < k { Pow10Monotone(e + 1, k); }
    } else if k < e {
      // 10^(k+1) <= 10^e <= v contradicts v < 10^(k+1)
      if k + 1 < e { Pow10Monotone(k + 1, e); }
    }
  }
}
