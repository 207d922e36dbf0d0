/** The tick cases of src/tests/data/layout.test.ts, with the default tick counts 5 and 9. */
module TickExamples {
  import opened Types
  import opened Numbers
  import opened TickEngine

  /** [-2, 9]: the rough step 11/8 has exponent 0 and rounds to the nice step 1. */
  lemma StepOfMinus2To9()
    ensures TickStep(-2.0, 9.0, 9) == 1.0
  {
    assert Pow10(1) == 10.0 * Pow10(0);
    NiceNumberAt(1.375, 0);
    assert NiceFraction(1.375) == 1.0;
  }

  /** [-2, 9] takes the step 1 at the first try and gets the twelve integers -2 .. 9. */
  lemma TicksOfMinus2To9()
    ensures SettledMaxTickCount(-2.0, 9.0, 5, 9) == 9
    ensures SnappedTicks(-2.0, 9.0, TickStep(-2.0, 9.0, 9))
      == Ticks(-2.0, 9.0, 1.0, [-2.0, -1.0, 0.0, 1.0, 2.0, 3.0, 4.0, 5.0, 6.0, 7.0, 8.0, 9.0])
  {
    StepOfMinus2To9();
    assert Ceil(-2.0) == -2 && Floor(9.0) == 9;
    var t := SnappedTicks(-2.0, 9.0, 1.0);
    assert |t.positions| == 12;
  }

  /** [-2.44, 9.73]: the rough step 12.17/8 has fraction 1.52125 and rounds to 2. */
  lemma StepOfMinus244To973()
    ensures TickStep(-2.44, 9.73, 9) == 2.0
  {
    assert Pow10(1) == 10.0 * Pow10(0);
    NiceNumberAt(1.52125, 0);
    assert NiceFraction(1.52125) == 2.0;
  }

  /** [-2.44, 9.73] takes the step 2 at the first try: ticks -2 .. 8, within the range. */
  lemma TicksOfMinus244To973()
    ensures SettledMaxTickCount(-2.44, 9.73, 5, 9) == 9
    ensures SnappedTicks(-2.44, 9.73, TickStep(-2.44, 9.73, 9))
      == Ticks(-2.0, 8.0, 2.0, [-2.0, 0.0, 2.0, 4.0, 6.0, 8.0])
  {
    StepOfMinus244To973();
    assert Ceil(-1.22) == -1 && Floor(4.865) == 4;
    var t := SnappedTicks(-2.44, 9.73, 2.0);
    assert |t.positions| == 6;
  }
}
