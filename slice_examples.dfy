/**
 * Worked `--slice` inputs against a ten-row table, derived from the general
 * lemmas of module Slicing rather than by evaluation.
 */
module SliceExamples {
  import opened Wrappers
  import opened Slicing

  /** A slice with a non-zero step resolves to the list its arithmetic description gives. */
  lemma ResolvesTo(sp: SliceSpec, n: nat, expected: seq<int>)
    requires EffectiveStep(sp) != 0
    requires |expected| == SliceLength(StartIndex(sp, n), StopIndex(sp, n), EffectiveStep(sp))
    requires forall k :: 0 <= k < |expected| ==> expected[k] == StartIndex(sp, n) + k * EffectiveStep(sp)
    ensures Resolve(sp, n) == Success(expected)
  {
    ResolveShape(sp, n);
    assert Resolve(sp, n).value == expected;
  }

  lemma StopOnly()
    ensures ResolveText("5", 10) == Success([0, 1, 2, 3, 4])
  {
    assert ShowInt(5) == "5";
    SingleFieldIsPrefix(5, 10);
    var ps := ResolveText("5", 10).value;
    assert ps == [0, 1, 2, 3, 4];
  }

  lemma StartStop()
    ensures ResolveText("0:2", 10) == Success([0, 1])
  {
    ParseTwoFields(Some(0), Some(2));
    assert ShowField(Some(0)) + ":" + ShowField(Some(2)) == "0:2";
    ResolvesTo(SliceSpec(Some(0), Some(2), None), 10, [0, 1]);
  }

  lemma EverySecond()
    ensures ResolveText("::2", 10) == Success([0, 2, 4, 6, 8])
  {
    var sp := SliceSpec(None, None, Some(2));
    ParseShowSlice(sp);
    assert ShowInt(2) == "2";
    assert ShowSlice(sp) == "::2";
    ResolvesTo(sp, 10, [0, 2, 4, 6, 8]);
  }

  lemma FromSeven()
    ensures ResolveText("7::", 10) == Success([7, 8, 9])
  {
    var sp := SliceSpec(Some(7), None, None);
    ParseShowSlice(sp);
    assert ShowInt(7) == "7";
    assert ShowSlice(sp) == "7::";
    ResolvesTo(sp, 10, [7, 8, 9]);
  }

  lemma LastThree()
    ensures ResolveText("-3::", 10) == Success([7, 8, 9])
  {
    var sp := SliceSpec(Some(-3), None, None);
    ParseShowSlice(sp);
    assert ShowInt(-3) == "-3";
    assert ShowSlice(sp) == "-3::";
    ResolvesTo(sp, 10, [7, 8, 9]);
  }

  lemma StepTwo()
    ensures ResolveText("1:6:2", 10) == Success([1, 3, 5])
  {
    var sp := SliceSpec(Some(1), Some(6), Some(2));
    ParseShowSlice(sp);
    assert ShowInt(1) == "1";
    assert ShowInt(6) == "6";
    assert ShowInt(2) == "2";
    assert ShowSlice(sp) == "1:6:2";
    ResolvesTo(sp, 10, [1, 3, 5]);
  }

  lemma Backwards()
    ensures ResolveText("8:2:-3", 10) == Success([8, 5])
  {
    var sp := SliceSpec(Some(8), Some(2), Some(-3));
    ParseShowSlice(sp);
    assert ShowInt(8) == "8";
    assert ShowInt(2) == "2";
    assert ShowInt(-3) == "-3";
    assert ShowSlice(sp) == "8:2:-3";
    ResolvesTo(sp, 10, [8, 5]);
  }

  lemma ZeroStepRejected()
    ensures ResolveText("::0", 10) == Failure(ZeroStep)
  {
    var sp := SliceSpec(None, None, Some(0));
    ParseShowSlice(sp);
    assert ShowInt(0) == "0";
    assert ShowSlice(sp) == "::0";
  }

  lemma FourFieldsRejected(n: nat)
    ensures ResolveText("1:2:3:4", n).Failure?
  {
    assert Occurrences("1:2:3:4", ':') == 3;
    TooManyColonsFails("1:2:3:4");
  }
}
