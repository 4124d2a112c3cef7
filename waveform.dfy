/** The trigonometric core shared by both `getPeakValley` variants
    (modules/scroll-transition.js and scroll-transition.js): the scroll
    position as a radian, the accumulated radians of the sub-windows, the
    zero test that picks the sub-window an index owns, and the sine or cosine
    wave that shapes the value inside it. */
module Waveform {

  /** `Math.PI`, as a positive constant; every window comparison scales both
      sides by it. */
  const PI: real := 3.141592653589793

  /** `Math.sin` and `Math.cos`, passed in: the model fixes no particular
      trigonometric functions, only (through Bounded) their range. */
  datatype Trig = Trig(sin: real -> real, cos: real -> real)

  ghost predicate Bounded(t: Trig) {
    forall x: real :: -1.0 <= t.sin(x) <= 1.0 && -1.0 <= t.cos(x) <= 1.0
  }

  /** A JavaScript number as far as getPeakValley can produce one: a real
      value, or NaN where the source divides by a zero or undefined fragment. */
  datatype Num = Real(value: real) | NaN

  function Abs(x: real): (r: real)
    ensures r >= 0.0 && (r == x || r == -x)
  {
    if x < 0.0 then -x else x
  }

  // ---------------------------------------------------------------------
  // Accumulated fragments
  // ---------------------------------------------------------------------

  /** getScrollFragment: the share of the scroll range sub-window `i` spans. */
  function ScrollFragment(localFragments: seq<real>, globalFragment: real, i: nat): (r: real)
    requires i < |localFragments|
    ensures localFragments[i] > 0.0 && globalFragment > 0.0 ==> r > 0.0
  {
    localFragments[i] * globalFragment
  }

  /** The radians of the first `n` sub-windows, summed in order. */
  function RadianSum(localFragments: seq<real>, globalFragment: real, n: nat): real
    requires n <= |localFragments|
  {
    if n == 0 then 0.0
    else RadianSum(localFragments, globalFragment, n - 1) + ScrollFragment(localFragments, globalFragment, n - 1) * PI
  }

  /** How many sub-windows the accumulation loop adds for `maxIndex`: those
      with index at most `maxIndex`, and no more than there are. */
  function Included(maxIndex: int, length: nat): (n: nat)
    ensures n <= length
    ensures maxIndex < 0 ==> n == 0
    ensures 0 <= maxIndex < length ==> n == maxIndex + 1
    ensures maxIndex >= length ==> n == length
  {
    if maxIndex < 0 then 0 else if maxIndex + 1 < length then maxIndex + 1 else length
  }

  /** getAccumulationFragmentsRadian as a function of its inputs. */
  function AccumulatedRadian(localFragments: seq<real>, globalFragment: real, maxIndex: int): (r: real)
    ensures maxIndex < 0 ==> r == 0.0
    ensures maxIndex >= |localFragments| - 1 ==> r == RadianSum(localFragments, globalFragment, |localFragments|)
  {
    RadianSum(localFragments, globalFragment, Included(maxIndex, |localFragments|))
  }

  /** getAccumulationFragmentsRadian: adds up `fragment * PI` over the
      sub-windows from index 0, and leaves the loop at the first index past
      `maxIndex`. */
  method AccumulateFragmentsRadian(localFragments: seq<real>, globalFragment: real, maxIndex: int)
    returns (accuVal: real)
    ensures accuVal == AccumulatedRadian(localFragments, globalFragment, maxIndex)
  {
    accuVal := 0.0;
    var i := 0;
    while i < |localFragments|
      invariant 0 <= i <= Included(maxIndex, |localFragments|)
      invariant accuVal == RadianSum(localFragments, globalFragment, i)
    {
      if i <= maxIndex {
        accuVal := accuVal + ScrollFragment(localFragments, globalFragment, i) * PI;
      } else {
        break;
      }
      i := i + 1;
    }
  }

  /** The plain sum of the first `n` local fragments. */
  function FragmentSum(localFragments: seq<real>, n: nat): real
    requires n <= |localFragments|
  {
    if n == 0 then 0.0 else FragmentSum(localFragments, n - 1) + localFragments[n - 1]
  }

  /** The accumulated radians are PI times the global fragment times the
      sum of the local fragments. */
  lemma {:induction false} RadianSumIsScaledSum(localFragments: seq<real>, globalFragment: real, n: nat)
    requires n <= |localFragments|
    ensures RadianSum(localFragments, globalFragment, n) == PI * (globalFragment * FragmentSum(localFragments, n))
  {
    if n > 0 {
      RadianSumIsScaledSum(localFragments, globalFragment, n - 1);
      var a, f := FragmentSum(localFragments, n - 1), localFragments[n - 1];
      calc {
        RadianSum(localFragments, globalFragment, n);
        PI * (globalFragment * a) + f * globalFragment * PI;
        { assert f * globalFragment * PI == PI * (globalFragment * f); }
        PI * (globalFragment * a) + PI * (globalFragment * f);
        PI * (globalFragment * a + globalFragment * f);
        PI * (globalFragment * (a + f));
      }
    }
  }

  /** Comparing the scroll radian with an accumulated radian is comparing
      the scroll percentage with the accumulated share: PI cancels exactly. */
  lemma WindowComparisonIsExact(localFragments: seq<real>, globalFragment: real, n: nat, s: real)
    requires n <= |localFragments|
    ensures PI * s <= RadianSum(localFragments, globalFragment, n)
        <==> s <= globalFragment * FragmentSum(localFragments, n)
  {
    RadianSumIsScaledSum(localFragments, globalFragment, n);
  }

  /** Fragments that are all positive, under a positive global fragment:
      the form the division's documentation asks for. */
  predicate PositiveFragments(localFragments: seq<real>, globalFragment: real) {
    globalFragment > 0.0 && forall i :: 0 <= i < |localFragments| ==> localFragments[i] > 0.0
  }

  /** With positive fragments the accumulated radians strictly increase. */
  lemma {:induction false} RadianSumIncreasing(localFragments: seq<real>, globalFragment: real, m: nat, n: nat)
    requires PositiveFragments(localFragments, globalFragment)
    requires m < n <= |localFragments|
    ensures RadianSum(localFragments, globalFragment, m) < RadianSum(localFragments, globalFragment, n)
  {
    var f := localFragments[n - 1];
    assert f * globalFragment > 0.0 by {
      assert f > 0.0;
    }
    if m < n - 1 {
      RadianSumIncreasing(localFragments, globalFragment, m, n - 1);
    }
  }

  // ---------------------------------------------------------------------
  // The zero test
  // ---------------------------------------------------------------------

  /** The scroll position has not reached sub-window `index` yet: the
      source's `isIndexNotZero && scrollRadian <= prevRadian`. */
  predicate BeforeWindow(localFragments: seq<real>, globalFragment: real, s: real, index: nat) {
    index > 0 && PI * s <= AccumulatedRadian(localFragments, globalFragment, index - 1)
  }

  /** The scroll position has passed sub-window `index`:
      `scrollRadian > nextRadian`. */
  predicate PastWindow(localFragments: seq<real>, globalFragment: real, s: real, index: nat) {
    PI * s > AccumulatedRadian(localFragments, globalFragment, index)
  }

  /** An index at or past the number of local fragments is always zeroed
      (when there is at least one fragment): its previous and next
      accumulated radians are both the total, and the scroll radian is
      either at most or above it. */
  lemma BeyondFragmentsIsZeroed(localFragments: seq<real>, globalFragment: real, s: real, index: nat)
    requires 1 <= |localFragments| <= index
    ensures BeforeWindow(localFragments, globalFragment, s, index) || PastWindow(localFragments, globalFragment, s, index)
  {
  }

  /** With positive fragments the sub-windows do not overlap: for i < j the
      scroll position is past window i or has not reached window j. */
  lemma WindowsDisjoint(localFragments: seq<real>, globalFragment: real, s: real, i: nat, j: nat)
    requires PositiveFragments(localFragments, globalFragment)
    requires i < j < |localFragments|
    ensures PastWindow(localFragments, globalFragment, s, i) || BeforeWindow(localFragments, globalFragment, s, j)
  {
    if i + 1 < j {
      RadianSumIncreasing(localFragments, globalFragment, i + 1, j);
    }
  }

  /** Up to the total of all the radians, some sub-window holds the scroll
      position: the first one it has not passed. */
  lemma SomeWindowHolds(localFragments: seq<real>, globalFragment: real, s: real)
    requires 1 <= |localFragments|
    requires PI * s <= RadianSum(localFragments, globalFragment, |localFragments|)
    ensures exists i :: 0 <= i < |localFragments|
                      && !BeforeWindow(localFragments, globalFragment, s, i)
                      && !PastWindow(localFragments, globalFragment, s, i)
  {
    WindowFrom(localFragments, globalFragment, s, 0);
  }

  lemma WindowFrom(localFragments: seq<real>, globalFragment: real, s: real, k: nat)
    requires k < |localFragments|
    requires !BeforeWindow(localFragments, globalFragment, s, k)
    requires PI * s <= RadianSum(localFragments, globalFragment, |localFragments|)
    ensures exists i :: k <= i < |localFragments|
                      && !BeforeWindow(localFragments, globalFragment, s, i)
                      && !PastWindow(localFragments, globalFragment, s, i)
    decreases |localFragments| - k
  {
    if PastWindow(localFragments, globalFragment, s, k) {
      assert k + 1 < |localFragments|;
      WindowFrom(localFragments, globalFragment, s, k + 1);
    }
  }

  /** The phase inside the sub-window: the scroll radian less the radians
      of the sub-windows before it. */
  function Phase(localFragments: seq<real>, globalFragment: real, s: real, index: nat): real {
    if index > 0 then PI * s - AccumulatedRadian(localFragments, globalFragment, index - 1) else PI * s
  }

  /** Inside its window a later sub-window's phase lies in (0, radians of
      the sub-window]; it is the distance already scrolled into it. */
  lemma PhaseInWindow(localFragments: seq<real>, globalFragment: real, s: real, index: nat)
    requires 0 < index < |localFragments|
    requires !BeforeWindow(localFragments, globalFragment, s, index)
    requires !PastWindow(localFragments, globalFragment, s, index)
    ensures 0.0 < Phase(localFragments, globalFragment, s, index)
                <= ScrollFragment(localFragments, globalFragment, index) * PI
  {
  }

  // ---------------------------------------------------------------------
  // Shaping
  // ---------------------------------------------------------------------

  datatype Wave = Sine | Cosine

  /** Which wave shapes a sub-window, and the factor its wave length is
      stretched by (the source's `fr_dupli`). */
  datatype Shape = Shape(wave: Wave, waveLengthFactor: real)

  /** The choice made at the end of getPeakValley. */
  function ShapeOf(index: nat, isLast: bool, startFromPeak: bool): (sh: Shape)
    ensures sh.waveLengthFactor > 0.0
  {
    if index == 0 then
      if startFromPeak then Shape(Cosine, 2.0) else Shape(Sine, 1.0)
    else if isLast then
      if startFromPeak then Shape(Sine, 2.0) else Shape(Sine, 1.0)
    else Shape(Sine, 1.0)
  }

  /** Only the first sub-window of a division that starts from the peak
      uses the cosine, and the check for index 0 comes before the one for
      the last index. */
  lemma CosineOnlyAtFirstPeak(index: nat, isLast: bool, startFromPeak: bool)
    ensures ShapeOf(index, isLast, startFromPeak).wave == Cosine <==> index == 0 && startFromPeak
  {
  }

  /** The wave length is doubled exactly at the two ends of a division
      that starts from the peak, and otherwise left as it is. */
  lemma DoubledOnlyAtEndsOfPeak(index: nat, isLast: bool, startFromPeak: bool)
    ensures ShapeOf(index, isLast, startFromPeak).waveLengthFactor == 2.0
        <==> startFromPeak && (index == 0 || isLast)
    ensures ShapeOf(index, isLast, startFromPeak).waveLengthFactor == 1.0
        <==> !(startFromPeak && (index == 0 || isLast))
  {
  }

  /** getSinVal / getCosVal: the absolute value of the wave at
      `phase / (fragment * factor)`, times the division's maximum. A zero
      fragment makes the argument infinite or NaN, and the result NaN. */
  function Amplitude(trig: Trig, shape: Shape, phase: real, fragment: real, maxValue: real): (r: Num)
    requires shape.waveLengthFactor > 0.0
    ensures r.NaN? <==> fragment == 0.0
    ensures Bounded(trig) && maxValue >= 0.0 && r.Real? ==> 0.0 <= r.value <= maxValue
  {
    if fragment == 0.0 then NaN
    else
      var x := phase / (fragment * shape.waveLengthFactor);
      var w := if shape.wave == Sine then trig.sin(x) else trig.cos(x);
      AmplitudeBound(trig, x, w, maxValue);
      Real(Abs(w * maxValue))
  }

  /** The value getPeakValley computes once the zero test has let the index
      through: the wave of the sub-window's shape at the local phase. An
      index with no local fragment reads `undefined`, and the product is NaN. */
  function PeakValue(trig: Trig, localFragments: seq<real>, globalFragment: real, maxValue: real,
                     startFromPeak: bool, s: real, index: nat): (r: Num)
    ensures r.NaN? <==> index >= |localFragments| || ScrollFragment(localFragments, globalFragment, index) == 0.0
    ensures Bounded(trig) && maxValue >= 0.0 && r.Real? ==> 0.0 <= r.value <= maxValue
  {
    if index >= |localFragments| then NaN
    else
      Amplitude(trig, ShapeOf(index, index == |localFragments| - 1, startFromPeak),
                Phase(localFragments, globalFragment, s, index),
                ScrollFragment(localFragments, globalFragment, index), maxValue)
  }

  lemma AmplitudeBound(trig: Trig, x: real, w: real, maxValue: real)
    requires w == trig.sin(x) || w == trig.cos(x)
    ensures Bounded(trig) && maxValue >= 0.0 ==> Abs(w * maxValue) <= maxValue
  {
    if Bounded(trig) && maxValue >= 0.0 {
      assert -1.0 <= w <= 1.0;
      if w >= 0.0 {
        assert w * maxValue <= 1.0 * maxValue;
      } else {
        assert -(w * maxValue) == (-w) * maxValue <= 1.0 * maxValue;
      }
    }
  }
}
