/** The page arithmetic of script.js: `getFragmentInterval`, which turns
    the scroll rate into a linear ramp over one fragment (mirrored on some
    indices in landscape), and the ladder that maps the scroll fraction onto
    `middleScrollYPercentage`. The `isLandscape` global is a parameter. */
module PageScript {

  /** The index parity the mirroring asks for: even indices when
      `isDecreaseToEvenNumber`, odd ones otherwise, and only in landscape.
      JavaScript's `%` truncates where Dafny's is Euclidean, but the two
      agree on whether the remainder by 2 is zero. */
  function Reflected(isLandscape: bool, index: int, isDecreaseToEvenNumber: bool): (b: bool)
    ensures b <==> isLandscape && (index % 2 == 0 <==> isDecreaseToEvenNumber)
    ensures !isLandscape ==> !b
  {
    isLandscape &&
      ((isDecreaseToEvenNumber && index % 2 == 0) || (!isDecreaseToEvenNumber && index % 2 != 0))
  }

  /** How far the scroll rate has gone into the fragment that starts at
      `fragmentPrev`, in units of twice the fragment. */
  function Ramp(scrollRate: real, fragment: real, fragmentPrev: real): (fi: real)
    requires fragment > 0.0
    ensures fi * (2.0 * fragment) == scrollRate - fragmentPrev
    ensures fi < 0.0 <==> scrollRate < fragmentPrev
  {
    var fi := (scrollRate - fragmentPrev) * 100.0 / (fragment * 100.0 * 2.0);
    assert fi * (2.0 * fragment) == scrollRate - fragmentPrev by {
      assert fragment * 100.0 * 2.0 == 200.0 * fragment;
      assert fi == (scrollRate - fragmentPrev) / (2.0 * fragment);
    }
    RampSign(fi, 2.0 * fragment, scrollRate - fragmentPrev);
    fi
  }

  lemma RampSign(fi: real, width: real, distance: real)
    requires width > 0.0 && fi * width == distance
    ensures fi < 0.0 <==> distance < 0.0
  {
    if fi < 0.0 {
      assert fi * width < 0.0 * width;
    } else {
      assert fi * width >= 0.0 * width;
    }
  }

  /** getFragmentInterval, with the string it returns read back as a
      number ('0' as 0): nothing for a fragment that is not positive or a
      scroll rate before the fragment's start; otherwise the ramp, or
      `maxValue` less the ramp where the index is mirrored. */
  function FragmentInterval(isLandscape: bool, scrollRate: real, fragment: real, fragmentPrev: real,
                            maxValue: real, index: int, isDecreaseToEvenNumber: bool): (r: real)
    ensures fragment <= 0.0 ==> r == 0.0
    ensures fragment > 0.0 && scrollRate < fragmentPrev ==> r == 0.0
    ensures (fragment > 0.0 && scrollRate >= fragmentPrev
             && !Reflected(isLandscape, index, isDecreaseToEvenNumber)) ==>
      r >= 0.0 && r * (2.0 * fragment) == scrollRate - fragmentPrev
    ensures (fragment > 0.0 && scrollRate >= fragmentPrev
             && Reflected(isLandscape, index, isDecreaseToEvenNumber)) ==>
      r <= maxValue && (maxValue - r) * (2.0 * fragment) == scrollRate - fragmentPrev
  {
    if fragment <= 0.0 then 0.0
    else
      var fragmentedInterval := Ramp(scrollRate, fragment, fragmentPrev);
      if fragmentedInterval < 0.0 then 0.0
      else if Reflected(isLandscape, index, isDecreaseToEvenNumber) then maxValue - fragmentedInterval
      else fragmentedInterval
  }

  /** Past its fragment the mirrored interval keeps falling below zero: with
      maxValue 1, a fragment of 0.04 starting at 0, index 0 in landscape and
      the scroll rate at 1, the ramp is 12.5 and the answer is 1 - 12.5. */
  lemma MirroredIntervalGoesNegative()
    ensures FragmentInterval(true, 1.0, 0.04, 0.0, 1.0, 0, true) == -11.5
  {
  }

  /** Across its own fragment the ramp climbs from 0 to one half; mirrored,
      it falls from `maxValue` to `maxValue` less one half. */
  lemma FragmentIntervalOverFragment(isLandscape: bool, scrollRate: real, fragment: real, fragmentPrev: real,
                                     maxValue: real, index: int, isDecreaseToEvenNumber: bool)
    requires fragment > 0.0
    requires fragmentPrev <= scrollRate <= fragmentPrev + fragment
    ensures var r := FragmentInterval(isLandscape, scrollRate, fragment, fragmentPrev, maxValue, index, isDecreaseToEvenNumber);
      if Reflected(isLandscape, index, isDecreaseToEvenNumber) then maxValue - 0.5 <= r <= maxValue
      else 0.0 <= r <= 0.5
  {
  }

  /** Unmirrored, the interval never decreases as the page scrolls down;
      mirrored, it never increases once the scroll rate is inside the
      fragment. */
  lemma FragmentIntervalMonotone(isLandscape: bool, fragment: real, fragmentPrev: real, maxValue: real,
                                 index: int, isDecreaseToEvenNumber: bool, rate1: real, rate2: real)
    requires rate1 <= rate2
    ensures !Reflected(isLandscape, index, isDecreaseToEvenNumber) ==>
      FragmentInterval(isLandscape, rate1, fragment, fragmentPrev, maxValue, index, isDecreaseToEvenNumber)
      <= FragmentInterval(isLandscape, rate2, fragment, fragmentPrev, maxValue, index, isDecreaseToEvenNumber)
    ensures Reflected(isLandscape, index, isDecreaseToEvenNumber) && fragmentPrev <= rate1 ==>
      FragmentInterval(isLandscape, rate1, fragment, fragmentPrev, maxValue, index, isDecreaseToEvenNumber)
      >= FragmentInterval(isLandscape, rate2, fragment, fragmentPrev, maxValue, index, isDecreaseToEvenNumber)
  {
    if fragment > 0.0 {
      RampMonotone(fragment, fragmentPrev, rate1, rate2);
    }
  }

  lemma RampMonotone(fragment: real, fragmentPrev: real, rate1: real, rate2: real)
    requires fragment > 0.0 && rate1 <= rate2
    ensures Ramp(rate1, fragment, fragmentPrev) <= Ramp(rate2, fragment, fragmentPrev)
  {
    var f1, f2 := Ramp(rate1, fragment, fragmentPrev), Ramp(rate2, fragment, fragmentPrev);
    assert (f2 - f1) * (2.0 * fragment) == rate2 - rate1;
    RampSign(f2 - f1, 2.0 * fragment, rate2 - rate1);
  }

  /** The ladder of the scroll handler: 0 below 0.8, a line rising ten
      times as fast as the scroll fraction on [0.8, 0.9), and 1 from 0.9 on. */
  function MiddleScrollYPercentage(scrollYPercentage: real): (m: real)
    ensures 0.0 <= m <= 1.0
    ensures scrollYPercentage < 0.8 ==> m == 0.0
    ensures scrollYPercentage >= 0.9 ==> m == 1.0
    ensures 0.8 <= scrollYPercentage < 0.9 ==> m / 10.0 == scrollYPercentage - 0.8
  {
    if scrollYPercentage < 0.8 then 0.0
    else if scrollYPercentage >= 0.8 && scrollYPercentage < 0.9 then (scrollYPercentage - 0.8) * 10.0
    else 1.0
  }

  /** The ladder never goes down as the page scrolls down. */
  lemma MiddleScrollYPercentageMonotone(s1: real, s2: real)
    requires s1 <= s2
    ensures MiddleScrollYPercentage(s1) <= MiddleScrollYPercentage(s2)
  {
  }
}
