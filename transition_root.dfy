/** The older, self-contained version of the engine (scroll-transition.js):
    its colliding style flags, an `add` with positional parameters that
    rejects only an empty array, the same `drop`, and a `getPeakValley`
    whose last sub-window is cut off like the others and which can answer
    with a string. Its `Division` has the same constructor as the module
    version and is modelled by TransitionModule.Division; its static
    helpers are the same code as MiniTools. */
module TransitionRoot {
  import opened Wrappers
  import opened JsArrays
  import MiniTools
  import Waveform
  import TM = TransitionModule

  /** Style flags of this version: HEIGHT and SCALE share a value. */
  const OPACITY: int := 0
  const WIDTH: int := 1
  const HEIGHT: int := 2
  const SCALE: int := 2

  /** The `switch` of the scroll handler: the first case with the flag's
      value wins, so SCALE lands on the HEIGHT case and the `scale` case
      is never reached. */
  function StyleKeyOf(flag: int): (key: Option<string>)
    ensures key.Some? <==> 0 <= flag <= 2
    ensures key != Some("scale")
    ensures flag == SCALE ==> key == Some("height")
    ensures flag == OPACITY ==> key == Some("opacity")
    ensures flag == WIDTH ==> key == Some("width")
    ensures flag == HEIGHT ==> key == Some("height")
  {
    if flag == OPACITY then Some("opacity")
    else if flag == WIDTH then Some("width")
    else if flag == HEIGHT then Some("height")
    else if flag == SCALE then Some("scale")
    else None
  }

  // ---------------------------------------------------------------------
  // getPeakValley
  // ---------------------------------------------------------------------

  /** The zero test of this version: before the window or past it, for
      every index, the last one included. */
  predicate Zeroed(localFragments: seq<real>, globalFragment: real, s: real, index: nat) {
    Waveform.BeforeWindow(localFragments, globalFragment, s, index)
    || Waveform.PastWindow(localFragments, globalFragment, s, index)
  }

  /** What getPeakValley answers: the number, or (with `returnAsString`)
      its string form, '0' in the zeroed case. The digits of the string are
      not modelled; `Text(n)` is the string of `n`. */
  datatype Output = Number(num: Waveform.Num) | Text(num: Waveform.Num)

  function PeakValley(trig: Waveform.Trig, s: real, division: TM.Division, index: nat, returnAsString: bool)
    : (r: Output)
    ensures r.Text? <==> returnAsString
    ensures Zeroed(division.localFragments, division.globalFragment, s, index) ==> r.num == Waveform.Real(0.0)
    ensures r.num.NaN? <==>
      !Zeroed(division.localFragments, division.globalFragment, s, index)
      && (index >= |division.localFragments|
          || Waveform.ScrollFragment(division.localFragments, division.globalFragment, index) == 0.0)
    ensures Waveform.Bounded(trig) && division.Valid() && r.num.Real? ==> 0.0 <= r.num.value <= division.maxValue
  {
    var product :=
      if Zeroed(division.localFragments, division.globalFragment, s, index) then Waveform.Real(0.0)
      else Waveform.PeakValue(trig, division.localFragments, division.globalFragment, division.maxValue,
                              division.startFromPeak, s, index);
    if returnAsString then Text(product) else Number(product)
  }

  /** The two versions compute the same number except at the last
      sub-window once the scroll position is past it: there this version
      answers zero where the module version keeps the wave going. */
  lemma AgreesWithModuleVersion(trig: Waveform.Trig, s: real, division: TM.Division, index: nat, returnAsString: bool)
    ensures var lf, gf := division.localFragments, division.globalFragment;
      !(index == |lf| - 1 && Waveform.PastWindow(lf, gf, s, index)) ==>
        PeakValley(trig, s, division, index, returnAsString).num == TM.PeakValley(trig, s, division, index)
    ensures var lf, gf := division.localFragments, division.globalFragment;
      index == |lf| - 1 && Waveform.PastWindow(lf, gf, s, index) ==>
        PeakValley(trig, s, division, index, returnAsString).num == Waveform.Real(0.0)
  {
  }

  /** With positive fragments no two sub-windows are live at once. */
  lemma AtMostOneWindowLive(localFragments: seq<real>, globalFragment: real, s: real)
    requires Waveform.PositiveFragments(localFragments, globalFragment)
    ensures forall i, j :: 0 <= i < j < |localFragments| ==>
      Zeroed(localFragments, globalFragment, s, i) || Zeroed(localFragments, globalFragment, s, j)
  {
    forall i, j | 0 <= i < j < |localFragments|
      ensures Zeroed(localFragments, globalFragment, s, i) || Zeroed(localFragments, globalFragment, s, j)
    {
      Waveform.WindowsDisjoint(localFragments, globalFragment, s, i, j);
    }
  }

  /** With positive fragments some sub-window is live exactly while the
      scroll radian has not passed the total of all of them: beyond it
      every index answers zero. */
  lemma SomeWindowLiveIffWithinTotal(localFragments: seq<real>, globalFragment: real, s: real)
    requires Waveform.PositiveFragments(localFragments, globalFragment)
    requires |localFragments| >= 1
    ensures (exists i :: 0 <= i < |localFragments| && !Zeroed(localFragments, globalFragment, s, i))
        <==> Waveform.PI * s <= Waveform.RadianSum(localFragments, globalFragment, |localFragments|)
  {
    var n := |localFragments|;
    if Waveform.PI * s <= Waveform.RadianSum(localFragments, globalFragment, n) {
      Waveform.SomeWindowHolds(localFragments, globalFragment, s);
      var i :| 0 <= i < n && !Waveform.BeforeWindow(localFragments, globalFragment, s, i)
                          && !Waveform.PastWindow(localFragments, globalFragment, s, i);
      assert !Zeroed(localFragments, globalFragment, s, i);
    } else {
      forall i | 0 <= i < n
        ensures Zeroed(localFragments, globalFragment, s, i)
      {
        if i + 1 < n {
          Waveform.RadianSumIncreasing(localFragments, globalFragment, i + 1, n);
        }
        assert Waveform.PastWindow(localFragments, globalFragment, s, i);
      }
    }
  }

  // ---------------------------------------------------------------------
  // The registry
  // ---------------------------------------------------------------------

  class ScrollTransition<Dom> {
    var doms: seq<Dom>
    var divisions: seq<TM.Division>
    var isLandscape: bool

    predicate Valid()
      reads this
    {
      forall d :: d in divisions ==> d.Valid()
    }

    constructor (doms: seq<Dom>, divisions: seq<TM.Division>, isLandscape: bool)
      requires forall d :: d in divisions ==> d.Valid()
      ensures Valid()
      ensures this.doms == doms && this.divisions == divisions && this.isLandscape == isLandscape
    {
      this.doms := doms;
      this.divisions := divisions;
      this.isLandscape := isLandscape;
    }

    /** add of this version. `None` is an argument left out, which takes the
        parameter's default. Only an empty array of doms is turned away;
        otherwise a new division owning `[old length, old length + n)` is
        appended and the doms are appended behind the old ones. */
    method Add(doms: Option<seq<Dom>>, globalFragment: Option<real>, localFragments: Option<seq<real>>,
               maxValue: Option<real>, stylesToChange: Option<seq<int>>, startFromPeak: Option<bool>)
      returns (r: Option<TM.Division>)
      requires Valid()
      modifies this
      ensures Valid()
      ensures isLandscape == old(isLandscape)
      ensures doms.GetOr([]) == [] ==> r == None && this.doms == old(this.doms) && divisions == old(divisions)
      ensures doms.GetOr([]) != [] ==>
        r.Some? && fresh(r.value)
        && divisions == old(divisions) + [r.value]
        && this.doms == old(this.doms) + doms.value
        && r.value.domsInterval == [|old(this.doms)|, |old(this.doms)| + |doms.value|]
        && r.value.globalFragment == MiniTools.KeepInside100Percent(globalFragment.GetOr(1.0), true)
        && r.value.localFragments == localFragments.GetOr([1.0])
        && r.value.maxValue == MiniTools.KeepInside100Percent(maxValue.GetOr(1.0), true)
        && r.value.styleFlags == stylesToChange.GetOr([])
        && r.value.startFromPeak == startFromPeak.GetOr(false)
    {
      var newDoms := doms.GetOr([]);
      if |newDoms| == 0 {
        return None;
      }
      var interval := new JsArray([|this.doms|, |this.doms| + |newDoms|]);
      var newDivision := new TM.Division(globalFragment.GetOr(1.0), localFragments.GetOr([1.0]),
                                         maxValue.GetOr(1.0), stylesToChange.GetOr([]),
                                         interval, startFromPeak.GetOr(false));
      divisions := divisions + [newDivision];
      this.doms := this.doms + newDoms;
      r := Some(newDivision);
    }

    /** drop of this version, the same code as the module version: the doms
        from `start` through `end` inclusive are removed, and the division
        list never shrinks because `.slice` is called on the division. */
    method Drop(target: TM.DropArg) returns (outcome: TM.Outcome)
      requires Valid()
      requires target.Div? ==> target.division.Valid()
      modifies this
      ensures Valid()
      ensures divisions == old(divisions) && isLandscape == old(isLandscape)
      ensures target.Nothing? ==> outcome == TM.ThrewTypeError && doms == old(doms)
      ensures target.NotDivision? ==> outcome == TM.Returned && doms == old(doms)
      ensures target.Div? ==>
        doms == TM.DomsAfterDrop(old(doms), TM.Start(target.division), TM.End(target.division))
        && (outcome == TM.ThrewTypeError <==> target.division in old(divisions))
    {
      match target
      case Nothing =>
        return TM.ThrewTypeError;
      case NotDivision =>
        return TM.Returned;
      case Div(division) =>
        doms := Slice(doms, 0, division.domsInterval[0]) + SliceFrom(doms, division.domsInterval[1] + 1);
        var i := 0;
        while i < |divisions|
          invariant 0 <= i <= |divisions|
          invariant division !in divisions[..i]
        {
          if divisions[i] == division {
            // `this.divisions[i].slice` is undefined: calling it throws.
            return TM.ThrewTypeError;
          }
          assert divisions[..i + 1] == divisions[..i] + [divisions[i]];
          i := i + 1;
        }
        assert divisions[..i] == divisions;
        return TM.Returned;
    }
  }
}
