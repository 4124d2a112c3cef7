/** The module version of the engine (modules/scroll-transition.js): the
    `Division` record, the `ScrollTransition` registry with `add` and
    `drop`, the plan of style writes its scroll handler carries out, and
    `getPeakValley` with its open-ended last sub-window. */
module TransitionModule {
  import opened Wrappers
  import opened JsArrays
  import MiniTools
  import Waveform

  // ---------------------------------------------------------------------
  // Division
  // ---------------------------------------------------------------------

  /** Style flags, the static getters of `Division`. */
  const WIDTH: int := 0
  const HEIGHT: int := 1
  const SCALE: int := 2
  const OPACITY: int := 3
  const FONT_SIZE: int := 4

  /** One group of doms that change together: which share of the scroll
      range it spans, how that share is cut into sub-windows, how strong
      the change is, which styles change, which doms it owns (`[start, end)`
      in the registry's list) and whether it starts from the peak. The
      source never changes a division after construction. */
  class Division {
    const globalFragment: real
    const localFragments: seq<real>
    const maxValue: real
    const styleFlags: seq<int>
    const domsInterval: seq<int>
    const startFromPeak: bool
    const isDivision: bool

    /** What the constructor guarantees. */
    predicate Valid() {
      isDivision && |domsInterval| == 2
      && 0.0 < globalFragment <= 1.0 && 0.0 < maxValue <= 1.0
    }

    /** The fractions are clamped into (0, 1]; the interval argument is
        coerced to two members (`null` stands for an argument that is not an
        array, and a one-member array gets a 0 pushed onto it); everything
        else is kept as given. */
    constructor (globalFragment: real, localFragments: seq<real>, maxValue: real,
                 styleFlags: seq<int>, domsInterval: JsArray?<int>, startFromPeak: bool)
      modifies domsInterval
      ensures Valid()
      ensures this.globalFragment == MiniTools.KeepInside100Percent(globalFragment, true)
      ensures this.maxValue == MiniTools.KeepInside100Percent(maxValue, true)
      ensures this.domsInterval
           == MiniTools.KeptMembers(if domsInterval == null then None else Some(old(domsInterval.items)), 2, [0, 0])
      ensures domsInterval != null ==>
        domsInterval.items == (if |old(domsInterval.items)| < 2 then old(domsInterval.items) + [0] else old(domsInterval.items))
      ensures this.localFragments == localFragments
      ensures this.styleFlags == styleFlags
      ensures this.startFromPeak == startFromPeak
    {
      var kept := MiniTools.KeepNumberOfArrayMember(domsInterval, 2, [0, 0], 0);
      this.globalFragment := MiniTools.KeepInside100Percent(globalFragment, true);
      this.maxValue := MiniTools.KeepInside100Percent(maxValue, true);
      this.domsInterval := kept;
      this.localFragments := localFragments;
      this.styleFlags := styleFlags;
      this.startFromPeak := startFromPeak;
      this.isDivision := true;
    }
  }

  /** The first dom a division owns, and the one past its last. */
  function Start(d: Division): int
    requires d.Valid()
  {
    d.domsInterval[0]
  }

  function End(d: Division): int
    requires d.Valid()
  {
    d.domsInterval[1]
  }

  // ---------------------------------------------------------------------
  // add: parameters and their defaults
  // ---------------------------------------------------------------------

  /** The JavaScript values `add` can meet in a parameter, as far as its
      presence test tells them apart. */
  datatype JsValue = Number(n: real) | NotANumber | Boolean(b: bool) | Text(s: string) | Null | Undefined | Object

  /** The `isParamUndefined` closure of `add`, which answers true when the
      parameter IS supplied: every number but NaN counts, zero included;
      anything else counts when it is truthy. */
  function IsParamUndefined(v: JsValue): (r: bool)
    ensures !r <==> v == Boolean(false) || v == Null || v == Undefined || v == Text("") || v == NotANumber
    ensures v.Number? ==> r
  {
    match v
    case Number(_) => true
    case NotANumber => false
    case Boolean(b) => b
    case Text(s) => s != ""
    case Null => false
    case Undefined => false
    case Object => true
  }

  /** A value that `add` replaces with the parameter's default. */
  type Falsy = v: JsValue | !IsParamUndefined(v) witness Undefined

  /** A parameter of `add`: a value of the expected kind, or a falsy one. */
  datatype Arg<T> = Given(value: T) | Absent(falsy: Falsy)

  function OrDefault<T>(a: Arg<T>, default: T): T {
    match a
    case Given(v) => v
    case Absent(_) => default
  }

  /** `param.doms`: an array of doms, or some other value. */
  datatype DomsArg<Dom> = DomArray(items: seq<Dom>) | NotArray(raw: JsValue)

  datatype AddParam<Dom> = AddParam(
    doms: DomsArg<Dom>,
    globalFragment: Arg<real>,
    localFragments: Arg<seq<real>>,
    maxValue: Arg<real>,
    stylesToChange: Arg<seq<int>>,
    startFromPeak: Arg<bool>)

  /** A parameter object that names only its doms. */
  function DomsOnly<Dom>(items: seq<Dom>): (p: AddParam<Dom>)
    ensures p.doms == DomArray(items)
  {
    AddParam(DomArray(items), Absent(Undefined), Absent(Undefined), Absent(Undefined),
             Absent(Undefined), Absent(Undefined))
  }

  /** `add` goes on exactly when the doms parameter is a non-empty array. */
  predicate Accepted<Dom>(a: DomsArg<Dom>) {
    a.DomArray? && |a.items| > 0
  }

  // ---------------------------------------------------------------------
  // drop: the new dom list
  // ---------------------------------------------------------------------

  /** The argument of `drop`: a division, another object (whose `isDivision`
      is falsy), or nothing at all (`undefined` or `null`). */
  datatype DropArg = Div(division: Division) | NotDivision | Nothing

  /** How a call ends: by returning, or by throwing a TypeError. */
  datatype Outcome = Returned | ThrewTypeError

  /** The dom list `drop` leaves, as written: everything before `start` and
      everything after `end + 1`. */
  function DomsAfterDrop<Dom>(doms: seq<Dom>, start: int, end: int): seq<Dom> {
    Slice(doms, 0, start) + SliceFrom(doms, end + 1)
  }

  /** The dom list the documentation of `drop` describes: the division's
      own doms `[start, end)` removed, and no others. */
  function DomsAfterDropCorrected<Dom>(doms: seq<Dom>, start: int, end: int): seq<Dom> {
    Slice(doms, 0, start) + SliceFrom(doms, end)
  }

  /** Inside the list, `drop` removes `end - start + 1` doms: the interval
      and the dom just after it. */
  lemma DropRemovesOneMore<Dom>(doms: seq<Dom>, start: int, end: int)
    requires 0 <= start <= end < |doms|
    ensures DomsAfterDrop(doms, start, end) == doms[..start] + doms[end + 1..]
    ensures |DomsAfterDrop(doms, start, end)| == |doms| - (end - start + 1)
  {
  }

  /** After `add` appended `items` behind `before`, `drop` of that division
      loses the first dom of whatever was added after it. */
  lemma AddThenDropLosesNext<Dom>(before: seq<Dom>, items: seq<Dom>, after: seq<Dom>)
    requires after != []
    ensures DomsAfterDrop(before + items + after, |before|, |before| + |items|) == before + after[1..]
    ensures DomsAfterDrop(before + items + after, |before|, |before| + |items|) != before + after
  {
    var all := before + items + after;
    assert all[..|before|] == before;
    assert all[|before| + |items| + 1..] == after[1..];
    assert |before + after[1..]| < |before + after|;
  }

  /** For the division added last, the extra dom is not there to lose. */
  lemma AddThenDropAtTail<Dom>(before: seq<Dom>, items: seq<Dom>)
    ensures DomsAfterDrop(before + items, |before|, |before| + |items|) == before
  {
    assert (before + items)[..|before|] == before;
  }

  /** The corrected removal undoes `add`: the doms that were there before,
      and those added after, in order. */
  lemma AddThenDropCorrected<Dom>(before: seq<Dom>, items: seq<Dom>, after: seq<Dom>)
    ensures DomsAfterDropCorrected(before + items + after, |before|, |before| + |items|) == before + after
  {
    var all := before + items + after;
    assert all[..|before|] == before;
    assert all[|before| + |items|..] == after;
  }

  // ---------------------------------------------------------------------
  // drop: the new division list
  // ---------------------------------------------------------------------

  /** The division list with the first occurrence of `d` taken out, which
      is what the removal line of `drop` sets out to build. */
  function RemoveFirst(divisions: seq<Division>, d: Division): (r: seq<Division>)
    ensures d !in divisions ==> r == divisions
    ensures d in divisions ==> |r| == |divisions| - 1
  {
    if divisions == [] then []
    else
      assert divisions == [divisions[0]] + divisions[1..];
      if divisions[0] == d then divisions[1..]
      else [divisions[0]] + RemoveFirst(divisions[1..], d)
  }

  /** Exactly one copy of `d` goes, and nothing else. */
  lemma {:induction false} RemoveFirstMultiset(divisions: seq<Division>, d: Division)
    ensures multiset(RemoveFirst(divisions, d)) == multiset(divisions) - multiset{d}
  {
    if divisions != [] {
      var x, rest := divisions[0], divisions[1..];
      assert divisions == [x] + rest;
      if x != d {
        RemoveFirstMultiset(rest, d);
        FirstKept(x, rest, d);
      }
    }
  }

  lemma {:induction false} RemoveFirstAt(before: seq<Division>, d: Division, after: seq<Division>)
    requires d !in before
    ensures RemoveFirst(before + [d] + after, d) == before + after
  {
    if before == [] {
      assert before + [d] + after == [d] + after;
    } else {
      var x, rest := before[0], before[1..];
      assert before + [d] + after == [x] + (rest + [d] + after) by {
        assert before == [x] + rest;
      }
      assert d !in rest && x != d;
      RemoveFirstAt(rest, d, after);
      assert before + after == [x] + (rest + after) by {
        assert before == [x] + rest;
      }
      FirstKept(x, rest + [d] + after, d);
    }
  }

  lemma FirstKept(x: Division, tail: seq<Division>, d: Division)
    requires x != d
    ensures RemoveFirst([x] + tail, d) == [x] + RemoveFirst(tail, d)
  {
    assert ([x] + tail)[1..] == tail;
  }

  // ---------------------------------------------------------------------
  // The dispatch plan of the scroll handler
  // ---------------------------------------------------------------------

  /** `changePixelStyle` multiplies the current pixel value by the peak
      value; `changePercentageStyle` writes the peak value itself. */
  datatype Kind = Pixels | Percentage

  datatype Style = Style(key: string, kind: Kind)

  /** The `switch` over a style flag. */
  function StyleOf(flag: int): (st: Option<Style>)
    ensures st.Some? <==> 0 <= flag <= 4
    ensures st.Some? ==> (st.value.kind == Pixels <==> flag == WIDTH || flag == HEIGHT || flag == FONT_SIZE)
    ensures flag == WIDTH ==> st == Some(Style("width", Pixels))
    ensures flag == HEIGHT ==> st == Some(Style("height", Pixels))
    ensures flag == SCALE ==> st == Some(Style("scale", Percentage))
    ensures flag == OPACITY ==> st == Some(Style("opacity", Percentage))
    ensures flag == FONT_SIZE ==> st == Some(Style("fontSize", Pixels))
  {
    if flag == WIDTH then Some(Style("width", Pixels))
    else if flag == HEIGHT then Some(Style("height", Pixels))
    else if flag == SCALE then Some(Style("scale", Percentage))
    else if flag == OPACITY then Some(Style("opacity", Percentage))
    else if flag == FONT_SIZE then Some(Style("fontSize", Pixels))
    else None
  }

  /** `getIndexInput`: the local index handed to getPeakValley for dom `i`.
      It counts from 0 when the interval starts at dom 0, and from 1
      otherwise. */
  function IndexInput(firstIntervalValue: int, i: int): (r: int)
    ensures firstIntervalValue <= i ==> r == (i - firstIntervalValue) + (if firstIntervalValue == 0 then 0 else 1)
    ensures firstIntervalValue <= i ==> r >= 0
  {
    if firstIntervalValue != 0 then i - firstIntervalValue + 1 else i
  }

  /** One style write: dom `dom` gets style `key`, from the peak value of
      `division` at local index `index`. */
  datatype Write = Write(dom: int, key: string, kind: Kind, index: int, division: Division)

  /** The writes for dom `i` of `d`, one per known flag of `flags`, in order. */
  function FlagWrites(d: Division, i: int, flags: seq<int>): seq<Write>
    requires d.Valid()
  {
    if flags == [] then []
    else
      FlagWrites(d, i, flags[..|flags| - 1]) +
        match StyleOf(flags[|flags| - 1])
        case None => []
        case Some(st) => [Write(i, st.key, st.kind, IndexInput(Start(d), i), d)]
  }

  /** The writes for the doms of `d` below `hi`, in ascending order. */
  function DomWrites(d: Division, hi: int): seq<Write>
    requires d.Valid()
    decreases hi - Start(d)
  {
    if hi <= Start(d) then []
    else DomWrites(d, hi - 1) + FlagWrites(d, hi - 1, d.styleFlags)
  }

  /** The writes of one scroll event: division by division in list order. */
  function Plan(divisions: seq<Division>): seq<Write>
    requires forall d :: d in divisions ==> d.Valid()
  {
    if divisions == [] then []
    else
      var last := divisions[|divisions| - 1];
      Plan(divisions[..|divisions| - 1]) + DomWrites(last, End(last))
  }

  /** A write lands on a dom the registry has. */
  predicate Lands(w: Write, domCount: int) {
    0 <= w.dom < domCount
  }

  /** The writes that happen: `this.doms[i]` outside the list is
      `undefined`, and reaching its `style` throws, which ends the handler. */
  function Performed(plan: seq<Write>, domCount: int): (r: seq<Write>)
    ensures r <= plan
    ensures forall k :: 0 <= k < |r| ==> Lands(r[k], domCount)
    ensures |r| < |plan| ==> !Lands(plan[|r|], domCount)
  {
    if plan == [] || !Lands(plan[0], domCount) then []
    else [plan[0]] + Performed(plan[1..], domCount)
  }

  lemma FlagWritesShape(d: Division, i: int, flags: seq<int>)
    requires d.Valid()
    ensures forall w :: w in FlagWrites(d, i, flags) ==>
      w.dom == i && w.division == d && w.index == IndexInput(Start(d), i)
      && exists f :: f in flags && StyleOf(f) == Some(Style(w.key, w.kind))
  {
    if flags != [] {
      FlagWritesShape(d, i, flags[..|flags| - 1]);
      forall w | w in FlagWrites(d, i, flags)
        ensures exists f :: f in flags && StyleOf(f) == Some(Style(w.key, w.kind))
      {
        if w in FlagWrites(d, i, flags[..|flags| - 1]) {
          var f :| f in flags[..|flags| - 1] && StyleOf(f) == Some(Style(w.key, w.kind));
          assert f in flags;
        } else {
          assert StyleOf(flags[|flags| - 1]) == Some(Style(w.key, w.kind));
        }
      }
    }
  }

  lemma {:induction false} DomWritesShape(d: Division, hi: int)
    requires d.Valid()
    ensures forall w :: w in DomWrites(d, hi) ==>
      Start(d) <= w.dom < hi && w.division == d && w.index == IndexInput(Start(d), w.dom)
    decreases hi - Start(d)
  {
    if hi > Start(d) {
      DomWritesShape(d, hi - 1);
      FlagWritesShape(d, hi - 1, d.styleFlags);
    }
  }

  /** Every planned write belongs to a registered division, falls inside
      that division's interval, and carries the local index getIndexInput
      gives its dom. */
  lemma {:induction false} PlanStaysInIntervals(divisions: seq<Division>)
    requires forall d :: d in divisions ==> d.Valid()
    ensures forall w :: w in Plan(divisions) ==>
      w.division in divisions && Start(w.division) <= w.dom < End(w.division)
      && w.index == IndexInput(Start(w.division), w.dom)
  {
    if divisions != [] {
      var init, last := divisions[..|divisions| - 1], divisions[|divisions| - 1];
      assert forall d :: d in init ==> d in divisions;
      PlanStaysInIntervals(init);
      DomWritesShape(last, End(last));
    }
  }

  /** When every division's interval lies inside the dom list, every write
      of the plan is performed. */
  lemma NothingThrowsWhenIntervalsFit(divisions: seq<Division>, domCount: int)
    requires forall d :: d in divisions ==> d.Valid()
    requires forall d :: d in divisions ==> 0 <= Start(d) && End(d) <= domCount
    ensures Performed(Plan(divisions), domCount) == Plan(divisions)
  {
    var plan := Plan(divisions);
    PlanStaysInIntervals(divisions);
    var r := Performed(plan, domCount);
    if |r| < |plan| {
      assert false;
    }
  }

  // ---------------------------------------------------------------------
  // getPeakValley
  // ---------------------------------------------------------------------

  /** The zero test of this version: before the window, or past it unless
      the index is the last one, whose window stays open to the end. */
  predicate Zeroed(localFragments: seq<real>, globalFragment: real, s: real, index: nat) {
    Waveform.BeforeWindow(localFragments, globalFragment, s, index)
    || (index != |localFragments| - 1 && Waveform.PastWindow(localFragments, globalFragment, s, index))
  }

  /** getPeakValley for scroll fraction `s`, a division and a local index. */
  function PeakValley(trig: Waveform.Trig, s: real, division: Division, index: nat): (r: Waveform.Num)
    ensures Zeroed(division.localFragments, division.globalFragment, s, index) ==> r == Waveform.Real(0.0)
    ensures r.NaN? <==>
      !Zeroed(division.localFragments, division.globalFragment, s, index)
      && (index >= |division.localFragments|
          || Waveform.ScrollFragment(division.localFragments, division.globalFragment, index) == 0.0)
    ensures Waveform.Bounded(trig) && division.Valid() && r.Real? ==> 0.0 <= r.value <= division.maxValue
  {
    if Zeroed(division.localFragments, division.globalFragment, s, index) then Waveform.Real(0.0)
    else
      Waveform.PeakValue(trig, division.localFragments, division.globalFragment, division.maxValue,
                         division.startFromPeak, s, index)
  }

  /** With positive fragments, exactly one sub-window is live for any scroll
      position: the last one takes every position past the total. */
  lemma ExactlyOneWindowLive(localFragments: seq<real>, globalFragment: real, s: real)
    requires Waveform.PositiveFragments(localFragments, globalFragment)
    requires |localFragments| >= 1
    ensures exists i :: 0 <= i < |localFragments| && !Zeroed(localFragments, globalFragment, s, i)
    ensures forall i, j :: 0 <= i < j < |localFragments| ==>
      Zeroed(localFragments, globalFragment, s, i) || Zeroed(localFragments, globalFragment, s, j)
  {
    var n := |localFragments|;
    if Waveform.PI * s <= Waveform.RadianSum(localFragments, globalFragment, n) {
      Waveform.SomeWindowHolds(localFragments, globalFragment, s);
      var i :| 0 <= i < n && !Waveform.BeforeWindow(localFragments, globalFragment, s, i)
                          && !Waveform.PastWindow(localFragments, globalFragment, s, i);
      assert !Zeroed(localFragments, globalFragment, s, i);
    } else {
      if n > 1 {
        Waveform.RadianSumIncreasing(localFragments, globalFragment, n - 1, n);
      }
      assert !Zeroed(localFragments, globalFragment, s, n - 1);
    }
    forall i, j | 0 <= i < j < n
      ensures Zeroed(localFragments, globalFragment, s, i) || Zeroed(localFragments, globalFragment, s, j)
    {
      Waveform.WindowsDisjoint(localFragments, globalFragment, s, i, j);
    }
  }

  /** An index at or past the fragments, as the last dom of a division that
      does not start at dom 0 receives when it has one local fragment per
      dom, is zeroed; only a division with no fragments at all, asked for
      index 0 at a scroll fraction of at most 0, reads `undefined` and
      gives NaN. */
  lemma IndexPastFragments(trig: Waveform.Trig, s: real, division: Division, index: nat)
    requires index >= |division.localFragments|
    ensures PeakValley(trig, s, division, index)
         == if |division.localFragments| == 0 && index == 0 && s <= 0.0 then Waveform.NaN else Waveform.Real(0.0)
  {
    var lf, gf := division.localFragments, division.globalFragment;
    if |lf| >= 1 {
      Waveform.BeyondFragmentsIsZeroed(lf, gf, s, index);
    } else {
      assert Waveform.AccumulatedRadian(lf, gf, index) == 0.0;
      assert Waveform.PI * s <= 0.0 <==> s <= 0.0;
    }
  }

  // ---------------------------------------------------------------------
  // The registry
  // ---------------------------------------------------------------------

  class ScrollTransition<Dom> {
    var doms: seq<Dom>
    var divisions: seq<Division>
    var isLandscape: bool

    /** Every registered division is one the constructor built. */
    predicate Valid()
      reads this
    {
      forall d :: d in divisions ==> d.Valid()
    }

    constructor (doms: seq<Dom>, divisions: seq<Division>, isLandscape: bool)
      requires forall d :: d in divisions ==> d.Valid()
      ensures Valid()
      ensures this.doms == doms && this.divisions == divisions && this.isLandscape == isLandscape
    {
      this.doms := doms;
      this.divisions := divisions;
      this.isLandscape := isLandscape;
    }

    /** add: a non-array or empty doms parameter changes nothing and
        returns nothing; otherwise the missing parameters take their
        defaults, a new division owning `[old length, old length + n)` is
        appended, and the doms are appended behind the old ones. */
    method Add(param: AddParam<Dom>) returns (r: Option<Division>)
      requires Valid()
      modifies this
      ensures Valid()
      ensures isLandscape == old(isLandscape)
      ensures !Accepted(param.doms) ==> r == None && doms == old(doms) && divisions == old(divisions)
      ensures Accepted(param.doms) ==>
        r.Some? && fresh(r.value)
        && divisions == old(divisions) + [r.value]
        && doms == old(doms) + param.doms.items
        && r.value.domsInterval == [|old(doms)|, |old(doms)| + |param.doms.items|]
        && r.value.globalFragment == MiniTools.KeepInside100Percent(OrDefault(param.globalFragment, 1.0), true)
        && r.value.localFragments == OrDefault(param.localFragments, [1.0])
        && r.value.maxValue == MiniTools.KeepInside100Percent(OrDefault(param.maxValue, 1.0), true)
        && r.value.styleFlags == OrDefault(param.stylesToChange, [])
        && r.value.startFromPeak == OrDefault(param.startFromPeak, false)
    {
      var newDoms := param.doms;
      if newDoms.NotArray? && !IsParamUndefined(newDoms.raw) {
        newDoms := DomArray([]);
      }
      var globalFragment := OrDefault(param.globalFragment, 1.0);
      var localFragments := OrDefault(param.localFragments, [1.0]);
      var maxValue := OrDefault(param.maxValue, 1.0);
      var stylesToChange := OrDefault(param.stylesToChange, []);
      var startFromPeak := OrDefault(param.startFromPeak, false);

      if (newDoms.DomArray? && |newDoms.items| == 0) || !newDoms.DomArray? {
        return None;
      }

      var interval := new JsArray([|doms|, |doms| + |newDoms.items|]);
      var newDivision := new Division(globalFragment, localFragments, maxValue, stylesToChange,
                                      interval, startFromPeak);
      divisions := divisions + [newDivision];
      doms := doms + newDoms.items;
      r := Some(newDivision);
    }

    /** drop, as written: the doms from `start` through `end` inclusive are
        removed; the search for the division then reaches `.slice` on the
        division itself, which throws, so the division list never shrinks. */
    method Drop(target: DropArg) returns (outcome: Outcome)
      requires Valid()
      requires target.Div? ==> target.division.Valid()
      modifies this
      ensures Valid()
      ensures divisions == old(divisions) && isLandscape == old(isLandscape)
      ensures target.Nothing? ==> outcome == ThrewTypeError && doms == old(doms)
      ensures target.NotDivision? ==> outcome == Returned && doms == old(doms)
      ensures target.Div? ==>
        doms == DomsAfterDrop(old(doms), Start(target.division), End(target.division))
        && (outcome == ThrewTypeError <==> target.division in old(divisions))
    {
      match target
      case Nothing =>
        return ThrewTypeError;
      case NotDivision =>
        return Returned;
      case Div(division) =>
        doms := Slice(doms, 0, division.domsInterval[0]) + SliceFrom(doms, division.domsInterval[1] + 1);
        var i := 0;
        while i < |divisions|
          invariant 0 <= i <= |divisions|
          invariant division !in divisions[..i]
        {
          if divisions[i] == division {
            // `this.divisions[i].slice` is undefined: calling it throws.
            return ThrewTypeError;
          }
          assert divisions[..i + 1] == divisions[..i] + [divisions[i]];
          i := i + 1;
        }
        assert divisions[..i] == divisions;
        return Returned;
    }

    /** drop as its documentation describes it: the division's doms
        `[start, end)` and the division itself are removed. The intervals
        of the other divisions are left as they are, as in the source. */
    method DropCorrected(target: DropArg) returns (outcome: Outcome)
      requires Valid()
      requires target.Div? ==> target.division.Valid()
      modifies this
      ensures Valid()
      ensures isLandscape == old(isLandscape)
      ensures target.Nothing? ==> outcome == ThrewTypeError && doms == old(doms) && divisions == old(divisions)
      ensures target.NotDivision? ==> outcome == Returned && doms == old(doms) && divisions == old(divisions)
      ensures target.Div? ==>
        outcome == Returned
        && doms == DomsAfterDropCorrected(old(doms), Start(target.division), End(target.division))
        && divisions == RemoveFirst(old(divisions), target.division)
    {
      match target
      case Nothing =>
        return ThrewTypeError;
      case NotDivision =>
        return Returned;
      case Div(division) =>
        doms := Slice(doms, 0, division.domsInterval[0]) + SliceFrom(doms, division.domsInterval[1]);
        var i := 0;
        while i < |divisions|
          invariant 0 <= i <= |divisions|
          invariant division !in divisions[..i]
        {
          if divisions[i] == division {
            assert divisions == divisions[..i] + [division] + divisions[i + 1..];
            RemoveFirstAt(divisions[..i], division, divisions[i + 1..]);
            divisions := divisions[..i] + divisions[i + 1..];
            return Returned;
          }
          assert divisions[..i + 1] == divisions[..i] + [divisions[i]];
          i := i + 1;
        }
        assert divisions[..i] == divisions;
        return Returned;
    }

    /** The scroll handler's loops: for each division in list order, each
        dom of its interval in ascending order and each of its flags in
        order, the write the `switch` selects. Which of them take effect
        is Performed of this plan. */
    method DispatchPlan() returns (plan: seq<Write>)
      requires Valid()
      ensures plan == Plan(divisions)
    {
      plan := [];
      var k := 0;
      while k < |divisions|
        invariant 0 <= k <= |divisions|
        invariant forall d :: d in divisions[..k] ==> d.Valid()
        invariant plan == Plan(divisions[..k])
      {
        var div := divisions[k];
        assert div in divisions;
        assert divisions[..k + 1][..k] == divisions[..k];
        assert forall d :: d in divisions[..k + 1] ==> d in divisions;
        var divisionWrites := DivisionPlan(div);
        plan := plan + divisionWrites;
        k := k + 1;
      }
      assert divisions[..k] == divisions;
    }
  }

  /** The middle loop: the doms of one division's interval. */
  method DivisionPlan(div: Division) returns (writes: seq<Write>)
    requires div.Valid()
    ensures writes == DomWrites(div, End(div))
  {
    writes := [];
    var i := div.domsInterval[0];
    while i < div.domsInterval[1]
      invariant Start(div) <= i
      invariant i <= End(div) || i == Start(div)
      invariant writes == DomWrites(div, i)
    {
      var domWrites := DomPlan(div, i);
      writes := writes + domWrites;
      i := i + 1;
    }
  }

  /** The inner loop: the flags of a division, for dom `i`. */
  method DomPlan(div: Division, i: int) returns (writes: seq<Write>)
    requires div.Valid()
    ensures writes == FlagWrites(div, i, div.styleFlags)
  {
    writes := [];
    var index := IndexInput(div.domsInterval[0], i);
    var f := 0;
    while f < |div.styleFlags|
      invariant 0 <= f <= |div.styleFlags|
      invariant writes == FlagWrites(div, i, div.styleFlags[..f])
    {
      assert div.styleFlags[..f + 1][..f] == div.styleFlags[..f];
      var style := StyleOf(div.styleFlags[f]);
      if style.Some? {
        writes := writes + [Write(i, style.value.key, style.value.kind, index, div)];
      }
      f := f + 1;
    }
    assert div.styleFlags[..f] == div.styleFlags;
  }

  // ---------------------------------------------------------------------
  // add followed by drop
  // ---------------------------------------------------------------------

  /** Two groups are added and the first is dropped: as written, the dom
      of the second group goes too, and the first division stays
      registered. */
  method AddTwoDropFirst() returns (remaining: seq<int>, stillRegistered: bool)
    ensures remaining == [] && stillRegistered
  {
    var registry := new ScrollTransition<int>([], [], true);
    var first := registry.Add(DomsOnly([10, 20]));
    var second := registry.Add(DomsOnly([30]));
    assert registry.doms == [] + [10, 20] + [30];
    AddThenDropLosesNext([], [10, 20], [30]);
    var outcome := registry.Drop(Div(first.value));
    remaining := registry.doms;
    stillRegistered := first.value in registry.divisions;
  }

  /** The same calls with the corrected drop: the second group's dom and
      division are all that remain. */
  method AddTwoDropFirstCorrected() returns (remaining: seq<int>, stillRegistered: bool)
    ensures remaining == [30] && !stillRegistered
  {
    var registry := new ScrollTransition<int>([], [], true);
    var first := registry.Add(DomsOnly([10, 20]));
    var second := registry.Add(DomsOnly([30]));
    assert registry.doms == [] + [10, 20] + [30];
    AddThenDropCorrected([], [10, 20], [30]);
    assert registry.divisions == [] + [first.value] + [second.value];
    RemoveFirstAt([], first.value, [second.value]);
    var outcome := registry.DropCorrected(Div(first.value));
    remaining := registry.doms;
    stillRegistered := first.value in registry.divisions;
  }
}
