/** The list and number helpers of `MiniTools` (modules/mini-tools.js):
    fixed-length array coercion, clamping into the unit interval, the digit
    test and the scraping of a decimal number out of a style string. */
module MiniTools {
  import opened Wrappers
  import opened JsArrays

  // ---------------------------------------------------------------------
  // keepNumberOfArrayMember
  // ---------------------------------------------------------------------

  /** What keepNumberOfArrayMember answers for an argument whose elements are
      `arr` (None: the argument is not an array). The in-place padding of a
      short array is not part of the answer: a short array yields `defArr`. */
  function KeptMembers<T>(arr: Option<seq<T>>, count: int, defArr: seq<T>): (r: seq<T>)
    ensures count <= 0 ==> r == []
    ensures count > 0 ==> r == defArr || |r| == count
    ensures count > 0 && arr.Some? && |arr.value| >= count ==> r == arr.value[..count]
    ensures count > 0 && (arr.None? || |arr.value| < count) ==> r == defArr
  {
    if count <= 0 then []
    else match arr
      case None => defArr
      case Some(a) =>
        if |a| > count then a[..count]
        else if |a| < count then defArr
        else a
  }

  /** keepNumberOfArrayMember. `arr == null` stands for an argument that is
      not an array. `filler` is the element the source's `type` switch pushes
      (0 for 'number', the default type, '' for 'string', false, null or
      undefined for the others). A short array gets exactly one `filler`
      pushed onto it in place (the loop starts at `count - 1`), and the
      answer is then `defArr`, not the padded array. */
  method KeepNumberOfArrayMember<T>(arr: JsArray?<T>, count: int, defArr: seq<T>, filler: T)
    returns (r: seq<T>)
    modifies arr
    ensures count <= 0 ==> r == []
    ensures count > 0 && arr == null ==> r == defArr
    ensures count > 0 && arr != null && |old(arr.items)| > count ==> r == old(arr.items)[..count]
    ensures count > 0 && arr != null && |old(arr.items)| == count ==> r == old(arr.items)
    ensures count > 0 && arr != null && |old(arr.items)| < count ==> r == defArr
    ensures arr != null ==>
      arr.items == if count > 0 && |old(arr.items)| < count then old(arr.items) + [filler] else old(arr.items)
    ensures r == KeptMembers(if arr == null then None else Some(old(arr.items)), count, defArr)
  {
    if count <= 0 {
      return [];
    }
    if arr != null {
      if |arr.items| > count {
        return arr.items[..count];
      } else if |arr.items| < count {
        var i := count - 1;
        while i < count
          invariant count - 1 <= i <= count
          invariant arr.items == old(arr.items) + if i == count then [filler] else []
        {
          arr.Push(filler);
          i := i + 1;
        }
      } else {
        return arr.items;
      }
    }
    r := defArr;
  }

  // ---------------------------------------------------------------------
  // keepInside100Percent
  // ---------------------------------------------------------------------

  /** The stand-in for zero when zero is prevented. */
  const NEAR_ZERO: real := 0.0001

  /** keepInside100Percent: values at or below zero become NEAR_ZERO (or 0 when
      zero is allowed), values above one become one, the rest pass through. */
  function KeepInside100Percent(value: real, preventZero: bool): (r: real)
    ensures preventZero ==> 0.0 < r <= 1.0
    ensures !preventZero ==> 0.0 <= r <= 1.0
    ensures 0.0 < value <= 1.0 ==> r == value
    ensures value <= 0.0 ==> r == (if preventZero then NEAR_ZERO else 0.0)
    ensures value > 1.0 ==> r == 1.0
  {
    if value <= 0.0 then (if preventZero then NEAR_ZERO else 0.0)
    else if value > 1.0 then 1.0
    else value
  }

  /** Clamping twice is clamping once. */
  lemma KeepInside100PercentIdempotent(value: real, preventZero: bool)
    ensures KeepInside100Percent(KeepInside100Percent(value, preventZero), preventZero)
         == KeepInside100Percent(value, preventZero)
  {
  }

  // ---------------------------------------------------------------------
  // isNumber
  // ---------------------------------------------------------------------

  /** What `parseInt` gives for a one-character string: its digit, or NaN. */
  datatype Parsed = Int(value: nat) | NaN

  function ParseInt(c: char): (p: Parsed)
    ensures p.Int? ==> p.value <= 9
    ensures p.Int? <==> c in "0123456789"
    ensures p.Int? ==> "0123456789"[p.value] == c
  {
    if '0' <= c <= '9' then Int(c as int - '0' as int) else NaN
  }

  /** isNumber on a single character: `parseInt` of it is a number that is
      not NaN, which holds exactly for the ten decimal digits. */
  function IsNumber(c: char): (r: bool)
    ensures r <==> c in "0123456789"
  {
    ParseInt(c).Int?
  }

  // ---------------------------------------------------------------------
  // filterNumberFromString: the specification
  // ---------------------------------------------------------------------

  /** The values of the digits of `s`, in order; every other character is skipped. */
  function Digits(s: string): (ds: seq<nat>)
    ensures |ds| <= |s|
  {
    if s == [] then []
    else
      var c := s[|s| - 1];
      Digits(s[..|s| - 1]) + (if IsNumber(c) then [ParseInt(c).value] else [])
  }

  /** The position of the first '.' in `s`, or |s| when there is none. */
  function DotIndex(s: string): (k: nat)
    ensures k <= |s|
    ensures k < |s| ==> s[k] == '.'
  {
    if s == [] then 0
    else if s[0] == '.' then 0
    else 1 + DotIndex(s[1..])
  }

  /** The '.' DotIndex finds is the first one: none comes before it, and
      there is none at all when it answers |s|. */
  lemma {:induction false} DotIndexIsFirst(s: string)
    ensures forall j :: 0 <= j < DotIndex(s) ==> s[j] != '.'
  {
    if s != [] && s[0] != '.' {
      DotIndexIsFirst(s[1..]);
      forall j | 0 <= j < DotIndex(s)
        ensures s[j] != '.'
      {
        if j > 0 {
          assert s[j] == s[1..][j - 1];
        }
      }
    }
  }

  /** The digits before the first '.'. */
  function WholeDigits(s: string): seq<nat> {
    Digits(s[..DotIndex(s)])
  }

  /** The digits after the first '.' (none when there is no '.'). */
  function FractionDigits(s: string): seq<nat> {
    if DotIndex(s) < |s| then Digits(s[DotIndex(s) + 1..]) else []
  }

  /** The number a sequence of decimal digits spells, most significant first. */
  function DecimalValue(ds: seq<nat>): nat {
    if ds == [] then 0 else DecimalValue(ds[..|ds| - 1]) * 10 + ds[|ds| - 1]
  }

  /** `x` times 10^n, the source's `x * Math.pow(10, n)`, one factor of
      ten at a time. */
  function Scaled(x: real, n: nat): (r: real)
    ensures x >= 0.0 ==> r >= x
    ensures x == 0.0 ==> r == 0.0
  {
    if n == 0 then x else 10.0 * Scaled(x, n - 1)
  }

  /** `x` divided by 10^n, the source's `x / Math.pow(10, n)`. */
  function Shifted(x: real, n: nat): (r: real)
    ensures x >= 0.0 ==> 0.0 <= r <= x
  {
    if n == 0 then x else Shifted(x, n - 1) / 10.0
  }

  /** Scaled multiplies by the power of ten it is given. */
  lemma {:induction false} ScaledIsPowerOfTen(x: real, n: nat)
    ensures Scaled(x, n) == x * Scaled(1.0, n)
  {
    if n > 0 {
      ScaledIsPowerOfTen(x, n - 1);
      assert 10.0 * (x * Scaled(1.0, n - 1)) == x * (10.0 * Scaled(1.0, n - 1));
    }
  }

  /** Shifted divides by that same power of ten. */
  lemma {:induction false} ShiftedUndoesScaled(x: real, n: nat)
    ensures Shifted(x, n) * Scaled(1.0, n) == x
  {
    if n > 0 {
      ShiftedUndoesScaled(x, n - 1);
      var a, b := Shifted(x, n - 1), Scaled(1.0, n - 1);
      assert (a / 10.0) * (10.0 * b) == a * b;
    }
  }

  /** The decimal number written by the digits of `s`, with the first '.' as
      the decimal point: the whole digits' value plus the fraction digits'
      value divided by ten to the number of fraction digits. */
  function NumberInString(s: string): (r: real)
    ensures r >= 0.0
  {
    var f := FractionDigits(s);
    DecimalValue(WholeDigits(s)) as real + Shifted(DecimalValue(f) as real, |f|)
  }

  /** A string without digits spells 0. */
  lemma NoDigitsIsZero(s: string)
    requires forall k :: 0 <= k < |s| ==> !IsNumber(s[k])
    ensures NumberInString(s) == 0.0
  {
    NoDigits(s[..DotIndex(s)]);
    if DotIndex(s) < |s| {
      NoDigits(s[DotIndex(s) + 1..]);
    }
  }

  lemma {:induction false} NoDigits(s: string)
    requires forall k :: 0 <= k < |s| ==> !IsNumber(s[k])
    ensures Digits(s) == []
  {
    if s != [] {
      NoDigits(s[..|s| - 1]);
    }
  }

  /** Removing a character that is neither a digit nor the first '.' (a
      sign, a letter, a unit suffix, a later '.') does not change the
      number: such characters are skipped. */
  lemma SkippedCharacter(a: string, c: char, b: string)
    requires !IsNumber(c)
    requires c == '.' ==> DotIndex(a) < |a|
    ensures NumberInString(a + [c] + b) == NumberInString(a + b)
  {
    SkippedCharacterDigits(a, c, b);
  }

  lemma SkippedCharacterDigits(a: string, c: char, b: string)
    requires !IsNumber(c)
    requires c == '.' ==> DotIndex(a) < |a|
    ensures WholeDigits(a + [c] + b) == WholeDigits(a + b)
    ensures FractionDigits(a + [c] + b) == FractionDigits(a + b)
  {
    var s, t := a + [c] + b, a + b;
    ScannedMeaning(a);
    ScannedSkip(a, c, b);
    ScannedMeaning(s);
    ScannedMeaning(t);
    SameCellsSameDigits(s, t);
  }

  /** Strings that sort into the same cells spell the same digits. */
  lemma SameCellsSameDigits(s: string, t: string)
    requires SortedCells(s) == SortedCells(t)
    requires (DotIndex(s) < |s|) == (DotIndex(t) < |t|)
    ensures WholeDigits(s) == WholeDigits(t) && FractionDigits(s) == FractionDigits(t)
  {
    var dot: seq<Cell> := if DotIndex(s) < |s| then [Dot] else [];
    var ws, wt := DigitCells(WholeDigits(s)), DigitCells(WholeDigits(t));
    assert ws + dot == wt + dot;
    assert ws == (ws + dot)[..|ws|];
    assert wt == (wt + dot)[..|wt|];
    DigitCellsInjective(WholeDigits(s), WholeDigits(t));
    DigitCellsInjective(FractionDigits(s), FractionDigits(t));
  }

  lemma DigitCellsInjective(x: seq<nat>, y: seq<nat>)
    requires DigitCells(x) == DigitCells(y)
    ensures x == y
  {
    assert forall k :: 0 <= k < |x| ==> DigitCells(x)[k] == Digit(x[k]);
  }

  /** The first loop's state machine ignores a character that is neither a
      digit nor the first '.', wherever it occurs. */
  lemma {:induction false} ScannedSkip(a: string, c: char, b: string)
    requires !IsNumber(c)
    requires c == '.' ==> Scanned(a).isDotPushed
    ensures Scanned(a + [c] + b) == Scanned(a + b)
  {
    if b == [] {
      assert a + [c] + b == a + [c] && a + b == a;
      assert (a + [c])[..|a|] == a;
    } else {
      var b', x := b[..|b| - 1], b[|b| - 1];
      assert a + [c] + b == (a + [c] + b') + [x];
      assert a + b == (a + b') + [x];
      assert ((a + [c] + b') + [x])[..|a + [c] + b'|] == a + [c] + b';
      assert ((a + b') + [x])[..|a + b'|] == a + b';
      ScannedSkip(a, c, b');
    }
  }

  // ---------------------------------------------------------------------
  // filterNumberFromString: the method
  // ---------------------------------------------------------------------

  /** An entry of the source's `numArr`: a parsed digit, or the '.' itself. */
  datatype Cell = Digit(d: nat) | Dot

  function DigitCells(ds: seq<nat>): (cs: seq<Cell>)
    ensures |cs| == |ds|
    ensures forall k :: 0 <= k < |ds| ==> cs[k] == Digit(ds[k])
  {
    if |ds| == 0 then [] else DigitCells(ds[..|ds| - 1]) + [Digit(ds[|ds| - 1])]
  }

  lemma DigitCellsSnoc(ds: seq<nat>, d: nat)
    ensures DigitCells(ds + [d]) == DigitCells(ds) + [Digit(d)]
  {
    assert (ds + [d])[..|ds|] == ds;
  }

  /** The source's `numArr` once every character has been read: the whole
      digits followed by the first '.', if any, and the fraction digits. */
  function SortedCells(str: string): (numArr: seq<seq<Cell>>)
    ensures |numArr| == 2
  {
    [ DigitCells(WholeDigits(str)) + (if DotIndex(str) < |str| then [Dot] else []),
      DigitCells(FractionDigits(str)) ]
  }

  /** filterNumberFromString: the digit-sorting loop, then the place-value
      loop. */
  method FilterNumberFromString(str: string) returns (retNum: real)
    ensures retNum == NumberInString(str)
  {
    var numArr, wholeCount := SortDigits(str);
    retNum := AddUpCells(numArr, wholeCount, WholeDigits(str), FractionDigits(str), DotIndex(str) < |str|);
  }

  /** The variables of the first loop of filterNumberFromString. */
  datatype Scan = Scan(whole: seq<Cell>, fraction: seq<Cell>, isDotPushed: bool, wholeCount: nat)

  /** The first loop's variables after reading `p`, one character at a time. */
  function Scanned(p: string): Scan {
    if |p| == 0 then Scan([], [], false, 0)
    else
      var prev, c := Scanned(p[..|p| - 1]), p[|p| - 1];
      if IsNumber(c) then
        if prev.isDotPushed then prev.(fraction := prev.fraction + [Digit(ParseInt(c).value)])
        else prev.(whole := prev.whole + [Digit(ParseInt(c).value)], wholeCount := prev.wholeCount + 1)
      else if !prev.isDotPushed && c == '.' then prev.(whole := prev.whole + [Dot], isDotPushed := true)
      else prev
  }

  /** The first loop of filterNumberFromString: every digit goes to the whole
      part until the first '.' has been pushed, and to the fraction part
      after it; later dots and all other characters are skipped. */
  method SortDigits(str: string) returns (numArr: seq<seq<Cell>>, wholeCount: nat)
    ensures numArr == SortedCells(str)
    ensures wholeCount == |WholeDigits(str)|
  {
    numArr := [[], []];
    var isDotPushed := false;
    var fractionCount := 0;
    wholeCount := 0;
    var n := 0;
    while n < |str|
      invariant 0 <= n <= |str|
      invariant numArr == [Scanned(str[..n]).whole, Scanned(str[..n]).fraction]
      invariant isDotPushed == Scanned(str[..n]).isDotPushed
      invariant wholeCount == Scanned(str[..n]).wholeCount
    {
      var ch := str[n];
      assert str[..n + 1][..n] == str[..n];
      if IsNumber(ch) {
        numArr := numArr[(if isDotPushed then 1 else 0) := numArr[if isDotPushed then 1 else 0] + [Digit(ParseInt(ch).value)]];
        if isDotPushed {
          fractionCount := fractionCount + 1;
        } else {
          wholeCount := wholeCount + 1;
        }
      } else if !isDotPushed && ch == '.' {
        numArr := numArr[0 := numArr[0] + [Dot]];
        isDotPushed := true;
      }
      n := n + 1;
    }
    assert str[..|str|] == str;
    ScannedMeaning(str);
  }

  /** What the first loop computes: the cells of SortedCells, and the number
      of whole digits. */
  lemma {:induction false} ScannedMeaning(p: string)
    ensures [Scanned(p).whole, Scanned(p).fraction] == SortedCells(p)
    ensures Scanned(p).isDotPushed == (DotIndex(p) < |p|)
    ensures Scanned(p).wholeCount == |WholeDigits(p)|
  {
    if p != [] {
      var q, c := p[..|p| - 1], p[|p| - 1];
      assert p == q + [c];
      ScannedMeaning(q);
      if DotIndex(q) < |q| {
        ScanStepAfterDot(q, c);
        if IsNumber(c) {
          DigitCellsSnoc(FractionDigits(q), ParseInt(c).value);
          assert Scanned(p).fraction == DigitCells(FractionDigits(p)) == SortedCells(p)[1];
        } else {
          assert FractionDigits(p) == FractionDigits(q);
        }
      } else if c == '.' {
        ScanStepAtDot(q);
        assert FractionDigits(q) == [] && DotIndex(p) < |p|;
        assert Scanned(p).whole == Scanned(q).whole + [Dot];
        assert Scanned(p).whole == SortedCells(p)[0];
        assert Scanned(p).fraction == [] == SortedCells(p)[1];
      } else {
        ScanStepBeforeDot(q, c);
        if IsNumber(c) {
          DigitCellsSnoc(WholeDigits(q), ParseInt(c).value);
          assert Scanned(p).whole == DigitCells(WholeDigits(p)) == SortedCells(p)[0];
          assert Scanned(p).fraction == [] == SortedCells(p)[1];
        } else {
          assert WholeDigits(p) == WholeDigits(q);
        }
      }
    } else {
      assert p[..DotIndex(p)] == [];
      assert WholeDigits(p) == [] && FractionDigits(p) == [];
      assert DigitCells(WholeDigits(p)) == [] && DigitCells(FractionDigits(p)) == [];
      assert !(DotIndex(p) < |p|);
      assert Scanned(p).whole == [] && Scanned(p).fraction == [];
      assert SortedCells(p)[0] == [] && SortedCells(p)[1] == [];
    }
  }

  /** The second loop of filterNumberFromString: the whole digits' row is
      added up at place value until the '.' is met, which ends that part;
      the fraction digits' row is then added, the j-th divided by 10^j. */
  method AddUpCells(numArr: seq<seq<Cell>>, wholeCount: nat,
                    ghost whole: seq<nat>, ghost fraction: seq<nat>, ghost isDotPushed: bool)
    returns (retNum: real)
    requires numArr == [DigitCells(whole) + (if isDotPushed then [Dot] else []), DigitCells(fraction)]
    requires wholeCount == |whole|
    requires !isDotPushed ==> fraction == []
    ensures retNum == DecimalValue(whole) as real + Shifted(DecimalValue(fraction) as real, |fraction|)
  {
    retNum := 0.0;
    var isWholeNumber := true;
    var i := 0;
    while i < |numArr|
      invariant 0 <= i <= 2
      invariant i == 0 ==> retNum == 0.0 && isWholeNumber
      invariant i == 1 ==> retNum == DecimalValue(whole) as real && isWholeNumber == !isDotPushed
      invariant i == 2 ==> retNum == DecimalValue(whole) as real + Shifted(DecimalValue(fraction) as real, |fraction|)
    {
      if i == 0 {
        retNum, isWholeNumber := AddUpRow(numArr[0], wholeCount, retNum, isWholeNumber, whole, isDotPushed);
      } else {
        assert fraction != [] ==> !isWholeNumber;
        retNum, isWholeNumber := AddUpRow(numArr[1], wholeCount, retNum, isWholeNumber, fraction, false);
      }
      i := i + 1;
    }
  }

  /** The inner loop of the second loop, over one row of cells. In the whole
      part every digit is added at its place value among `wholeCount` digits
      and a '.' ends the row; otherwise the j-th digit is divided by 10^j. */
  method AddUpRow(row: seq<Cell>, wholeCount: nat, retNum0: real, isWholeNumber0: bool,
                  ghost digits: seq<nat>, ghost hasDot: bool)
    returns (retNum: real, isWholeNumber: bool)
    requires row == DigitCells(digits) + (if hasDot then [Dot] else [])
    requires isWholeNumber0 ==> wholeCount == |digits| || digits == []
    requires !isWholeNumber0 ==> !hasDot
    ensures isWholeNumber0 ==> retNum == retNum0 + DecimalValue(digits) as real && isWholeNumber == !hasDot
    ensures !isWholeNumber0 ==> retNum == retNum0 + Shifted(DecimalValue(digits) as real, |digits|)
                                && !isWholeNumber
  {
    retNum, isWholeNumber := retNum0, isWholeNumber0;
    var j := 1;
    while j <= |row|
      invariant 1 <= j <= |digits| + 1
      invariant isWholeNumber == isWholeNumber0
      invariant isWholeNumber ==> retNum == retNum0 + WholePart(digits, j - 1, wholeCount)
      invariant !isWholeNumber ==> retNum == retNum0 + FractionPart(digits, j - 1)
    {
      var cell := row[j - 1];
      if cell == Dot {
        isWholeNumber := false;
        break;
      }
      assert j - 1 < |digits| && cell.d == digits[j - 1];
      ghost var sum := retNum - retNum0;
      if isWholeNumber {
        retNum := retNum + Scaled(cell.d as real, wholeCount - j);
        assert retNum == retNum0 + WholePart(digits, j, wholeCount) by {
          WholeStep(digits, j - 1, wholeCount, sum);
        }
      } else {
        retNum := retNum + Shifted(cell.d as real, j);
        assert retNum == retNum0 + FractionPart(digits, j) by {
          FractionStep(digits, j - 1, sum);
        }
      }
      j := j + 1;
    }
    assert j - 1 == |digits|;
    if isWholeNumber0 {
      assert retNum == retNum0 + DecimalValue(digits) as real by {
        if digits != [] {
          WholePartAll(digits);
        }
      }
    } else {
      assert retNum == retNum0 + Shifted(DecimalValue(digits) as real, |digits|) by {
        FractionPartAll(digits);
      }
    }
  }

  /** The value of the first `k` whole digits, each at the place value it
      has among `count` whole digits. */
  function WholePart(ds: seq<nat>, k: nat, count: nat): real
    requires k <= count && k <= |ds|
  {
    Scaled(DecimalValue(ds[..k]) as real, count - k)
  }

  /** The value of the first `k` fraction digits. */
  function FractionPart(ds: seq<nat>, k: nat): real
    requires k <= |ds|
  {
    Shifted(DecimalValue(ds[..k]) as real, k)
  }

  lemma WholePartAll(ds: seq<nat>)
    ensures WholePart(ds, |ds|, |ds|) == DecimalValue(ds) as real
  {
    assert ds[..|ds|] == ds;
  }

  lemma FractionPartAll(ds: seq<nat>)
    ensures FractionPart(ds, |ds|) == Shifted(DecimalValue(ds) as real, |ds|)
  {
    assert ds[..|ds|] == ds;
  }

  // ---------------------------------------------------------------------
  // Lemmas behind the method
  // ---------------------------------------------------------------------

  /** Appending one character moves the first '.' only when there was none. */
  lemma {:induction false} DotIndexAppend(p: string, c: char)
    ensures DotIndex(p + [c]) == if DotIndex(p) < |p| then DotIndex(p) else if c == '.' then |p| else |p| + 1
  {
    if p != [] && p[0] != '.' {
      assert (p + [c])[1..] == p[1..] + [c];
      DotIndexAppend(p[1..], c);
    }
  }

  /** Digits of a string with one more character. */
  lemma DigitsSnoc(p: string, c: char)
    ensures Digits(p + [c]) == Digits(p) + (if IsNumber(c) then [ParseInt(c).value] else [])
  {
    assert (p + [c])[..|p|] == p;
  }

  /** One step of the first loop after the first '.': the new digit, if
      any, joins the fraction digits. */
  lemma ScanStepAfterDot(p: string, c: char)
    requires DotIndex(p) < |p|
    ensures DotIndex(p + [c]) == DotIndex(p) && WholeDigits(p + [c]) == WholeDigits(p)
    ensures FractionDigits(p + [c]) == FractionDigits(p) + (if IsNumber(c) then [ParseInt(c).value] else [])
  {
    assert DotIndex(p + [c]) == DotIndex(p) by {
      DotIndexAppend(p, c);
    }
    assert WholeDigits(p + [c]) == WholeDigits(p) by {
      DigitsOfPrefixSnoc(p, c, DotIndex(p));
    }
    DigitsOfSuffixSnoc(p, c, DotIndex(p));
  }

  lemma DigitsOfPrefixSnoc(p: string, c: char, k: nat)
    requires k <= |p|
    ensures Digits((p + [c])[..k]) == Digits(p[..k])
  {
    assert (p + [c])[..k] == p[..k];
  }

  lemma DigitsOfSuffixSnoc(p: string, c: char, k: nat)
    requires k < |p|
    ensures Digits((p + [c])[k + 1..]) == Digits(p[k + 1..]) + (if IsNumber(c) then [ParseInt(c).value] else [])
  {
    assert (p + [c])[k + 1..] == p[k + 1..] + [c];
    DigitsSnoc(p[k + 1..], c);
  }

  /** One step of the first loop that meets the first '.'. */
  lemma ScanStepAtDot(p: string)
    requires DotIndex(p) == |p|
    ensures DotIndex(p + ['.']) == |p| && WholeDigits(p + ['.']) == WholeDigits(p)
    ensures FractionDigits(p + ['.']) == []
  {
    DotIndexAppend(p, '.');
    var q := p + ['.'];
    assert q[..|p|] == p == p[..|p|];
    assert q[|p| + 1..] == [];
  }

  /** One step of the first loop before any '.': the new digit, if any,
      joins the whole digits. */
  lemma ScanStepBeforeDot(p: string, c: char)
    requires DotIndex(p) == |p| && c != '.'
    ensures DotIndex(p + [c]) == |p| + 1 && FractionDigits(p + [c]) == []
    ensures WholeDigits(p + [c]) == WholeDigits(p) + (if IsNumber(c) then [ParseInt(c).value] else [])
  {
    DotIndexAppend(p, c);
    var q := p + [c];
    assert q[..|q|] == q;
    assert p[..|p|] == p;
    DigitsSnoc(p, c);
  }

  /** Adding the next whole digit at its place value. */
  lemma WholeStep(ds: seq<nat>, k: nat, count: nat, sum: real)
    requires k < count && k < |ds|
    requires sum == WholePart(ds, k, count)
    ensures sum + Scaled(ds[k] as real, count - (k + 1)) == WholePart(ds, k + 1, count)
  {
    assert ds[..k + 1][..k] == ds[..k];
    ScaledStep(DecimalValue(ds[..k]) as real, ds[k] as real, count - (k + 1));
  }

  lemma {:induction false} ScaledStep(a: real, d: real, n: nat)
    ensures Scaled(a, n + 1) + Scaled(d, n) == Scaled(10.0 * a + d, n)
  {
    if n > 0 {
      ScaledStep(a, d, n - 1);
    }
  }

  /** Adding the next fraction digit divided by ten to its position. */
  lemma FractionStep(ds: seq<nat>, k: nat, sum: real)
    requires k < |ds|
    requires sum == FractionPart(ds, k)
    ensures sum + Shifted(ds[k] as real, k + 1) == FractionPart(ds, k + 1)
  {
    assert ds[..k + 1][..k] == ds[..k];
    ShiftedStep(DecimalValue(ds[..k]) as real, ds[k] as real, k);
  }

  lemma {:induction false} ShiftedStep(a: real, d: real, n: nat)
    ensures Shifted(a, n) + Shifted(d, n + 1) == Shifted(10.0 * a + d, n + 1)
  {
    if n > 0 {
      ShiftedStep(a, d, n - 1);
    }
  }
}
