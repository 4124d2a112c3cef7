/** The few pieces of JavaScript's Array behaviour the model relies on:
    an array object that can be changed in place, and `slice`. */
module JsArrays {

  /** A JavaScript array object. Whoever holds a reference sees in-place
      changes such as `push`. */
  class JsArray<T> {
    var items: seq<T>

    constructor (items: seq<T>)
      ensures this.items == items
    {
      this.items := items;
    }

    /** `Array.prototype.push` with one argument. */
    method Push(x: T)
      modifies this
      ensures items == old(items) + [x]
    {
      items := items + [x];
    }
  }

  /** How `slice` resolves one of its index arguments against a length:
      a negative index counts back from the end, and both ends are clamped. */
  function RelativeIndex(k: int, len: nat): (r: nat)
    ensures r <= len
  {
    if k < 0 then (if len + k < 0 then 0 else len + k)
    else if k > len then len
    else k
  }

  /** `s.slice(start, end)`. */
  function Slice<T>(s: seq<T>, start: int, end: int): (r: seq<T>)
    ensures 0 <= start <= end <= |s| ==> r == s[start..end]
    ensures |r| <= |s|
  {
    var from, to := RelativeIndex(start, |s|), RelativeIndex(end, |s|);
    if to <= from then [] else s[from..to]
  }

  /** `s.slice(start)`: everything from `start` on. */
  function SliceFrom<T>(s: seq<T>, start: int): (r: seq<T>)
    ensures 0 <= start <= |s| ==> r == s[start..]
    ensures start > |s| ==> r == []
  {
    Slice(s, start, |s|)
  }
}
