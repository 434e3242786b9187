/** Column heights: what a skyline means, one height per integer column. */
module Columns {

  function Max(a: int, b: int): int { if a < b then b else a }

  function Min(a: int, b: int): int { if a < b then a else b }

  ghost predicate Flat(hs: seq<int>, lo: int, hi: int, y: int)
    requires 0 <= lo && hi <= |hs|
  {
    forall c :: lo <= c < hi ==> hs[c] == y
  }

  /** The lowest height at which a rectangle over the columns `[lo, hi)` can rest. */
  ghost function Rest(hs: seq<int>, lo: int, hi: int): (y: int)
    requires 0 <= lo < hi <= |hs|
    ensures forall c :: lo <= c < hi ==> hs[c] <= y
    ensures exists c :: lo <= c < hi && hs[c] == y
    decreases hi
  {
    if hi == lo + 1 then hs[lo] else Max(Rest(hs, lo, hi - 1), hs[hi - 1])
  }

  lemma RestWithin(hs: seq<int>, lo: int, hi: int, lo': int, hi': int)
    requires 0 <= lo <= lo' < hi' <= hi <= |hs|
    ensures Rest(hs, lo', hi') <= Rest(hs, lo, hi)
  {
    var c :| lo' <= c < hi' && hs[c] == Rest(hs, lo', hi');
    assert hs[c] <= Rest(hs, lo, hi);
  }

  /** Extending a span over columns of one height raises it at most to that height. */
  lemma RestFlat(hs: seq<int>, lo: int, mid: int, hi: int, y: int)
    requires 0 <= lo <= mid < hi <= |hs| && Flat(hs, mid, hi, y)
    ensures Rest(hs, lo, hi) == if lo == mid then y else Max(Rest(hs, lo, mid), y)
  {
    var c :| lo <= c < hi && hs[c] == Rest(hs, lo, hi);
    assert hs[mid] == y;
    if lo < mid {
      RestWithin(hs, lo, hi, lo, mid);
      if c < mid { assert hs[c] <= Rest(hs, lo, mid); }
    }
  }

  /** The area between the columns `[lo, hi)` and a rectangle resting on them at height `y`. */
  ghost function Gap(hs: seq<int>, lo: int, hi: int, y: int): int
    requires 0 <= lo <= hi <= |hs|
    decreases hi
  {
    if lo == hi then 0 else Gap(hs, lo, hi - 1, y) + (y - hs[hi - 1])
  }

  /** Raising the rectangle adds one unit per column and step. */
  lemma {:induction false} GapRaise(hs: seq<int>, lo: int, hi: int, y: int, y': int)
    requires 0 <= lo <= hi <= |hs|
    ensures Gap(hs, lo, hi, y') == Gap(hs, lo, hi, y) + (hi - lo) * (y' - y)
    decreases hi
  {
    if lo < hi {
      GapRaise(hs, lo, hi - 1, y, y');
      assert (hi - lo) * (y' - y) == (hi - 1 - lo) * (y' - y) + (y' - y);
    }
  }

  /** Over columns of one height the gap grows by a plain rectangle. */
  lemma {:induction false} GapFlat(hs: seq<int>, lo: int, mid: int, hi: int, y: int, top: int)
    requires 0 <= lo <= mid <= hi <= |hs| && Flat(hs, mid, hi, y)
    ensures Gap(hs, lo, hi, top) == Gap(hs, lo, mid, top) + (hi - mid) * (top - y)
    decreases hi
  {
    if mid < hi {
      GapFlat(hs, lo, mid, hi - 1, y, top);
      assert (hi - mid) * (top - y) == (hi - 1 - mid) * (top - y) + (top - y);
    }
  }

  lemma {:induction false} GapFront(hs: seq<int>, lo: int, hi: int, y: int)
    requires 0 <= lo < hi <= |hs|
    ensures Gap(hs, lo, hi, y) == (y - hs[lo]) + Gap(hs, lo + 1, hi, y)
    decreases hi
  {
    if lo + 1 < hi { GapFront(hs, lo, hi - 1, y); }
  }

  /** Moving a span by one column exchanges the column it leaves for the one it takes in. */
  lemma GapSlides(hs: seq<int>, lo: int, hi: int, y: int)
    requires 0 <= lo < hi < |hs|
    ensures Gap(hs, lo + 1, hi + 1, y) == Gap(hs, lo, hi, y) + hs[lo] - hs[hi]
  {
    GapFront(hs, lo, hi, y);
  }

  lemma {:induction false} GapIsNatural(hs: seq<int>, lo: int, hi: int, y: int)
    requires 0 <= lo <= hi <= |hs| && forall c :: lo <= c < hi ==> hs[c] <= y
    ensures 0 <= Gap(hs, lo, hi, y)
    decreases hi
  {
    if lo < hi { GapIsNatural(hs, lo, hi - 1, y); }
  }
}
