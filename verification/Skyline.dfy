/** The skyline of a rectangle packer as a value.

A skyline is the list of active nodes from the leftmost one to the sentinel. Node `k` covers the
columns from its own `x` up to the `x` of node `k+1`, all at height `y`. This module gives the
skyline its meaning, a height for every column, and proves what the packer's two walks over the
list do to that meaning: measuring a span (`MinY`) and laying a rectangle on it (`Place`).
*/
module Skyline {
  import opened Columns

  datatype Seg = Seg(x: int, y: int)

  const SENTINEL_Y := 0x4000_0000

  // ----- Shape -----

  ghost predicate Sorted(sky: seq<Seg>) {
    forall i, j :: 0 <= i < j < |sky| ==> sky[i].x < sky[j].x
  }

  /** At least one node and the sentinel, starting at column 0, strictly increasing. */
  ghost predicate Chain(sky: seq<Seg>) {
    |sky| >= 2 && sky[0].x == 0 && Sorted(sky)
  }

  function End(sky: seq<Seg>): int
    requires |sky| > 0
  {
    sky[|sky| - 1].x
  }

  ghost predicate WellFormed(sky: seq<Seg>, width: int, height: int) {
    && Chain(sky)
    && sky[|sky| - 1] == Seg(width, SENTINEL_Y)
    && forall i :: 0 <= i < |sky| - 1 ==> 0 <= sky[i].y <= height
  }

  lemma NodesOrdered(sky: seq<Seg>, i: nat, j: nat)
    requires Sorted(sky) && i < j < |sky|
    ensures sky[i].x < sky[j].x <= End(sky)
  {
  }

  // ----- Columns -----

  /** Node `k` covers column `c`. */
  ghost predicate Covers(sky: seq<Seg>, k: nat, c: int) {
    k + 1 < |sky| && sky[k].x <= c < sky[k + 1].x
  }

  ghost function CoverFrom(sky: seq<Seg>, c: int, i: nat): (k: nat)
    requires |sky| >= 2 && i + 1 < |sky| && sky[i].x <= c < End(sky)
    ensures Covers(sky, k, c)
    decreases |sky| - i
  {
    if c < sky[i + 1].x then i else CoverFrom(sky, c, i + 1)
  }

  /** The node that covers column `c`. */
  ghost function Cover(sky: seq<Seg>, c: int): (k: nat)
    requires Chain(sky) && 0 <= c < End(sky)
    ensures Covers(sky, k, c)
  {
    CoverFrom(sky, c, 0)
  }

  lemma StartsByCover(sky: seq<Seg>, m: nat, k: nat, c: int)
    requires Sorted(sky) && Covers(sky, k, c) && m < |sky| && sky[m].x <= c
    ensures m <= k
  {
  }

  lemma CoverUnique(sky: seq<Seg>, c: int, k: nat)
    requires Chain(sky) && 0 <= c < End(sky) && Covers(sky, k, c)
    ensures Cover(sky, c) == k
  {
    assert forall a, b :: 0 <= a <= b < |sky| ==> sky[a].x <= sky[b].x;
  }

  /** The height of every column, left to right. */
  ghost function Heights(sky: seq<Seg>): (hs: seq<int>)
    requires Chain(sky)
    ensures |hs| == End(sky)
  {
    seq(End(sky), c requires 0 <= c < End(sky) => sky[Cover(sky, c)].y)
  }

  /** `hs` gives every column the height of the node that covers it. */
  ghost predicate Profile(sky: seq<Seg>, hs: seq<int>) {
    && Chain(sky) && |hs| == End(sky)
    && forall k: nat, c :: Covers(sky, k, c) ==> 0 <= c < |hs| && hs[c] == sky[k].y
  }

  lemma HeightsProfile(sky: seq<Seg>)
    requires Chain(sky)
    ensures Profile(sky, Heights(sky))
  {
    forall k: nat, c | Covers(sky, k, c) ensures 0 <= c < End(sky) && Heights(sky)[c] == sky[k].y {
      assert forall j :: 0 <= j < |sky| ==> 0 <= sky[j].x <= End(sky);
      CoverUnique(sky, c, k);
    }
  }

  lemma HeightAt(sky: seq<Seg>, k: nat, c: int)
    requires Chain(sky) && Covers(sky, k, c)
    ensures 0 <= c < End(sky) && Heights(sky)[c] == sky[k].y
  {
    HeightsProfile(sky);
  }

  lemma NodeFlat(sky: seq<Seg>, hs: seq<int>, k: nat)
    requires Profile(sky, hs) && k + 1 < |sky|
    ensures 0 <= sky[k].x < sky[k + 1].x <= |hs|
    ensures Flat(hs, sky[k].x, sky[k + 1].x, sky[k].y)
  {
    assert forall j :: 0 <= j < |sky| ==> 0 <= sky[j].x <= End(sky);
    assert forall c :: sky[k].x <= c < sky[k + 1].x ==> Covers(sky, k, c);
  }

  lemma HeightsBounds(sky: seq<Seg>, width: int, height: int)
    requires WellFormed(sky, width, height)
    ensures forall c :: 0 <= c < width ==> 0 <= Heights(sky)[c] <= height
  {
  }

  lemma RestBounds(sky: seq<Seg>, lo: int, hi: int, width: int, height: int)
    requires WellFormed(sky, width, height) && 0 <= lo < hi <= width
    ensures 0 <= Rest(Heights(sky), lo, hi) <= height
  {
    var hs := Heights(sky);
    HeightsBounds(sky, width, height);
    var c :| lo <= c < hi && hs[c] == Rest(hs, lo, hi);
  }

  // ----- Measuring a span -----

  /** What the packer's walk has accumulated: the height found, the width visited, the area wasted. */
  datatype Walk = Walk(minY: int, visited: int, waste: int)

  /** One step of the walk, over node `k`. */
  function StepOver(sky: seq<Seg>, k: nat, x0: int, width: int, a: Walk): Walk
    requires k + 1 < |sky|
  {
    if sky[k].y > a.minY then
      Walk(sky[k].y, a.visited + sky[k + 1].x - Max(sky[k].x, x0), a.waste + a.visited * (sky[k].y - a.minY))
    else
      var whole := sky[k + 1].x - sky[k].x;
      var under := if whole + a.visited > width then width - a.visited else whole;
      Walk(a.minY, a.visited + under, a.waste + under * (a.minY - sky[k].y))
  }

  /** The walk from node `k` on, over the columns `[x0, x0 + width)`. */
  function WalkFrom(sky: seq<Seg>, k: nat, x0: int, width: int, a: Walk): Walk
    requires k < |sky|
    decreases |sky| - k
  {
    if sky[k].x >= x0 + width || k + 1 == |sky| then a
    else WalkFrom(sky, k + 1, x0, width, StepOver(sky, k, x0, width, a))
  }

  /** What the packer measures for a rectangle of `width` columns at `x0` in node `k`. */
  function MinY(sky: seq<Seg>, k: nat, x0: int, width: int): Walk
    requires k < |sky|
  {
    WalkFrom(sky, k, x0, width, Walk(0, 0, 0))
  }

  /** A span of `width` columns that starts at `x0` inside node `k`. */
  ghost predicate Span(sky: seq<Seg>, k: nat, x0: int, width: int) {
    && Chain(sky) && (forall i :: 0 <= i < |sky| - 1 ==> 0 <= sky[i].y)
    && 0 < width && x0 + width <= End(sky) && Covers(sky, k, x0)
  }

  /** The first column of the span that the walk has not seen when it is at node `k`. */
  function Reached(sky: seq<Seg>, k: nat, x0: int, width: int): int
    requires k < |sky|
  {
    Min(Max(sky[k].x, x0), x0 + width)
  }

  /** The height found so far: that of the columns `[x0, p)`, and 0 before the first one. */
  ghost function RestSoFar(hs: seq<int>, x0: int, p: int): int
    requires 0 <= x0 <= p <= |hs|
  {
    if x0 == p then 0 else Rest(hs, x0, p)
  }

  /** The walk is at node `k`, which reaches into the span. */
  ghost predicate Walking(sky: seq<Seg>, hs: seq<int>, k: nat, x0: int, width: int) {
    && Profile(sky, hs) && k < |sky| && 0 <= x0 && 0 < width && x0 + width <= |hs|
    && (sky[k].x <= x0 ==> Covers(sky, k, x0))
  }

  lemma WalkStep(sky: seq<Seg>, hs: seq<int>, k: nat, x0: int, width: int)
    requires Walking(sky, hs, k, x0, width) && sky[k].x < x0 + width
    ensures Walking(sky, hs, k + 1, x0, width) && sky[k].x < sky[k + 1].x && x0 < sky[k + 1].x
    ensures Reached(sky, k, x0, width) < Reached(sky, k + 1, x0, width) <= |hs|
    ensures Flat(hs, Reached(sky, k, x0, width), Reached(sky, k + 1, x0, width), sky[k].y)
  {
    assert k + 1 < |sky|;
    NodeFlat(sky, hs, k);
  }

  lemma {:induction false} WalkIsRest(sky: seq<Seg>, hs: seq<int>, k: nat, x0: int, width: int, a: Walk)
    requires Walking(sky, hs, k, x0, width) && (forall i :: 0 <= i < |sky| - 1 ==> 0 <= sky[i].y)
    requires 0 <= a.minY == RestSoFar(hs, x0, Reached(sky, k, x0, width))
    ensures WalkFrom(sky, k, x0, width, a).minY == Rest(hs, x0, x0 + width)
    decreases |sky| - k
  {
    if sky[k].x < x0 + width {
      WalkStep(sky, hs, k, x0, width);
      var p, q := Reached(sky, k, x0, width), Reached(sky, k + 1, x0, width);
      RestFlat(hs, x0, p, q, sky[k].y);
      WalkIsRest(sky, hs, k + 1, x0, width, StepOver(sky, k, x0, width, a));
    }
  }

  /** The reported height is the resting height of the span, wherever the span starts in its node. */
  lemma MinYIsRest(sky: seq<Seg>, k: nat, x0: int, width: int)
    requires Span(sky, k, x0, width)
    ensures 0 <= x0 && MinY(sky, k, x0, width).minY == Rest(Heights(sky), x0, x0 + width)
  {
    HeightsProfile(sky);
    HeightAt(sky, k, x0);
    WalkIsRest(sky, Heights(sky), k, x0, width, Walk(0, 0, 0));
  }

  lemma StepAdds(sky: seq<Seg>, k: nat, x0: int, width: int, a: Walk)
    requires k + 1 < |sky| && 0 < width && sky[k].x < sky[k + 1].x
    requires sky[k].x < x0 ==> a.minY < sky[k].y
    requires sky[k].x < x0 + width && x0 < sky[k + 1].x && a.visited == Reached(sky, k, x0, width) - x0
    ensures var b, p, q := StepOver(sky, k, x0, width, a), Reached(sky, k, x0, width), Reached(sky, k + 1, x0, width);
            && (sky[k + 1].x < x0 + width ==> b.visited == q - x0)
            && b.minY == Max(a.minY, sky[k].y)
            && b.waste == a.waste + if sky[k].y > a.minY then (p - x0) * (sky[k].y - a.minY)
              else (q - p) * (a.minY - sky[k].y)
  {
  }

  lemma GapStep(hs: seq<int>, x0: int, p: int, q: int, y: int, minY: int)
    requires 0 <= x0 <= p <= q <= |hs| && Flat(hs, p, q, y)
    ensures Gap(hs, x0, q, Max(minY, y)) ==
            Gap(hs, x0, p, minY) + if y > minY then (p - x0) * (y - minY) else (q - p) * (minY - y)
  {
    if y > minY {
      GapRaise(hs, x0, p, minY, y);
      GapFlat(hs, x0, p, q, y, y);
    } else {
      GapFlat(hs, x0, p, q, y, minY);
    }
  }

  lemma {:induction false} WalkWaste(sky: seq<Seg>, hs: seq<int>, k: nat, x0: int, width: int, a: Walk)
    requires Walking(sky, hs, k, x0, width)
    requires sky[k].x < x0 ==> a.minY < sky[k].y
    requires sky[k].x < x0 + width ==> a.visited == Reached(sky, k, x0, width) - x0
    requires a.waste == Gap(hs, x0, Reached(sky, k, x0, width), a.minY)
    ensures var r := WalkFrom(sky, k, x0, width, a);
            r.waste == Gap(hs, x0, x0 + width, r.minY)
    decreases |sky| - k
  {
    if sky[k].x < x0 + width {
      WalkStep(sky, hs, k, x0, width);
      StepAdds(sky, k, x0, width, a);
      GapStep(hs, x0, Reached(sky, k, x0, width), Reached(sky, k + 1, x0, width), sky[k].y, a.minY);
      WalkWaste(sky, hs, k + 1, x0, width, StepOver(sky, k, x0, width, a));
    }
  }

  /** The reported waste is the gap under the rectangle, for a span that starts at a node or inside a
      node above the floor. */
  lemma MinYWasteIsGap(sky: seq<Seg>, k: nat, x0: int, width: int)
    requires Span(sky, k, x0, width)
    requires x0 == sky[k].x || sky[k].y > 0
    ensures 0 <= x0 && MinY(sky, k, x0, width).waste ==
            Gap(Heights(sky), x0, x0 + width, Rest(Heights(sky), x0, x0 + width))
  {
    HeightsProfile(sky);
    HeightAt(sky, k, x0);
    MinYIsRest(sky, k, x0, width);
    WalkWaste(sky, Heights(sky), k, x0, width, Walk(0, 0, 0));
  }

  // ----- Laying a rectangle on the skyline -----

  /** The first node from `j` on whose right end lies behind column `right`, or the sentinel. */
  function Skip(sky: seq<Seg>, j: nat, right: int): (k: nat)
    requires j < |sky|
    ensures j <= k < |sky|
    ensures k + 1 == |sky| || right < sky[k + 1].x
    ensures j < k ==> sky[k].x <= right
    decreases |sky| - j
  {
    if j + 1 < |sky| && sky[j + 1].x <= right then Skip(sky, j + 1, right) else j
  }

  /** Number of nodes in front of the new node when it lands at column `x` in node `i`. */
  function Kept(sky: seq<Seg>, i: nat, x: int): (k: nat)
    requires i < |sky|
    ensures i <= k <= i + 1
  {
    if sky[i].x < x then i + 1 else i
  }

  /** The skyline after a rectangle of width `w` whose top edge is at `top` lands at column `x` in node `i`. */
  function Place(sky: seq<Seg>, i: nat, x: int, w: int, top: int): seq<Seg>
    requires i + 1 < |sky|
  {
    var kept := Kept(sky, i, x);
    var j := Skip(sky, kept, x + w);
    sky[..kept] + [Seg(x, top), Seg(Max(sky[j].x, x + w), sky[j].y)] + sky[j + 1..]
  }

  ghost predicate Lands(sky: seq<Seg>, width: int, height: int, i: nat, x: int, w: int, top: int) {
    && WellFormed(sky, width, height) && 0 <= top <= height
    && Covers(sky, i, x) && 0 < w && x + w <= width
  }

  lemma {:induction false} AdjacentSorted(sky: seq<Seg>)
    requires forall k :: 0 < k < |sky| ==> sky[k - 1].x < sky[k].x
    ensures Sorted(sky)
  {
    if |sky| > 1 {
      var n := |sky| - 1;
      AdjacentSorted(sky[..n]);
      assert sky[n - 1].x < sky[n].x;
      forall i, j | 0 <= i < j < |sky| ensures sky[i].x < sky[j].x {
        assert j < n ==> sky[..n][i].x < sky[..n][j].x;
        assert i < n - 1 ==> sky[..n][i].x < sky[..n][n - 1].x;
      }
    }
  }

  lemma PlaceAdjacent(sky: seq<Seg>, i: nat, x: int, w: int, top: int, k: int)
    requires Sorted(sky) && Covers(sky, i, x) && 0 < w && 0 < k < |Place(sky, i, x, w, top)|
    ensures Place(sky, i, x, w, top)[k - 1].x < Place(sky, i, x, w, top)[k].x
  {
    var kept := Kept(sky, i, x);
    var j := Skip(sky, kept, x + w);
    assert k == kept ==> sky[k - 1].x < x;
  }

  lemma PlaceSorted(sky: seq<Seg>, i: nat, x: int, w: int, top: int)
    requires Sorted(sky) && Covers(sky, i, x) && 0 < w
    ensures Sorted(Place(sky, i, x, w, top))
  {
    var sky' := Place(sky, i, x, w, top);
    forall k | 0 < k < |sky'| ensures sky'[k - 1].x < sky'[k].x {
      PlaceAdjacent(sky, i, x, w, top, k);
    }
    AdjacentSorted(sky');
  }

  lemma PlaceBounded(sky: seq<Seg>, height: int, i: nat, x: int, w: int, top: int)
    requires 0 <= top <= height && i + 1 < |sky|
    requires forall k :: 0 <= k < |sky| - 1 ==> 0 <= sky[k].y <= height
    ensures var sky' := Place(sky, i, x, w, top);
            && |sky'| <= |sky| + 1 && sky'[|sky'| - 1].y == sky[|sky| - 1].y
            && forall k :: 0 <= k < |sky'| - 1 ==> 0 <= sky'[k].y <= height
  {
  }

  lemma PlaceWellFormed(sky: seq<Seg>, width: int, height: int, i: nat, x: int, w: int, top: int)
    requires Lands(sky, width, height, i, x, w, top)
    ensures WellFormed(Place(sky, i, x, w, top), width, height)
    ensures |Place(sky, i, x, w, top)| <= |sky| + 1
  {
    PlaceBounded(sky, height, i, x, w, top);
    PlaceSorted(sky, i, x, w, top);
    var sky' := Place(sky, i, x, w, top);
    assert i > 0 ==> sky'[0] == sky[0];
    var j := Skip(sky, Kept(sky, i, x), x + w);
    assert j + 1 < |sky| ==> sky'[|sky'| - 1] == sky[|sky| - 1];
  }

  /** Where the new skyline differs from the old one: exactly on the new rectangle, and on what lies
      between it and the next old node when it starts inside a node and ends before that node does. */
  lemma PlaceHeight(sky: seq<Seg>, width: int, height: int, i: nat, x: int, w: int, top: int, c: int)
    requires Lands(sky, width, height, i, x, w, top) && 0 <= c < width
    ensures WellFormed(Place(sky, i, x, w, top), width, height)
    ensures Heights(Place(sky, i, x, w, top))[c] ==
            if x <= c < x + w || (sky[i].x < x <= c < sky[i + 1].x) then top else Heights(sky)[c]
  {
    hide Heights, Sorted;
    PlaceWellFormed(sky, width, height, i, x, w, top);
    var kept := Kept(sky, i, x);
    var j := Skip(sky, kept, x + w);
    var sky' := Place(sky, i, x, w, top);
    var k := Cover(sky, c);
    HeightAt(sky, k, c);
    if c < x {
      StartsByCover(sky, k, i, x);
      assert sky'[k] == sky[k] && (k + 1 < kept ==> sky'[k + 1] == sky[k + 1]);
      HeightAt(sky', k, c);
    } else if c < sky'[kept + 1].x {
      HeightAt(sky', kept, c);
      assert c >= x + w ==> j == kept == i + 1;
    } else {
      StartsByCover(sky, j, k, c);
      if i + 1 < k { NodesOrdered(sky, i + 1, k); }
      var k' := k - j + kept + 1;
      assert k > j ==> sky'[k'] == sky[k];
      assert sky'[k' + 1] == sky[k + 1];
      HeightAt(sky', k', c);
    }
  }
}
