/** The choice of a position, said in column heights alone.

Of all integer columns, aligned with a node or not, the packer picks the lowest one, of the lowest ones
(best fit) the one with the least area wasted under the rectangle, and of those the leftmost. This holds for
the skylines that runs reach, of which only the last node can be on the floor.
*/
module Optimal {
  import opened Basics
  import opened Columns
  import opened Rounding
  import opened Skyline
  import opened Waste
  import opened Packing

  // ----- Sliding to an aligned column -----

  ghost predicate Aligned(sky: seq<Seg>, w: int, x: int) {
    LeftAligned(sky, x) || RightAligned(sky, w, x)
  }

  /** Around the ends of a span that no node is aligned with the columns are level. */
  lemma LevelEnds(sky: seq<Seg>, w: int, x: int)
    requires Chain(sky) && 0 < w && 0 <= x && x + w <= End(sky) && !Aligned(sky, w, x)
    ensures 0 < x && x + w < End(sky)
    ensures var hs := Heights(sky); hs[x - 1] == hs[x] && hs[x + w - 1] == hs[x + w]
  {
    hide Heights;
    var k, m := Cover(sky, x), Cover(sky, x + w - 1);
    assert sky[k].x != x && sky[m + 1].x != x + w && sky[|sky| - 1].x != x + w;
    HeightAt(sky, k, x);
    HeightAt(sky, k, x - 1);
    HeightAt(sky, m, x + w - 1);
    HeightAt(sky, m, x + w);
  }

  lemma RestAtMost(hs: seq<int>, lo: int, hi: int, y: int)
    requires 0 <= lo < hi <= |hs|
    ensures Rest(hs, lo, hi) <= y <==> forall c :: lo <= c < hi ==> hs[c] <= y
  {
  }

  lemma StepsLeft(sky: seq<Seg>, w: int, x: int, y: int)
    requires Chain(sky) && 0 < w && 0 <= x && x + w <= End(sky) && Rest(Heights(sky), x, x + w) <= y
    requires !Aligned(sky, w, x)
    ensures 0 < x && x + w < End(sky) && Heights(sky)[x - 1] == Heights(sky)[x]
    ensures Rest(Heights(sky), x - 1, x - 1 + w) <= y
    ensures Gap(Heights(sky), x - 1, x - 1 + w, y) ==
            Gap(Heights(sky), x, x + w, y) + Heights(sky)[x + w - 1] - Heights(sky)[x]
  {
    hide Rest, Heights, Aligned;
    LevelEnds(sky, w, x);
    var hs := Heights(sky);
    RestAtMost(hs, x, x + w, y);
    RestAtMost(hs, x - 1, x - 1 + w, y);
    GapSlides(hs, x - 1, x - 1 + w, y);
  }

  /** As long as the right end is no higher than the left one, sliding left wastes no more. */
  lemma {:induction false} SlidesLeft(sky: seq<Seg>, w: int, x: int, y: int) returns (x': int)
    requires Chain(sky) && 0 < w && 0 <= x && x + w <= End(sky) && Rest(Heights(sky), x, x + w) <= y
    requires Heights(sky)[x + w - 1] <= Heights(sky)[x]
    ensures 0 <= x' <= x && Aligned(sky, w, x') && Rest(Heights(sky), x', x' + w) <= y
    ensures Gap(Heights(sky), x', x' + w, y) <= Gap(Heights(sky), x, x + w, y)
    decreases x
  {
    hide Rest, Heights, Aligned, Gap;
    x' := x;
    if !Aligned(sky, w, x) {
      StepsLeft(sky, w, x, y);
      assert Heights(sky)[x + w - 1] <= Heights(sky)[x - 1];
      x' := x - 1;
      if !Aligned(sky, w, x - 1) {
        LevelEnds(sky, w, x - 1);
        x' := SlidesLeft(sky, w, x - 1, y);
      }
    }
  }

  lemma StepsRight(sky: seq<Seg>, w: int, x: int, y: int)
    requires Chain(sky) && 0 < w && 0 <= x && x + w <= End(sky) && Rest(Heights(sky), x, x + w) <= y
    requires !Aligned(sky, w, x)
    ensures 0 < x && x + w < End(sky) && Heights(sky)[x + w - 1] == Heights(sky)[x + w]
    ensures Rest(Heights(sky), x + 1, x + 1 + w) <= y
    ensures Gap(Heights(sky), x + 1, x + 1 + w, y) ==
            Gap(Heights(sky), x, x + w, y) + Heights(sky)[x] - Heights(sky)[x + w - 1]
  {
    hide Rest, Heights, Aligned;
    LevelEnds(sky, w, x);
    var hs := Heights(sky);
    RestAtMost(hs, x, x + w, y);
    RestAtMost(hs, x + 1, x + 1 + w, y);
    GapSlides(hs, x, x + w, y);
  }

  /** When the right end is higher, sliding right wastes less. */
  lemma {:induction false} SlidesRight(sky: seq<Seg>, w: int, x: int, y: int) returns (x': int)
    requires Chain(sky) && 0 < w && 0 <= x && x + w <= End(sky) && Rest(Heights(sky), x, x + w) <= y
    requires !Aligned(sky, w, x) && Heights(sky)[x] < Heights(sky)[x + w - 1]
    ensures x < x' && x' + w <= End(sky) && Aligned(sky, w, x') && Rest(Heights(sky), x', x' + w) <= y
    ensures Gap(Heights(sky), x', x' + w, y) < Gap(Heights(sky), x, x + w, y)
    decreases End(sky) - x
  {
    hide Rest, Heights, Aligned, Gap;
    StepsRight(sky, w, x, y);
    x' := x + 1;
    if !Aligned(sky, w, x + 1) {
      LevelEnds(sky, w, x + 1);
      x' := SlidesRight(sky, w, x + 1, y);
    }
  }

  /** Every column is matched by an aligned one, no higher and with less waste, or no more and further left. */
  lemma SlidesAligned(sky: seq<Seg>, w: int, x: int, y: int) returns (x': int)
    requires Chain(sky) && 0 < w && 0 <= x && x + w <= End(sky) && Rest(Heights(sky), x, x + w) <= y
    ensures 0 <= x' && x' + w <= End(sky) && Aligned(sky, w, x') && Rest(Heights(sky), x', x' + w) <= y
    ensures var gap, gap' := Gap(Heights(sky), x, x + w, y), Gap(Heights(sky), x', x' + w, y);
            gap' < gap || (gap' <= gap && x' <= x)
  {
    hide Rest, Heights, Gap, Aligned;
    if Aligned(sky, w, x) {
      x' := x;
    } else if Heights(sky)[x + w - 1] <= Heights(sky)[x] {
      x' := SlidesLeft(sky, w, x, y);
    } else {
      x' := SlidesRight(sky, w, x, y);
    }
  }

  // ----- The least column -----

  /** What a rectangle of `w` columns at `x` really rests on and wastes. */
  ghost function Resting(p: Packer, w: int, x: int): Walk
    requires Valid(p) && 0 < w && 0 <= x && x + w <= p.width
  {
    var y := Rest(Heights(p.sky), x, x + w);
    Walk(y, w, Gap(Heights(p.sky), x, x + w, y))
  }

  /** Any column of the target; best fit asks that the rectangle is not too high there. */
  ghost predicate Usable(p: Packer, w: int, h: int, x: int)
    requires Valid(p) && 0 < w
  {
    0 <= x && x + w <= p.width && (p.heuristic == BestFit ==> Resting(p, w, x).minY + h <= p.height)
  }

  /** Of all usable columns `x` comes first: by height, then (best fit) by waste, then from the left. */
  ghost predicate IsLeast(p: Packer, w: int, h: int, x: int)
    requires Valid(p) && 0 < w
  {
    && Usable(p, w, h, x)
    && forall x' :: Usable(p, w, h, x') && x' != x ==> Better(p.heuristic, Resting(p, w, x), x, Resting(p, w, x'), x')
  }

  /** On a reached skyline the packer measures what is there. */
  lemma MeasureIsResting(p: Packer, w: int, x: int)
    requires Valid(p) && FloorLast(p.sky) && 0 < w && 0 <= x && x + w <= p.width
    ensures Measure(p, w, x).minY == Resting(p, w, x).minY && Measure(p, w, x).waste == Resting(p, w, x).waste
  {
    WasteIsGap(p.sky, Cover(p.sky, x), x, w);
  }

  /** Every usable column is beaten, or matched from the left, by one that the heuristic compares. */
  lemma ComparedAtLeast(p: Packer, w: int, h: int, x: int) returns (x': int)
    requires Valid(p) && FloorLast(p.sky) && 0 < w && Usable(p, w, h, x)
    ensures Compared(p, w, h, x') && Usable(p, w, h, x')
    ensures x' == x || Better(p.heuristic, Resting(p, w, x'), x', Resting(p, w, x), x)
  {
    hide Rest, Heights, Gap, Measure;
    var sky, y := p.sky, Rest(Heights(p.sky), x, x + w);
    if p.heuristic == BottomLeft {
      x' := SlideLeft(p, w, x);
    } else {
      x' := SlidesAligned(sky, w, x, y);
    }
    MeasureIsResting(p, w, x');
  }

  lemma ComparedIsUsable(p: Packer, w: int, h: int, x: int)
    requires Valid(p) && FloorLast(p.sky) && 0 < w && Compared(p, w, h, x)
    ensures 0 <= x && x + w <= p.width && Usable(p, w, h, x)
    ensures Measure(p, w, x).minY == Resting(p, w, x).minY && Measure(p, w, x).waste == Resting(p, w, x).waste
  {
    MeasureIsResting(p, w, x);
  }

  lemma WinsIffLeast(p: Packer, w: int, h: int, x: int)
    requires Valid(p) && FloorLast(p.sky) && 0 < w
    ensures Wins(p, w, h, x) <==> IsLeast(p, w, h, x)
  {
    hide Measure, Resting, Valid, FloorLast, Tried;
    forall x' | Compared(p, w, h, x')
      ensures 0 <= x' && x' + w <= p.width && Usable(p, w, h, x')
      ensures Measure(p, w, x').minY == Resting(p, w, x').minY && Measure(p, w, x').waste == Resting(p, w, x').waste
    {
      ComparedIsUsable(p, w, h, x');
    }
    if Wins(p, w, h, x) {
      forall x' | Usable(p, w, h, x') && x' != x
        ensures Better(p.heuristic, Resting(p, w, x), x, Resting(p, w, x'), x')
      {
        var x'' := ComparedAtLeast(p, w, h, x');
      }
    }
    if IsLeast(p, w, h, x) {
      var x'' := ComparedAtLeast(p, w, h, x);
      assert x'' == x;
    }
  }

  /** The position that the packer picks is the least column of all. */
  lemma BestIffLeast(p: Packer, w: int, h: int, x: int)
    requires Valid(p) && FloorLast(p.sky) && 0 < w
    ensures IsBest(p, w, h, x) <==>
              RoundUp(w, p.align) <= p.width && h <= p.height && IsLeast(p, RoundUp(w, p.align), h, x)
  {
    hide Measure, Resting, RoundUp, FloorLast;
    var wr := RoundUp(w, p.align);
    if wr <= p.width && h <= p.height {
      WinsIffLeast(p, wr, h, x);
    }
  }

  // ----- Over runs -----

  lemma FloorIsFree(p: Packer, w: int, k: nat)
    requires Valid(p) && FloorLast(p.sky) && 0 < w && k + 1 < |p.sky| && p.sky[k].y == 0 && p.sky[k].x + w <= p.width
    ensures 0 <= p.sky[k].x && Resting(p, w, p.sky[k].x).minY == 0 && Resting(p, w, p.sky[k].x).waste == 0
  {
    var sky, hs, x := p.sky, Heights(p.sky), p.sky[k].x;
    HeightsProfile(sky);
    NodeFlat(sky, hs, k);
    assert sky[k + 1].x == p.width;
    GapFlat(hs, x, x, x + w, 0, 0);
  }

  lemma FreeIsLeast(p: Packer, w: int, h: int, x: int, left: int)
    requires Valid(p) && 0 < w && h <= p.height && IsLeast(p, w, h, x) && 0 <= left && left + w <= p.width
    requires Resting(p, w, left).minY == 0 && Resting(p, w, left).waste == 0
    ensures x <= left
  {
    hide Rest, Heights, Gap;
    var hs := Heights(p.sky);
    RestBounds(p.sky, x, x + w, p.width, p.height);
    GapIsNatural(hs, x, x + w, Rest(hs, x, x + w));
    assert Usable(p, w, h, left);
  }

  /** A position inside a node lies above the floor: in the last node, on the floor, the start is as good. */
  lemma InsideAboveFloor(p: Packer, w: int, h: int, x: int, k: nat)
    requires Valid(p) && FloorLast(p.sky) && 0 < w && IsBest(p, w, h, x)
    requires Covers(p.sky, k, x) && p.sky[k].x < x
    ensures 0 < p.sky[k].y
  {
    hide RoundUp, Rest, Gap, Heights;
    if p.sky[k].y == 0 {
      var wr, left := RoundUp(w, p.align), p.sky[k].x;
      BestInside(p, w, h, x);
      BestIffLeast(p, w, h, x);
      FloorIsFree(p, wr, k);
      FreeIsLeast(p, wr, h, x, left);
    }
  }

  lemma PlaceFloor(sky: seq<Seg>, i: nat, x: int, w: int, top: int)
    requires FloorLast(sky) && i + 1 < |sky| && 0 < top && (sky[i].x < x ==> 0 < sky[i].y)
    ensures FloorLast(Place(sky, i, x, w, top))
  {
  }

  /** Each request keeps the floor at the end. */
  lemma PacksKeepsFloor(p: Packer, w: int, h: int, r: Option<Pos>, p': Packer)
    requires Valid(p) && FloorLast(p.sky) && 0 < w && 0 < h && Packs(p, w, h, r, p')
    ensures FloorLast(p'.sky)
  {
    hide Place, FloorLast, RoundUp, Rest, Heights;
    if r.Some? {
      var x := r.value.x;
      var k := Cover(p.sky, x);
      BestInside(p, w, h, x);
      if p.sky[k].x < x { InsideAboveFloor(p, w, h, x, k); }
      MeasureIsRest(p, RoundUp(w, p.align), x);
      PlaceFloor(p.sky, k, x, w, r.value.y + h);
    }
  }

  lemma FreshFloor(width: int, height: int, numNodes: int)
    requires 0 < numNodes
    ensures FloorLast(Init(width, height, numNodes).sky)
  {
  }

  lemma {:induction false} RunKeepsFloor(width: int, height: int, numNodes: int, ps: seq<Packer>, qs: seq<Request>,
                                         rs: seq<Option<Pos>>)
    requires 0 < numNodes && Run(ps, qs, rs) && ps[0] == Init(width, height, numNodes)
    ensures Valid(ps[|qs|]) && FloorLast(ps[|qs|].sky)
  {
    hide Valid, Packs, FloorLast;
    if qs != [] {
      var n := |qs| - 1;
      RunKeepsFloor(width, height, numNodes, ps[..n + 1], qs[..n], rs[..n]);
      assert Step(ps[n], qs[n], rs[n], ps[n + 1]);
      if qs[n].Pack? { PacksKeepsFloor(ps[n], qs[n].w, qs[n].h, rs[n], ps[n + 1]); }
    } else {
      FreshFloor(width, height, numNodes);
    }
  }

  /** Over every run from a fresh target, with the heuristic and the alignment switched at will, the waste that
      the packer reports is the area under the rectangle, for every span of every skyline. */
  lemma ReachedWasteIsArea(width: int, height: int, numNodes: int, ps: seq<Packer>, qs: seq<Request>,
                           rs: seq<Option<Pos>>, k: nat, x0: int, w: int)
    requires 0 < numNodes && Run(ps, qs, rs) && ps[0] == Init(width, height, numNodes)
    requires Span(ps[|qs|].sky, k, x0, w)
    ensures var sky := ps[|qs|].sky;
            var y := Rest(Heights(sky), x0, x0 + w);
            0 <= x0 && MinY(sky, k, x0, w).minY == y && MinY(sky, k, x0, w).waste == Gap(Heights(sky), x0, x0 + w, y)
  {
    var sky := ps[|qs|].sky;
    hide Valid, Run, FloorLast, Span, Heights;
    RunKeepsFloor(width, height, numNodes, ps, qs, rs);
    WasteIsGap(sky, k, x0, w);
  }

  /** A rectangle of `w` columns and height `h` may go to column `x` of a target with the columns `hs`. */
  ghost predicate MayGo(p: Packer, hs: seq<int>, w: int, h: int, x: int) {
    && 0 < w && 0 <= x && x + w <= |hs|
    && (p.heuristic == BestFit ==> Rest(hs, x, x + w) + h <= p.height)
  }

  /** It rests lower at `x` than at `x'`, or as low and (best fit) leaves less area unused, or as low (and leaves as
      little) farther left. */
  ghost predicate ComesFirst(p: Packer, hs: seq<int>, w: int, x: int, x': int)
    requires 0 < w && 0 <= x && x + w <= |hs| && 0 <= x' && x' + w <= |hs|
  {
    var y, y' := Rest(hs, x, x + w), Rest(hs, x', x' + w);
    y < y' || (y == y' &&
      if p.heuristic == BottomLeft then x < x'
      else
        var gap, gap' := Gap(hs, x, x + w, y), Gap(hs, x', x' + w, y);
        gap < gap' || (gap == gap' && x < x'))
  }

  ghost predicate FirstColumn(p: Packer, hs: seq<int>, w: int, h: int, x: int) {
    && MayGo(p, hs, w, h, x)
    && forall x' :: MayGo(p, hs, w, h, x') && x' != x ==> ComesFirst(p, hs, w, x, x')
  }

  lemma UsableIsMayGo(p: Packer, w: int, h: int, x: int)
    requires Valid(p) && 0 < w
    ensures |Heights(p.sky)| == p.width && (Usable(p, w, h, x) <==> MayGo(p, Heights(p.sky), w, h, x))
  {
    hide Rest, Gap;
  }

  lemma BetterIsFirst(p: Packer, w: int, h: int, x: int, x': int)
    requires Valid(p) && 0 < w && Usable(p, w, h, x) && Usable(p, w, h, x')
    ensures |Heights(p.sky)| == p.width && 0 <= x && x + w <= p.width && 0 <= x' && x' + w <= p.width
    ensures Better(p.heuristic, Resting(p, w, x), x, Resting(p, w, x'), x') <==>
              ComesFirst(p, Heights(p.sky), w, x, x')
  {
    hide Rest, Gap;
  }

  lemma FirstInside(p: Packer, w: int, h: int, x: int)
    requires Valid(p) && FirstColumn(p, Heights(p.sky), w, h, x)
    ensures w <= p.width
  {
  }

  lemma LeastIsFirst(p: Packer, w: int, h: int, x: int)
    requires Valid(p) && 0 < w
    ensures |Heights(p.sky)| == p.width && (IsLeast(p, w, h, x) <==> FirstColumn(p, Heights(p.sky), w, h, x))
  {
    var hs := Heights(p.sky);
    UsableIsMayGo(p, w, h, x);
    forall x' ensures Usable(p, w, h, x') <==> MayGo(p, hs, w, h, x') {
      UsableIsMayGo(p, w, h, x');
    }
    hide Rest, Gap, Heights, Valid, Usable, MayGo;
    if Usable(p, w, h, x) {
      forall x' | Usable(p, w, h, x') && x' != x
        ensures 0 <= x' && x' + w <= p.width
        ensures Better(p.heuristic, Resting(p, w, x), x, Resting(p, w, x'), x') <==> ComesFirst(p, hs, w, x, x')
      {
        BetterIsFirst(p, w, h, x, x');
      }
    }
  }

  /** And the position it picks is the first of all columns, which only their heights decide. */
  lemma ReachedBestIffFirst(width: int, height: int, numNodes: int, ps: seq<Packer>, qs: seq<Request>,
                            rs: seq<Option<Pos>>, w: int, h: int, x: int)
    requires 0 < numNodes && 0 < w && Run(ps, qs, rs) && ps[0] == Init(width, height, numNodes)
    ensures var p := ps[|qs|];
            Valid(p) && (IsBest(p, w, h, x) <==>
              h <= p.height && FirstColumn(p, Heights(p.sky), RoundUp(w, p.align), h, x))
  {
    var p := ps[|qs|];
    hide Run, FloorLast, IsBest, IsLeast, RoundUp, Heights, FirstColumn;
    RunKeepsFloor(width, height, numNodes, ps, qs, rs);
    BestIffLeast(p, w, h, x);
    LeastIsFirst(p, RoundUp(w, p.align), h, x);
    if FirstColumn(p, Heights(p.sky), RoundUp(w, p.align), h, x) { FirstInside(p, RoundUp(w, p.align), h, x); }
  }

  lemma RunStarts(ps: seq<Packer>, qs: seq<Request>, rs: seq<Option<Pos>>, k: nat)
    requires Run(ps, qs, rs) && k <= |qs|
    ensures |ps| == |qs| + 1 && |rs| == |qs| && Run(ps[..k + 1], qs[..k], rs[..k])
  {
  }

  /** A rectangle that is packed goes to that column and rests on what is under it there. */
  lemma ReachedPacksFirst(width: int, height: int, numNodes: int, ps: seq<Packer>, qs: seq<Request>,
                          rs: seq<Option<Pos>>, k: nat)
    requires 0 < numNodes && Run(ps, qs, rs) && ps[0] == Init(width, height, numNodes)
    requires k < |qs| && qs[k].Pack? && rs[k].Some?
    ensures Valid(ps[k]) && 0 < qs[k].w
    ensures var p, x, y := ps[k], rs[k].value.x, rs[k].value.y;
            var hs, wr := Heights(p.sky), RoundUp(qs[k].w, p.align);
            FirstColumn(p, hs, wr, qs[k].h, x) && y == Rest(hs, x, x + wr) && y + qs[k].h <= p.height
  {
    hide Valid, FirstColumn, RoundUp, Rest, Heights, Place, IsBest;
    assert Step(ps[k], qs[k], rs[k], ps[k + 1]);
    var p, w, h, x := ps[k], qs[k].w, qs[k].h, rs[k].value.x;
    RunStarts(ps, qs, rs, k);
    ReachedBestIffFirst(width, height, numNodes, ps[..k + 1], qs[..k], rs[..k], w, h, x);
    BestInside(p, w, h, x);
    MeasureIsRest(p, RoundUp(w, p.align), x);
  }
}
