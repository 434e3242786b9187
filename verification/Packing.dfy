/** Choosing a position on the skyline, and packing rectangle after rectangle.

`Packs` is the meaning of one packing request. The theorems: the chosen position is the lowest one
there is, a request is refused only when it must be, packed rectangles never overlap or leave the
target in any run, and the node storage is always sufficient exactly when there is a node per column.
*/
module Packing {
  import opened Basics
  import opened Columns
  import opened Rounding
  import opened Skyline

  datatype Heuristic = BottomLeft | BestFit

  /** The packer between two requests. */
  datatype Packer = Packer(width: int, height: int, align: int, heuristic: Heuristic, numNodes: int, sky: seq<Seg>)

  datatype Pos = Pos(x: int, y: int)

  ghost predicate Valid(p: Packer) {
    && 0 < p.width && 0 <= p.height < SENTINEL_Y && 0 < p.align && 0 < p.numNodes
    && WellFormed(p.sky, p.width, p.height)
    && |p.sky| <= p.numNodes + 2
  }

  /** A node is left on the free list. */
  ghost predicate HasFreeNode(p: Packer) { |p.sky| < p.numNodes + 2 }

  // ----- Choosing a position -----

  /** What the packer measures at column `x`. */
  ghost function Measure(p: Packer, w: int, x: int): Walk
    requires Valid(p) && 0 < w && 0 <= x && x + w <= p.width
  {
    MinY(p.sky, Cover(p.sky, x), x, w)
  }

  ghost predicate LeftAligned(sky: seq<Seg>, x: int) {
    exists i :: 0 <= i < |sky| && sky[i].x == x
  }

  ghost predicate RightAligned(sky: seq<Seg>, w: int, x: int) {
    exists i :: 0 <= i < |sky| && sky[i].x == x + w
  }

  /** The columns that the heuristic tries for a rectangle of `w` columns. */
  ghost predicate Tried(p: Packer, w: int, x: int) {
    && 0 <= x && x + w <= p.width
    && (LeftAligned(p.sky, x) || (p.heuristic == BestFit && RightAligned(p.sky, w, x)))
  }

  /** The columns that the heuristic compares: best fit leaves out those where the rectangle is too high. */
  ghost predicate Compared(p: Packer, w: int, h: int, x: int)
    requires Valid(p) && 0 < w
  {
    Tried(p, w, x) && (p.heuristic == BestFit ==> Measure(p, w, x).minY + h <= p.height)
  }

  /** The order of preference: lower, then (best fit) less waste, then further left. */
  predicate Better(heuristic: Heuristic, a: Walk, x: int, b: Walk, x': int) {
    a.minY < b.minY || (a.minY == b.minY &&
      if heuristic == BottomLeft then x < x' else a.waste < b.waste || (a.waste == b.waste && x < x'))
  }

  /** Column `x` beats every other compared column; `w` is the rounded width. */
  ghost predicate Wins(p: Packer, w: int, h: int, x: int)
    requires Valid(p) && 0 < w
  {
    && Compared(p, w, h, x)
    && forall x' :: Compared(p, w, h, x') && x' != x ==> Better(p.heuristic, Measure(p, w, x), x, Measure(p, w, x'), x')
  }

  /** The position for a `w` by `h` rectangle, if the heuristic finds any. */
  ghost predicate IsBest(p: Packer, w: int, h: int, x: int)
    requires Valid(p) && 0 < w
  {
    && RoundUp(w, p.align) <= p.width && h <= p.height
    && Wins(p, RoundUp(w, p.align), h, x)
  }

  lemma BestIsUnique(p: Packer, w: int, h: int, x: int, x': int)
    requires Valid(p) && 0 < w && IsBest(p, w, h, x) && IsBest(p, w, h, x')
    ensures x == x'
  {
  }

  lemma BestInside(p: Packer, w: int, h: int, x: int)
    requires Valid(p) && 0 < w && IsBest(p, w, h, x)
    ensures 0 <= x && x + RoundUp(w, p.align) <= p.width == End(p.sky) && Chain(p.sky)
  {
    hide RoundUp;
  }

  lemma MeasureIsRest(p: Packer, w: int, x: int)
    requires Valid(p) && 0 < w && 0 <= x && x + w <= p.width
    ensures Measure(p, w, x).minY == Rest(Heights(p.sky), x, x + w)
    ensures 0 <= Rest(Heights(p.sky), x, x + w) <= p.height
  {
    MinYIsRest(p.sky, Cover(p.sky, x), x, w);
    RestBounds(p.sky, x, x + w, p.width, p.height);
  }

  /** The packer measures column `x` starting from the node that covers it. */
  lemma MeasureAt(p: Packer, n: nat, w: int, x: int)
    requires Valid(p) && 0 < w && x + w <= p.width && Covers(p.sky, n, x)
    ensures 0 <= x && Cover(p.sky, x) == n && Span(p.sky, n, x, w)
    ensures Measure(p, w, x) == MinY(p.sky, n, x, w)
    ensures Measure(p, w, x).minY < SENTINEL_Y
  {
    HeightAt(p.sky, n, x);
    CoverUnique(p.sky, x, n);
    MeasureIsRest(p, w, x);
  }

  /** Sliding a rectangle left to the start of the node below its left edge never lifts it. */
  lemma SlideLeft(p: Packer, w: int, x: int) returns (left: int)
    requires Valid(p) && 0 < w && 0 <= x && x + w <= p.width
    ensures 0 <= left <= x && LeftAligned(p.sky, left)
    ensures Rest(Heights(p.sky), left, left + w) <= Rest(Heights(p.sky), x, x + w)
  {
    var sky, hs := p.sky, Heights(p.sky);
    var k := Cover(sky, x);
    left := sky[k].x;
    HeightsProfile(sky);
    NodeFlat(sky, hs, k);
    var c :| left <= c < left + w && hs[c] == Rest(hs, left, left + w);
    assert hs[x] == sky[k].y;
    assert c < x ==> hs[c] == hs[x];
  }

  /** The chosen position is the lowest one over all columns, aligned with a node or not. */
  lemma BestIsLowest(p: Packer, w: int, h: int, x: int, x': int)
    requires Valid(p) && 0 < w && IsBest(p, w, h, x)
    requires 0 <= x' && x' + RoundUp(w, p.align) <= p.width
    requires p.heuristic == BestFit ==> Rest(Heights(p.sky), x', x' + RoundUp(w, p.align)) + h <= p.height
    ensures Rest(Heights(p.sky), x, x + RoundUp(w, p.align)) <= Rest(Heights(p.sky), x', x' + RoundUp(w, p.align))
  {
    hide RoundUp, Heights, Measure, Rest;
    var wr := RoundUp(w, p.align);
    var left := SlideLeft(p, wr, x');
    MeasureIsRest(p, wr, x);
    MeasureIsRest(p, wr, left);
    assert Compared(p, wr, h, left);
  }

  /** Some column wins as soon as one is compared. */
  lemma {:induction false} WinnerExists(p: Packer, w: int, h: int, seen: nat) returns (x: int)
    requires Valid(p) && 0 < w
    requires exists x' :: x' < seen && Compared(p, w, h, x')
    ensures x < seen && Compared(p, w, h, x)
    ensures forall x' :: x' < seen && Compared(p, w, h, x') && x' != x ==>
              Better(p.heuristic, Measure(p, w, x), x, Measure(p, w, x'), x')
  {
    hide Measure, Valid;
    if exists x' :: x' < seen - 1 && Compared(p, w, h, x') {
      x := WinnerExists(p, w, h, seen - 1);
      if Compared(p, w, h, seen - 1) && !Better(p.heuristic, Measure(p, w, x), x, Measure(p, w, seen - 1), seen - 1) {
        x := seen - 1;
      }
    } else {
      x := seen - 1;
    }
  }

  /** The heuristic finds a position whenever the rectangle fits somewhere at all. */
  lemma FindsPosition(p: Packer, w: int, h: int, x': int) returns (x: int)
    requires Valid(p) && 0 < w && h <= p.height
    requires 0 <= x' && x' + RoundUp(w, p.align) <= p.width
    requires Rest(Heights(p.sky), x', x' + RoundUp(w, p.align)) + h <= p.height
    ensures IsBest(p, w, h, x) && Rest(Heights(p.sky), x, x + RoundUp(w, p.align)) + h <= p.height
  {
    hide Rest, Heights, Measure;
    var wr := RoundUp(w, p.align);
    var left := SlideLeft(p, wr, x');
    MeasureIsRest(p, wr, left);
    assert left < p.width && Compared(p, wr, h, left);
    x := WinnerExists(p, wr, h, p.width);
    BestIsLowest(p, w, h, x, x');
  }

  // ----- One request -----

  /** A request for a `w` by `h` rectangle takes packer `p` to `p'` and answers `r`. */
  ghost predicate Packs(p: Packer, w: int, h: int, r: Option<Pos>, p': Packer)
    requires Valid(p) && 0 < w
  {
    match r
    case None =>
      && p' == p
      && forall x :: IsBest(p, w, h, x) ==> Measure(p, RoundUp(w, p.align), x).minY + h > p.height || !HasFreeNode(p)
    case Some(Pos(x, y)) =>
      && IsBest(p, w, h, x) && y == Measure(p, RoundUp(w, p.align), x).minY
      && y + h <= p.height && HasFreeNode(p)
      && p' == p.(sky := Place(p.sky, Cover(p.sky, x), x, w, y + h))
  }

  ghost predicate FitsAt(p: Packer, w: int, h: int, x: int)
    requires Valid(p) && 0 < w
  {
    && 0 <= x && x + RoundUp(w, p.align) <= p.width
    && Rest(Heights(p.sky), x, x + RoundUp(w, p.align)) + h <= p.height
  }

  /** The request can be met on the skyline as it is, wherever that may be. */
  ghost predicate Fits(p: Packer, w: int, h: int)
    requires Valid(p) && 0 < w
  {
    exists x :: FitsAt(p, w, h, x)
  }

  /** Both directions: with a free node a request is met exactly when it fits; without one, never. */
  lemma PackedIffFits(p: Packer, w: int, h: int, r: Option<Pos>, p': Packer)
    requires Valid(p) && 0 < w && 0 <= h && Packs(p, w, h, r, p')
    ensures r.Some? <==> Fits(p, w, h) && HasFreeNode(p)
  {
    hide RoundUp, Heights, Measure, Rest;
    var wr := RoundUp(w, p.align);
    if r.Some? {
      MeasureIsRest(p, wr, r.value.x);
      assert FitsAt(p, w, h, r.value.x);
    } else if Fits(p, w, h) {
      var x' :| FitsAt(p, w, h, x');
      MeasureIsRest(p, wr, x');
      var x := FindsPosition(p, w, h, x');
      MeasureIsRest(p, wr, x);
    }
  }

  /** A position inside a node can only be a right-aligned one, so the next node starts no later than
      the rounded rectangle ends. */
  lemma InsideNode(p: Packer, w: int, x: int, k: nat)
    requires Valid(p) && 0 < w && Tried(p, w, x)
    requires Covers(p.sky, k, x) && p.sky[k].x < x
    ensures p.heuristic == BestFit && p.sky[k + 1].x <= x + w
  {
    assert !LeftAligned(p.sky, x);
    var i :| 0 <= i < |p.sky| && p.sky[i].x == x + w;
    assert i > k;
  }

  /** After a met request: the new height on the rectangle, nowhere a lower one, and with widths not
      rounded no other change at all. */
  lemma PackedHeights(p: Packer, w: int, h: int, pos: Pos, p': Packer, c: int)
    requires Valid(p) && 0 < w && 0 <= h && Packs(p, w, h, Some(pos), p') && 0 <= c < p.width
    ensures Valid(p')
    ensures pos.x <= c < pos.x + w ==> Heights(p'.sky)[c] == pos.y + h
    ensures Heights(p.sky)[c] <= Heights(p'.sky)[c]
    ensures !(pos.x <= c < pos.x + w) && (p.align == 1 || p.heuristic == BottomLeft) ==>
              Heights(p'.sky)[c] == Heights(p.sky)[c]
  {
    hide RoundUp, Heights, Measure, Rest, Place;
    var sky, x := p.sky, pos.x;
    var wr := RoundUp(w, p.align);
    var k := Cover(sky, x);
    MeasureIsRest(p, wr, x);
    PlaceWellFormed(sky, p.width, p.height, k, x, w, pos.y + h);
    PlaceHeight(sky, p.width, p.height, k, x, w, pos.y + h, c);
    if sky[k].x < x {
      InsideNode(p, wr, x, k);
    }
  }

  // ----- Runs -----

  datatype Box = Box(x: int, y: int, w: int, h: int)

  ghost predicate Inside(b: Box, width: int, height: int) {
    0 <= b.x && 0 <= b.y && 0 < b.w && 0 < b.h && b.x + b.w <= width && b.y + b.h <= height
  }

  ghost predicate Disjoint(a: Box, b: Box) {
    a.x + a.w <= b.x || b.x + b.w <= a.x || a.y + a.h <= b.y || b.y + b.h <= a.y
  }

  /** The box lies below the skyline. */
  ghost predicate Below(b: Box, hs: seq<int>) {
    0 <= b.x && b.x + b.w <= |hs| && forall c :: b.x <= c < b.x + b.w ==> b.y + b.h <= hs[c]
  }

  /** The boxes packed so far lie inside the target, apart from each other, and below the skyline. */
  ghost predicate Safe(p: Packer, boxes: seq<Box>)
    requires Valid(p)
  {
    && (forall i :: 0 <= i < |boxes| ==> Inside(boxes[i], p.width, p.height) && Below(boxes[i], Heights(p.sky)))
    && (forall i, j :: 0 <= i < j < |boxes| ==> Disjoint(boxes[i], boxes[j]))
  }

  function Grown(boxes: seq<Box>, w: int, h: int, r: Option<Pos>): seq<Box> {
    if r.None? then boxes else boxes + [Box(r.value.x, r.value.y, w, h)]
  }

  lemma PacksKeepsValid(p: Packer, w: int, h: int, r: Option<Pos>, p': Packer)
    requires Valid(p) && 0 < w && 0 <= h && Packs(p, w, h, r, p')
    ensures Valid(p')
  {
    if r.Some? {
      PackedHeights(p, w, h, r.value, p', 0);
    }
  }

  lemma BelowIsDisjoint(a: Box, b: Box, hs: seq<int>)
    requires Below(a, hs) && 0 < a.w && 0 < b.w && 0 <= b.x && b.x + b.w <= |hs|
    requires forall c :: b.x <= c < b.x + b.w ==> hs[c] <= b.y
    ensures Disjoint(a, b)
  {
    if a.x < b.x + b.w && b.x < a.x + a.w {
      var c := Max(a.x, b.x);
      assert a.y + a.h <= hs[c] <= b.y;
    }
  }

  /** Each request keeps the packed boxes safe. */
  lemma PacksKeepsSafe(p: Packer, w: int, h: int, r: Option<Pos>, p': Packer, boxes: seq<Box>)
    requires Valid(p) && 0 < w && 0 < h && Packs(p, w, h, r, p') && Safe(p, boxes)
    ensures Valid(p') && Safe(p', Grown(boxes, w, h, r))
  {
    hide RoundUp, Heights, Measure, Rest, Place, Cover;
    PacksKeepsValid(p, w, h, r, p');
    if r.Some? {
      var b := Box(r.value.x, r.value.y, w, h);
      var hs, hs' := Heights(p.sky), Heights(p'.sky);
      forall c | 0 <= c < p.width
        ensures hs[c] <= hs'[c] && (b.x <= c < b.x + w ==> hs'[c] == b.y + h && hs[c] <= b.y)
      {
        PackedHeights(p, w, h, r.value, p', c);
        MeasureIsRest(p, RoundUp(w, p.align), b.x);
      }
      MeasureIsRest(p, RoundUp(w, p.align), b.x);
      forall i | 0 <= i < |boxes| ensures Below(boxes[i], hs') && Disjoint(boxes[i], b) {
        assert Inside(boxes[i], p.width, p.height);
        BelowIsDisjoint(boxes[i], b, hs);
      }
    }
  }

  /** Everything a client can do with one target. */
  datatype Request = Pack(w: int, h: int) | Setup(heuristic: Heuristic) | AllowOutOfMem(allow: bool)

  ghost predicate Legal(q: Request) { q.Pack? ==> 0 < q.w && 0 < q.h }

  ghost predicate Step(p: Packer, q: Request, r: Option<Pos>, p': Packer)
    requires Valid(p) && Legal(q)
  {
    match q
    case Pack(w, h) => Packs(p, w, h, r, p')
    case Setup(heuristic) => r == None && p' == p.(heuristic := heuristic)
    case AllowOutOfMem(allow) => r == None && p' == p.(align := if allow then 1 else DefaultAlign(p.width, p.numNodes))
  }

  function Init(width: int, height: int, numNodes: int): Packer
    requires 0 < numNodes
  {
    Packer(width, height, DefaultAlign(width, numNodes), BottomLeft, numNodes, [Seg(0, 0), Seg(width, SENTINEL_Y)])
  }

  lemma InitIsSafe(width: int, height: int, numNodes: int)
    requires 0 < width && 0 <= height < SENTINEL_Y && 0 < numNodes
    ensures Valid(Init(width, height, numNodes)) && Safe(Init(width, height, numNodes), [])
    ensures Init(width, height, numNodes).heuristic == BottomLeft
    ensures var hs := Heights(Init(width, height, numNodes).sky);
            |hs| == width && forall c :: 0 <= c < width ==> hs[c] == 0
  {
    hide DefaultAlign;
    AlignBounds(width, numNodes);
  }

  /** A run: the packers passed through, one more than the requests, and the answers. */
  ghost predicate Run(ps: seq<Packer>, qs: seq<Request>, rs: seq<Option<Pos>>) {
    && |ps| == |qs| + 1 && |rs| == |qs|
    && (forall i :: 0 <= i < |ps| ==> Valid(ps[i]))
    && (forall i :: 0 <= i < |qs| ==> Legal(qs[i]) && Step(ps[i], qs[i], rs[i], ps[i + 1]))
  }

  /** The boxes of all met requests. */
  function Boxes(qs: seq<Request>, rs: seq<Option<Pos>>): seq<Box>
    requires |rs| == |qs|
  {
    if qs == [] then []
    else
      var n := |qs| - 1;
      var front := Boxes(qs[..n], rs[..n]);
      if qs[n].Pack? then Grown(front, qs[n].w, qs[n].h, rs[n]) else front
  }

  /** Over any run from a fresh target, with the heuristic and the alignment switched at will, all
      packed rectangles lie inside the target and are pairwise disjoint. */
  lemma {:induction false} RunIsSafe(width: int, height: int, numNodes: int, ps: seq<Packer>, qs: seq<Request>,
                                     rs: seq<Option<Pos>>)
    requires 0 < numNodes && Run(ps, qs, rs) && ps[0] == Init(width, height, numNodes)
    ensures ps[|qs|].width == width && ps[|qs|].height == height && ps[|qs|].numNodes == numNodes
    ensures Safe(ps[|qs|], Boxes(qs, rs))
  {
    if qs != [] {
      var n := |qs| - 1;
      RunIsSafe(width, height, numNodes, ps[..n + 1], qs[..n], rs[..n]);
      assert Step(ps[n], qs[n], rs[n], ps[n + 1]);
      if qs[n].Pack? {
        PacksKeepsSafe(ps[n], qs[n].w, qs[n].h, rs[n], ps[n + 1], Boxes(qs[..n], rs[..n]));
      }
    }
  }
}
