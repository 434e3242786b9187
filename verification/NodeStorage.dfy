/** When the node storage handed to the packer is large enough.

The header promises that, unless running out is allowed, widths are quantized so that the packer
never runs out of nodes. A packed rectangle updates the skyline with its own width, not the
quantized one, so the promise fails when there are fewer nodes than columns, except in targets so
low that no rectangle is left to be refused.
*/
module NodeStorage {
  import opened Basics
  import opened Rounding
  import opened Skyline
  import opened Packing

  /** A rectangle that fits is refused because no node is left. */
  ghost predicate Starved(p: Packer, w: int, h: int)
    requires Valid(p) && 0 < w
  {
    Fits(p, w, h) && !HasFreeNode(p)
  }

  /** The run keeps the quantization that a fresh target starts with. */
  ghost predicate Quantized(qs: seq<Request>) {
    forall i :: 0 <= i < |qs| ==> qs[i].AllowOutOfMem? ==> !qs[i].allow
  }

  ghost predicate StarvingRun(width: int, height: int, numNodes: int,
                              ps: seq<Packer>, qs: seq<Request>, rs: seq<Option<Pos>>, w: int, h: int) {
    && 0 < numNodes && 0 < w && 0 < h
    && Run(ps, qs, rs) && Quantized(qs) && ps[0] == Init(width, height, numNodes)
    && Starved(ps[|qs|], w, h)
  }

  /** Some quantized run on a fresh target refuses a rectangle for lack of nodes. */
  ghost predicate CanStarve(width: int, height: int, numNodes: int) {
    exists ps, qs, rs, w, h :: StarvingRun(width, height, numNodes, ps, qs, rs, w, h)
  }

  /** There are enough nodes: one per column, or the target is so low that there is no room for a rectangle
      once the nodes are used up. */
  predicate Enough(width: int, height: int, numNodes: int)
    requires 0 < numNodes
  {
    width <= numNodes || height == 0 || (height == 1 && width < numNodes + DefaultAlign(width, numNodes))
  }

  lemma SkyShape(p: Packer)
    requires Valid(p)
    ensures Chain(p.sky) && |Heights(p.sky)| == p.width
  {
  }

  /** A width above 0 is rounded to one alignment at least. */
  lemma RoundUpCovers(w: int, align: int)
    requires 0 < w && 0 < align
    ensures align <= RoundUp(w, align)
  {
    var up := w + align - 1;
    if up < 2 * align {
      QuotientIs(up, align, 1, up - align);
    }
  }

  /** Where the rectangle fits, the target is higher than the columns; in a target of height 1 they are on the floor. */
  lemma RoomAt(p: Packer, w: int, h: int) returns (x: int)
    requires Valid(p) && 0 < w && 0 < h && Fits(p, w, h)
    ensures 0 < p.height && 0 <= x && x + p.align <= p.width && |Heights(p.sky)| == p.width
    ensures p.height == 1 ==> forall c :: x <= c < x + p.align ==> Heights(p.sky)[c] <= 0
  {
    hide Heights, WellFormed;
    x :| FitsAt(p, w, h, x);
    RoundUpCovers(w, p.align);
    MeasureIsRest(p, RoundUp(w, p.align), x);
    SkyShape(p);
  }

  // ----- Low targets: every rectangle takes up a column of its own -----

  /** How many columns are above the floor. */
  function Raised(hs: seq<int>): nat {
    if hs == [] then 0 else Raised(hs[..|hs| - 1]) + if hs[|hs| - 1] > 0 then 1 else 0
  }

  lemma {:induction false} RaisedGrows(hs: seq<int>, hs': seq<int>)
    requires |hs| == |hs'| && forall c :: 0 <= c < |hs| ==> hs[c] <= hs'[c]
    ensures Raised(hs) <= Raised(hs')
    ensures (exists c :: 0 <= c < |hs| && hs[c] <= 0 < hs'[c]) ==> Raised(hs) < Raised(hs')
  {
    if hs != [] {
      var n := |hs| - 1;
      RaisedGrows(hs[..n], hs'[..n]);
      if c :| 0 <= c < n && hs[c] <= 0 < hs'[c] {
        assert hs[..n][c] <= 0 < hs'[..n][c];
      }
    }
  }

  lemma {:induction false} RaisedLeaves(hs: seq<int>, lo: int, hi: int)
    requires 0 <= lo <= hi <= |hs| && forall c :: lo <= c < hi ==> hs[c] <= 0
    ensures Raised(hs) <= |hs| - (hi - lo)
  {
    if hs != [] {
      var n := |hs| - 1;
      RaisedLeaves(hs[..n], if lo <= n then lo else n, if hi <= n then hi else n);
    }
  }

  /** In a target of height 1 every node but one stands for a column of its own above the floor. */
  ghost predicate Frugal(p: Packer, align: int)
    requires Valid(p)
  {
    p.align == align && |p.sky| <= 2 + Raised(Heights(p.sky))
  }

  lemma LowPack(p: Packer, w: int, h: int, pos: Pos, p': Packer)
    requires Valid(p) && Valid(p') && p.height == 1 && 0 < w && 0 < h && Packs(p, w, h, Some(pos), p')
    ensures |p'.sky| <= |p.sky| + 1 && Raised(Heights(p.sky)) < Raised(Heights(p'.sky))
  {
    hide RoundUp, Heights, Measure, Place, WellFormed, Raised;
    SkyShape(p);
    SkyShape(p');
    var wr := RoundUp(w, p.align);
    MeasureIsRest(p, wr, pos.x);
    var k := Cover(p.sky, pos.x);
    PlaceWellFormed(p.sky, p.width, p.height, k, pos.x, w, pos.y + h);
    forall c | 0 <= c < p.width ensures Heights(p.sky)[c] <= Heights(p'.sky)[c] {
      PackedHeights(p, w, h, pos, p', c);
    }
    PackedHeights(p, w, h, pos, p', pos.x);
    RaisedGrows(Heights(p.sky), Heights(p'.sky));
  }

  lemma LowStep(p: Packer, q: Request, r: Option<Pos>, p': Packer)
    requires Valid(p) && Valid(p') && p.height == 1 && Legal(q) && Step(p, q, r, p') && (q.AllowOutOfMem? ==> !q.allow)
    requires Frugal(p, DefaultAlign(p.width, p.numNodes))
    ensures Frugal(p', DefaultAlign(p.width, p.numNodes))
  {
    hide DefaultAlign, Raised;
    if q.Pack? && r.Some? {
      LowPack(p, q.w, q.h, r.value, p');
    }
  }

  lemma {:induction false} LowRun(width: int, numNodes: int, ps: seq<Packer>, qs: seq<Request>, rs: seq<Option<Pos>>)
    requires 0 < numNodes && Run(ps, qs, rs) && Quantized(qs) && ps[0] == Init(width, 1, numNodes)
    ensures Frugal(ps[|qs|], DefaultAlign(width, numNodes))
  {
    if qs != [] {
      hide Step, Valid, Heights, DefaultAlign;
      var n := |qs| - 1;
      LowRun(width, numNodes, ps[..n + 1], qs[..n], rs[..n]);
      RunIsSafe(width, 1, numNodes, ps[..n + 1], qs[..n], rs[..n]);
      LowStep(ps[n], qs[n], rs[n], ps[n + 1]);
    }
  }

  lemma {:induction false} NodePerColumn(sky: seq<Seg>, i: nat)
    requires Chain(sky) && i < |sky|
    ensures i <= sky[i].x
  {
    if i > 0 { NodePerColumn(sky, i - 1); }
  }

  /** With a node per column a free node is left in every packer, however it got there. */
  lemma EnoughNodes(p: Packer)
    requires Valid(p) && p.width <= p.numNodes
    ensures HasFreeNode(p)
  {
    NodePerColumn(p.sky, |p.sky| - 1);
  }

  // ----- A staircase of unit squares uses up the nodes -----

  function Stairs(width: int, k: nat): (sky: seq<Seg>)
    ensures |sky| == k + 2 && sky[k] == Seg(k, 0) && sky[k + 1] == Seg(width, SENTINEL_Y)
    ensures forall i :: 0 <= i < k ==> sky[i] == Seg(i, 1)
  {
    seq(k, i => Seg(i, 1)) + [Seg(k, 0), Seg(width, SENTINEL_Y)]
  }

  function StairsPacker(width: int, height: int, numNodes: int, k: nat): Packer
    requires 0 < numNodes
  {
    Init(width, height, numNodes).(sky := Stairs(width, k))
  }

  lemma StairsValid(width: int, height: int, numNodes: int, k: nat)
    requires 0 < numNodes < width && 1 <= height < SENTINEL_Y && k <= numNodes
    ensures Valid(StairsPacker(width, height, numNodes, k))
  {
    AlignBounds(width, numNodes);
    AdjacentSorted(Stairs(width, k));
  }

  lemma Multiples(a: int, b: int, n: int)
    requires a <= b && 0 <= n
    ensures a * n <= b * n
  {
  }

  lemma RoomBound(a: int, width: int, n: int)
    requires 0 < n < width && width <= a * n < width + n
    ensures n - 1 + a <= width && 2 <= a
  {
    var m := width - n;
    if a <= 1 { Multiples(a, 1, n); }
    if m + 2 <= a {
      Multiples(m + 2, a, n);
      Multiples(1, n, m);
    }
  }

  /** The quantized unit square still has room to the right of `numNodes - 1` others. */
  lemma StairsRoom(width: int, n: int)
    requires 0 < n < width
    ensures n - 1 + DefaultAlign(width, n) <= width && 2 <= DefaultAlign(width, n)
  {
    hide DefaultAlign;
    AlignBounds(width, n);
    RoomBound(DefaultAlign(width, n), width, n);
  }

  lemma StairsHeights(width: int, k: nat)
    requires k < width && Chain(Stairs(width, k))
    ensures var hs := Heights(Stairs(width, k));
            |hs| == width && forall c :: 0 <= c < width ==> hs[c] == if c < k then 1 else 0
  {
    var sky := Stairs(width, k);
    forall c | 0 <= c < width ensures Heights(sky)[c] == if c < k then 1 else 0 {
      HeightAt(sky, if c < k then c else k, c);
    }
  }

  lemma StairsMeasure(width: int, height: int, n: int, k: nat, w: int, x: int)
    requires 0 < n < width && 1 <= height < SENTINEL_Y && k <= n && 0 < w && 0 <= x <= k && x + w <= width
    ensures var p := StairsPacker(width, height, n, k);
            Valid(p) && if x == k then Measure(p, w, x).minY == 0 else Measure(p, w, x).minY == 1
  {
    hide Heights, Measure, DefaultAlign;
    var p := StairsPacker(width, height, n, k);
    StairsValid(width, height, n, k);
    StairsHeights(width, k);
    MeasureIsRest(p, w, x);
    assert Heights(p.sky)[x] == if x == k then 0 else 1;
  }

  lemma StairsBest(width: int, height: int, n: int, k: nat)
    requires 0 < n < width && 1 <= height < SENTINEL_Y && k < n
    ensures var p := StairsPacker(width, height, n, k);
            Valid(p) && IsBest(p, 1, 1, k) && RoundUp(1, p.align) + k <= width
              && Measure(p, RoundUp(1, p.align), k).minY == 0
  {
    hide Measure, DefaultAlign, Heights;
    var p := StairsPacker(width, height, n, k);
    StairsValid(width, height, n, k);
    StairsRoom(width, n);
    var wr := RoundUp(1, p.align);
    assert wr == p.align;
    StairsMeasure(width, height, n, k, wr, k);
    assert p.sky[k].x == k;
    forall x | Compared(p, wr, 1, x) && x != k ensures Measure(p, wr, k).minY < Measure(p, wr, x).minY {
      StairsMeasure(width, height, n, k, wr, x);
    }
  }

  lemma StairsStep(width: int, height: int, n: int, k: nat)
    requires 0 < n < width && 1 <= height < SENTINEL_Y && k < n
    ensures var p := StairsPacker(width, height, n, k);
            Valid(p) && Step(p, Pack(1, 1), Some(Pos(k, 0)), StairsPacker(width, height, n, k + 1))
  {
    var p := StairsPacker(width, height, n, k);
    StairsBest(width, height, n, k);
    StairsRoom(width, n);
    CoverUnique(p.sky, k, k);
    assert Place(p.sky, k, k, 1, 1) == Stairs(width, k + 1);
  }

  lemma StairsFull(width: int, height: int, n: int)
    requires 0 < n < width && 1 <= height < SENTINEL_Y
    requires height >= 2 || n + DefaultAlign(width, n) <= width
    ensures var p := StairsPacker(width, height, n, n); Valid(p) && Starved(p, 1, 1)
  {
    hide Measure, DefaultAlign, Heights;
    var p := StairsPacker(width, height, n, n);
    StairsValid(width, height, n, n);
    StairsRoom(width, n);
    assert RoundUp(1, p.align) == p.align;
    var x := if height >= 2 then 0 else n;
    StairsMeasure(width, height, n, n, p.align, x);
    MeasureIsRest(p, p.align, x);
    assert FitsAt(p, 1, 1, x);
  }

  lemma StairsStart(width: int, height: int, n: int)
    requires 0 < n
    ensures StairsPacker(width, height, n, 0) == Init(width, height, n)
  {
    assert Stairs(width, 0) == [Seg(0, 0), Seg(width, SENTINEL_Y)];
  }

  lemma StairsStarve(width: int, height: int, n: int)
    requires 0 < n < width && 1 <= height < SENTINEL_Y
    requires height >= 2 || n + DefaultAlign(width, n) <= width
    ensures CanStarve(width, height, n)
  {
    hide Step, Starved, Valid, StairsPacker, DefaultAlign;
    var ps := seq(n + 1, k requires 0 <= k <= n => StairsPacker(width, height, n, k));
    var qs := seq(n, _ => Pack(1, 1));
    var rs := seq(n, k => Some(Pos(k, 0)));
    forall k | 0 <= k <= n ensures Valid(ps[k]) { StairsValid(width, height, n, k); }
    forall k | 0 <= k < n ensures Step(ps[k], qs[k], rs[k], ps[k + 1]) { StairsStep(width, height, n, k); }
    StairsStart(width, height, n);
    StairsFull(width, height, n);
    assert StarvingRun(width, height, n, ps, qs, rs, 1, 1);
  }

  // ----- The promise -----

  lemma NeverStarves(width: int, height: int, numNodes: int,
                     ps: seq<Packer>, qs: seq<Request>, rs: seq<Option<Pos>>, w: int, h: int)
    requires 0 < width && 0 <= height < SENTINEL_Y && 0 < numNodes && Enough(width, height, numNodes)
    ensures !StarvingRun(width, height, numNodes, ps, qs, rs, w, h)
  {
    hide Step, DefaultAlign, Fits;
    if StarvingRun(width, height, numNodes, ps, qs, rs, w, h) {
      var p := ps[|qs|];
      RunIsSafe(width, height, numNodes, ps, qs, rs);
      if width <= numNodes {
        EnoughNodes(p);
      } else {
        var x := RoomAt(p, w, h);
        if height == 1 {
          LowRun(width, numNodes, ps, qs, rs);
          RaisedLeaves(Heights(p.sky), x, x + p.align);
        }
      }
    }
  }

  /** The promise of the header, with its exact condition. */
  lemma StorageSufficesIff(width: int, height: int, numNodes: int)
    requires 0 < width && 0 <= height < SENTINEL_Y && 0 < numNodes
    ensures !CanStarve(width, height, numNodes) <==> Enough(width, height, numNodes)
  {
    hide DefaultAlign, StarvingRun;
    if Enough(width, height, numNodes) {
      forall ps, qs, rs, w, h ensures !StarvingRun(width, height, numNodes, ps, qs, rs, w, h) {
        NeverStarves(width, height, numNodes, ps, qs, rs, w, h);
      }
    } else {
      StairsStarve(width, height, numNodes);
    }
  }
}
