/** When the waste that the packer reports for a span is the area under it.

A span that starts inside a node on the floor begins with a surplus: the walk counts columns of that node
which lie left of the span. The surplus stays until the walk runs out of width, and then shortens the nodes
at the end. It is harmless as long as the nodes it shortens are on the floor.
*/
module Waste {
  import opened Columns
  import opened Skyline

  /** Node `j` reaches into the last `s` columns before `x1`. */
  ghost predicate Reaches(sky: seq<Seg>, j: nat, x1: int, s: int) {
    j + 1 < |sky| && sky[j].x < x1 && x1 - s < sky[j + 1].x
  }

  /** Node `j` covers the last column before `x1`. */
  ghost predicate Last(sky: seq<Seg>, j: nat, x1: int) {
    j + 1 < |sky| && sky[j].x < x1 <= sky[j + 1].x
  }

  /** Node `j` is higher than all nodes from `k` on before it. */
  ghost predicate Record(sky: seq<Seg>, k: nat, j: nat) {
    j < |sky| && forall i :: k <= i < j ==> sky[i].y < sky[j].y
  }

  /** Under the span from node `k` on, below height `m` so far, a surplus of `s` columns is harmless: of the
      nodes that reach into the last `s` columns each one is on the floor or higher than all before it, and
      the last one is on the floor. */
  ghost predicate Harmless(sky: seq<Seg>, k: nat, x1: int, s: int, m: int) {
    && (forall j: nat :: k <= j && Reaches(sky, j, x1, s) ==> sky[j].y == 0 || (m < sky[j].y && Record(sky, k, j)))
    && forall j: nat :: k <= j && Last(sky, j, x1) ==> sky[j].y == 0
  }

  /** The span starts inside a floor node and goes on behind it, and its surplus is not harmless. */
  ghost predicate Miscounts(sky: seq<Seg>, k: nat, x0: int, width: int) {
    && k + 1 < |sky| && sky[k].x < x0 && sky[k].y == 0 && sky[k + 1].x < x0 + width
    && !Harmless(sky, k + 1, x0 + width, x0 - sky[k].x, 0)
  }

  lemma FirstStep(sky: seq<Seg>, k: nat, x0: int, width: int)
    requires k + 1 < |sky| && sky[k].x < x0 < sky[k + 1].x && sky[k].y == 0 && 0 < width
    ensures var a := StepOver(sky, k, x0, width, Walk(0, 0, 0));
            a.minY == 0 && a.waste == 0 &&
            (sky[k + 1].x < x0 + width ==>
               a.visited - (sky[k + 1].x - x0) == Min(x0 - sky[k].x, x0 + width - sky[k + 1].x))
  {
  }

  lemma WalkOn(sky: seq<Seg>, k: nat, x0: int, width: int, a: Walk)
    requires k + 1 < |sky| && sky[k].x < x0 + width
    ensures WalkFrom(sky, k, x0, width, a) == WalkFrom(sky, k + 1, x0, width, StepOver(sky, k, x0, width, a))
  {
  }

  lemma WalkDone(sky: seq<Seg>, k: nat, x0: int, width: int, a: Walk)
    requires k < |sky| && x0 + width <= sky[k].x
    ensures WalkFrom(sky, k, x0, width, a) == a
  {
  }

  lemma NothingUnder(hs: seq<int>, x0: int, q: int)
    requires 0 <= x0 <= q <= |hs| && Flat(hs, x0, q, 0)
    ensures Gap(hs, x0, q, 0) == 0
  {
    GapFlat(hs, x0, x0, q, 0, 0);
  }

  lemma SameReach(sky: seq<Seg>, k: nat, x1: int, s: int, t: int)
    requires Sorted(sky) && k < |sky| && t == Min(s, x1 - sky[k].x)
    ensures forall j: nat :: k <= j ==> (Reaches(sky, j, x1, s) <==> Reaches(sky, j, x1, t))
  {
    forall j: nat | k <= j ensures Reaches(sky, j, x1, s) <==> Reaches(sky, j, x1, t) {
      if j + 1 < |sky| { assert sky[k].x < sky[j + 1].x; }
    }
  }

  /** Only as many columns as are left under the span matter. */
  lemma SmallSurplus(sky: seq<Seg>, k: nat, x1: int, s: int, t: int)
    requires Sorted(sky) && k < |sky| && t == Min(s, x1 - sky[k].x)
    ensures Harmless(sky, k, x1, s, 0) <==> Harmless(sky, k, x1, t, 0)
  {
    SameReach(sky, k, x1, s, t);
  }

  lemma ProfileShape(sky: seq<Seg>, hs: seq<int>)
    requires Profile(sky, hs)
    ensures Sorted(sky) && 0 < |sky| && |hs| == End(sky)
  {
  }

  /** One step of the walk behind the node in which the span starts. */
  lemma NextStep(sky: seq<Seg>, k: nat, x0: int, width: int, a: Walk, s: int)
    requires k + 1 < |sky| && x0 < sky[k].x < sky[k + 1].x && sky[k].x < x0 + width
    requires 1 <= s && a.visited == sky[k].x - x0 + s
    ensures var b, q, y := StepOver(sky, k, x0, width, a), Reached(sky, k + 1, x0, width), sky[k].y;
            var t := if sky[k + 1].x < x0 + width then Min(s, x0 + width - sky[k + 1].x) else 0;
            if y > a.minY then
              b.minY == y && b.waste == a.waste + a.visited * (y - a.minY)
                && b.visited == a.visited + sky[k + 1].x - sky[k].x
            else
              b.minY == a.minY && b.waste == a.waste + (q - sky[k].x - (s - t)) * (a.minY - y)
                && b.visited == q - x0 + t
  {
  }

  lemma RaiseStep(s: int, m: int, y: int, before: int, d: int)
    requires 1 <= s && 0 <= m < y
    ensures m * s + d + (before + s) * (y - m) == before * (y - m) + y * s + d
    ensures y * s > 0
  {
  }

  lemma FlatStep(s: int, t: int, m: int, y: int, columns: int, d: int)
    requires 0 <= t <= s && 0 <= y <= m
    ensures m * s + d + (columns - (s - t)) * (m - y) == columns * (m - y) + m * t + (d + (s - t) * y)
    ensures (s - t) * y >= 0 && ((s - t) * y == 0 <==> s == t || y == 0)
  {
  }

  /** What one step does to surplus and waste. */
  lemma NextSurplus(sky: seq<Seg>, hs: seq<int>, k: nat, x0: int, width: int, a: Walk, s: int, d: int)
    requires Walking(sky, hs, k, x0, width) && x0 < sky[k].x < x0 + width && 1 <= s && 0 <= a.minY
    requires k + 1 < |sky| && 0 <= sky[k].y && sky[k].x < sky[k + 1].x
    requires a.visited == sky[k].x - x0 + s
    requires a.waste == Gap(hs, x0, sky[k].x, a.minY) + a.minY * s + d
    ensures var b, q, y := StepOver(sky, k, x0, width, a), Reached(sky, k + 1, x0, width), sky[k].y;
            var t := if sky[k + 1].x < x0 + width then Min(s, x0 + width - sky[k + 1].x) else 0;
            q <= |hs| && if y > a.minY then
              b.minY == y && b.visited == sky[k + 1].x - x0 + s && b.waste == Gap(hs, x0, q, y) + y * s + d && y * s > 0
            else
              b.minY == a.minY && b.visited == q - x0 + t
                && b.waste == Gap(hs, x0, q, a.minY) + a.minY * t + (d + (s - t) * y)
              && (s - t) * y >= 0 && ((s - t) * y == 0 <==> s == t || y == 0)
  {
    hide StepOver, Gap, Profile, Sorted;
    var y, m := sky[k].y, a.minY;
    WalkStep(sky, hs, k, x0, width);
    ProfileShape(sky, hs);
    var q := Reached(sky, k + 1, x0, width);
    GapStep(hs, x0, sky[k].x, q, y, m);
    NextStep(sky, k, x0, width, a, s);
    if y > m {
      RaiseStep(s, m, y, sky[k].x - x0, d);
    } else {
      FlatStep(s, if sky[k + 1].x < x0 + width then Min(s, x0 + width - sky[k + 1].x) else 0, m, y, q - sky[k].x, d);
    }
  }

  lemma HarmlessRaise(sky: seq<Seg>, k: nat, x1: int, s: int, m: int)
    requires Sorted(sky) && k + 1 < |sky| && m < sky[k].y && sky[k + 1].x < x1
    ensures Harmless(sky, k, x1, s, m) <==> Harmless(sky, k + 1, x1, s, sky[k].y)
  {
    assert Record(sky, k, k) && !Last(sky, k, x1);
    forall j: nat | k + 1 <= j < |sky|
      ensures (m < sky[j].y && Record(sky, k, j)) <==> (sky[k].y < sky[j].y && Record(sky, k + 1, j))
    {
    }
  }

  lemma HarmlessFlat(sky: seq<Seg>, k: nat, x1: int, s: int, t: int, m: int)
    requires Sorted(sky) && k + 1 < |sky| && sky[k].y <= m && sky[k + 1].x < x1 && t == Min(s, x1 - sky[k + 1].x)
    ensures Harmless(sky, k, x1, s, m) <==> (s == t || sky[k].y == 0) && Harmless(sky, k + 1, x1, t, m)
  {
    SameReach(sky, k + 1, x1, s, t);
    assert sky[k].x < sky[k + 1].x;
    assert !Last(sky, k, x1) && (Reaches(sky, k, x1, s) <==> s != t);
    hide Reaches, Last;
    forall j: nat | k + 1 <= j < |sky| && m < sky[j].y ensures Record(sky, k, j) <==> Record(sky, k + 1, j) {
    }
  }

  lemma LastNode(sky: seq<Seg>, k: nat, x1: int, s: int, m: int)
    requires Sorted(sky) && k + 1 < |sky| && sky[k].x < x1 <= sky[k + 1].x && 1 <= s
    ensures Harmless(sky, k, x1, s, m) <==> sky[k].y == 0
  {
    assert Last(sky, k, x1);
    forall j: nat | k < j ensures !Reaches(sky, j, x1, s) && !Last(sky, j, x1) {
      if j < |sky| { assert x1 <= sky[j].x; }
    }
  }

  /** The walk with a surplus of `s` columns, and `d` wasted too much already. */
  lemma {:induction false} Surplus(sky: seq<Seg>, hs: seq<int>, k: nat, x0: int, width: int, a: Walk, s: int, d: int)
    requires Walking(sky, hs, k, x0, width) && x0 < sky[k].x < x0 + width && 1 <= s && 0 <= a.minY && 0 <= d
    requires forall i :: 0 <= i < |sky| - 1 ==> 0 <= sky[i].y
    requires a.visited == sky[k].x - x0 + s
    requires a.waste == Gap(hs, x0, sky[k].x, a.minY) + a.minY * s + d
    ensures var r := WalkFrom(sky, k, x0, width, a);
            var gap := Gap(hs, x0, x0 + width, r.minY);
            r.waste >= gap + d && (r.waste == gap + d <==> Harmless(sky, k, x0 + width, s, a.minY))
    decreases |sky| - k
  {
    hide Harmless, StepOver, WalkFrom, Gap, Profile, Sorted;
    ProfileShape(sky, hs);
    var x1, y, m := x0 + width, sky[k].y, a.minY;
    WalkStep(sky, hs, k, x0, width);
    NextSurplus(sky, hs, k, x0, width, a, s, d);
    var b := StepOver(sky, k, x0, width, a);
    WalkOn(sky, k, x0, width, a);
    if sky[k + 1].x >= x1 {
      WalkDone(sky, k + 1, x0, width, b);
      LastNode(sky, k, x1, s, m);
    } else if y > m {
      Surplus(sky, hs, k + 1, x0, width, b, s, d);
      HarmlessRaise(sky, k, x1, s, m);
    } else {
      var t := Min(s, x1 - sky[k + 1].x);
      Surplus(sky, hs, k + 1, x0, width, b, t, d + (s - t) * y);
      HarmlessFlat(sky, k, x1, s, t, m);
    }
  }

  lemma FloorStart(sky: seq<Seg>, hs: seq<int>, k: nat, x0: int, width: int)
    requires Span(sky, k, x0, width) && Profile(sky, hs) && 0 <= x0 && sky[k].x < x0 && sky[k].y == 0
    ensures var r := MinY(sky, k, x0, width);
            var gap := Gap(hs, x0, x0 + width, r.minY);
            r.waste >= gap && (r.waste == gap <==> !Miscounts(sky, k, x0, width))
  {
    hide Harmless, StepOver, WalkFrom, Gap, Profile, Sorted, Record, Rest;
    ProfileShape(sky, hs);
    WalkStep(sky, hs, k, x0, width);
    var p, q, x1 := Reached(sky, k, x0, width), Reached(sky, k + 1, x0, width), x0 + width;
    NothingUnder(hs, x0, q);
    FirstStep(sky, k, x0, width);
    var a := StepOver(sky, k, x0, width, Walk(0, 0, 0));
    WalkOn(sky, k, x0, width, Walk(0, 0, 0));
    if sky[k + 1].x < x1 {
      var s := a.visited - (q - x0);
      Surplus(sky, hs, k + 1, x0, width, a, s, 0);
      SmallSurplus(sky, k + 1, x1, x0 - sky[k].x, s);
    } else {
      WalkDone(sky, k + 1, x0, width, a);
    }
  }

  /** The reported waste is never too small, and it is the area under the rectangle exactly when the surplus
      is harmless. */
  lemma WasteExactIff(sky: seq<Seg>, k: nat, x0: int, width: int)
    requires Span(sky, k, x0, width)
    ensures 0 <= x0 && Rest(Heights(sky), x0, x0 + width) >= 0
    ensures var gap := Gap(Heights(sky), x0, x0 + width, Rest(Heights(sky), x0, x0 + width));
            MinY(sky, k, x0, width).waste >= gap
              && (MinY(sky, k, x0, width).waste == gap <==> !Miscounts(sky, k, x0, width))
  {
    hide Heights, Harmless;
    HeightsProfile(sky);
    HeightAt(sky, k, x0);
    MinYIsRest(sky, k, x0, width);
    if x0 == sky[k].x || sky[k].y > 0 {
      MinYWasteIsGap(sky, k, x0, width);
    } else {
      FloorStart(sky, Heights(sky), k, x0, width);
    }
  }

  // ----- On reached skylines -----

  /** Only the last node before the sentinel may be on the floor. */
  ghost predicate FloorLast(sky: seq<Seg>) {
    forall k :: 0 <= k < |sky| - 2 ==> 0 < sky[k].y
  }

  /** Then no span is miscounted, wherever it starts: what is reported is the area under the rectangle. */
  lemma WasteIsGap(sky: seq<Seg>, k: nat, x0: int, width: int)
    requires Span(sky, k, x0, width) && FloorLast(sky)
    ensures 0 <= x0 && MinY(sky, k, x0, width).minY == Rest(Heights(sky), x0, x0 + width)
    ensures MinY(sky, k, x0, width).waste ==
            Gap(Heights(sky), x0, x0 + width, Rest(Heights(sky), x0, x0 + width))
  {
    hide Heights, Harmless;
    WasteExactIff(sky, k, x0, width);
    MinYIsRest(sky, k, x0, width);
    assert sky[k].y == 0 ==> sky[k + 1].x == End(sky);
  }
}
