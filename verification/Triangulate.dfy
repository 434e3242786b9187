/** Splitting a polygon into triangles: a fan when it is convex, ear clipping otherwise. */
module Triangulate {
  import opened Permutations
  import opened Polygon

  datatype Triangle = Triangle(a: Point, b: Point, c: Point)

  function TriArea2(t: Triangle): real { Cross(t.a, t.b, t.c) }

  /** Twice the total signed area. */
  function Total(tris: seq<Triangle>): real {
    if tris == [] then 0.0 else Total(tris[..|tris| - 1]) + TriArea2(tris[|tris| - 1])
  }

  // ----- Convex polygons -----

  predicate TurnsLeft(poly: seq<Point>, i: nat)
    requires i < |poly|
  {
    var j := Next(i, |poly|);
    Cross(poly[i], poly[j], poly[Next(j, |poly|)]) >= -0.1
  }

  ghost predicate Convex(poly: seq<Point>) {
    forall i :: 0 <= i < |poly| ==> TurnsLeft(poly, i)
  }

  /** The first `k` triangles of the fan around the first vertex. */
  function Fan(poly: seq<Point>, k: nat): (tris: seq<Triangle>)
    requires k + 2 <= |poly|
    ensures |tris| == k
  {
    if k == 0 then [] else Fan(poly, k - 1) + [Triangle(poly[0], poly[k], poly[k + 1])]
  }

  lemma TwoVertices(s: seq<Point>)
    requires |s| == 2
    ensures Area2(s) == 0.0
  {
    assert Path(s) == Cross2(s[0], s[1]) + Path(s[1..]);
    CrossIsCycle(s[0], s[1], s[0]);
  }

  lemma {:induction false} FanArea(poly: seq<Point>, k: nat)
    requires k + 2 <= |poly|
    ensures Total(Fan(poly, k)) == Area2(poly[..k + 2])
  {
    if k == 0 {
      TwoVertices(poly[..2]);
    } else {
      FanArea(poly, k - 1);
      var s := poly[..k + 2];
      assert s[k] == poly[k] && s[0] == poly[0] && s[k + 1] == poly[k + 1];
      assert RemoveAt(s, k + 1) == poly[..k + 1];
      Neighbours(k + 1, k + 2);
      CutVertex(s, k + 1);
      var t := Triangle(poly[0], poly[k], poly[k + 1]);
      CrossIsCycle(t.a, t.b, t.c);
      CrossIsCycle(t.b, t.c, t.a);
      assert Fan(poly, k)[..k - 1] == Fan(poly, k - 1);
    }
  }

  /** The fan covers the polygon: its signed areas add up to the polygon's. */
  lemma FanConservesArea(poly: seq<Point>)
    requires 3 <= |poly|
    ensures Total(Fan(poly, |poly| - 2)) == Area2(poly)
  {
    hide Total, Fan, Area2;
    FanArea(poly, |poly| - 2);
    assert poly[..|poly|] == poly;
  }

  // ----- Ear clipping -----

  /** The polygon's vertices in the order of the index ring. */
  function Ring(poly: seq<Point>, idx: seq<nat>): (s: seq<Point>)
    requires forall k :: 0 <= k < |idx| ==> idx[k] < |poly|
    ensures |s| == |idx| && forall k :: 0 <= k < |idx| ==> s[k] == poly[idx[k]]
  {
    seq(|idx|, k requires 0 <= k < |idx| => poly[idx[k]])
  }

  function EarAt(s: seq<Point>, i: nat): Triangle
    requires i < |s|
  {
    Triangle(s[Prev(i, |s|)], s[i], s[Next(i, |s|)])
  }

  /** On the left of, or on, all three edges. */
  predicate Holds(t: Triangle, p: Point) {
    Cross(t.a, t.b, p) >= 0.0 && Cross(t.b, t.c, p) >= 0.0 && Cross(t.c, t.a, p) >= 0.0
  }

  /** `p` is the mean of the corners of `t` with the weights `u`, `v` and `w`. */
  predicate Mixes(t: Triangle, p: Point, u: real, v: real, w: real) {
    && u >= 0.0 && v >= 0.0 && w >= 0.0 && u + v + w == 1.0
    && p == Point(u * t.a.x + v * t.b.x + w * t.c.x, u * t.a.y + v * t.b.y + w * t.c.y)
  }

  lemma MixedCross(t: Triangle, p: Point, u: real, v: real, w: real)
    requires Mixes(t, p, u, v, w)
    ensures Cross(t.a, t.b, p) == w * TriArea2(t) && Cross(t.b, t.c, p) == u * TriArea2(t)
    ensures Cross(t.c, t.a, p) == v * TriArea2(t)
  {
    var a, b, c := t.a, t.b, t.c;
    assert u == 1.0 - v - w;
    assert p.x - a.x == v * (b.x - a.x) + w * (c.x - a.x) && p.y - a.y == v * (b.y - a.y) + w * (c.y - a.y);
    assert v == 1.0 - u - w;
    assert p.x - b.x == u * (a.x - b.x) + w * (c.x - b.x) && p.y - b.y == u * (a.y - b.y) + w * (c.y - b.y);
    assert w == 1.0 - u - v;
    assert p.x - c.x == u * (a.x - c.x) + v * (b.x - c.x) && p.y - c.y == u * (a.y - c.y) + v * (b.y - c.y);
  }

  /** The cross products weigh the corners, up to the area. */
  lemma WeighedCorners(t: Triangle, p: Point)
    ensures Cross(t.a, t.b, p) + Cross(t.b, t.c, p) + Cross(t.c, t.a, p) == TriArea2(t)
    ensures Cross(t.b, t.c, p) * t.a.x + Cross(t.c, t.a, p) * t.b.x + Cross(t.a, t.b, p) * t.c.x == TriArea2(t) * p.x
    ensures Cross(t.b, t.c, p) * t.a.y + Cross(t.c, t.a, p) * t.b.y + Cross(t.a, t.b, p) * t.c.y == TriArea2(t) * p.y
  {
  }

  lemma Share(part: real, whole: real) returns (u: real)
    requires 0.0 <= part && 0.0 < whole
    ensures 0.0 <= u && u * whole == part
  {
    u := part / whole;
    assert u < 0.0 ==> u * whole < 0.0;
  }

  lemma Cancelled(whole: real, p: real, q: real)
    requires 0.0 < whole && whole * p == whole * q
    ensures p == q
  {
    assert p > q ==> whole * (p - q) > 0.0;
    assert p < q ==> whole * (q - p) > 0.0;
  }

  lemma Weighed(whole: real, u: real, v: real, w: real, x: real, y: real, z: real, a: real, b: real, c: real, p: real)
    requires 0.0 < whole && u * whole == x && v * whole == y && w * whole == z && x * a + y * b + z * c == whole * p
    ensures u * a + v * b + w * c == p
  {
    assert x * a == whole * (u * a) && y * b == whole * (v * b) && z * c == whole * (w * c);
    Cancelled(whole, u * a + v * b + w * c, p);
  }

  lemma Weights(t: Triangle, p: Point) returns (u: real, v: real, w: real)
    requires TriArea2(t) > 0.0 && Holds(t, p)
    ensures Mixes(t, p, u, v, w)
  {
    hide Cross, TriArea2;
    var area, x, y, z := TriArea2(t), Cross(t.b, t.c, p), Cross(t.c, t.a, p), Cross(t.a, t.b, p);
    WeighedCorners(t, p);
    u := Share(x, area);
    v := Share(y, area);
    w := Share(z, area);
    Weighed(area, u, v, w, x, y, z, t.a.x, t.b.x, t.c.x, p.x);
    Weighed(area, u, v, w, x, y, z, t.a.y, t.b.y, t.c.y, p.y);
    Weighed(area, u, v, w, x, y, z, 1.0, 1.0, 1.0, 1.0);
  }

  /** The test for an ear finds exactly the points in or on the triangle. */
  lemma HoldsIff(t: Triangle, p: Point)
    requires TriArea2(t) > 0.0
    ensures Holds(t, p) <==> exists u, v, w :: Mixes(t, p, u, v, w)
  {
    if Holds(t, p) {
      var u, v, w := Weights(t, p);
    }
    if u, v, w :| Mixes(t, p, u, v, w) {
      MixedCross(t, p, u, v, w);
    }
  }

  /** Vertex `i` of the ring is an ear: its triangle runs strictly counter-clockwise and holds no other vertex. */
  ghost predicate Ear(s: seq<Point>, i: nat) {
    && i < |s| && TriArea2(EarAt(s, i)) > 0.0
    && forall j :: 0 <= j < |s| && j != Prev(i, |s|) && j != i && j != Next(i, |s|) ==> !Holds(EarAt(s, i), s[j])
  }

  lemma TurnedEar(s: seq<Point>, r: nat, i: nat)
    requires r < |s| && i < |s| && Ear(Turned(s, r), i)
    ensures Ear(s, TurnedIndex(i, r, |s|))
  {
    hide Cross, Next, Prev;
    var n, t, j := |s|, Turned(s, r), TurnedIndex(i, r, |s|);
    TurnedAt(s, r, i);
    assert EarAt(t, i) == EarAt(s, j);
    forall k | 0 <= k < n && k != Prev(j, n) && k != j && k != Next(j, n) ensures !Holds(EarAt(s, j), s[k]) {
      var m := if r <= k then k - r else k - r + n;
      assert t[m] == s[k] && k == TurnedIndex(m, r, n);
    }
  }

  ghost predicate Clips(s: seq<Point>, t: Triangle, s': seq<Point>) {
    && 3 <= |s|
    && exists i :: Ear(s, i) && t == EarAt(s, i) && s' == RemoveAt(s, i) && forall j: nat :: j < i ==> !Ear(s, j)
  }

  /** `rings` are the rings that clipping passes through, and `tris` the ears cut off between them, each
      time the first one there is. */
  ghost predicate Clipping(rings: seq<seq<Point>>, tris: seq<Triangle>) {
    && |rings| == |tris| + 1
    && forall k :: 0 <= k < |tris| ==> Clips(rings[k], tris[k], rings[k + 1])
  }

  lemma ClippingShape(rings: seq<seq<Point>>, tris: seq<Triangle>)
    requires Clipping(rings, tris)
    ensures |rings| == |tris| + 1
  {
  }

  lemma ClippedEar(rings: seq<seq<Point>>, tris: seq<Triangle>, k: nat)
    requires Clipping(rings, tris) && k < |tris|
    ensures exists i: nat :: i < |rings[k]| && Ear(rings[k], i) && rings[k + 1] == RemoveAt(rings[k], i)
    ensures 3 <= |rings[k]|
  {
    assert Clips(rings[k], tris[k], rings[k + 1]);
  }

  /** No vertex before the one that is clipped off is an ear, and no other vertex lies in or on its triangle. */
  lemma FirstEarIsClipped(rings: seq<seq<Point>>, tris: seq<Triangle>, k: nat) returns (i: nat)
    requires Clipping(rings, tris) && k < |tris|
    ensures var s := rings[k];
            var n := |s|;
            && 3 <= n && i < n && rings[k + 1] == s[..i] + s[i + 1..]
            && tris[k] == Triangle(s[Prev(i, n)], s[i], s[Next(i, n)])
            && (forall j: nat :: j < i ==> !Ear(s, j))
            && forall j :: 0 <= j < n && j != Prev(i, n) && j != i && j != Next(i, n) ==>
                 Cross(s[Prev(i, n)], s[i], s[j]) < 0.0 || Cross(s[i], s[Next(i, n)], s[j]) < 0.0
                 || Cross(s[Next(i, n)], s[Prev(i, n)], s[j]) < 0.0
  {
    assert Clips(rings[k], tris[k], rings[k + 1]);
    i :| Ear(rings[k], i) && tris[k] == EarAt(rings[k], i) && rings[k + 1] == RemoveAt(rings[k], i)
         && forall j: nat :: j < i ==> !Ear(rings[k], j);
  }

  /** However far clipping gets, the triangles and the ring that is left have the area of the ring it
      started from, and every triangle costs one vertex. */
  lemma {:induction false} ClippingConservesArea(rings: seq<seq<Point>>, tris: seq<Triangle>)
    requires Clipping(rings, tris)
    ensures Total(tris) + Area2(rings[|tris|]) == Area2(rings[0])
    ensures |tris| + |rings[|tris|]| == |rings[0]|
  {
    if tris != [] {
      var n := |tris| - 1;
      ClippingConservesArea(rings[..n + 1], tris[..n]);
      var s := rings[n];
      assert Clips(s, tris[n], rings[n + 1]);
      var i :| Ear(s, i) && tris[n] == EarAt(s, i) && rings[n + 1] == RemoveAt(s, i);
      CutVertex(s, i);
    }
  }

  /** Every triangle cut off runs strictly counter-clockwise. */
  lemma ClippedPositive(rings: seq<seq<Point>>, tris: seq<Triangle>, k: nat)
    requires Clipping(rings, tris) && k < |tris|
    ensures TriArea2(tris[k]) > 0.0
  {
    assert Clips(rings[k], tris[k], rings[k + 1]);
  }

  lemma {:induction false} TotalPositive(rings: seq<seq<Point>>, tris: seq<Triangle>)
    requires Clipping(rings, tris)
    ensures Total(tris) >= 0.0 && (tris != [] ==> Total(tris) > 0.0)
  {
    if tris != [] {
      var n := |tris| - 1;
      TotalPositive(rings[..n + 1], tris[..n]);
      ClippedPositive(rings, tris, n);
    }
  }

  /** A ring clipped down to two vertices has been covered completely. */
  lemma ClippedCompletely(rings: seq<seq<Point>>, tris: seq<Triangle>)
    requires Clipping(rings, tris) && |rings[|tris|]| == 2
    ensures Total(tris) == Area2(rings[0]) && |tris| == |rings[0]| - 2
    ensures 2 < |rings[0]| ==> Area2(rings[0]) > 0.0
  {
    ClippingConservesArea(rings, tris);
    TotalPositive(rings, tris);
    TwoVertices(rings[|tris|]);
  }

  /** Two vertices are left, or no vertex is an ear. */
  ghost predicate StopsAt(s: seq<Point>) {
    2 <= |s| && (2 < |s| ==> forall i :: !Ear(s, i))
  }

  /** The ring determines every ear that is clipped. */
  lemma SameEar(s: seq<Point>, t: Triangle, s': seq<Point>, u: Triangle, s'': seq<Point>)
    requires Clips(s, t, s') && Clips(s, u, s'')
    ensures t == u && s' == s''
  {
    hide EarAt, RemoveAt;
    var i :| Ear(s, i) && t == EarAt(s, i) && s' == RemoveAt(s, i) && forall j: nat :: j < i ==> !Ear(s, j);
    var k :| Ear(s, k) && u == EarAt(s, k) && s'' == RemoveAt(s, k) && forall j: nat :: j < k ==> !Ear(s, j);
    assert i == k;
  }

  lemma {:induction false} SameClipping(rings: seq<seq<Point>>, tris: seq<Triangle>, rings': seq<seq<Point>>,
                                        tris': seq<Triangle>, k: nat)
    requires Clipping(rings, tris) && Clipping(rings', tris') && rings[0] == rings'[0] && k <= |tris| && k <= |tris'|
    ensures rings[k] == rings'[k] && tris[..k] == tris'[..k]
  {
    hide Clips;
    if k > 0 {
      SameClipping(rings, tris, rings', tris', k - 1);
      assert Clips(rings[k - 1], tris[k - 1], rings[k - 1 + 1])
        && Clips(rings'[k - 1], tris'[k - 1], rings'[k - 1 + 1]);
      SameEar(rings[k - 1], tris[k - 1], rings[k], tris'[k - 1], rings'[k]);
      assert tris[..k] == tris[..k - 1] + [tris[k - 1]] && tris'[..k] == tris'[..k - 1] + [tris'[k - 1]];
    }
  }

  lemma NotStopped(rings: seq<seq<Point>>, tris: seq<Triangle>, k: nat)
    requires Clipping(rings, tris) && k < |tris|
    ensures !StopsAt(rings[k])
  {
    hide Ear, EarAt;
    assert Clips(rings[k], tris[k], rings[k + 1]);
  }

  lemma NoMoreEars(rings: seq<seq<Point>>, tris: seq<Triangle>, rings': seq<seq<Point>>, tris': seq<Triangle>)
    requires Clipping(rings, tris) && Clipping(rings', tris') && rings[0] == rings'[0] && StopsAt(rings[|tris|])
    ensures |tris'| <= |tris|
  {
    hide Clipping, StopsAt;
    var n := |tris|;
    if n < |tris'| {
      NotStopped(rings', tris', n);
      SameClipping(rings, tris, rings', tris', n);
    }
  }

  /** Clipping as far as possible has one outcome only. */
  lemma ClippingIsUnique(rings: seq<seq<Point>>, tris: seq<Triangle>, rings': seq<seq<Point>>, tris': seq<Triangle>)
    requires Clipping(rings, tris) && Clipping(rings', tris') && rings[0] == rings'[0]
    requires StopsAt(rings[|tris|]) && StopsAt(rings'[|tris'|])
    ensures tris == tris' && rings[|tris|] == rings'[|tris'|]
  {
    hide Clipping, StopsAt;
    NoMoreEars(rings, tris, rings', tris');
    NoMoreEars(rings', tris', rings, tris);
    SameClipping(rings, tris, rings', tris', |tris|);
    assert tris[..|tris|] == tris && tris'[..|tris|] == tris';
  }

  // ----- The whole -----

  method IsConvex(poly: seq<Point>) returns (convex: bool)
    requires 3 <= |poly|
    ensures convex <==> Convex(poly)
  {
    var n := |poly|;
    convex := true;
    var i := 0;
    while i < n && convex
      invariant 0 <= i <= n && (convex ==> forall k :: 0 <= k < i ==> TurnsLeft(poly, k))
      invariant !convex ==> !Convex(poly)
      decreases n - i
    {
      var j := Next(i, n);
      if Cross(poly[i], poly[j], poly[Next(j, n)]) < -0.1 {
        assert !TurnsLeft(poly, i);
        convex := false;
      }
      i := i + 1;
    }
  }

  /** Whether vertex `i` of the ring is an ear. */
  method IsEar(s: seq<Point>, i: nat) returns (ear: bool)
    requires 3 <= |s| && i < |s|
    ensures ear <==> Ear(s, i)
  {
    var sz := |s|;
    var prev, next := Prev(i, sz), Next(i, sz);
    var t := Triangle(s[prev], s[i], s[next]);
    if Cross(t.a, t.b, t.c) <= 0.0 {
      return false;
    }
    var j := 0;
    while j < sz
      invariant 0 <= j <= sz
      invariant forall k :: 0 <= k < j && k != prev && k != i && k != next ==> !Holds(t, s[k])
    {
      if j != prev && j != i && j != next && Holds(t, s[j]) {
        return false;
      }
      j := j + 1;
    }
    return true;
  }

  /** The first ear of the ring, if it has one. */
  method FindEar(s: seq<Point>) returns (found: bool, i: nat)
    requires 3 <= |s|
    ensures found ==> i < |s| && Ear(s, i) && forall j: nat :: j < i ==> !Ear(s, j)
    ensures !found ==> forall j :: !Ear(s, j)
  {
    i := 0;
    while i < |s|
      invariant 0 <= i <= |s|
      invariant forall j: nat :: j < i ==> !Ear(s, j)
    {
      found := IsEar(s, i);
      if found {
        return;
      }
      i := i + 1;
    }
    return false, i;
  }

  /** The indices in order, turned around when the polygon runs clockwise. */
  method InitialRing(poly: seq<Point>) returns (idx: seq<nat>)
    requires 3 <= |poly|
    ensures |idx| == |poly| && forall k :: 0 <= k < |idx| ==> idx[k] < |poly|
    ensures Ring(poly, idx) == poly || Ring(poly, idx) == Reversed(poly)
    ensures Area2(Ring(poly, idx)) == Abs(Area2(poly))
  {
    hide Path, Area2;
    idx := seq(|poly|, k requires 0 <= k < |poly| => k);
    assert Ring(poly, idx) == poly;
    var area := SignedArea(poly);
    ReversedArea(poly);
    if area < 0.0 {
      idx := Reversed(idx);
      assert Ring(poly, idx) == Reversed(poly);
    }
  }

  lemma NothingClipped(s: seq<Point>)
    ensures Clipping([s], [])
  {
  }

  lemma ClippingGoesOn(rings: seq<seq<Point>>, tris: seq<Triangle>, i: nat)
    requires Clipping(rings, tris)
    requires var s := rings[|tris|]; 3 <= |s| && Ear(s, i) && forall j: nat :: j < i ==> !Ear(s, j)
    ensures var s := rings[|tris|]; Clipping(rings + [RemoveAt(s, i)], tris + [EarAt(s, i)])
  {
    var s := rings[|tris|];
    var rings', tris' := rings + [RemoveAt(s, i)], tris + [EarAt(s, i)];
    forall k | 0 <= k < |tris'| ensures Clips(rings'[k], tris'[k], rings'[k + 1]) {
      if k < |tris| { assert Clips(rings[k], tris[k], rings[k + 1]); }
    }
  }

  /** Clips ears off until two vertices are left or no vertex is an ear; `safety` never ends the loop. */
  method ClipEars(poly: seq<Point>, ring: seq<nat>) returns (tris: seq<Triangle>, ghost rings: seq<seq<Point>>)
    requires 3 <= |ring| && forall k :: 0 <= k < |ring| ==> ring[k] < |poly|
    ensures Clipping(rings, tris) && rings[0] == Ring(poly, ring)
    ensures StopsAt(rings[|tris|])
  {
    hide Clipping, Ear, EarAt;
    var n := |ring|;
    var idx: seq<nat> := ring;
    tris, rings := [], [Ring(poly, idx)];
    NothingClipped(rings[0]);
    var safety := n * 3;
    while |idx| > 2 && safety > 0
      invariant |tris| + |idx| == n && safety == n * 3 - |tris| && 2 <= |idx|
      invariant forall k :: 0 <= k < |idx| ==> idx[k] < |poly|
      invariant |rings| == |tris| + 1 && rings[0] == Ring(poly, ring) && rings[|tris|] == Ring(poly, idx)
      invariant Clipping(rings, tris)
    {
      safety := safety - 1;
      var s := Ring(poly, idx);
      var found, i := FindEar(s);
      if !found {
        break;
      }
      ClippingGoesOn(rings, tris, i);
      tris := tris + [EarAt(s, i)];
      rings := rings + [RemoveAt(s, i)];
      idx := RemoveAt(idx, i);
      assert Ring(poly, idx) == RemoveAt(s, i);
    }
  }

  /** `tris` is what becomes of `poly`: nothing, the fan, or all the ears that can be clipped one after another;
      `rings` are the rings that clipping goes through. */
  ghost predicate Splits(poly: seq<Point>, tris: seq<Triangle>, rings: seq<seq<Point>>) {
    && (|poly| < 3 ==> tris == [])
    && (3 <= |poly| && Convex(poly) ==> tris == Fan(poly, |poly| - 2))
    && (3 <= |poly| && !Convex(poly) ==>
         && Clipping(rings, tris) && (rings[0] == poly || rings[0] == Reversed(poly))
         && Area2(rings[0]) == Abs(Area2(poly)) && StopsAt(rings[|tris|]))
  }

  lemma SplitByClipping(poly: seq<Point>, tris: seq<Triangle>, rings: seq<seq<Point>>)
    requires 3 <= |poly| && Splits(poly, tris, rings) && !Convex(poly)
    ensures Clipping(rings, tris) && |rings| == |tris| + 1 && (rings[0] == poly || rings[0] == Reversed(poly))
    ensures Area2(rings[0]) == Abs(Area2(poly)) && StopsAt(rings[|tris|])
  {
  }

  /** However `poly` is split, nothing of its area is lost. */
  lemma SplitConservesArea(poly: seq<Point>, tris: seq<Triangle>, rings: seq<seq<Point>>)
    requires 3 <= |poly| && Splits(poly, tris, rings)
    ensures Convex(poly) ==> |tris| == |poly| - 2 && Total(tris) == Area2(poly)
    ensures !Convex(poly) ==>
              |tris| == |poly| - |rings[|tris|]| && Total(tris) + Area2(rings[|tris|]) == Abs(Area2(poly))
  {
    if Convex(poly) {
      FanConservesArea(poly);
    } else {
      ClippingConservesArea(rings, tris);
    }
  }

  lemma {:induction false} FanAt(poly: seq<Point>, k: nat, i: nat)
    requires k + 2 <= |poly| && i < k
    ensures Fan(poly, k)[i] == Triangle(poly[0], poly[i + 1], poly[i + 2])
  {
    if i < k - 1 { FanAt(poly, k - 1, i); }
  }

  /** A single corner that turns right by more than a tenth has the polygon clipped, into triangles that all run
      counter-clockwise. */
  lemma ReflexIsClipped(poly: seq<Point>, tris: seq<Triangle>, rings: seq<seq<Point>>, i: nat, k: nat)
    requires 3 <= |poly| && Splits(poly, tris, rings) && i < |poly| && k < |tris|
    requires Cross(poly[Prev(i, |poly|)], poly[i], poly[Next(i, |poly|)]) < -0.1
    ensures !Convex(poly) && TriArea2(tris[k]) > 0.0
  {
    hide Cross, Clipping, Area2, Prev, Next;
    var n := |poly|;
    Neighbours(i, n);
    var j := Prev(i, n);
    Neighbours(j, n);
    assert !TurnsLeft(poly, j);
    ClippedPositive(rings, tris, k);
  }

  /** When no corner does, the triangles are those of the first vertex with every edge that it is not on. */
  lemma OthersAreFanned(poly: seq<Point>, tris: seq<Triangle>, rings: seq<seq<Point>>, k: nat)
    requires 3 <= |poly| && Splits(poly, tris, rings)
    requires forall i :: 0 <= i < |poly| ==> Cross(poly[Prev(i, |poly|)], poly[i], poly[Next(i, |poly|)]) >= -0.1
    ensures Convex(poly) && |tris| == |poly| - 2
    ensures k < |tris| ==> tris[k] == Triangle(poly[0], poly[k + 1], poly[k + 2])
  {
    hide Cross, Clipping, Area2, Prev, Next;
    var n := |poly|;
    forall i | 0 <= i < n ensures TurnsLeft(poly, i) {
      Neighbours(i, n);
      Neighbours(Next(i, n), n);
    }
    if k < n - 2 { FanAt(poly, n - 2, k); }
  }

  /** The triangles of `poly`. */
  method Triangulate(poly: seq<Point>) returns (tris: seq<Triangle>, ghost rings: seq<seq<Point>>)
    ensures Splits(poly, tris, rings)
    ensures 3 <= |poly| && !Convex(poly) ==>
              && Clipping(rings, tris)
              && |tris| == |poly| - |rings[|tris|]| && Total(tris) + Area2(rings[|tris|]) == Abs(Area2(poly))
  {
    var n := |poly|;
    tris, rings := [], [];
    if n < 3 {
      return;
    }
    var convex := IsConvex(poly);
    if convex {
      var i := 1;
      while i + 1 < n
        invariant 1 <= i <= n - 1 && tris == Fan(poly, i - 1)
      {
        tris := tris + [Triangle(poly[0], poly[i], poly[i + 1])];
        i := i + 1;
      }
      return;
    }
    var idx := InitialRing(poly);
    tris, rings := ClipEars(poly, idx);
    ClippingConservesArea(rings, tris);
  }
}
