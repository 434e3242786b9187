/** Polygons that ear clipping covers completely.

A ring is monotone in a direction when going around it one moves forwards once and backwards once, and the
part that moves backwards lies on the left of the part that moves forwards. Monotone rings may have any number
of reflex vertices. Each one has an ear, and clipping an ear off leaves a monotone ring.
*/
module Monotone {
  import opened Permutations
  import opened Polygon
  import opened Triangulate

  // ----- Places along a direction -----

  predicate Strictly(x: real, y: real, z: real) {
    x < y < z || z < y < x
  }

  /** The numbers of a triangle and a point: the three signed areas add up to that of the triangle, and they
      weigh its corners into the point. */
  lemma Weights(d: Point, a: Point, b: Point, c: Point, p: Point)
    ensures Cross(a, b, c) == Cross(b, c, p) + Cross(c, a, p) + Cross(a, b, p)
    ensures Cross(a, b, c) * Along(d, p) ==
            Cross(b, c, p) * Along(d, a) + Cross(c, a, p) * Along(d, b) + Cross(a, b, p) * Along(d, c)
  {
  }

  lemma Times(x: real, y: real)
    ensures x >= 0.0 && y >= 0.0 ==> x * y >= 0.0
    ensures x <= 0.0 && y <= 0.0 ==> x * y >= 0.0
    ensures x >= 0.0 && y <= 0.0 ==> x * y <= 0.0
    ensures x <= 0.0 && y >= 0.0 ==> x * y <= 0.0
    ensures x * y == 0.0 ==> x == 0.0 || y == 0.0
  {
  }

  /** What is weighed with no negative weight lies between the outermost corners. */
  lemma Inside(u: real, v: real, w: real, fa: real, fb: real, fc: real, fp: real, lo: real, hi: real)
    requires u + v + w > 0.0 && u >= 0.0 && v >= 0.0 && w >= 0.0
    requires (u + v + w) * fp == u * fa + v * fb + w * fc
    requires lo <= fa <= hi && lo <= fb <= hi && lo <= fc <= hi
    ensures lo <= fp <= hi
  {
    Times(u, fa - lo); Times(v, fb - lo); Times(w, fc - lo);
    Times(u, hi - fa); Times(v, hi - fb); Times(w, hi - fc);
    assert (u + v + w) * (fp - lo) == u * (fa - lo) + v * (fb - lo) + w * (fc - lo);
    assert (u + v + w) * (hi - fp) == u * (hi - fa) + v * (hi - fb) + w * (hi - fc);
    Times(u + v + w, fp - lo); Times(u + v + w, hi - fp);
  }

  /** A point outside the places of a triangle's corners is outside the triangle. */
  lemma OutOfRange(d: Point, t: Triangle, p: Point, lo: real, hi: real)
    requires TriArea2(t) > 0.0
    requires lo <= Along(d, t.a) <= hi && lo <= Along(d, t.b) <= hi && lo <= Along(d, t.c) <= hi
    requires Along(d, p) < lo || hi < Along(d, p)
    ensures !Holds(t, p)
  {
    if Holds(t, p) {
      hide Along, Cross;
      Weights(d, t.a, t.b, t.c, p);
      Inside(Cross(t.b, t.c, p), Cross(t.c, t.a, p), Cross(t.a, t.b, p),
        Along(d, t.a), Along(d, t.b), Along(d, t.c), Along(d, p), lo, hi);
    }
  }

  // ----- Monotone rings -----

  /** The places of the vertices. */
  function Places(s: seq<Point>, d: Point): (xs: seq<real>)
    ensures |xs| == |s| && forall i :: 0 <= i < |s| ==> xs[i] == Along(d, s[i])
  {
    seq(|s|, i requires 0 <= i < |s| => Along(d, s[i]))
  }

  ghost predicate Apart(xs: seq<real>) {
    forall i, j :: 0 <= i < j < |xs| ==> xs[i] != xs[j]
  }

  /** Two places with higher ones in both gaps between them, or two with lower ones. */
  predicate Alternate(xs: seq<real>, i: nat, j: nat, k: nat, l: nat)
    requires i < |xs| && j < |xs| && k < |xs| && l < |xs|
  {
    || (xs[i] < xs[j] && xs[k] < xs[j] && xs[k] < xs[l] && xs[i] < xs[l])
    || (xs[i] > xs[j] && xs[k] > xs[j] && xs[k] > xs[l] && xs[i] > xs[l])
  }

  /** Once forwards, once backwards, and never at the same place twice. */
  ghost predicate OnceAround(xs: seq<real>) {
    && Apart(xs)
    && forall i: nat, j: nat, k: nat, l: nat :: i < j < k < l < |xs| ==> !Alternate(xs, i, j, k, l)
  }

  ghost predicate Beside(d: Point, a: Point, b: Point, p: Point) {
    Strictly(Along(d, a), Along(d, p), Along(d, b)) ==> Cross(a, b, p) > 0.0
  }

  /** Vertices beside edge `i` are on its left. */
  ghost predicate LeftOf(s: seq<Point>, d: Point, i: nat)
    requires i < |s|
  {
    forall j :: 0 <= j < |s| ==> Beside(d, s[i], s[Next(i, |s|)], s[j])
  }

  ghost predicate MonotoneIn(s: seq<Point>, d: Point) {
    OnceAround(Places(s, d)) && forall i :: 0 <= i < |s| ==> LeftOf(s, d, i)
  }

  // ----- Clipping keeps a ring monotone -----

  lemma InTheEar(u: real, v: real, w: real, fa: real, fb: real, fc: real, fp: real)
    requires u + v + w > 0.0 && v >= 0.0 && fa < fp < fc && fp != fb
    requires (u + v + w) * fp == u * fa + v * fb + w * fc
    requires Strictly(fa, fp, fb) ==> w > 0.0
    requires Strictly(fb, fp, fc) ==> u > 0.0
    ensures u >= 0.0 && w >= 0.0
  {
    var t := u + v + w;
    if fp < fb && u < 0.0 {
      assert t * (fp - fb) == u * (fa - fb) + w * (fc - fb);
      assert t * (fp - fc) == u * (fa - fc) + v * (fb - fc);
      Times(t, fp - fb); Times(t, fp - fc); Times(u, fa - fb); Times(u, fa - fc); Times(w, fc - fb); Times(v, fb - fc);
    }
    if fb < fp && w < 0.0 {
      assert t * (fp - fb) == u * (fa - fb) + w * (fc - fb);
      assert t * (fp - fa) == v * (fb - fa) + w * (fc - fa);
      Times(t, fp - fb); Times(t, fp - fa); Times(u, fa - fb); Times(w, fc - fb); Times(v, fb - fa); Times(w, fc - fa);
    }
  }

  lemma BesideTheEar(u: real, v: real, w: real, fa: real, fb: real, fc: real, fp: real)
    requires u + v + w > 0.0 && v >= 0.0 && Strictly(fa, fp, fc) && fp != fb
    requires (u + v + w) * fp == u * fa + v * fb + w * fc
    requires Strictly(fa, fp, fb) ==> w > 0.0
    requires Strictly(fb, fp, fc) ==> u > 0.0
    ensures u >= 0.0 && w >= 0.0
  {
    if fa < fc {
      InTheEar(u, v, w, fa, fb, fc, fp);
    } else {
      assert (u + v + w) * (-fp) == u * (-fa) + v * (-fb) + w * (-fc);
      InTheEar(u, v, w, -fa, -fb, -fc, -fp);
    }
  }

  lemma CrossSwaps(a: Point, c: Point, p: Point)
    ensures Cross(a, c, p) == -Cross(c, a, p)
  {
  }

  /** The edge that closes the gap has the vertices beside it on its left, as long as none is in the ear. */
  lemma NewEdge(d: Point, a: Point, b: Point, c: Point, p: Point)
    requires Cross(a, b, c) > 0.0 && !Holds(Triangle(a, b, c), p)
    requires Beside(d, a, b, p) && Beside(d, b, c, p) && Along(d, p) != Along(d, b)
    ensures Beside(d, a, c, p)
  {
    CrossSwaps(a, c, p);
    Weights(d, a, b, c, p);
    hide Along, Cross;
    var u, v, w := Cross(b, c, p), Cross(c, a, p), Cross(a, b, p);
    if Strictly(Along(d, a), Along(d, p), Along(d, c)) && v >= 0.0 {
      BesideTheEar(u, v, w, Along(d, a), Along(d, b), Along(d, c), Along(d, p));
    }
  }

  lemma RemainsAt(s: seq<Point>, i: nat, j: nat)
    requires i < |s| && j < |s| - 1
    ensures Up(j, i) < |s| && RemoveAt(s, i)[j] == s[Up(j, i)]
  {
  }

  lemma PlaceAfterRemoval(n: nat, i: nat, j: nat)
    requires 2 <= n && i < n && j < n - 1
    ensures Up(j, i) < n && Up(j, i) != i
    ensures Up(Next(j, n - 1), i) == if Next(Up(j, i), n) == i then Next(i, n) else Next(Up(j, i), n)
    ensures Next(Up(j, i), n) == i ==> Up(j, i) == Prev(i, n)
  {
    hide Next, Prev;
    Neighbours(j, n - 1);
    Neighbours(Up(j, i), n);
    Neighbours(i, n);
  }

  /** Where the vertices of a ring and their successors are after vertex `i` has been taken out. */
  lemma AfterRemoval(s: seq<Point>, i: nat, j: nat)
    requires 2 <= |s| && i < |s| && j < |s| - 1
    ensures Up(j, i) < |s| && Up(j, i) != i && RemoveAt(s, i)[j] == s[Up(j, i)]
    ensures Next(j, |s| - 1) < |s| - 1
    ensures RemoveAt(s, i)[Next(j, |s| - 1)] ==
            if Next(Up(j, i), |s|) == i then s[Next(i, |s|)] else s[Next(Up(j, i), |s|)]
    ensures Next(Up(j, i), |s|) == i ==> Up(j, i) == Prev(i, |s|)
  {
    hide Next, Prev, Up;
    PlaceAfterRemoval(|s|, i, j);
    assert RemoveAt(s, i)[j] == s[Up(j, i)] by { RemainsAt(s, i, j); }
    RemainsAt(s, i, Next(j, |s| - 1));
  }

  lemma SameAlternate(xs: seq<real>, i: nat, j: nat, k: nat, l: nat, ys: seq<real>, a: nat, b: nat, c: nat, e: nat)
    requires i < |xs| && j < |xs| && k < |xs| && l < |xs| && a < |ys| && b < |ys| && c < |ys| && e < |ys|
    requires xs[i] == ys[a] && xs[j] == ys[b] && xs[k] == ys[c] && xs[l] == ys[e]
    ensures Alternate(xs, i, j, k, l) <==> Alternate(ys, a, b, c, e)
  {
  }

  lemma RemovalKeepsOnce(xs: seq<real>, i: nat)
    requires OnceAround(xs) && i < |xs|
    ensures OnceAround(RemoveAt(xs, i))
  {
    hide Alternate;
    var ys := RemoveAt(xs, i);
    assert forall j :: 0 <= j < |ys| ==> ys[j] == xs[Up(j, i)];
    forall a: nat, b: nat, c: nat, e: nat | a < b < c < e < |ys| ensures !Alternate(ys, a, b, c, e) {
      assert !Alternate(xs, Up(a, i), Up(b, i), Up(c, i), Up(e, i));
      SameAlternate(ys, a, b, c, e, xs, Up(a, i), Up(b, i), Up(c, i), Up(e, i));
    }
  }

  lemma NewEdgeAt(s: seq<Point>, d: Point, i: nat, k: nat)
    requires MonotoneIn(s, d) && 3 <= |s| && Ear(s, i) && i < |s| && k < |s| && k != i
    ensures Beside(d, s[Prev(i, |s|)], s[Next(i, |s|)], s[k])
  {
    hide Cross, Along;
    var n := |s|;
    var xs := Places(s, d);
    assert xs[i] != xs[k];
    Neighbours(i, n);
    Neighbours(Prev(i, n), n);
    var a, c := Prev(i, n), Next(i, n);
    if k != a && k != c {
      assert LeftOf(s, d, a) && LeftOf(s, d, i);
      assert !Holds(EarAt(s, i), s[k]);
      NewEdge(d, s[a], s[i], s[c], s[k]);
    }
  }

  lemma LeftOfKept(s: seq<Point>, d: Point, i: nat, j: nat)
    requires MonotoneIn(s, d) && 3 <= |s| && Ear(s, i) && i < |s| && j < |s| - 1
    ensures LeftOf(RemoveAt(s, i), d, j)
  {
    hide Cross, Along, OnceAround, Ear, Next, Prev;
    var n, t := |s|, RemoveAt(s, i);
    AfterRemoval(s, i, j);
    forall k | 0 <= k < |t| ensures Beside(d, t[j], t[Next(j, |t|)], t[k]) {
      AfterRemoval(s, i, k);
      assert LeftOf(s, d, Up(j, i));
      if Next(Up(j, i), n) == i {
        NewEdgeAt(s, d, i, Up(k, i));
      }
    }
  }

  /** Clipping an ear off leaves a monotone ring. */
  lemma ClippingKeeps(s: seq<Point>, d: Point, i: nat)
    requires MonotoneIn(s, d) && 3 <= |s| && i < |s| && Ear(s, i)
    ensures MonotoneIn(RemoveAt(s, i), d)
  {
    hide OnceAround, LeftOf, Ear;
    RemovalKeepsOnce(Places(s, d), i);
    assert Places(RemoveAt(s, i), d) == RemoveAt(Places(s, d), i);
    forall j | 0 <= j < |s| - 1 ensures LeftOf(RemoveAt(s, i), d, j) {
      LeftOfKept(s, d, i, j);
    }
  }

  // ----- Going around a ring from another vertex, and the other way -----

  lemma AlternateTurns(xs: seq<real>, i: nat, j: nat, k: nat, l: nat)
    requires i < |xs| && j < |xs| && k < |xs| && l < |xs|
    ensures Alternate(xs, i, j, k, l) <==> Alternate(xs, j, k, l, i)
  {
  }

  lemma TurnedOnce(xs: seq<real>, r: nat)
    requires OnceAround(xs) && r < |xs|
    ensures OnceAround(Turned(xs, r))
  {
    hide Alternate;
    var n, ys := |xs|, Turned(xs, r);
    forall i: nat, j: nat, k: nat, l: nat | i < j < k < l < n ensures !Alternate(ys, i, j, k, l) {
      var a, b, c, e := TurnedIndex(i, r, n), TurnedIndex(j, r, n), TurnedIndex(k, r, n), TurnedIndex(l, r, n);
      SameAlternate(ys, i, j, k, l, xs, a, b, c, e);
      AlternateTurns(xs, a, b, c, e);
      AlternateTurns(xs, b, c, e, a);
      AlternateTurns(xs, c, e, a, b);
      assert a < b < c < e || b < c < e < a || c < e < a < b || e < a < b < c;
      assert !Alternate(xs, a, b, c, e);
    }
  }

  lemma TurnedMonotone(s: seq<Point>, d: Point, r: nat)
    requires r < |s| && MonotoneIn(s, d)
    ensures MonotoneIn(Turned(s, r), d)
  {
    hide Along, Cross, OnceAround, Next, Prev;
    TurnedOnce(Places(s, d), r);
    assert Places(Turned(s, r), d) == Turned(Places(s, d), r);
    var n, t := |s|, Turned(s, r);
    forall i | 0 <= i < n ensures LeftOf(t, d, i) {
      TurnedAt(s, r, i);
      assert LeftOf(s, d, TurnedIndex(i, r, n));
      forall j | 0 <= j < n ensures Beside(d, t[i], t[Next(i, n)], t[j]) {
        TurnedAt(s, r, j);
      }
    }
  }

  function Flip(p: Point): Point { Point(p.x, -p.y) }

  /** The ring reflected and gone around the other way, from the same vertex. */
  function Mirrored(s: seq<Point>): (t: seq<Point>)
    ensures |t| == |s| && forall i :: 0 <= i < |s| ==> t[i] == Flip(s[MirrorIndex(i, |s|)])
  {
    seq(|s|, i requires 0 <= i < |s| => Flip(s[MirrorIndex(i, |s|)]))
  }

  lemma FlipTurns(a: Point, b: Point, c: Point, d: Point)
    ensures Cross(Flip(a), Flip(b), Flip(c)) == Cross(b, a, c)
    ensures Along(Flip(d), Flip(a)) == Along(d, a)
  {
  }

  lemma AlternateTurnsBack(xs: seq<real>, i: nat, j: nat, k: nat, l: nat)
    requires i < |xs| && j < |xs| && k < |xs| && l < |xs|
    ensures Alternate(xs, i, j, k, l) <==> Alternate(xs, i, l, k, j)
  {
  }

  lemma BackwardsOnce(xs: seq<real>)
    requires OnceAround(xs)
    ensures OnceAround(Backwards(xs))
  {
    hide Alternate;
    var n, ys := |xs|, Backwards(xs);
    forall i: nat, j: nat, k: nat, l: nat | i < j < k < l < n ensures !Alternate(ys, i, j, k, l) {
      var a, b, c, e := MirrorIndex(i, n), MirrorIndex(j, n), MirrorIndex(k, n), MirrorIndex(l, n);
      SameAlternate(ys, i, j, k, l, xs, a, b, c, e);
      AlternateTurnsBack(xs, a, b, c, e);
      AlternateTurns(xs, a, e, c, b);
      assert a < e < c < b || e < c < b < a;
      assert !Alternate(xs, a, b, c, e);
    }
  }

  lemma MirroredPlaces(s: seq<Point>, d: Point)
    ensures Places(Mirrored(s), Flip(d)) == Backwards(Places(s, d))
  {
    hide Along;
    var n, t := |s|, Mirrored(s);
    forall i | 0 <= i < n ensures Along(Flip(d), t[i]) == Along(d, s[MirrorIndex(i, n)]) {
      FlipTurns(s[MirrorIndex(i, n)], s[0], s[0], d);
    }
  }

  /** Going back from the mirrored vertex and on again. */
  lemma MirrorSteps(i: nat, n: nat)
    requires i < n
    ensures var b := MirrorIndex(i, n); Prev(b, n) == MirrorIndex(Next(i, n), n) && Next(Prev(b, n), n) == b
  {
    Neighbours(i, n);
    Neighbours(MirrorIndex(i, n), n);
    Neighbours(Prev(MirrorIndex(i, n), n), n);
  }

  lemma MirroredMonotone(s: seq<Point>, d: Point)
    requires MonotoneIn(s, d)
    ensures MonotoneIn(Mirrored(s), Flip(d))
  {
    hide Along, Cross, OnceAround, Next, Prev;
    MirroredPlaces(s, d);
    BackwardsOnce(Places(s, d));
    var n, t := |s|, Mirrored(s);
    forall i | 0 <= i < n ensures LeftOf(t, Flip(d), i) {
      MirrorTwice(i, n);
      var a, b := MirrorIndex(Next(i, n), n), MirrorIndex(i, n);
      MirrorTwice(b, n);
      MirrorTwice(Next(i, n), n);
      assert LeftOf(s, d, Prev(b, n));
      MirrorSteps(i, n);
      forall j | 0 <= j < n ensures Beside(Flip(d), t[i], t[Next(i, n)], t[j]) {
        var p := s[MirrorIndex(j, n)];
        FlipTurns(s[b], s[a], p, d);
        FlipTurns(s[a], s[b], p, d);
        FlipTurns(p, s[b], p, d);
        assert Beside(d, s[a], s[b], p);
      }
    }
  }

  lemma FlippedTriangle(t: Triangle)
    ensures TriArea2(Triangle(Flip(t.c), Flip(t.b), Flip(t.a))) == TriArea2(t)
  {
  }

  lemma FlippedHolds(t: Triangle, p: Point)
    ensures Holds(Triangle(Flip(t.c), Flip(t.b), Flip(t.a)), Flip(p)) <==> Holds(t, p)
  {
    hide Cross;
    FlipTurns(t.c, t.b, p, p);
    FlipTurns(t.b, t.a, p, p);
    FlipTurns(t.a, t.c, p, p);
  }

  lemma MirroredEar(s: seq<Point>, i: nat)
    requires i < |s| && Ear(Mirrored(s), i)
    ensures Ear(s, MirrorIndex(i, |s|))
  {
    hide Cross, Next, Prev;
    var n, t, j := |s|, Mirrored(s), MirrorIndex(i, |s|);
    MirrorTwice(i, n);
    var e, f := EarAt(s, j), EarAt(t, i);
    assert f == Triangle(Flip(e.c), Flip(e.b), Flip(e.a));
    FlippedTriangle(e);
    forall k | 0 <= k < n && k != Prev(j, n) && k != j && k != Next(j, n) ensures !Holds(e, s[k]) {
      MirrorTwice(k, n);
      var m := MirrorIndex(k, n);
      FlippedHolds(e, s[k]);
      assert t[m] == Flip(s[k]);
    }
  }

  // ----- Every monotone ring has an ear -----

  /** Vertex 0 is the hindmost one, and its successor lies less far than its predecessor. */
  ghost predicate FromHind(s: seq<Point>, d: Point) {
    && MonotoneIn(s, d) && 3 <= |s|
    && (forall i :: 0 < i < |s| ==> Along(d, s[0]) < Along(d, s[i]))
    && Along(d, s[1]) < Along(d, s[|s| - 1])
  }

  /** The vertices that lie less far than the predecessor of the hindmost one are the first `m` after that,
      each farther than the one before. */
  ghost predicate Chain(s: seq<Point>, d: Point, m: nat) {
    && 1 <= m < |s| - 1
    && (forall i, j :: 0 <= i < j <= m ==> Along(d, s[i]) < Along(d, s[j]))
    && (forall i :: 0 <= i <= m ==> Along(d, s[i]) < Along(d, s[|s| - 1]))
    && forall i :: m < i < |s| ==> Along(d, s[|s| - 1]) <= Along(d, s[i])
  }

  lemma FindRise(xs: seq<real>) returns (m: nat)
    requires OnceAround(xs) && 3 <= |xs| && xs[1] < xs[|xs| - 1] && forall i :: 0 < i < |xs| ==> xs[0] < xs[i]
    ensures 1 <= m < |xs| - 1
    ensures forall i, j :: 0 <= i < j <= m ==> xs[i] < xs[j]
    ensures forall i :: 0 <= i <= m ==> xs[i] < xs[|xs| - 1]
    ensures forall i :: m < i < |xs| ==> xs[|xs| - 1] <= xs[i]
  {
    var n := |xs|;
    m := 1;
    while m + 1 < n - 1 && xs[m + 1] < xs[n - 1]
      invariant 1 <= m < n - 1
      invariant forall i, j :: 0 <= i < j <= m ==> xs[i] < xs[j]
      invariant forall i :: 0 <= i <= m ==> xs[i] < xs[n - 1]
    {
      assert !Alternate(xs, 0, m, m + 1, n - 1);
      m := m + 1;
    }
    forall i | m < i < n ensures xs[n - 1] <= xs[i] {
      if m + 1 < i < n - 1 {
        assert !Alternate(xs, 0, m + 1, i, n - 1);
      }
    }
  }

  lemma FindChain(s: seq<Point>, d: Point) returns (m: nat)
    requires FromHind(s, d)
    ensures Chain(s, d, m)
  {
    hide Along, LeftOf;
    var xs := Places(s, d);
    m := FindRise(xs);
  }

  /** A vertex of the chain with a left turn is an ear: no other vertex lies beside its triangle. */
  lemma ChainEar(s: seq<Point>, d: Point, m: nat, j: nat)
    requires Chain(s, d, m) && 1 <= j < m && Cross(s[j - 1], s[j], s[j + 1]) > 0.0
    ensures Ear(s, j)
  {
    hide Along, Cross;
    var n := |s|;
    Neighbours(j, n);
    var t := EarAt(s, j);
    forall k | 0 <= k < n && k != Prev(j, n) && k != j && k != Next(j, n) ensures !Holds(t, s[k]) {
      OutOfRange(d, t, s[k], Along(d, s[j - 1]), Along(d, s[j + 1]));
    }
  }

  function Turn(u: Point, v: Point): real { u.x * v.y - u.y * v.x }

  function Minus(a: Point, b: Point): Point { Point(a.x - b.x, a.y - b.y) }

  /** Right turns of forward steps add up to a right turn. */
  lemma RightTurns(d: Point, u: Point, v: Point, w: Point)
    requires Along(d, u) > 0.0 && Along(d, v) > 0.0 && Along(d, w) > 0.0
    requires Turn(u, v) <= 0.0 && Turn(v, w) <= 0.0
    ensures Turn(u, w) <= 0.0
  {
    assert Turn(u, w) * Along(d, v) == Turn(u, v) * Along(d, w) + Turn(v, w) * Along(d, u);
    Times(Turn(u, v), Along(d, w));
    Times(Turn(v, w), Along(d, u));
    Times(Turn(u, w), Along(d, v));
  }

  lemma TurnIs(d: Point, a: Point, b: Point, c: Point, e: Point)
    ensures Cross(a, b, c) == Turn(Minus(b, a), Minus(c, b))
    ensures Cross(a, b, e) == Cross(a, b, c) + Turn(Minus(b, a), Minus(e, c))
    ensures Along(d, Minus(b, a)) == Along(d, b) - Along(d, a)
  {
  }

  /** Without left turns the chain stays on the right of its first edge. */
  lemma {:induction false} ChainBends(s: seq<Point>, d: Point, m: nat, k: nat)
    requires Chain(s, d, m) && 2 <= k <= m
    requires forall j :: 1 <= j < m ==> Cross(s[j - 1], s[j], s[j + 1]) <= 0.0
    ensures Cross(s[0], s[1], s[k]) <= 0.0 && Turn(Minus(s[1], s[0]), Minus(s[k], s[k - 1])) <= 0.0
  {
    hide Along, Cross, Turn, Minus;
    if k == 2 {
      assert Cross(s[1 - 1], s[1], s[1 + 1]) <= 0.0;
      TurnIs(d, s[0], s[1], s[2], s[2]);
    } else {
      ChainBends(s, d, m, k - 1);
      assert Cross(s[k - 1 - 1], s[k - 1], s[k - 1 + 1]) <= 0.0;
      TurnIs(d, s[k - 2], s[k - 1], s[k], s[k]);
      TurnIs(d, s[0], s[1], s[k - 1], s[k]);
      TurnIs(d, s[k - 1], s[k], s[k], s[k]);
      RightTurns(d, Minus(s[1], s[0]), Minus(s[k - 1], s[k - 2]), Minus(s[k], s[k - 1]));
    }
  }

  lemma NotBeyond(v: real, w: real, fl: real, fn: real, fq: real)
    requires v + w > 0.0 && v >= 0.0 && fl < fn && (v + w) * fq == v * fl + w * fn
    ensures fq <= fn
  {
    assert (v + w) * (fq - fn) == v * (fl - fn);
    Times(v, fl - fn);
    Times(v + w, fq - fn);
  }

  /** A point that is not on the left of the edge from the hindmost corner on, and farther than its end, is
      outside the triangle at the hindmost corner. */
  lemma BehindTheCorner(d: Point, p: Point, l: Point, n: Point, q: Point)
    requires Cross(p, l, n) > 0.0 && Along(d, l) < Along(d, n) < Along(d, q) && Cross(l, n, q) <= 0.0
    ensures !Holds(Triangle(p, l, n), q)
  {
    if Holds(Triangle(p, l, n), q) {
      hide Along, Cross;
      Weights(d, p, l, n, q);
      var u, v, w, fl, fn, fq := Cross(l, n, q), Cross(n, p, q), Cross(p, l, q), Along(d, l), Along(d, n), Along(d, q);
      assert u == 0.0;
      NotBeyond(v, w, fl, fn, fq);
    }
  }

  /** Without left turns on the chain the hindmost vertex is an ear. */
  lemma HindEar(s: seq<Point>, d: Point, m: nat)
    requires FromHind(s, d) && Chain(s, d, m)
    requires forall j :: 1 <= j < m ==> Cross(s[j - 1], s[j], s[j + 1]) <= 0.0
    ensures Ear(s, 0)
  {
    hide Along, Cross;
    var n, xs := |s|, Places(s, d);
    Neighbours(0, n);
    Neighbours(n - 1, n);
    var t := EarAt(s, 0);
    assert LeftOf(s, d, n - 1);
    assert Beside(d, s[n - 1], s[0], s[1]);
    forall k | 0 <= k < n && k != Prev(0, n) && k != 0 && k != Next(0, n) ensures !Holds(t, s[k]) {
      if k <= m {
        ChainBends(s, d, m, k);
        BehindTheCorner(d, s[n - 1], s[0], s[1], s[k]);
      } else {
        assert xs[k] != xs[n - 1];
        OutOfRange(d, t, s[k], Along(d, s[0]), Along(d, s[n - 1]));
      }
    }
  }

  lemma FromHindHasEar(s: seq<Point>, d: Point) returns (i: nat)
    requires FromHind(s, d)
    ensures i < |s| && Ear(s, i)
  {
    hide Along, Cross, Ear, MonotoneIn;
    var m := FindChain(s, d);
    if j :| 1 <= j < m && Cross(s[j - 1], s[j], s[j + 1]) > 0.0 {
      ChainEar(s, d, m, j);
      i := j;
    } else {
      HindEar(s, d, m);
      i := 0;
    }
  }

  lemma Hindmost(s: seq<Point>, d: Point) returns (r: nat)
    requires s != [] && Apart(Places(s, d))
    ensures r < |s| && forall i :: 0 <= i < |s| && i != r ==> Along(d, s[r]) < Along(d, s[i])
  {
    hide Along;
    var xs := Places(s, d);
    r := 0;
    var i := 1;
    while i < |s|
      invariant r < i <= |s|
      invariant forall j :: 0 <= j < i && j != r ==> Along(d, s[r]) < Along(d, s[j])
    {
      assert xs[r] != xs[i];
      if xs[i] < xs[r] { r := i; }
      i := i + 1;
    }
  }

  /** The ring gone around from its hindmost vertex. */
  lemma TurnedHind(s: seq<Point>, d: Point) returns (r: nat)
    requires MonotoneIn(s, d) && 3 <= |s|
    ensures r < |s| && MonotoneIn(Turned(s, r), d)
    ensures forall k :: 0 < k < |s| ==> Along(d, Turned(s, r)[0]) < Along(d, Turned(s, r)[k])
    ensures Along(d, Turned(s, r)[1]) != Along(d, Turned(s, r)[|s| - 1])
  {
    hide Along, LeftOf, Alternate;
    r := Hindmost(s, d);
    TurnedMonotone(s, d, r);
    var xs := Places(Turned(s, r), d);
    assert xs[1] != xs[|s| - 1];
  }

  lemma MirroredHasEar(s: seq<Point>, d: Point) returns (i: nat)
    requires MonotoneIn(s, d) && 3 <= |s| && (forall i :: 0 < i < |s| ==> Along(d, s[0]) < Along(d, s[i]))
    requires Along(d, s[|s| - 1]) < Along(d, s[1])
    ensures i < |s| && Ear(s, i)
  {
    hide Along, Ear, MonotoneIn;
    var n, t := |s|, Mirrored(s);
    MirroredMonotone(s, d);
    forall k | 0 <= k < n ensures Along(Flip(d), t[k]) == Along(d, s[MirrorIndex(k, n)]) {
      FlipTurns(s[MirrorIndex(k, n)], s[0], s[0], d);
    }
    var e := FromHindHasEar(t, Flip(d));
    MirroredEar(s, e);
    i := MirrorIndex(e, n);
  }

  /** Every monotone ring of at least three vertices has an ear. */
  lemma HasEar(s: seq<Point>, d: Point) returns (i: nat)
    requires MonotoneIn(s, d) && 3 <= |s|
    ensures i < |s| && Ear(s, i)
  {
    hide Along, Ear, MonotoneIn, Turned;
    var r := TurnedHind(s, d);
    var t := Turned(s, r);
    var e: nat;
    if Along(d, t[1]) < Along(d, t[|s| - 1]) {
      e := FromHindHasEar(t, d);
    } else {
      e := MirroredHasEar(t, d);
    }
    TurnedEar(s, r, e);
    i := TurnedIndex(e, r, |s|);
  }

  // ----- Monotone polygons are covered -----

  lemma {:induction false} ClippedStaysMonotone(rings: seq<seq<Point>>, tris: seq<Triangle>, d: Point)
    requires Clipping(rings, tris) && MonotoneIn(rings[0], d)
    ensures MonotoneIn(rings[|tris|], d)
  {
    hide MonotoneIn, Ear, EarAt;
    if tris != [] {
      var n := |tris| - 1;
      ClippedStaysMonotone(rings[..n + 1], tris[..n], d);
      ClippedEar(rings, tris, n);
      var i: nat :| i < |rings[n]| && Ear(rings[n], i) && rings[n + 1] == RemoveAt(rings[n], i);
      ClippingKeeps(rings[n], d, i);
    }
  }

  /** Clipping covers a monotone ring completely. */
  lemma MonotoneIsCovered(rings: seq<seq<Point>>, tris: seq<Triangle>, d: Point)
    requires Clipping(rings, tris) && MonotoneIn(rings[0], d) && 3 <= |rings[0]| && StopsAt(rings[|tris|])
    ensures |tris| == |rings[0]| - 2 && Total(tris) == Area2(rings[0]) && Area2(rings[0]) > 0.0
  {
    hide MonotoneIn, Ear, Clipping, Area2, Total;
    ClippingShape(rings, tris);
    var left := rings[|tris|];
    ClippedStaysMonotone(rings, tris, d);
    if 3 <= |left| {
      var i := HasEar(left, d);
    }
    ClippedCompletely(rings, tris);
  }

  lemma ReversedTwice(s: seq<Point>)
    ensures Reversed(Reversed(s)) == s
  {
  }

  lemma EarIsPositive(s: seq<Point>, i: nat)
    requires i < |s| && Ear(s, i)
    ensures Cross(s[Prev(i, |s|)], s[i], s[Next(i, |s|)]) > 0.0
  {
  }

  /** A monotone ring runs counter-clockwise. */
  lemma {:induction false} MonotoneArea(s: seq<Point>, d: Point)
    requires MonotoneIn(s, d) && 3 <= |s|
    ensures Area2(s) > 0.0
    decreases |s|
  {
    hide MonotoneIn, Area2, Ear;
    var i := HasEar(s, d);
    CutVertex(s, i);
    EarIsPositive(s, i);
    ClippingKeeps(s, d, i);
    if |s| == 3 {
      TwoVertices(RemoveAt(s, i));
    } else {
      MonotoneArea(RemoveAt(s, i), d);
    }
  }

  /** A monotone polygon, whichever way it runs, is split into as many triangles as it has vertices but two, which
      have its area. */
  lemma MonotoneTriangulated(poly: seq<Point>, d: Point, tris: seq<Triangle>, rings: seq<seq<Point>>)
    requires 3 <= |poly| && (MonotoneIn(poly, d) || MonotoneIn(Reversed(poly), d)) && Splits(poly, tris, rings)
    ensures Area2(poly) != 0.0 && |tris| == |poly| - 2
    ensures Total(tris) == if Convex(poly) then Area2(poly) else Abs(Area2(poly))
  {
    hide MonotoneIn, Clipping, Area2, Total, Convex, StopsAt, Splits, Reversed;
    SplitConservesArea(poly, tris, rings);
    var ring := if MonotoneIn(poly, d) then poly else Reversed(poly);
    ReversedArea(poly);
    ReversedTwice(poly);
    MonotoneArea(ring, d);
    if !Convex(poly) {
      SplitByClipping(poly, tris, rings);
      assert rings[0] == ring;
      MonotoneIsCovered(rings, tris, d);
    }
  }

  lemma FourOnce(x: real, y: real, z: real, w: real)
    requires x < w && x < y < z && y != w && z != w
    ensures OnceAround([x, y, z, w])
  {
  }

  lemma RightTurn(s: seq<Point>)
    requires |s| == 4 && Cross(s[0], s[1], s[2]) < -0.1
    ensures !Convex(s)
  {
    hide Cross;
    Neighbours(0, 4);
    Neighbours(1, 4);
    assert !TurnsLeft(s, 0);
  }

  lemma DartTurns()
    ensures Cross(Point(2.0, 2.0), Point(4.0, 0.0), Point(3.0, 6.0)) == 10.0
    ensures Cross(Point(3.0, 6.0), Point(0.0, 0.0), Point(2.0, 2.0)) == 6.0
    ensures Cross(Point(0.0, 0.0), Point(2.0, 2.0), Point(4.0, 0.0)) == -8.0
  {
  }

  lemma DartEdges(s: seq<Point>, d: Point)
    requires |s| == 4 && Places(s, d) == [0.0, 2.0, 4.0, 3.0]
    requires Cross(s[1], s[2], s[3]) > 0.0 && Cross(s[3], s[0], s[1]) > 0.0
    ensures forall i :: 0 <= i < 4 ==> LeftOf(s, d, i)
  {
    hide Along, Cross;
    var xs := Places(s, d);
    assert xs[0] == 0.0 && xs[1] == 2.0 && xs[2] == 4.0 && xs[3] == 3.0;
    Neighbours(0, 4);
    Neighbours(1, 4);
    Neighbours(2, 4);
    Neighbours(3, 4);
    assert LeftOf(s, d, 0) && LeftOf(s, d, 1) && LeftOf(s, d, 2) && LeftOf(s, d, 3);
  }

  /** A monotone polygon with a reflex vertex. */
  lemma MonotoneNeedNotBeConvex() returns (s: seq<Point>, d: Point)
    ensures MonotoneIn(s, d) && |s| == 4 && !Convex(s)
  {
    hide OnceAround, Cross, Convex, LeftOf;
    s, d := [Point(0.0, 0.0), Point(2.0, 2.0), Point(4.0, 0.0), Point(3.0, 6.0)], Point(1.0, 0.0);
    assert Places(s, d) == [0.0, 2.0, 4.0, 3.0];
    FourOnce(0.0, 2.0, 4.0, 3.0);
    DartTurns();
    DartEdges(s, d);
    RightTurn(s);
  }
}
