/** Points, signed areas, and cutting a vertex off a closed ring. Coordinates are real numbers. */
module Polygon {
  import opened Permutations

  datatype Point = Point(x: real, y: real)

  function Cross2(a: Point, b: Point): real {
    a.x * b.y - a.y * b.x
  }

  /** Twice the signed area of the triangle `o`, `a`, `b`; positive when it runs counter-clockwise. */
  function Cross(o: Point, a: Point, b: Point): real {
    (a.x - o.x) * (b.y - o.y) - (a.y - o.y) * (b.x - o.x)
  }

  /** How far a point lies in direction `d`. */
  function Along(d: Point, p: Point): real {
    d.x * p.x + d.y * p.y
  }

  lemma CrossIsCycle(a: Point, b: Point, c: Point)
    ensures Cross(a, b, c) == Cross2(a, b) + Cross2(b, c) + Cross2(c, a)
    ensures Cross2(a, b) == -Cross2(b, a)
  {
  }

  /** Twice the signed area of a triangle is its base times its height, positive when it runs counter-clockwise. */
  lemma BaseTimesHeight(left: real, right: real, y: real, p: Point)
    ensures Cross(Point(left, y), Point(right, y), p) == (right - left) * (p.y - y)
  {
  }

  // ----- Areas -----

  /** The shoelace sum along an open path. */
  function Path(s: seq<Point>): real {
    if |s| < 2 then 0.0 else Cross2(s[0], s[1]) + Path(s[1..])
  }

  /** The shoelace sum around a closed ring: twice its signed area. */
  function Area2(s: seq<Point>): real {
    if s == [] then 0.0 else Path(s) + Cross2(s[|s| - 1], s[0])
  }

  lemma {:induction false} PathConcat(a: seq<Point>, b: seq<Point>)
    requires a != [] && b != []
    ensures Path(a + b) == Path(a) + Cross2(a[|a| - 1], b[0]) + Path(b)
  {
    if |a| == 1 {
      assert (a + b)[1..] == b;
    } else {
      PathConcat(a[1..], b);
      assert (a + b)[1..] == a[1..] + b;
    }
  }

  function Prev(i: nat, n: nat): (j: nat)
    requires i < n
    ensures j < n
  {
    (i + n - 1) % n
  }

  function Next(i: nat, n: nat): (j: nat)
    requires i < n
    ensures j < n
  {
    (i + 1) % n
  }

  lemma WrapAround(k: nat, n: nat)
    requires k < n
    ensures (n + k) % n == k && k % n == k
  {
    assert (n + k) / n == 1;
  }

  lemma Neighbours(i: nat, n: nat)
    requires i < n
    ensures Prev(i, n) == if i == 0 then n - 1 else i - 1
    ensures Next(i, n) == if i == n - 1 then 0 else i + 1
  {
    if i > 0 { WrapAround(i - 1, n); } else { WrapAround(n - 1, n); }
    if i + 1 < n { WrapAround(i + 1, n); } else { WrapAround(0, n); }
  }

  /** Cutting vertex `i` off a ring takes away exactly the triangle with its neighbours. */
  lemma CutVertex(s: seq<Point>, i: nat)
    requires 3 <= |s| && i < |s|
    ensures Area2(s) == Area2(RemoveAt(s, i)) + Cross(s[Prev(i, |s|)], s[i], s[Next(i, |s|)])
  {
    var n := |s|;
    Neighbours(i, n);
    var a, b, c := s[Prev(i, n)], s[i], s[Next(i, n)];
    CrossIsCycle(a, b, c);
    CrossIsCycle(a, c, b);
    if i == 0 {
      assert s == [b] + s[1..] && RemoveAt(s, i) == s[1..];
      PathConcat([b], s[1..]);
    } else if i == n - 1 {
      assert s == s[..i] + [b] && RemoveAt(s, i) == s[..i];
      PathConcat(s[..i], [b]);
    } else {
      assert s == s[..i] + ([b] + s[i + 1..]);
      PathConcat(s[..i], [b] + s[i + 1..]);
      PathConcat([b], s[i + 1..]);
      PathConcat(s[..i], s[i + 1..]);
    }
  }

  function Reversed<T>(s: seq<T>): (r: seq<T>)
    ensures |r| == |s| && forall i :: 0 <= i < |s| ==> r[i] == s[|s| - 1 - i]
  {
    seq(|s|, i requires 0 <= i < |s| => s[|s| - 1 - i])
  }

  lemma {:induction false} ReversedPath(s: seq<Point>)
    ensures Path(Reversed(s)) == -Path(s)
  {
    if |s| >= 2 {
      ReversedPath(s[1..]);
      var r := Reversed(s[1..]);
      assert Reversed(s) == r + [s[0]];
      PathConcat(r, [s[0]]);
      CrossIsCycle(s[0], s[1], s[0]);
    }
  }

  /** Reversing a ring turns its area around. */
  lemma ReversedArea(s: seq<Point>)
    ensures Area2(Reversed(s)) == -Area2(s)
  {
    ReversedPath(s);
    if s != [] { CrossIsCycle(s[|s| - 1], s[0], s[0]); }
  }

  lemma OneVertex(p: Point)
    ensures Path([p]) == 0.0
  {
  }

  lemma EdgeAdded(poly: seq<Point>, i: nat)
    requires i < |poly|
    ensures i + 1 < |poly| ==> Path(poly[..i + 2]) == Path(poly[..i + 1]) + Cross2(poly[i], poly[i + 1])
    ensures i + 1 == |poly| ==> Area2(poly) == Path(poly[..i + 1]) + Cross2(poly[i], poly[0])
  {
    if i + 1 < |poly| {
      assert poly[..i + 2] == poly[..i + 1] + [poly[i + 1]];
      PathConcat(poly[..i + 1], [poly[i + 1]]);
    } else {
      assert poly[..i + 1] == poly;
    }
  }

  /** The shoelace sum, added up edge by edge. */
  method SignedArea(poly: seq<Point>) returns (area: real)
    requires poly != []
    ensures area == Area2(poly)
  {
    hide Path, Area2;
    var n := |poly|;
    area := 0.0;
    var i := 0;
    OneVertex(poly[0]);
    assert poly[..1] == [poly[0]];
    while i < n
      invariant 0 <= i <= n
      invariant area == if i < n then Path(poly[..i + 1]) else Area2(poly)
    {
      var a, b := poly[i], poly[Next(i, n)];
      Neighbours(i, n);
      EdgeAdded(poly, i);
      area := area + (a.x * b.y - b.x * a.y);
      i := i + 1;
    }
  }

  // ----- Starting from another vertex -----

  function TurnedIndex(i: nat, r: nat, n: nat): (j: nat)
    requires i < n && r < n
    ensures j < n
  {
    if i + r < n then i + r else i + r - n
  }

  function Turned<T>(s: seq<T>, r: nat): (t: seq<T>)
    requires r < |s|
    ensures |t| == |s| && forall i :: 0 <= i < |s| ==> t[i] == s[TurnedIndex(i, r, |s|)]
  {
    s[r..] + s[..r]
  }

  lemma TurnedAt(s: seq<Point>, r: nat, i: nat)
    requires r < |s| && i < |s|
    ensures var n, j := |s|, TurnedIndex(i, r, |s|);
            && Turned(s, r)[i] == s[j]
            && Turned(s, r)[Next(i, n)] == s[Next(j, n)] && Turned(s, r)[Prev(i, n)] == s[Prev(j, n)]
            && Next(j, n) == TurnedIndex(Next(i, n), r, n) && Prev(j, n) == TurnedIndex(Prev(i, n), r, n)
  {
    Neighbours(i, |s|);
    Neighbours(TurnedIndex(i, r, |s|), |s|);
  }

  lemma TurnedArea(s: seq<Point>, r: nat)
    requires r < |s|
    ensures Area2(Turned(s, r)) == Area2(s)
  {
    if r > 0 {
      assert s == s[..r] + s[r..];
      PathConcat(s[..r], s[r..]);
      PathConcat(s[r..], s[..r]);
    } else {
      assert Turned(s, r) == s;
    }
  }

  function MirrorIndex(i: nat, n: nat): (j: nat)
    requires i < n
    ensures j < n
  {
    if i == 0 then 0 else n - i
  }

  lemma MirrorTwice(i: nat, n: nat)
    requires i < n
    ensures MirrorIndex(MirrorIndex(i, n), n) == i
    ensures Next(MirrorIndex(i, n), n) == MirrorIndex(Prev(i, n), n)
            && Prev(MirrorIndex(i, n), n) == MirrorIndex(Next(i, n), n)
  {
    Neighbours(i, n);
    Neighbours(MirrorIndex(i, n), n);
  }

  /** The ring gone around the other way, from the same vertex. */
  function Backwards<T>(xs: seq<T>): (ys: seq<T>)
    ensures |ys| == |xs| && forall i :: 0 <= i < |xs| ==> ys[i] == xs[MirrorIndex(i, |xs|)]
  {
    seq(|xs|, i requires 0 <= i < |xs| => xs[MirrorIndex(i, |xs|)])
  }

  lemma BackwardsArea(s: seq<Point>)
    requires s != []
    ensures Area2(Backwards(s)) == -Area2(s)
  {
    hide Area2;
    var n := |s|;
    assert Backwards(s) == Turned(Reversed(s), n - 1);
    TurnedArea(Reversed(s), n - 1);
    ReversedArea(s);
  }

  /** A chord splits the area of a ring. */
  lemma AreaSplit(s: seq<Point>, j: nat)
    requires 2 <= j < |s| - 1
    ensures Area2(s) == Area2(s[..j + 1]) + Area2([s[0]] + s[j..])
  {
    assert s == s[..j] + s[j..] && s[..j + 1] == s[..j] + [s[j]];
    PathConcat(s[..j], s[j..]);
    PathConcat(s[..j], [s[j]]);
    PathConcat([s[0]], s[j..]);
    CrossIsCycle(s[0], s[j], s[j]);
  }

  // ----- Orientation -----

  /** The sum that the orientation test adds up: trapezoids under the edges, from edge `i` on. */
  function Trapezoids(s: seq<Point>, i: nat): real
    requires i <= |s|
    decreases |s| - i
  {
    if i == |s| then 0.0
    else
      var a, b := s[i], s[Next(i, |s|)];
      (b.x - a.x) * (b.y + a.y) + Trapezoids(s, i + 1)
  }

  function Rectangle(p: Point): real { p.x * p.y }

  lemma TrapezoidIs(a: Point, b: Point)
    ensures (b.x - a.x) * (b.y + a.y) == Rectangle(b) - Rectangle(a) - Cross2(a, b)
  {
  }

  lemma {:induction false} TrapezoidsFrom(s: seq<Point>, i: nat)
    requires i < |s|
    ensures Trapezoids(s, i) == Rectangle(s[0]) - Rectangle(s[i]) - Path(s[i..]) - Cross2(s[|s| - 1], s[0])
    decreases |s| - i
  {
    hide Cross2, Rectangle, Next;
    Neighbours(i, |s|);
    if i + 1 < |s| {
      TrapezoidsFrom(s, i + 1);
      assert s[i..][1..] == s[i + 1..];
      TrapezoidIs(s[i], s[i + 1]);
    } else {
      TrapezoidIs(s[i], s[0]);
      assert Trapezoids(s, i + 1) == 0.0;
    }
  }

  /** The trapezoids under the edges add up to minus twice the area. */
  lemma TrapezoidsAreArea(s: seq<Point>)
    ensures Trapezoids(s, 0) == -Area2(s)
  {
    if s != [] { TrapezoidsFrom(s, 0); assert s[0..] == s; }
  }

  function Abs(x: real): real { if x < 0.0 then -x else x }

  method Reverse(a: array<Point>)
    modifies a
    ensures a[..] == Reversed(old(a[..]))
  {
    forall i | 0 <= i < a.Length {
      a[i] := a[a.Length - 1 - i];
    }
  }

  /** Turns a polygon that runs clockwise around; its area ends up the same but not negative. */
  method EnsureCcw(poly: array<Point>)
    modifies poly
    ensures poly[..] == old(poly[..]) || poly[..] == Reversed(old(poly[..]))
    ensures Area2(poly[..]) == Abs(Area2(old(poly[..])))
  {
    ghost var s := poly[..];
    var area := 0.0;
    var i := 0;
    while i < poly.Length
      invariant 0 <= i <= poly.Length
      invariant area + Trapezoids(s, i) == Trapezoids(s, 0)
    {
      var a, b := poly[i], poly[Next(i, poly.Length)];
      area := area + (b.x - a.x) * (b.y + a.y);
      i := i + 1;
    }
    TrapezoidsAreArea(s);
    ReversedArea(s);
    if area > 0.0 {
      Reverse(poly);
    }
  }
}
