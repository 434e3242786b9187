/** Simple polygons that turn left at every corner are convex: any three vertices in turn run counter-clockwise. */
module Convexity {
  import opened Permutations
  import opened Polygon
  import opened Sides
  import opened SimpleRings
  import opened Triangulate
  import opened TwoEars

  predicate LeftAt(s: seq<Point>, i: nat)
    requires i < |s|
  {
    Left(s[Prev(i, |s|)], s[i], s[Next(i, |s|)])
  }

  ghost predicate LeftEverywhere(s: seq<Point>) {
    forall i :: 0 <= i < |s| ==> LeftAt(s, i)
  }

  /** Any three vertices in turn, other than vertex `e`, run counter-clockwise. */
  ghost predicate ConvexBut(s: seq<Point>, e: int) {
    forall i, j, k :: 0 <= i < j < k < |s| && i != e && j != e && k != e ==> Left(s[i], s[j], s[k])
  }

  predicate InTurn(i: nat, j: nat, k: nat) {
    i < j < k || j < k < i || k < i < j
  }

  lemma LeftInTurn(s: seq<Point>, e: int, i: nat, j: nat, k: nat)
    requires ConvexBut(s, e) && InTurn(i, j, k) && i < |s| && j < |s| && k < |s| && i != e && j != e && k != e
    ensures Left(s[i], s[j], s[k])
  {
    if i < j < k {
    } else if j < k < i {
      Three(s[j], s[k], s[i]);
    } else {
      Three(s[k], s[i], s[j]);
    }
  }

  // ----- Clipping an ear -----

  /** At the near end `p` of a clipped ear `p`, `i`, `n` the ring still turns left, coming from `q`. */
  lemma StillLeft(q: Point, p: Point, i: Point, n: Point)
    requires FreeFour(p, i, n, q) && Left(q, p, i) && Left(p, i, n) && !In(p, i, n, q) && !Crossing(p, q, i, n)
    ensures Left(q, p, n)
  {
    Three(p, i, n); Three(p, i, q); Three(p, n, q); Three(i, n, q);
    hide Free, Left;
  }

  /** And at the far end, going on to `q`. */
  lemma StillLeftAfter(p: Point, i: Point, n: Point, q: Point)
    requires FreeFour(p, i, n, q) && Left(p, i, n) && Left(i, n, q) && !In(p, i, n, q) && !Crossing(p, i, n, q)
    ensures Left(p, n, q)
  {
    Three(p, i, n); Three(p, i, q); Three(p, n, q); Three(i, n, q);
    hide Free, Left;
  }

  lemma TurnsBefore(s: seq<Point>, i: nat, q: nat)
    requires Simple(s) && 4 <= |s| && LeftEverywhere(s) && 0 < i < |s| - 1 && Ear(s, i) && q == Prev(i - 1, |s|)
    ensures q < |s| && Left(s[q], s[i - 1], s[i + 1])
  {
    hide General, Clear, Left, In, Crossing, Ear, Free, Next, Prev;
    var n := |s|;
    EarIff(s, i);
    Neighbours(i, n);
    Neighbours(i - 1, n);
    Neighbours(q, n);
    FourAt(s, i - 1, i, i + 1, q);
    assert Clear(s, q, Next(q, n)) && Joins(n, i, i + 1);
    ClearTurned(s, q, i - 1);
    ClearOf(s, i - 1, q, i, i + 1);
    assert LeftAt(s, i - 1);
    StillLeft(s[q], s[i - 1], s[i], s[i + 1]);
  }

  lemma TurnsAfter(s: seq<Point>, i: nat, q: nat)
    requires Simple(s) && 4 <= |s| && LeftEverywhere(s) && 0 < i < |s| - 1 && Ear(s, i) && q == Next(i + 1, |s|)
    ensures q < |s| && Left(s[i - 1], s[i + 1], s[q])
  {
    hide General, Clear, Left, In, Crossing, Ear, Free, Next, Prev;
    var n := |s|;
    EarIff(s, i);
    Neighbours(i, n);
    Neighbours(i - 1, n);
    Neighbours(i + 1, n);
    FourAt(s, i - 1, i, i + 1, q);
    assert Clear(s, i - 1, Next(i - 1, n)) && Joins(n, i + 1, q);
    ClearOf(s, i - 1, i, i + 1, q);
    assert LeftAt(s, i + 1);
    StillLeftAfter(s[i - 1], s[i], s[i + 1], s[q]);
  }

  lemma CornerLeft(s: seq<Point>, i: nat, k: nat)
    requires Simple(s) && 4 <= |s| && LeftEverywhere(s) && 0 < i < |s| - 1 && Ear(s, i) && k < |s| - 1
    ensures LeftAt(RemoveAt(s, i), k)
  {
    hide Simple, Left, Ear, Next, Prev;
    var n, m, t := |s|, |s| - 1, RemoveAt(s, i);
    Neighbours(k, m);
    Neighbours(Up(k, i), n);
    assert t[k] == s[Up(k, i)] && t[Prev(k, m)] == s[Up(Prev(k, m), i)] && t[Next(k, m)] == s[Up(Next(k, m), i)];
    if k == i - 1 {
      TurnsBefore(s, i, Prev(k, n));
    } else if k == i {
      TurnsAfter(s, i, Next(i + 1, n));
    } else {
      assert LeftAt(s, Up(k, i));
    }
  }

  lemma ClippedLeft(s: seq<Point>, i: nat)
    requires Simple(s) && 4 <= |s| && LeftEverywhere(s) && 0 < i < |s| - 1 && Ear(s, i)
    ensures LeftEverywhere(RemoveAt(s, i))
  {
    hide Simple, LeftAt, Ear;
    forall k | 0 <= k < |s| - 1 ensures LeftAt(RemoveAt(s, i), k) {
      CornerLeft(s, i, k);
    }
  }

  // ----- Putting it back -----

  lemma RemovedConvex(s: seq<Point>, i: nat)
    requires i < |s| && ConvexBut(RemoveAt(s, i), -1)
    ensures ConvexBut(s, i)
  {
    hide Left;
    var t := RemoveAt(s, i);
    forall j, k, l | 0 <= j < k < l < |s| && j != i && k != i && l != i ensures Left(s[j], s[k], s[l]) {
      var j', k', l' := if j < i then j else j - 1, if k < i then k else k - 1, if l < i then l else l - 1;
      assert Left(t[j'], t[k'], t[l']);
    }
  }

  /** Vertex `q` is to the left of both edges of the ear `p`, `i`, `n` when it is to the left of the segment between
      its ends, and `b` and `c` are the vertices before and after it. */
  lemma Wedge(b: Point, p: Point, i: Point, n: Point, q: Point)
    requires FreeFive(p, i, n, q, b) && Left(p, i, n) && Left(p, n, q) && Left(p, n, b) && Left(b, p, i)
    requires Left(b, p, q)
    ensures Left(p, i, q)
  {
    Facts(p, i, n, q, b);
    hide Left;
  }

  lemma WedgeAfter(p: Point, i: Point, n: Point, c: Point, q: Point)
    requires FreeFive(p, i, n, q, c) && Left(p, i, n) && Left(p, n, q) && Left(p, n, c) && Left(i, n, c)
    requires Left(n, c, q)
    ensures Left(i, n, q)
  {
    Facts(p, i, n, q, c);
    hide Left;
  }

  lemma EarSideBefore(s: seq<Point>, i: nat, q: nat)
    requires Simple(s) && 4 <= |s| && LeftEverywhere(s) && 0 < i < |s| - 1 && ConvexBut(s, i)
    requires q < |s| && q != i - 1 && q != i && q != i + 1
    ensures Left(s[i - 1], s[i], s[q])
  {
    hide General, Clear, Left, Free, Next, Prev, ConvexBut;
    var n := |s|;
    var b := Prev(i - 1, n);
    Neighbours(i, n);
    Neighbours(i - 1, n);
    assert LeftAt(s, i - 1) && LeftAt(s, i);
    if q == b {
      FreeAt(s, b, i - 1, i);
      Three(s[b], s[i - 1], s[i]);
    } else {
      LeftInTurn(s, i, i - 1, i + 1, q);
      LeftInTurn(s, i, i - 1, i + 1, b);
      LeftInTurn(s, i, b, i - 1, q);
      FiveAt(s, i - 1, i, i + 1, q, b);
      Wedge(s[b], s[i - 1], s[i], s[i + 1], s[q]);
    }
  }

  lemma EarSideAfter(s: seq<Point>, i: nat, q: nat)
    requires Simple(s) && 4 <= |s| && LeftEverywhere(s) && 0 < i < |s| - 1 && ConvexBut(s, i)
    requires q < |s| && q != i - 1 && q != i && q != i + 1
    ensures Left(s[i], s[i + 1], s[q])
  {
    hide General, Clear, Left, Free, Next, Prev, ConvexBut;
    var n := |s|;
    var c := Next(i + 1, n);
    Neighbours(i, n);
    Neighbours(i + 1, n);
    assert LeftAt(s, i) && LeftAt(s, i + 1);
    if q != c {
      LeftInTurn(s, i, i - 1, i + 1, q);
      LeftInTurn(s, i, i - 1, i + 1, c);
      LeftInTurn(s, i, i + 1, c, q);
      FiveAt(s, i - 1, i, i + 1, q, c);
      WedgeAfter(s[i - 1], s[i], s[i + 1], s[c], s[q]);
    }
  }

  lemma Beyond(p: Point, i: Point, n: Point, x: Point, y: Point)
    requires FreeFive(p, i, n, x, y)
    requires Left(p, n, x) && Left(p, n, y) && Left(n, x, y) && Left(p, x, y) && Left(p, i, n)
    requires Left(p, i, x) && Left(i, n, x) && Left(p, i, y) && Left(i, n, y)
    ensures Left(i, x, y)
  {
    Facts(p, i, n, x, y);
    hide Left;
  }

  lemma EarTriple(s: seq<Point>, i: nat, x: nat, y: nat)
    requires Simple(s) && 4 <= |s| && LeftEverywhere(s) && 0 < i < |s| - 1 && ConvexBut(s, i)
    requires x < |s| && y < |s| && InTurn(i, x, y)
    ensures Left(s[i], s[x], s[y])
  {
    hide General, Clear, Left, Free, ConvexBut;
    var n := |s|;
    Neighbours(i, n);
    assert LeftAt(s, i);
    if x != i - 1 && x != i + 1 {
      EarSideBefore(s, i, x);
      EarSideAfter(s, i, x);
    }
    if y != i - 1 && y != i + 1 {
      EarSideBefore(s, i, y);
      EarSideAfter(s, i, y);
    }
    FreeAt(s, i - 1, i, i + 1);
    Three(s[i - 1], s[i], s[i + 1]);
    if x == i + 1 {
    } else if y == i - 1 {
      FreeAt(s, i - 1, i, x);
      Three(s[i - 1], s[i], s[x]);
    } else {
      LeftInTurn(s, i, i - 1, i + 1, x);
      LeftInTurn(s, i, i - 1, i + 1, y);
      LeftInTurn(s, i, i + 1, x, y);
      LeftInTurn(s, i, i - 1, x, y);
      FiveAt(s, i - 1, i, i + 1, x, y);
      Beyond(s[i - 1], s[i], s[i + 1], s[x], s[y]);
    }
  }

  lemma PutBack(s: seq<Point>, i: nat)
    requires Simple(s) && 4 <= |s| && LeftEverywhere(s) && 0 < i < |s| - 1 && ConvexBut(s, i)
    ensures ConvexBut(s, -1)
  {
    hide Simple, Left, LeftEverywhere;
    forall j, k, l | 0 <= j < k < l < |s| ensures Left(s[j], s[k], s[l]) {
      SimpleIsGeneral(s);
      if j == i {
        EarTriple(s, i, k, l);
      } else if k == i {
        EarTriple(s, i, l, j);
        FreeAt(s, i, l, j);
        Three(s[i], s[l], s[j]);
      } else if l == i {
        EarTriple(s, i, j, k);
        FreeAt(s, i, j, k);
        Three(s[i], s[j], s[k]);
      }
    }
  }

  lemma ThreeLeft(s: seq<Point>)
    requires |s| == 3 && LeftEverywhere(s)
    ensures ConvexBut(s, -1)
  {
    hide Left;
    Neighbours(1, 3);
    assert LeftAt(s, 1);
  }

  lemma {:induction false} PositiveIsConvex(s: seq<Point>)
    requires Simple(s) && LeftEverywhere(s) && Area2(s) > 0.0
    ensures ConvexBut(s, -1)
    decreases |s|
  {
    hide Simple, LeftEverywhere, Area2, Ear, ConvexBut;
    SimpleIsGeneral(s);
    var n := |s|;
    if n == 3 {
      ThreeLeft(s);
    } else {
      var i := EarAvoiding(s, n - 1);
      Neighbours(n - 1, n);
      KeepsPositive(s, i);
      ClippedLeft(s, i);
      PositiveIsConvex(RemoveAt(s, i));
      RemovedConvex(s, i);
      PutBack(s, i);
    }
  }

  lemma LeftIsPositive(s: seq<Point>)
    requires Simple(s) && LeftEverywhere(s)
    ensures Area2(s) > 0.0
  {
    hide General, Clear, Starts, Area2, Left;
    var d, r := FirstOther(s, 0);
    TurnedSimple(s, r);
    TurnedArea(s, r);
    TurnedAt(s, r, 0);
    Neighbours(0, |s|);
    assert LeftAt(s, r);
    TurnsAsArea(Turned(s, r), d);
  }

  /** A simple polygon that turns left at every corner is convex, and runs counter-clockwise. */
  lemma LeftIsConvex(s: seq<Point>)
    requires Simple(s) && forall i :: 0 <= i < |s| ==> Left(s[Prev(i, |s|)], s[i], s[Next(i, |s|)])
    ensures Area2(s) > 0.0 && forall i, j, k :: 0 <= i < j < k < |s| ==> Left(s[i], s[j], s[k])
  {
    hide Simple, Left, Area2;
    LeftIsPositive(s);
    PositiveIsConvex(s);
  }

  // ----- The triangles of a polygon -----

  lemma SomeCorner(poly: seq<Point>) returns (i: nat)
    requires Simple(poly)
    requires forall i :: 0 <= i < |poly| ==>
               var c := Cross(poly[Prev(i, |poly|)], poly[i], poly[Next(i, |poly|)]); c < -0.1 || c > 0.0
    ensures i <= |poly|
    ensures i < |poly| ==> Cross(poly[Prev(i, |poly|)], poly[i], poly[Next(i, |poly|)]) < -0.1
    ensures i == |poly| ==> forall j :: 0 <= j < |poly| ==> Left(poly[Prev(j, |poly|)], poly[j], poly[Next(j, |poly|)])
  {
    hide Simple, Cross, Prev, Next;
    i := |poly|;
    if j: nat :| j < |poly| && Cross(poly[Prev(j, |poly|)], poly[j], poly[Next(j, |poly|)]) < -0.1 {
      i := j;
    }
  }

  /** A simple polygon, whichever way it runs, is split into triangles that all run counter-clockwise and have its
      area, unless it turns right at some corner but so little that it passes for convex. */
  lemma TrianglesArePositive(poly: seq<Point>, tris: seq<Triangle>, rings: seq<seq<Point>>)
    requires Simple(poly) && Splits(poly, tris, rings)
    requires forall i :: 0 <= i < |poly| ==>
               var c := Cross(poly[Prev(i, |poly|)], poly[i], poly[Next(i, |poly|)]); c < -0.1 || c > 0.0
    ensures |tris| == |poly| - 2 && Total(tris) == Abs(Area2(poly))
    ensures forall k :: 0 <= k < |tris| ==> TriArea2(tris[k]) > 0.0
  {
    hide General, Clear, Area2, Splits, Total, Cross, Prev, Next;
    SimpleIsTriangulated(poly, tris, rings);
    var i := SomeCorner(poly);
    if i < |poly| {
      ReflexIsClipped(poly, tris, rings, i, 0);
      forall k | 0 <= k < |tris| ensures TriArea2(tris[k]) > 0.0 {
        ReflexIsClipped(poly, tris, rings, i, k);
      }
    } else {
      LeftIsConvex(poly);
      forall k | 0 <= k < |tris| ensures TriArea2(tris[k]) > 0.0 {
        OthersAreFanned(poly, tris, rings, k);
        assert Left(poly[0], poly[k + 1], poly[k + 2]);
      }
    }
  }

  /** A polygon that turns right by less than that at one corner. */
  function Dented(): (s: seq<Point>)
    ensures |s| == 4
  {
    [Point(4.0, 0.0), Point(2.0, 4.0), Point(0.0, 0.0), Point(2.0, 0.02)]
  }

  lemma FourGeneral(s: seq<Point>)
    requires |s| == 4 && FreeFour(s[0], s[1], s[2], s[3])
    ensures General(s)
  {
    hide Free;
    forall i, j, k | 0 <= i < j < k < 4 ensures Free(s[i], s[j], s[k]) {
    }
  }

  lemma FourSimple(s: seq<Point>)
    requires |s| == 4 && FreeFour(s[0], s[1], s[2], s[3])
    requires !Crossing(s[0], s[1], s[2], s[3]) && !Crossing(s[1], s[2], s[3], s[0])
    requires !Crossing(s[2], s[3], s[0], s[1]) && !Crossing(s[3], s[0], s[1], s[2])
    ensures Simple(s)
  {
    FourGeneral(s);
    Neighbours(0, 4);
    Neighbours(1, 4);
    Neighbours(2, 4);
    Neighbours(3, 4);
    hide General, Free, Crossing, Next, Prev;
  }

  lemma DentedIsSimple()
    ensures Simple(Dented())
  {
    var s := Dented();
    assert FreeFour(s[0], s[1], s[2], s[3]);
    assert !Crossing(s[0], s[1], s[2], s[3]) && !Crossing(s[1], s[2], s[3], s[0]);
    assert !Crossing(s[2], s[3], s[0], s[1]) && !Crossing(s[3], s[0], s[1], s[2]);
    hide Simple, Dented;
    FourSimple(s);
  }

  lemma DentedCorners(i: nat)
    requires i < 4
    ensures var s := Dented(); -0.1 <= Cross(s[Prev(i, 4)], s[i], s[Next(i, 4)])
  {
    Neighbours(i, 4);
  }

  lemma DentedArea()
    ensures Area2(Dented()) > 0.0
  {
    var s := Dented();
    var t := [s[0], s[1], s[2]];
    Neighbours(3, 4);
    Neighbours(1, 3);
    assert RemoveAt(s, 3) == t;
    CutVertex(s, 3);
    TriangleArea(t, 1);
    hide Area2;
  }

  /** That is where it goes wrong: the polygon is fanned, and one of its triangles runs clockwise, outside of it. */
  lemma DentIsFanned(tris: seq<Triangle>, rings: seq<seq<Point>>)
    requires Splits(Dented(), tris, rings)
    ensures Simple(Dented()) && Area2(Dented()) > 0.0 && |tris| == 2 && TriArea2(tris[1]) < 0.0
  {
    DentedIsSimple();
    DentedArea();
    var s := Dented();
    hide Simple, Area2, Splits, Prev, Next, Convex;
    forall i | 0 <= i < 4 ensures Cross(s[Prev(i, 4)], s[i], s[Next(i, 4)]) >= -0.1 {
      DentedCorners(i);
    }
    OthersAreFanned(s, tris, rings, 1);
  }
}
