/** How often a ring winds around a point: the edges that pass a ray from the point are counted. */
module Winding {
  import opened Permutations
  import opened Polygon
  import opened Sides

  function Hits(d: Point, q: Point, s: seq<Point>): int {
    if |s| < 2 then 0 else Hit(d, q, s[0], s[1]) + Hits(d, q, s[1..])
  }

  function Winds(d: Point, q: Point, s: seq<Point>): int {
    if s == [] then 0 else Hits(d, q, s) + Hit(d, q, s[|s| - 1], s[0])
  }

  lemma {:induction false} HitsConcat(d: Point, q: Point, a: seq<Point>, b: seq<Point>)
    requires a != [] && b != []
    ensures Hits(d, q, a + b) == Hits(d, q, a) + Hit(d, q, a[|a| - 1], b[0]) + Hits(d, q, b)
  {
    hide Hit;
    if |a| == 1 {
      assert (a + b)[1..] == b;
    } else {
      HitsConcat(d, q, a[1..], b);
      assert (a + b)[1..] == a[1..] + b;
    }
  }

  lemma OneVertexHits(d: Point, q: Point, p: Point)
    ensures Hits(d, q, [p]) == 0
  {
  }

  /** Cutting a vertex off a ring takes away what its triangle winds around the point. */
  lemma WindsCut(d: Point, q: Point, s: seq<Point>, i: nat)
    requires Directed(d) && 3 <= |s| && i < |s| && Free(s[Prev(i, |s|)], s[Next(i, |s|)], q)
    ensures var a, b, c := s[Prev(i, |s|)], s[i], s[Next(i, |s|)];
            Winds(d, q, s) == Winds(d, q, RemoveAt(s, i)) + Hit(d, q, a, b) + Hit(d, q, b, c) + Hit(d, q, c, a)
  {
    var n := |s|;
    Neighbours(i, n);
    var a, b, c := s[Prev(i, n)], s[i], s[Next(i, n)];
    HitTurned(d, q, a, c);
    hide Hit, Free;
    OneVertexHits(d, q, b);
    if i == 0 {
      assert s == [b] + s[1..] && RemoveAt(s, i) == s[1..];
      HitsConcat(d, q, [b], s[1..]);
    } else if i == n - 1 {
      assert s == s[..i] + [b] && RemoveAt(s, i) == s[..i];
      HitsConcat(d, q, s[..i], [b]);
    } else {
      assert s == s[..i] + ([b] + s[i + 1..]);
      HitsConcat(d, q, s[..i], [b] + s[i + 1..]);
      HitsConcat(d, q, [b], s[i + 1..]);
      HitsConcat(d, q, s[..i], s[i + 1..]);
    }
  }

  /** An edge that does not cross the segment from `p` to `q`. */
  ghost predicate Passes(a: Point, b: Point, p: Point, q: Point) {
    FreeFour(a, b, p, q) && !Crossing(a, b, p, q)
  }

  ghost predicate AllPass(c: seq<Point>, p: Point, q: Point) {
    forall i :: 0 <= i < |c| - 1 ==> Passes(c[i], c[i + 1], p, q)
  }

  lemma PassMoves(d: Point, a: Point, b: Point, p: Point, q: Point)
    requires Directed(d) && Passes(a, b, p, q) && Before(d, p, q)
    ensures Hit(d, q, a, b) - Hit(d, p, a, b) == Above(d, p, q, b) - Above(d, p, q, a)
  {
    HitMoves(d, a, b, p, q);
  }

  lemma {:induction false} HitsMove(d: Point, c: seq<Point>, p: Point, q: Point)
    requires Directed(d) && c != [] && AllPass(c, p, q) && Before(d, p, q)
    ensures Hits(d, q, c) - Hits(d, p, c) == Above(d, p, q, c[|c| - 1]) - Above(d, p, q, c[0])
  {
    hide Hit, Above, Passes, Before;
    if |c| > 1 {
      forall i | 0 <= i < |c| - 2 ensures Passes(c[1..][i], c[1..][i + 1], p, q) {
        assert Passes(c[i + 1], c[i + 1 + 1], p, q);
      }
      HitsMove(d, c[1..], p, q);
      assert Passes(c[0], c[0 + 1], p, q);
      PassMoves(d, c[0], c[1], p, q);
    }
  }

  lemma PassesTurned(a: Point, b: Point, p: Point, q: Point)
    requires Passes(a, b, p, q)
    ensures Passes(a, b, q, p)
  {
    Three(a, p, q);
    Three(b, p, q);
    CrossingTurned(a, b, p, q);
  }

  /** A ring winds equally often around both ends of a segment that it does not cross. */
  lemma WindsMove(d: Point, s: seq<Point>, p: Point, q: Point)
    requires Directed(d) && s != [] && p != q && AllPass(s, p, q) && Passes(s[|s| - 1], s[0], p, q)
    ensures Winds(d, p, s) == Winds(d, q, s)
  {
    hide Hit, Above, Passes, Hits, Before;
    Order(d, p, q);
    if Before(d, p, q) {
      HitsMove(d, s, p, q);
      PassMoves(d, s[|s| - 1], s[0], p, q);
    } else {
      forall i | 0 <= i < |s| - 1 ensures Passes(s[i], s[i + 1], q, p) {
        PassesTurned(s[i], s[i + 1], p, q);
      }
      PassesTurned(s[|s| - 1], s[0], p, q);
      HitsMove(d, s, q, p);
      PassMoves(d, s[|s| - 1], s[0], q, p);
    }
  }

  lemma {:induction false} NoHits(d: Point, v: Point, c: seq<Point>)
    requires Directed(d) && forall i :: 0 <= i < |c| ==> Before(d, v, c[i])
    requires forall i :: 0 <= i < |c| - 1 ==> Free(v, c[i], c[i + 1])
    ensures Hits(d, v, c) == 0
  {
    hide Hit, Free, Before;
    if |c| > 1 {
      forall i | 0 <= i < |c| - 2 ensures Free(v, c[1..][i], c[1..][i + 1]) {
        assert Free(v, c[i + 1], c[i + 1 + 1]);
      }
      NoHits(d, v, c[1..]);
      assert Free(v, c[0], c[0 + 1]);
      HitFirst(d, v, c[0], c[1]);
    }
  }

  /** A ring does not wind around a point that is seen from its first vertex outside the angle there. */
  lemma WindsNot(d: Point, v: Point, c: seq<Point>, q: Point)
    requires Directed(d) && 2 <= |c| && Before(d, v, q) && forall i :: 0 <= i < |c| ==> Before(d, v, c[i])
    requires AllPass(c, v, q) && forall i :: 0 <= i < |c| - 1 ==> Free(v, c[i], c[i + 1])
    requires var a, b := c[0], c[|c| - 1]; FreeFour(v, a, b, q) && Left(v, a, b) && (Left(v, b, q) || Left(v, q, a))
    ensures Winds(d, q, [v] + c) == 0
  {
    hide Hit, Above, Passes, Free, Before, Left;
    NoHits(d, v, c);
    HitsMove(d, c, v, q);
    HitsConcat(d, q, [v], c);
    OneVertexHits(d, q, v);
    HitOutside(d, v, c[0], c[|c| - 1], q);
  }
}
