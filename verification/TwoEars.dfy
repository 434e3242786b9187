/** Every simple polygon has an ear, even one that avoids a given edge, so ear clipping covers it completely.

The proof goes by induction over the number of vertices. The first vertex in some direction is an ear, or a chord
from it splits the ring into two smaller ones. Ears of the one that do not touch the chord are ears of the whole,
because the other one lies outside; that it does is counted by how often rings wind around points. That all corners
at which a ring turns back turn the same way as its area says is part of the induction.
*/
module TwoEars {
  import opened Permutations
  import opened Polygon
  import opened Sides
  import opened SimpleRings
  import opened Triangulate
  import opened Winding

  // ----- The first vertex -----

  /** The ring starts with the vertex that comes first in direction `d`. */
  ghost predicate Starts(s: seq<Point>, d: Point) {
    Directed(d) && s != [] && forall i :: 0 < i < |s| ==> Before(d, s[0], s[i])
  }

  lemma Different(s: seq<Point>, i: nat, j: nat)
    requires General(s) && 3 <= |s| && i < |s| && j < |s| && i != j
    ensures s[i] != s[j]
  {
    var k := if i != 0 && j != 0 then 0 else if i != 1 && j != 1 then 1 else 2;
    FreeAt(s, i, j, k);
    Three(s[i], s[j], s[k]);
  }

  lemma {:induction false} FindFirst(s: seq<Point>, d: Point, m: nat) returns (r: nat)
    requires General(s) && 3 <= |s| && Directed(d) && 0 < m <= |s|
    ensures r < m && forall i :: 0 <= i < m && i != r ==> Before(d, s[r], s[i])
  {
    hide General, Before;
    r := 0;
    if m > 1 {
      r := FindFirst(s, d, m - 1);
      Different(s, r, m - 1);
      Order(d, s[r], s[m - 1]);
      if Before(d, s[m - 1], s[r]) {
        forall i | 0 <= i < m - 1 ensures Before(d, s[m - 1], s[i]) {
          if i != r { OrderOn(d, s[m - 1], s[r], s[i]); }
        }
        r := m - 1;
      }
    }
  }

  lemma TurnedStarts(s: seq<Point>, d: Point, r: nat)
    requires Directed(d) && r < |s| && forall i :: 0 <= i < |s| && i != r ==> Before(d, s[r], s[i])
    ensures Starts(Turned(s, r), d)
  {
    hide Before;
  }

  /** At its first vertex the ring turns left. */
  predicate TurnsLeftFirst(s: seq<Point>)
    requires s != []
  {
    1 < |s| && Left(s[|s| - 1], s[0], s[1])
  }

  // ----- Chords -----

  lemma NearestOf(s: seq<Point>, m: nat, j: nat)
    requires General(s) && 4 <= |s| && 3 <= m <= |s| - 1 && 2 <= j < m - 1
    requires In(s[|s| - 1], s[0], s[1], s[j]) && In(s[|s| - 1], s[0], s[1], s[m - 1])
    requires forall i :: 2 <= i < m - 1 && i != j ==> NotNearer(s[|s| - 1], s[0], s[1], s[j], s[i])
    ensures !Left(s[1], s[m - 1], s[j]) ==>
              forall i :: 2 <= i < m - 1 ==> NotNearer(s[|s| - 1], s[0], s[1], s[m - 1], s[i])
  {
    hide General, Free;
    var n, u, v, w, z, z' := |s|, s[|s| - 1], s[0], s[1], s[j], s[m - 1];
    FreeAt(s, 1, m - 1, j);
    Three(w, z', z);
    if !Left(w, z', z) {
      forall i | 2 <= i < m - 1 ensures NotNearer(u, v, w, z', s[i]) {
        if i != j && In(u, v, w, s[i]) {
          FiveAt(s, 1, n - 1, i, j, m - 1);
          hide Left;
          NearestOn(w, u, s[i], z, z');
        }
      }
    }
  }

  /** The vertex in the triangle at the first vertex that is nearest to it as seen from the second one. */
  lemma {:induction false} Nearest(s: seq<Point>, m: nat) returns (j: nat)
    requires General(s) && 4 <= |s| && m <= |s| - 1
    requires exists i :: 2 <= i < m && In(s[|s| - 1], s[0], s[1], s[i])
    ensures 2 <= j < m && In(s[|s| - 1], s[0], s[1], s[j])
    ensures forall i :: 2 <= i < m && i != j ==> NotNearer(s[|s| - 1], s[0], s[1], s[j], s[i])
  {
    hide General, Left, FreeAround;
    var u, v, w := s[|s| - 1], s[0], s[1];
    if exists i :: 2 <= i < m - 1 && In(u, v, w, s[i]) {
      j := Nearest(s, m - 1);
      if In(u, v, w, s[m - 1]) {
        NearestOf(s, m, j);
        if !Left(w, s[m - 1], s[j]) {
          j := m - 1;
        }
      }
    } else {
      j := m - 1;
    }
  }

  lemma SixAt(s: seq<Point>, j: nat, k: nat)
    requires General(s) && 2 <= j < |s| - 1 && 2 <= k < |s| - 2 && k != j && k + 1 != j
    ensures FreeSix(s[|s| - 1], s[0], s[1], s[j], s[k], s[k + 1])
  {
    hide General, FreeFive;
    var n := |s|;
    FiveAt(s, n - 1, 0, 1, j, k); FiveAt(s, n - 1, 0, 1, j, k + 1); FiveAt(s, n - 1, 0, 1, k, k + 1);
    FiveAt(s, n - 1, 0, j, k, k + 1); FiveAt(s, n - 1, 1, j, k, k + 1); FiveAt(s, 0, 1, j, k, k + 1);
  }

  lemma ChordClearOf(s: seq<Point>, j: nat, k: nat)
    requires Simple(s) && 4 <= |s| && TurnsLeftFirst(s) && 2 <= j < |s| - 1 && In(s[|s| - 1], s[0], s[1], s[j])
    requires forall i :: 2 <= i < |s| - 1 && i != j ==> NotNearer(s[|s| - 1], s[0], s[1], s[j], s[i])
    requires k < |s| && !Meets(|s|, k, 0, j)
    ensures !Crossing(s[0], s[j], s[k], s[Next(k, |s|)])
  {
    hide General, Left, In, Clear, Crossing, NotNearer, Free;
    var n := |s|;
    var u, v, w, z := s[n - 1], s[0], s[1], s[j];
    Neighbours(k, n);
    Neighbours(0, n);
    Neighbours(n - 1, n);
    assert Clear(s, 0, Next(0, n)) && Clear(s, n - 1, Next(n - 1, n)) && Joins(n, k, k + 1);
    if k == 1 {
      FiveAt(s, n - 1, 0, 1, j, 2);
      ClearOf(s, n - 1, 0, 1, 2);
      ChordClearFrom(u, v, w, z, s[2]);
    } else if k == n - 2 {
      FiveAt(s, n - 1, 0, 1, j, n - 2);
      ClearOf(s, 0, 1, n - 2, n - 1);
      FourAt(s, 0, 1, n - 2, n - 1);
      CrossingTurned(v, w, s[n - 2], u);
      FourAt(s, 0, j, n - 2, n - 1);
      CrossingTurned(v, z, s[n - 2], u);
      ChordClearFrom(u, v, w, z, s[n - 2]);
    } else {
      ClearOf(s, n - 1, 0, k, k + 1);
      ClearOf(s, 0, 1, k, k + 1);
      SixAt(s, j, k);
      ChordClear(u, v, w, z, s[k], s[k + 1]);
    }
  }

  /** A chord from the first vertex, when it is no ear. */
  lemma FindChord(s: seq<Point>) returns (j: nat)
    requires Simple(s) && 4 <= |s| && TurnsLeftFirst(s) && !Empty(s, |s| - 1, 0, 1)
    ensures 2 <= j < |s| - 1 && In(s[|s| - 1], s[0], s[1], s[j]) && Clear(s, 0, j)
  {
    hide General, Left, In, Clear, Crossing;
    var n := |s|;
    j := Nearest(s, n - 1);
    forall k | 0 <= k < n && !Meets(n, k, 0, j) ensures !Crossing(s[0], s[j], s[k], s[Next(k, n)]) {
      ChordClearOf(s, j, k);
    }
    ClearIs(s, 0, j);
  }

  /** Both parts start with the same first vertex and turn left there. */
  lemma PartsStart(s: seq<Point>, d: Point, j: nat)
    requires General(s) && Starts(s, d) && 2 <= j < |s| - 1 && TurnsLeftFirst(s) && In(s[|s| - 1], s[0], s[1], s[j])
    ensures Starts(s[..j + 1], d) && TurnsLeftFirst(s[..j + 1])
    ensures Starts([s[0]] + s[j..], d) && TurnsLeftFirst([s[0]] + s[j..])
  {
    hide General, Before;
    FreeAt(s, 0, 1, j);
    Three(s[0], s[1], s[j]);
  }

  // ----- Outside -----

  /** Any two distinct vertices of a part, seen from a vertex of the other one. */
  lemma PathPasses(s: seq<Point>, lo: nat, hi: nat, a: nat, b: nat)
    requires Simple(s) && lo < hi < |s| && a < |s| && b < |s| && a != b && Joins(|s|, a, b)
    requires (a < lo || hi < a) && (b < lo || hi < b)
    ensures AllPass(s[lo..hi + 1], s[a], s[b])
  {
    hide General, Crossing, FreeFour;
    var c := s[lo..hi + 1];
    JoinsClear(s, a, b);
    forall i | 0 <= i < |c| - 1 ensures Passes(c[i], c[i + 1], s[a], s[b]) {
      Neighbours(lo + i, |s|);
      FourAt(s, lo + i, lo + i + 1, a, b);
      FourAt(s, a, b, lo + i, lo + i + 1);
      ClearOf(s, a, b, lo + i, lo + i + 1);
      CrossingTurned(s[a], s[b], s[lo + i], s[lo + i + 1]);
    }
  }

  lemma SecondAngle(s: seq<Point>, d: Point, j: nat)
    requires Simple(s) && Starts(s, d) && 2 <= j < |s| - 1 && TurnsLeftFirst(s) && In(s[|s| - 1], s[0], s[1], s[j])
    ensures var v, c := s[0], s[j..];
            && Before(d, v, s[1]) && (forall i :: 0 <= i < |c| ==> Before(d, v, c[i])) && AllPass(c, v, s[1])
            && (forall i :: 0 <= i < |c| - 1 ==> Free(v, c[i], c[i + 1]))
            && FreeFour(v, c[0], c[|c| - 1], s[1]) && Left(v, c[0], c[|c| - 1]) && Left(v, s[1], c[0])
  {
    hide General, Before, Clear, Free;
    var n := |s|;
    Neighbours(0, n);
    PathPasses(s, j, n - 1, 0, 1);
    assert s[j..n - 1 + 1] == s[j..];
    FourAt(s, 0, j, n - 1, 1);
    FreeAt(s, 0, j, n - 1);
    Three(s[0], s[j], s[n - 1]);
    FreeAt(s, 0, 1, j);
    Three(s[0], s[1], s[j]);
    var v, c := s[0], s[j..];
    forall i | 0 <= i < |c| - 1 ensures Free(v, c[i], c[i + 1]) {
      FreeAt(s, 0, j + i, j + i + 1);
    }
  }

  lemma SecondPasses(s: seq<Point>, j: nat, x: nat)
    requires Simple(s) && 2 <= j < |s| - 1 && Clear(s, 0, j) && 2 <= x < j
    ensures var t := [s[0]] + s[j..];
            s[x - 1] != s[x] && AllPass(t, s[x - 1], s[x]) && Passes(t[|t| - 1], t[0], s[x - 1], s[x])
  {
    hide General, Crossing, FreeFour, Clear;
    var n, t := |s|, [s[0]] + s[j..];
    Neighbours(x - 1, n);
    Neighbours(n - 1, n);
    Different(s, x - 1, x);
    PathPasses(s, j, n - 1, x - 1, x);
    assert s[j..n - 1 + 1] == s[j..];
    FourAt(s, 0, j, x - 1, x);
    ClearOf(s, 0, j, x - 1, x);
    FourAt(s, n - 1, 0, x - 1, x);
    assert Clear(s, n - 1, Next(n - 1, n));
    ClearOf(s, n - 1, 0, x - 1, x);
    forall i | 0 <= i < |t| - 1 ensures Passes(t[i], t[i + 1], s[x - 1], s[x]) {
      if i > 0 { assert Passes(s[j..][i - 1], s[j..][i - 1 + 1], s[x - 1], s[x]); }
    }
  }

  /** The part behind the chord does not wind around the vertices in front of it. */
  lemma {:induction false} SecondWindsNot(s: seq<Point>, d: Point, j: nat, x: nat)
    requires Simple(s) && Starts(s, d) && 2 <= j < |s| - 1 && TurnsLeftFirst(s) && In(s[|s| - 1], s[0], s[1], s[j])
    requires Clear(s, 0, j) && 1 <= x < j
    ensures Winds(d, s[x], [s[0]] + s[j..]) == 0
  {
    hide Simple, Winds, Left, Before, Passes, Free;
    var n, v, c := |s|, s[0], s[j..];
    assert c == s[j..n - 1 + 1];
    if x == 1 {
      SecondAngle(s, d, j);
      WindsNot(d, v, c, s[1]);
    } else {
      SecondWindsNot(s, d, j, x - 1);
      SecondPasses(s, j, x);
      WindsMove(d, [v] + c, s[x - 1], s[x]);
    }
  }

  lemma FirstAngle(s: seq<Point>, d: Point, j: nat)
    requires Simple(s) && Starts(s, d) && 2 <= j < |s| - 1 && TurnsLeftFirst(s) && In(s[|s| - 1], s[0], s[1], s[j])
    ensures var v, c, u := s[0], s[1..j + 1], s[|s| - 1];
            && Before(d, v, u) && (forall i :: 0 <= i < |c| ==> Before(d, v, c[i])) && AllPass(c, v, u)
            && (forall i :: 0 <= i < |c| - 1 ==> Free(v, c[i], c[i + 1]))
            && FreeFour(v, c[0], c[|c| - 1], u) && Left(v, c[0], c[|c| - 1]) && Left(v, c[|c| - 1], u)
  {
    hide General, Before, Clear, Free;
    var n := |s|;
    Neighbours(n - 1, n);
    PathPasses(s, 1, j, 0, n - 1);
    FourAt(s, 0, 1, j, n - 1);
    FreeAt(s, 0, j, n - 1);
    Three(s[0], s[j], s[n - 1]);
    FreeAt(s, 0, 1, j);
    Three(s[0], s[1], s[j]);
    var v, c := s[0], s[1..j + 1];
    forall i | 0 <= i < |c| - 1 ensures Free(v, c[i], c[i + 1]) {
      FreeAt(s, 0, 1 + i, 1 + i + 1);
    }
  }

  lemma FirstPasses(s: seq<Point>, j: nat, x: nat)
    requires Simple(s) && 2 <= j < |s| - 1 && Clear(s, 0, j) && j < x < |s| - 1
    ensures var t := s[..j + 1];
            s[x + 1] != s[x] && AllPass(t, s[x + 1], s[x]) && Passes(t[|t| - 1], t[0], s[x + 1], s[x])
  {
    hide General, Crossing, FreeFour, Clear;
    var n, t := |s|, s[..j + 1];
    Neighbours(x, n);
    Different(s, x + 1, x);
    PathPasses(s, 0, j, x + 1, x);
    assert s[0..j + 1] == t;
    ClearTurned(s, 0, j);
    FourAt(s, j, 0, x + 1, x);
    ClearOf(s, j, 0, x + 1, x);
  }

  /** And the other way around. */
  lemma {:induction false} FirstWindsNot(s: seq<Point>, d: Point, j: nat, x: nat)
    requires Simple(s) && Starts(s, d) && 2 <= j < |s| - 1 && TurnsLeftFirst(s) && In(s[|s| - 1], s[0], s[1], s[j])
    requires Clear(s, 0, j) && j < x < |s|
    ensures Winds(d, s[x], s[..j + 1]) == 0
    decreases |s| - x
  {
    hide Simple, Winds, Left, Before, Passes, Free;
    var n, v, c := |s|, s[0], s[1..j + 1];
    assert s[..j + 1] == [v] + c;
    if x == n - 1 {
      FirstAngle(s, d, j);
      WindsNot(d, v, c, s[n - 1]);
    } else {
      FirstWindsNot(s, d, j, x + 1);
      FirstPasses(s, j, x);
      WindsMove(d, s[..j + 1], s[x + 1], s[x]);
    }
  }

  // ----- Ears of the parts -----

  /** An ear of the second part is an ear of the ring, if no vertex of the first part is in it. */
  lemma SecondEar(s: seq<Point>, j: nat, i: nat)
    requires General(s) && 2 <= j < |s| - 1
    requires var t := [s[0]] + s[j..];
             && General(t) && 2 <= i < |t| && Ear(t, i)
             && forall x :: 1 <= x < j ==> !In(t[Prev(i, |t|)], t[i], t[Next(i, |t|)], s[x])
    ensures Ear(s, j + i - 1)
  {
    hide General, Left, In, Ear;
    var n, t, e := |s|, [s[0]] + s[j..], j + i - 1;
    Neighbours(i, |t|);
    Neighbours(e, n);
    EarIff(t, i);
    EarIff(s, e);
    assert s[Prev(e, n)] == t[Prev(i, |t|)] && s[e] == t[i] && s[Next(e, n)] == t[Next(i, |t|)];
    forall x | 0 <= x < n && x != Prev(e, n) && x != e && x != Next(e, n)
      ensures !In(s[Prev(e, n)], s[e], s[Next(e, n)], s[x])
    {
      if x == 0 {
        assert t[0] == s[x];
      } else if j <= x {
        assert t[x - j + 1] == s[x];
      }
    }
  }

  lemma FirstEar(s: seq<Point>, j: nat, i: nat)
    requires General(s) && 2 <= j < |s| - 1
    requires var t := s[..j + 1];
             && General(t) && 1 <= i < j && Ear(t, i)
             && forall x :: j < x < |s| ==> !In(t[Prev(i, |t|)], t[i], t[Next(i, |t|)], s[x])
    ensures Ear(s, i)
  {
    hide General, Left, In, Ear;
    var n, t := |s|, s[..j + 1];
    Neighbours(i, |t|);
    Neighbours(i, n);
    EarIff(t, i);
    EarIff(s, i);
    assert s[Prev(i, n)] == t[Prev(i, |t|)] && s[i] == t[i] && s[Next(i, n)] == t[Next(i, |t|)];
    forall x | 0 <= x < n && x != Prev(i, n) && x != i && x != Next(i, n)
      ensures !In(s[Prev(i, n)], s[i], s[Next(i, n)], s[x])
    {
      if x <= j { assert t[x] == s[x]; }
    }
  }

  // ----- The induction -----

  /** The point lies on no line through two vertices. */
  ghost predicate Off(s: seq<Point>, q: Point) {
    forall i, k :: 0 <= i < k < |s| ==> Free(s[i], s[k], q)
  }

  lemma OffAt(s: seq<Point>, q: Point, i: nat, k: nat)
    requires Off(s, q) && i < |s| && k < |s| && i != k
    ensures Free(s[i], s[k], q)
  {
    if k < i { Three(s[k], s[i], q); }
  }

  lemma OffTriangle(s: seq<Point>, q: Point, i: nat)
    requires General(s) && 3 <= |s| && Off(s, q) && i < |s|
    ensures FreeFour(s[Prev(i, |s|)], s[i], s[Next(i, |s|)], q)
  {
    hide General, Off, Free;
    var n := |s|;
    Neighbours(i, n);
    FreeAt(s, Prev(i, n), i, Next(i, n));
    OffAt(s, q, Prev(i, n), i);
    OffAt(s, q, Prev(i, n), Next(i, n));
    OffAt(s, q, i, Next(i, n));
  }

  lemma OffRest(s: seq<Point>, q: Point, i: nat)
    requires Off(s, q) && i < |s|
    ensures Off(RemoveAt(s, i), q)
  {
    hide Free;
    var t := RemoveAt(s, i);
    forall a, b | 0 <= a < b < |t| ensures Free(t[a], t[b], q) {
      assert t[a] == s[if a < i then a else a + 1] && t[b] == s[if b < i then b else b + 1];
    }
  }

  lemma TriangleArea(s: seq<Point>, i: nat)
    requires |s| == 3 && i < 3
    ensures Area2(s) == Cross(s[Prev(i, 3)], s[i], s[Next(i, 3)])
  {
    CutVertex(s, i);
    TwoVertices(RemoveAt(s, i));
  }

  lemma BackwardsStarts(s: seq<Point>, d: Point)
    requires General(s) && 3 <= |s| && Starts(s, d)
    ensures Starts(Backwards(s), d) && TurnsLeftFirst(Backwards(s)) == !TurnsLeftFirst(s)
  {
    hide General, Before;
    var n := |s|;
    FreeAt(s, n - 1, 0, 1);
    Three(s[n - 1], s[0], s[1]);
  }

  /** A vertex that comes first in some direction, and is not vertex `i`. */
  lemma FirstOther(s: seq<Point>, i: nat) returns (d: Point, r: nat)
    requires General(s) && 3 <= |s| && i < |s|
    ensures r < |s| && r != i && Starts(Turned(s, r), d)
  {
    hide General, Before;
    d := Point(1.0, 0.0);
    r := FindFirst(s, d, |s|);
    if r == i {
      var k := if i == 0 then 1 else 0;
      var d' := Opposite(d);
      r := FindFirst(s, d', |s|);
      if r == i {
        OppositeOrder(d, s[i], s[k]);
        Different(s, i, k);
        Order(d, s[i], s[k]);
      }
      d := d';
    }
    TurnedStarts(s, d, r);
  }

  lemma SomeArea(s: seq<Point>)
    requires Simple(s)
    ensures Area2(s) != 0.0
    decreases |s|, 2
  {
    hide General, Clear, Starts, TurnsLeftFirst, Area2;
    var d, r := FirstOther(s, 0);
    TurnedSimple(s, r);
    TurnedArea(s, r);
    TurnsAsArea(Turned(s, r), d);
  }

  lemma TurnedBack(s: seq<Point>, r: nat)
    requires r < |s|
    ensures if r == 0 then Turned(s, r) == s else Turned(Turned(s, r), |s| - r) == s
  {
  }

  lemma TurnedEarAt(s: seq<Point>, r: nat, e: nat)
    requires r < |s| && e < |s|
    ensures EarAt(Turned(s, r), e) == EarAt(s, TurnedIndex(e, r, |s|))
  {
    hide Prev, Next;
    TurnedAt(s, r, e);
  }

  lemma EarTurned(s: seq<Point>, r: nat, i: nat) returns (e: nat)
    requires r < |s| && i < |s| && i != r && Ear(s, i)
    ensures 0 < e < |s| && TurnedIndex(e, r, |s|) == i && Ear(Turned(s, r), e)
    ensures EarAt(Turned(s, r), e) == EarAt(s, i)
  {
    hide Ear, EarAt, Prev, Next, Turned;
    var n := |s|;
    e := if r <= i then i - r else i - r + n;
    assert TurnedIndex(e, r, n) == i && (r > 0 ==> TurnedIndex(i, n - r, n) == e);
    TurnedBack(s, r);
    TurnedEarAt(s, r, e);
    hide TurnedIndex;
    if r > 0 {
      TurnedEar(Turned(s, r), |s| - r, i);
    }
  }

  /** Clipping an ear that is not the first vertex does not change the way the ring turns there. */
  lemma StillFirst(s: seq<Point>, d: Point, i: nat)
    requires Simple(s) && 4 <= |s| && Starts(s, d) && TurnsLeftFirst(s) && 0 < i < |s| && Ear(s, i)
    ensures Starts(RemoveAt(s, i), d) && TurnsLeftFirst(RemoveAt(s, i))
  {
    hide General, Clear, Before, Left, In, Crossing, Ear, Free;
    var n := |s|;
    EarIff(s, i);
    Neighbours(i, n);
    if i == 1 {
      Neighbours(n - 1, n);
      assert Clear(s, n - 1, Next(n - 1, n)) && Joins(n, 1, 2);
      ClearOf(s, n - 1, 0, 1, 2);
      FourAt(s, 0, 1, 2, n - 1);
      StillTurns(d, s[0], s[1], s[2], s[n - 1]);
    } else if i == n - 1 {
      Neighbours(0, n);
      Neighbours(n - 2, n);
      assert Clear(s, 0, Next(0, n)) && Joins(n, n - 2, n - 1);
      ClearOf(s, 0, 1, n - 2, n - 1);
      FourAt(s, 0, 1, n - 2, n - 1);
      StillTurns(d, s[0], s[1], s[n - 2], s[n - 1]);
    }
  }

  /** Clipping an ear off a simple ring leaves a simple ring. */
  lemma ClippedSimple(s: seq<Point>, i: nat)
    requires Simple(s) && 4 <= |s| && i < |s| && Ear(s, i)
    ensures Simple(RemoveAt(s, i))
  {
    hide General, Clear, Ear, Left, Empty;
    EarIff(s, i);
    EmptyClear(s, i);
    RemovedSimple(s, i);
  }

  lemma RemovedArea(s: seq<Point>, i: nat)
    requires 3 <= |s| && i < |s|
    ensures Area2(RemoveAt(s, i)) == Area2(s) - TriArea2(EarAt(s, i))
  {
    CutVertex(s, i);
  }

  lemma SimpleIsGeneral(s: seq<Point>)
    requires Simple(s)
    ensures General(s) && 3 <= |s|
  {
  }

  /** And one that runs counter-clockwise too. */
  lemma {:induction false} KeepsPositive(s: seq<Point>, i: nat)
    requires Simple(s) && 4 <= |s| && i < |s| && Ear(s, i) && Area2(s) > 0.0
    ensures Simple(RemoveAt(s, i)) && Area2(RemoveAt(s, i)) > 0.0
    decreases |s|, 3
  {
    hide Simple, Starts, TurnsLeftFirst, Area2, Ear, EarAt, General;
    ClippedSimple(s, i);
    assert General(s) by { SimpleIsGeneral(s); }
    var d, r := FirstOther(s, i);
    var t := Turned(s, r);
    var e := EarTurned(s, r, i);
    TurnedSimple(s, r);
    TurnedArea(s, r);
    TurnsAsArea(t, d);
    StillFirst(t, d, e);
    ClippedSimple(t, e);
    PositiveArea(RemoveAt(t, e), d);
    RemovedArea(s, i);
    RemovedArea(t, e);
  }

  lemma AlongNormal(o: Point, a: Point, p: Point)
    ensures var d := Quarter(Point(a.x - o.x, a.y - o.y)); Along(d, p) - Along(d, o) == Cross(o, a, p)
  {
  }

  lemma AlongOpposite(d: Point, p: Point)
    ensures Along(Opposite(d), p) == -Along(d, p)
  {
  }

  /** A vertex that comes first in some direction, and is on neither end of edge `k`: one farthest from it. */
  lemma FirstOff(s: seq<Point>, k: nat) returns (d: Point, r: nat)
    requires General(s) && 3 <= |s| && k < |s|
    ensures r < |s| && r != k && r != Next(k, |s|) && Starts(Turned(s, r), d)
  {
    hide General, Next;
    var n, l := |s|, Next(k, |s|);
    Neighbours(k, n);
    Different(s, k, l);
    var o, a := s[k], s[l];
    d := Quarter(Point(a.x - o.x, a.y - o.y));
    var p: nat;
    if exists i: nat :: i < n && Cross(o, a, s[i]) < 0.0 {
      p :| p < n && Cross(o, a, s[p]) < 0.0;
    } else {
      p := if k != 0 && l != 0 then 0 else if k != 1 && l != 1 then 1 else 2;
      FreeAt(s, k, l, p);
      AlongOpposite(d, s[p]); AlongOpposite(d, o); AlongOpposite(d, a);
      d := Opposite(d);
    }
    AlongNormal(o, a, s[p]);
    AlongNormal(o, a, a);
    assert Cross(o, a, a) == 0.0;
    hide Cross, Quarter, Opposite;
    assert Along(d, s[p]) < Along(d, o) && Along(d, s[p]) < Along(d, a);
    r := FindFirst(s, d, n);
    assert !Before(d, o, s[p]) && !Before(d, a, s[p]);
    TurnedStarts(s, d, r);
  }

  lemma FirstIsEar(s: seq<Point>)
    requires General(s) && 4 <= |s| && TurnsLeftFirst(s) && Empty(s, |s| - 1, 0, 1)
    ensures Ear(s, 0)
  {
    hide General, Left, Empty, Ear;
    Neighbours(0, |s|);
    EarIff(s, 0);
  }

  lemma TwoWind(d: Point, q: Point, s: seq<Point>)
    requires Directed(d) && |s| == 2 && Free(s[0], s[1], q)
    ensures Winds(d, q, s) == 0
  {
    HitTurned(d, q, s[0], s[1]);
    OneVertexHits(d, q, s[1]);
    assert s[1..] == [s[1]];
    hide Hit;
  }

  lemma EarAreaOf(s: seq<Point>, i: nat)
    requires i < |s| && Ear(s, i)
    ensures Left(s[Prev(i, |s|)], s[i], s[Next(i, |s|)])
  {
  }

  /** A ring of positive area winds around no point clockwise. */
  lemma {:induction false} WindsAround(s: seq<Point>, d: Point, q: Point)
    requires Simple(s) && Area2(s) > 0.0 && Directed(d) && Off(s, q)
    ensures Winds(d, q, s) >= 0
    decreases |s|, 8
  {
    hide Simple, Winds, Ear, Area2, In, Off;
    SimpleIsGeneral(s);
    var i := EarAvoiding(s, 0);
    EarWinds(s, d, q, i);
  }

  /** A ring winds around a point as often as what clipping an ear leaves, and once more in the ear. */
  lemma {:induction false} EarWinds(s: seq<Point>, d: Point, q: Point, i: nat)
    requires Simple(s) && Area2(s) > 0.0 && Directed(d) && Off(s, q) && i < |s| && Ear(s, i)
    ensures Winds(d, q, s) >= if In(s[Prev(i, |s|)], s[i], s[Next(i, |s|)], q) then 1 else 0
    decreases |s|, 7
  {
    hide Simple, Winds, Hit, Ear, Area2, In, Left, General, Off;
    SimpleIsGeneral(s);
    OffTriangle(s, q, i);
    OffRest(s, q, i);
    EarAreaOf(s, i);
    WindsCut(d, q, s, i);
    HitTriangle(d, s[Prev(i, |s|)], s[i], s[Next(i, |s|)], q);
    var t := RemoveAt(s, i);
    if |s| == 3 {
      OffAt(t, q, 0, 1);
      TwoWind(d, q, t);
    } else {
      KeepsPositive(s, i);
      WindsAround(t, d, q);
    }
  }

  lemma OffPart(s: seq<Point>, j: nat, x: nat)
    requires General(s) && 2 <= j < |s| - 1 && x < |s|
    ensures 1 <= x < j ==> Off([s[0]] + s[j..], s[x])
    ensures j < x ==> Off(s[..j + 1], s[x])
  {
    hide General, Free;
    if 1 <= x < j {
      var t := [s[0]] + s[j..];
      forall i, k | 0 <= i < k < |t| ensures Free(t[i], t[k], s[x]) {
        FreeAt(s, if i == 0 then 0 else j + i - 1, j + k - 1, x);
      }
    }
    if j < x {
      var t := s[..j + 1];
      forall i, k | 0 <= i < k < |t| ensures Free(t[i], t[k], s[x]) {
        FreeAt(s, i, k, x);
      }
    }
  }

  lemma StartsDirected(s: seq<Point>, d: Point)
    requires Starts(s, d)
    ensures Directed(d)
  {
  }

  lemma {:induction false} EarBehind(s: seq<Point>, d: Point, j: nat) returns (i: nat)
    requires Simple(s) && Starts(s, d) && TurnsLeftFirst(s)
    requires 2 <= j < |s| - 1 && In(s[|s| - 1], s[0], s[1], s[j]) && Clear(s, 0, j)
    requires var t := [s[0]] + s[j..]; Simple(t) && Starts(t, d) && TurnsLeftFirst(t)
    ensures j < i < |s| && Ear(s, i)
    decreases |s| - 1, 9
  {
    hide Simple, Starts, TurnsLeftFirst, Area2, Ear, In, Left, Clear, General, Winds, Off;
    SimpleIsGeneral(s);
    var t := [s[0]] + s[j..];
    SimpleIsGeneral(t);
    StartsDirected(s, d);
    PositiveArea(t, d);
    var e := EarAvoiding(t, 0);
    Neighbours(0, |t|);
    forall x | 1 <= x < j ensures !In(t[Prev(e, |t|)], t[e], t[Next(e, |t|)], s[x]) {
      OffPart(s, j, x);
      EarWinds(t, d, s[x], e);
      SecondWindsNot(s, d, j, x);
    }
    SecondEar(s, j, e);
    i := j + e - 1;
  }

  lemma {:induction false} EarInFront(s: seq<Point>, d: Point, j: nat) returns (i: nat)
    requires Simple(s) && Starts(s, d) && TurnsLeftFirst(s)
    requires 2 <= j < |s| - 1 && In(s[|s| - 1], s[0], s[1], s[j]) && Clear(s, 0, j)
    requires var t := s[..j + 1]; Simple(t) && Starts(t, d) && TurnsLeftFirst(t)
    ensures 1 <= i < j && Ear(s, i)
    decreases |s| - 1, 9
  {
    hide Simple, Starts, TurnsLeftFirst, Area2, Ear, In, Left, Clear, General, Winds, Off;
    SimpleIsGeneral(s);
    var t := s[..j + 1];
    SimpleIsGeneral(t);
    StartsDirected(s, d);
    PositiveArea(t, d);
    i := EarAvoiding(t, j);
    Neighbours(j, |t|);
    forall x | j < x < |s| ensures !In(t[Prev(i, |t|)], t[i], t[Next(i, |t|)], s[x]) {
      OffPart(s, j, x);
      EarWinds(t, d, s[x], i);
      FirstWindsNot(s, d, j, x);
    }
    FirstEar(s, j, i);
  }

  /** An ear, found from the first vertex, that is on neither end of edge `k`. */
  lemma {:induction false} EarFromFirst(s: seq<Point>, d: Point, k: nat) returns (i: nat)
    requires Simple(s) && 4 <= |s| && Starts(s, d) && Area2(s) > 0.0 && 1 <= k < |s| - 1
    ensures i < |s| && Ear(s, i) && i != k && i != k + 1
    decreases |s|, 4
  {
    hide Simple, Starts, TurnsLeftFirst, Area2, Ear, In, Left, Empty, Clear, General, Winds;
    var n := |s|;
    SimpleIsGeneral(s);
    TurnsAsArea(s, d);
    Neighbours(0, n);
    if Empty(s, n - 1, 0, 1) {
      i := 0;
      FirstIsEar(s);
    } else {
      var j := FindChord(s);
      PartsStart(s, d, j);
      FirstPartSimple(s, j);
      SecondPartSimple(s, j);
      if k + 1 <= j {
        i := EarBehind(s, d, j);
      } else {
        i := EarInFront(s, d, j);
      }
    }
  }

  lemma LastIsEar(s: seq<Point>, i: nat)
    requires General(s) && |s| == 3 && i < 3 && Area2(s) > 0.0
    ensures Ear(s, i)
  {
    hide General;
    Neighbours(i, 3);
    TriangleArea(s, i);
  }

  /** Every simple ring of positive area has an ear, and one that is on neither end of any given edge. */
  lemma {:induction false} EarAvoiding(s: seq<Point>, k: nat) returns (i: nat)
    requires Simple(s) && Area2(s) > 0.0 && k < |s|
    ensures i < |s| && Ear(s, i) && i != k && i != Next(k, |s|)
    decreases |s|, 5
  {
    hide Simple, Starts, Area2, Ear, General, Next, Prev;
    SimpleIsGeneral(s);
    var n := |s|;
    if n == 3 {
      i := Prev(k, 3);
      LastIsEar(s, i);
      Neighbours(k, 3);
    } else {
      var d, r := FirstOff(s, k);
      var t := Turned(s, r);
      TurnedSimple(s, r);
      TurnedArea(s, r);
      var e := if r <= k then k - r else k - r + n;
      TurnedAt(s, r, e);
      Neighbours(e, n);
      Neighbours(k, n);
      var l := EarFromFirst(t, d, e);
      TurnedEar(s, r, l);
      i := TurnedIndex(l, r, n);
    }
  }

  lemma RestSimple(s: seq<Point>)
    requires Simple(s) && 4 <= |s| && TurnsLeftFirst(s) && Empty(s, |s| - 1, 0, 1)
    ensures Simple(s[1..])
  {
    hide General, Left, Empty, Clear;
    Neighbours(0, |s|);
    EmptyClear(s, 0);
    RemovedSimple(s, 0);
    assert RemoveAt(s, 0) == s[1..];
  }

  lemma RestOfThree(s: seq<Point>, d: Point)
    requires Simple(s) && |s| == 4 && Starts(s, d) && TurnsLeftFirst(s) && Empty(s, 3, 0, 1)
    ensures Area2(s[1..]) > 0.0
  {
    hide General, Clear, Before, Crossing, In, Area2;
    Neighbours(0, 4);
    Neighbours(1, 4);
    Neighbours(2, 4);
    Neighbours(3, 4);
    FourAt(s, 0, 1, 2, 3);
    assert Clear(s, 0, Next(0, 4)) && Clear(s, 1, Next(1, 4)) && Joins(4, 2, 3) && Joins(4, 3, 0);
    ClearOf(s, 0, 1, 2, 3);
    ClearOf(s, 1, 2, 3, 0);
    LastThree(d, s[0], s[1], s[2], s[3]);
    Neighbours(1, 3);
    TriangleArea(s[1..], 1);
  }

  lemma MouthEmpty(s: seq<Point>, d: Point, e: nat)
    requires Simple(s) && 5 <= |s| && Starts(s, d) && Simple(s[1..]) && 2 <= e < |s| - 1 && Ear(Backwards(s[1..]), e)
    ensures var n, i := |s|, |s| - e;
            && Prev(i, n) == i - 1 && Next(i, n) == i + 1
            && Left(s[i + 1], s[i], s[i - 1]) && Empty(s, i + 1, i, i - 1)
  {
    hide General, Clear, Left, In, Before, Free, Ear;
    var n, b, m := |s|, Backwards(s[1..]), |s| - 1;
    var i := n - e;
    BackwardsSimple(s[1..]);
    EarIff(b, e);
    Neighbours(e, m);
    Neighbours(i, n);
    assert b[Prev(e, m)] == s[i + 1] && b[e] == s[i] && b[Next(e, m)] == s[i - 1];
    FourAt(s, 0, i + 1, i, i - 1);
    FirstOutside(d, s[0], s[i + 1], s[i], s[i - 1]);
    forall x | 0 <= x < n && x != i + 1 && x != i && x != i - 1 ensures !In(s[i + 1], s[i], s[i - 1], s[x]) {
      if x > 0 { assert b[MirrorIndex(x - 1, m)] == s[x]; }
    }
  }

  /** Clipping an ear of the rest gone around the other way keeps the ring simple, and its first vertex an ear. */
  lemma MouthClipped(s: seq<Point>, d: Point, e: nat)
    requires Simple(s) && 5 <= |s| && Starts(s, d) && TurnsLeftFirst(s) && Empty(s, |s| - 1, 0, 1)
    requires Simple(s[1..]) && 2 <= e < |s| - 1 && Ear(Backwards(s[1..]), e)
    ensures var t := RemoveAt(s, |s| - e);
            Simple(t) && Starts(t, d) && TurnsLeftFirst(t) && Empty(t, |t| - 1, 0, 1)
  {
    hide General, Clear, Left, In, Before, Free;
    var n, c, m := |s|, s[1..], |s| - 1;
    var i := n - e;
    MouthEmpty(s, d, e);
    EmptyClear(s, i);
    RemovedSimple(s, i);
    var t := RemoveAt(s, i);
    forall x | 0 <= x < |t| && x != |t| - 1 && x != 0 && x != 1 ensures !In(t[|t| - 1], t[0], t[1], t[x]) {
      assert t[x] == s[if x < i then x else x + 1];
    }
  }

  /** When the first vertex is an ear, the rest of the ring runs the same way around: were it the other way, it
      would have an ear in that sense, and without that vertex the rest would have to run both ways. */
  lemma {:induction false} RestPositive(s: seq<Point>, d: Point)
    requires Simple(s) && 4 <= |s| && Starts(s, d) && TurnsLeftFirst(s) && Empty(s, |s| - 1, 0, 1)
    ensures Simple(s[1..]) && Area2(s[1..]) > 0.0
    decreases |s| - 1, 9
  {
    hide Simple, Starts, TurnsLeftFirst, Area2, Ear, General, Empty;
    var c, m := s[1..], |s| - 1;
    RestSimple(s);
    if m == 3 {
      RestOfThree(s, d);
    } else if Area2(c) <= 0.0 {
      SomeArea(c);
      var b := Backwards(c);
      BackwardsSimple(c);
      BackwardsArea(c);
      var e := EarAvoiding(b, 0);
      Neighbours(0, m);
      KeepsPositive(b, e);
      var i := m - e;
      assert RemoveAt(b, e) == Backwards(RemoveAt(c, i));
      BackwardsArea(RemoveAt(c, i));
      MouthClipped(s, d, e);
      var s' := RemoveAt(s, i + 1);
      assert s'[1..] == RemoveAt(c, i);
      RestPositive(s', d);
      assert false;
    }
  }

  /** A ring that turns left at its first vertex has a positive area. */
  lemma {:induction false} PositiveArea(s: seq<Point>, d: Point)
    requires Simple(s) && Starts(s, d) && TurnsLeftFirst(s)
    ensures Area2(s) > 0.0
    decreases |s|, 0
  {
    hide General, Clear, Starts, In, Area2;
    var n := |s|;
    Neighbours(0, n);
    if n == 3 {
      TriangleArea(s, 0);
    } else if Empty(s, n - 1, 0, 1) {
      RestPositive(s, d);
      CutVertex(s, 0);
      assert RemoveAt(s, 0) == s[1..];
    } else {
      var j := FindChord(s);
      PartsStart(s, d, j);
      FirstPartSimple(s, j);
      SecondPartSimple(s, j);
      PositiveArea(s[..j + 1], d);
      PositiveArea([s[0]] + s[j..], d);
      AreaSplit(s, j);
    }
  }

  /** The first vertex turns as the area says. */
  lemma {:induction false} TurnsAsArea(s: seq<Point>, d: Point)
    requires Simple(s) && Starts(s, d)
    ensures Area2(s) != 0.0 && (Area2(s) > 0.0 <==> TurnsLeftFirst(s))
    decreases |s|, 1
  {
    hide General, Clear, Starts, TurnsLeftFirst, Area2;
    if TurnsLeftFirst(s) {
      PositiveArea(s, d);
    } else {
      BackwardsStarts(s, d);
      BackwardsSimple(s);
      BackwardsArea(s);
      PositiveArea(Backwards(s), d);
    }
  }

  // ----- What clipping covers -----

  /** As long as three vertices are left, the ring that is left is simple and runs counter-clockwise. */
  lemma {:induction false} ClippedStaysSimple(rings: seq<seq<Point>>, tris: seq<Triangle>)
    requires Clipping(rings, tris) && Simple(rings[0]) && Area2(rings[0]) > 0.0
    ensures 3 <= |rings[|tris|]| ==> Simple(rings[|tris|]) && Area2(rings[|tris|]) > 0.0
  {
    hide Simple, Area2, Ear;
    var n := |tris|;
    if n > 0 {
      ClippedEar(rings, tris, n - 1);
      ClippedStaysSimple(rings[..n], tris[..n - 1]);
      var s := rings[n - 1];
      var i: nat :| i < |s| && Ear(s, i) && rings[n] == RemoveAt(s, i);
      if 4 <= |s| { KeepsPositive(s, i); }
    }
  }

  /** Clipping a simple ring as far as possible covers it completely. */
  lemma SimpleIsCovered(rings: seq<seq<Point>>, tris: seq<Triangle>)
    requires Clipping(rings, tris) && Simple(rings[0]) && Area2(rings[0]) > 0.0 && StopsAt(rings[|tris|])
    ensures |tris| == |rings[0]| - 2 && Total(tris) == Area2(rings[0])
  {
    hide Simple, Area2, Ear, Clips;
    ClippedStaysSimple(rings, tris);
    var s := rings[|tris|];
    if 3 <= |s| {
      var i := EarAvoiding(s, 0);
      assert false;
    }
    ClippedCompletely(rings, tris);
  }

  lemma ReversedSimple(s: seq<Point>)
    requires Simple(s)
    ensures Simple(Reversed(s))
  {
    hide General, Clear;
    BackwardsSimple(s);
    TurnedSimple(Backwards(s), 1);
    assert Turned(Backwards(s), 1) == Reversed(s);
  }

  /** A simple polygon has an area, and is split into as many triangles as it has vertices but two, which have
      that area: as it stands when it passes for convex, and counted positive otherwise. */
  lemma SimpleIsTriangulated(poly: seq<Point>, tris: seq<Triangle>, rings: seq<seq<Point>>)
    requires Simple(poly) && Splits(poly, tris, rings)
    ensures Area2(poly) != 0.0 && |tris| == |poly| - 2
    ensures Total(tris) == if Convex(poly) then Area2(poly) else Abs(Area2(poly))
  {
    SomeArea(poly);
    SimpleIsGeneral(poly);
    hide Simple, Area2, Clipping, Convex, StopsAt, Total, Splits;
    SplitConservesArea(poly, tris, rings);
    if !Convex(poly) {
      SplitByClipping(poly, tris, rings);
      ReversedSimple(poly);
      SimpleIsCovered(rings, tris);
    }
  }
}
