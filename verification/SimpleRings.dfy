/** Simple rings: closed polygons whose edges do not cross, and what taking vertices out leaves of that. */
module SimpleRings {
  import opened Permutations
  import opened Polygon
  import opened Sides
  import opened Triangulate

  /** No three vertices lie on a line. */
  ghost predicate General(s: seq<Point>) {
    forall i, j, k :: 0 <= i < j < k < |s| ==> Free(s[i], s[j], s[k])
  }

  /** The edge from vertex `k` has a vertex in common with the segment between vertices `a` and `b`. */
  predicate Meets(n: nat, k: nat, a: nat, b: nat)
    requires k < n
  {
    k == a || k == b || Next(k, n) == a || Next(k, n) == b
  }

  /** No edge that has no vertex in common with it crosses the segment between vertices `a` and `b`. */
  ghost predicate Clear(s: seq<Point>, a: nat, b: nat)
    requires a < |s| && b < |s|
  {
    forall k :: 0 <= k < |s| && !Meets(|s|, k, a, b) ==> !Crossing(s[a], s[b], s[k], s[Next(k, |s|)])
  }

  ghost predicate Simple(s: seq<Point>) {
    3 <= |s| && General(s) && forall i :: 0 <= i < |s| ==> Clear(s, i, Next(i, |s|))
  }

  // ----- Picking vertices -----

  lemma FreeAt(s: seq<Point>, i: nat, j: nat, k: nat)
    requires General(s) && i < |s| && j < |s| && k < |s| && i != j && j != k && i != k
    ensures Free(s[i], s[j], s[k])
  {
    hide Free;
    if i < j < k {
    } else if i < k < j {
      Three(s[i], s[k], s[j]);
    } else if j < i < k {
      Three(s[j], s[i], s[k]);
    } else if j < k < i {
      Three(s[j], s[k], s[i]);
    } else if k < i < j {
      Three(s[k], s[i], s[j]);
    } else {
      Three(s[k], s[j], s[i]);
    }
  }

  predicate Differ(i: nat, j: nat, k: nat, l: nat) {
    i != j && i != k && i != l && j != k && j != l && k != l
  }

  lemma FourAt(s: seq<Point>, i: nat, j: nat, k: nat, l: nat)
    requires General(s) && i < |s| && j < |s| && k < |s| && l < |s| && Differ(i, j, k, l)
    ensures FreeFour(s[i], s[j], s[k], s[l])
  {
    hide General, Free;
    FreeAt(s, i, j, k); FreeAt(s, i, j, l); FreeAt(s, i, k, l); FreeAt(s, j, k, l);
  }

  lemma FiveAt(s: seq<Point>, i: nat, j: nat, k: nat, l: nat, m: nat)
    requires General(s) && i < |s| && j < |s| && k < |s| && l < |s| && m < |s| && Differ(i, j, k, l)
    requires m != i && m != j && m != k && m != l
    ensures FreeFive(s[i], s[j], s[k], s[l], s[m])
  {
    hide General, Free;
    FourAt(s, i, j, k, l); FourAt(s, i, j, k, m); FourAt(s, i, j, l, m); FourAt(s, i, k, l, m); FourAt(s, j, k, l, m);
  }

  /** Vertices `a` and `b` are joined by an edge. */
  predicate Joins(n: nat, a: nat, b: nat)
    requires a < n && b < n
  {
    b == Next(a, n) || a == Next(b, n)
  }

  lemma ClearOf(s: seq<Point>, a: nat, b: nat, p: nat, q: nat)
    requires General(s) && a < |s| && b < |s| && p < |s| && q < |s| && Differ(a, b, p, q)
    requires Clear(s, a, b) && Joins(|s|, p, q)
    ensures !Crossing(s[a], s[b], s[p], s[q])
  {
    hide Crossing, General, Next;
    FourAt(s, a, b, p, q);
    CrossingTurned(s[a], s[b], s[p], s[q]);
    if q == Next(p, |s|) {
      assert !Meets(|s|, p, a, b);
    } else {
      assert !Meets(|s|, q, a, b);
    }
  }

  lemma JoinsClear(s: seq<Point>, a: nat, b: nat)
    requires Simple(s) && a < |s| && b < |s| && a != b && Joins(|s|, a, b)
    ensures Clear(s, a, b)
  {
    hide Crossing, General;
    if b != Next(a, |s|) {
      assert Clear(s, b, a);
      forall k | 0 <= k < |s| && !Meets(|s|, k, a, b) ensures !Crossing(s[a], s[b], s[k], s[Next(k, |s|)]) {
        assert !Meets(|s|, k, b, a);
        Neighbours(k, |s|);
        FourAt(s, a, b, k, Next(k, |s|));
        CrossingTurned(s[a], s[b], s[k], s[Next(k, |s|)]);
      }
    }
  }

  /** The vertices of `t` are those of `s` that `f` names. */
  ghost predicate Picks(s: seq<Point>, t: seq<Point>, f: seq<nat>) {
    && |f| == |t| && Distinct(f) && forall i :: 0 <= i < |t| ==> f[i] < |s| && t[i] == s[f[i]]
  }

  lemma PickedGeneral(s: seq<Point>, t: seq<Point>, f: seq<nat>)
    requires General(s) && Picks(s, t, f)
    ensures General(t)
  {
    hide Free;
    forall i, j, k | 0 <= i < j < k < |t| ensures Free(t[i], t[j], t[k]) {
      FreeAt(s, f[i], f[j], f[k]);
    }
  }

  lemma ClearIs(s: seq<Point>, a: nat, b: nat)
    requires a < |s| && b < |s|
    requires forall k :: 0 <= k < |s| && !Meets(|s|, k, a, b) ==> !Crossing(s[a], s[b], s[k], s[Next(k, |s|)])
    ensures Clear(s, a, b)
  {
  }

  lemma PickedApart(s: seq<Point>, t: seq<Point>, f: seq<nat>, e: nat, i: nat, k: nat)
    requires Simple(s) && 3 <= |t| && Picks(s, t, f)
    requires forall i :: 0 <= i < |t| ==> Clear(s, f[i], f[Next(i, |t|)])
    requires forall i :: 0 <= i < |t| && i != e ==> Joins(|s|, f[i], f[Next(i, |t|)])
    requires i < |t| && k < |t| && !Meets(|t|, k, i, Next(i, |t|))
    ensures !Crossing(t[i], t[Next(i, |t|)], t[k], t[Next(k, |t|)])
  {
    hide General, Clear, Crossing, Joins, Free;
    var m := |t|;
    Neighbours(i, m);
    Neighbours(k, m);
    var a, b, p, q := f[i], f[Next(i, m)], f[k], f[Next(k, m)];
    assert Differ(a, b, p, q);
    if k != e {
      ClearOf(s, a, b, p, q);
    } else {
      ClearOf(s, p, q, a, b);
      FourAt(s, p, q, a, b);
      CrossingTurned(s[p], s[q], s[a], s[b]);
    }
  }

  /** A ring of picked vertices is simple when its edges cross no edge of the old ring, and all of them but one
      are edges of the old ring. */
  lemma PickedSimple(s: seq<Point>, t: seq<Point>, f: seq<nat>, e: nat)
    requires Simple(s) && 3 <= |t| && Picks(s, t, f)
    requires forall i :: 0 <= i < |t| ==> Clear(s, f[i], f[Next(i, |t|)])
    requires forall i :: 0 <= i < |t| && i != e ==> Joins(|s|, f[i], f[Next(i, |t|)])
    ensures Simple(t)
  {
    hide General, Clear, Crossing, Joins, Free;
    PickedGeneral(s, t, f);
    var m := |t|;
    forall i | 0 <= i < m ensures Clear(t, i, Next(i, m)) {
      forall k | 0 <= k < m && !Meets(m, k, i, Next(i, m)) ensures !Crossing(t[i], t[Next(i, m)], t[k], t[Next(k, m)]) {
        PickedApart(s, t, f, e, i, k);
      }
      ClearIs(t, i, Next(i, m));
    }
  }

  // ----- The same ring from another vertex, and the other way -----

  lemma TurnedSimple(s: seq<Point>, r: nat)
    requires Simple(s) && r < |s|
    ensures Simple(Turned(s, r))
  {
    hide General, Clear, Next, Prev;
    var n, t := |s|, Turned(s, r);
    var f := seq(n, i requires 0 <= i < n => TurnedIndex(i, r, n));
    forall i | 0 <= i < n ensures Clear(s, f[i], f[Next(i, n)]) && Joins(n, f[i], f[Next(i, n)]) {
      TurnedAt(s, r, i);
    }
    PickedSimple(s, t, f, 0);
  }

  lemma BackwardsJoins(s: seq<Point>, i: nat)
    requires 2 <= |s| && i < |s|
    ensures var n := |s|;
            var a, b := MirrorIndex(i, n), MirrorIndex(Next(i, n), n);
            a != b && Joins(n, a, b)
  {
    var n := |s|;
    Neighbours(i, n);
    Neighbours(MirrorIndex(Next(i, n), n), n);
  }

  lemma BackwardsSimple(s: seq<Point>)
    requires Simple(s)
    ensures Simple(Backwards(s))
  {
    hide General, Clear, Next, Prev;
    var n, t := |s|, Backwards(s);
    var f := seq(n, i requires 0 <= i < n => MirrorIndex(i, n));
    forall i | 0 <= i < n ensures Clear(s, f[i], f[Next(i, n)]) && Joins(n, f[i], f[Next(i, n)]) {
      BackwardsJoins(s, i);
      JoinsClear(s, f[i], f[Next(i, n)]);
    }
    PickedSimple(s, t, f, 0);
  }

  // ----- Taking a vertex out -----

  /** No other vertex lies in the triangle of three vertices. */
  ghost predicate Empty(s: seq<Point>, a: nat, b: nat, c: nat)
    requires a < |s| && b < |s| && c < |s|
  {
    forall j :: 0 <= j < |s| && j != a && j != b && j != c ==> !In(s[a], s[b], s[c], s[j])
  }

  lemma HoldsIsIn(a: Point, b: Point, c: Point, p: Point)
    requires FreeFour(a, b, c, p)
    ensures Holds(Triangle(a, b, c), p) == In(a, b, c, p)
  {
    Three(a, c, p);
  }

  lemma EarIff(s: seq<Point>, i: nat)
    requires General(s) && 3 <= |s| && i < |s|
    ensures var n := |s|;
            Ear(s, i) <==> Left(s[Prev(i, n)], s[i], s[Next(i, n)]) && Empty(s, Prev(i, n), i, Next(i, n))
  {
    hide Holds, In, General, Cross;
    var n := |s|;
    Neighbours(i, n);
    var a, c := Prev(i, n), Next(i, n);
    forall j | 0 <= j < n && j != a && j != i && j != c
      ensures Holds(EarAt(s, i), s[j]) == In(s[a], s[i], s[c], s[j])
    {
      FourAt(s, a, i, c, j);
      HoldsIsIn(s[a], s[i], s[c], s[j]);
    }
  }

  lemma Sided(a: Point, b: Point, c: Point, p: Point, q: Point)
    requires FreeFive(a, b, c, p, q) && FreeFive(c, b, a, p, q) && !Crossing(a, b, p, q) && !Crossing(b, c, p, q)
    requires || (Left(a, b, c) && !In(a, b, c, p) && !In(a, b, c, q))
             || (Left(c, b, a) && !In(c, b, a, p) && !In(c, b, a, q))
    ensures !Crossing(a, c, p, q)
  {
    hide Left, In, Free;
    CrossingTurned(a, b, p, q);
    CrossingTurned(b, c, p, q);
    CrossingTurned(a, c, p, q);
    if Left(a, b, c) && !In(a, b, c, p) && !In(a, b, c, q) {
      EarClear(a, b, c, p, q);
    } else {
      EarClear(c, b, a, p, q);
    }
  }

  lemma EmptyClearOf(s: seq<Point>, i: nat, k: nat)
    requires Simple(s) && 4 <= |s| && i < |s| && k < |s| && !Meets(|s|, k, Prev(i, |s|), Next(i, |s|))
    requires var a, c := Prev(i, |s|), Next(i, |s|);
             (Left(s[a], s[i], s[c]) && Empty(s, a, i, c)) || (Left(s[c], s[i], s[a]) && Empty(s, c, i, a))
    ensures !Crossing(s[Prev(i, |s|)], s[Next(i, |s|)], s[k], s[Next(k, |s|)])
  {
    hide General, Crossing, Left, In, Clear, FreeFive;
    var n := |s|;
    Neighbours(i, n);
    Neighbours(k, n);
    Neighbours(Prev(i, n), n);
    var a, c, l := Prev(i, n), Next(i, n), Next(k, n);
    assert Clear(s, a, Next(a, n)) && Clear(s, i, Next(i, n)) && Joins(n, k, l);
    ClearOf(s, a, i, k, l);
    ClearOf(s, i, c, k, l);
    FiveAt(s, a, i, c, k, l);
    FiveAt(s, c, i, a, k, l);
    Sided(s[a], s[i], s[c], s[k], s[l]);
  }

  /** The segment between the neighbours of a vertex crosses no edge when their triangle is empty, whichever way
      around it runs. */
  lemma EmptyClear(s: seq<Point>, i: nat)
    requires Simple(s) && 4 <= |s| && i < |s|
    requires var a, c := Prev(i, |s|), Next(i, |s|);
             (Left(s[a], s[i], s[c]) && Empty(s, a, i, c)) || (Left(s[c], s[i], s[a]) && Empty(s, c, i, a))
    ensures Clear(s, Prev(i, |s|), Next(i, |s|))
  {
    hide General, Crossing, Left, In, Clear, FreeFive;
    var n := |s|;
    var a, c := Prev(i, n), Next(i, n);
    forall k | 0 <= k < n && !Meets(n, k, a, c) ensures !Crossing(s[a], s[c], s[k], s[Next(k, n)]) {
      EmptyClearOf(s, i, k);
    }
    ClearIs(s, a, c);
  }

  function Skipping(n: nat, i: nat): (f: seq<nat>)
    requires i < n
    ensures |f| == n - 1 && forall k :: 0 <= k < n - 1 ==> f[k] == Up(k, i)
  {
    seq(n - 1, k requires 0 <= k < n - 1 => Up(k, i))
  }

  lemma SkippingJoins(n: nat, i: nat, k: nat)
    requires 4 <= n && i < n && k < n - 1
    ensures var f, m := Skipping(n, i), n - 1;
            var a, b := f[k], f[Next(k, m)];
            && a != b && (a == Prev(i, n) ==> b == Next(i, n) && k == if i == 0 then m - 1 else i - 1)
            && (a != Prev(i, n) ==> Joins(n, a, b))
  {
    Neighbours(k, n - 1);
    Neighbours(i, n);
    Neighbours(Skipping(n, i)[k], n);
  }

  /** Taking a vertex out leaves a simple ring when the segment that closes the gap crosses no edge. */
  lemma RemovedSimple(s: seq<Point>, i: nat)
    requires Simple(s) && 4 <= |s| && i < |s| && Clear(s, Prev(i, |s|), Next(i, |s|))
    ensures Simple(RemoveAt(s, i))
  {
    hide General, Clear, Next, Prev;
    var n, t := |s|, RemoveAt(s, i);
    var f := Skipping(n, i);
    var e := if i == 0 then n - 2 else i - 1;
    forall k | 0 <= k < n - 1
      ensures Clear(s, f[k], f[Next(k, n - 1)]) && (k != e ==> Joins(n, f[k], f[Next(k, n - 1)]))
    {
      SkippingJoins(n, i, k);
      if f[k] != Prev(i, n) { JoinsClear(s, f[k], f[Next(k, n - 1)]); }
    }
    PickedSimple(s, t, f, e);
  }

  // ----- Splitting along a chord -----

  lemma ClearTurned(s: seq<Point>, a: nat, b: nat)
    requires General(s) && a < |s| && b < |s| && a != b && Clear(s, a, b) && 2 <= |s|
    ensures Clear(s, b, a)
  {
    hide Crossing, General;
    forall k | 0 <= k < |s| && !Meets(|s|, k, b, a) ensures !Crossing(s[b], s[a], s[k], s[Next(k, |s|)]) {
      assert !Meets(|s|, k, a, b);
      Neighbours(k, |s|);
      FourAt(s, a, b, k, Next(k, |s|));
      CrossingTurned(s[a], s[b], s[k], s[Next(k, |s|)]);
    }
  }

  lemma FirstPartSimple(s: seq<Point>, j: nat)
    requires Simple(s) && 2 <= j < |s| - 1 && Clear(s, 0, j)
    ensures Simple(s[..j + 1])
  {
    hide General, Clear, Next, Prev;
    ClearTurned(s, 0, j);
    var t := s[..j + 1];
    var f: seq<nat> := seq(j + 1, i requires 0 <= i < j + 1 => i);
    forall i | 0 <= i < j + 1
      ensures Clear(s, f[i], f[Next(i, j + 1)]) && (i != j ==> Joins(|s|, f[i], f[Next(i, j + 1)]))
    {
      Neighbours(i, j + 1);
      Neighbours(i, |s|);
    }
    PickedSimple(s, t, f, j);
  }

  lemma SecondPartSimple(s: seq<Point>, j: nat)
    requires Simple(s) && 2 <= j < |s| - 1 && Clear(s, 0, j)
    ensures Simple([s[0]] + s[j..])
  {
    hide General, Clear, Next, Prev;
    var n, t, m := |s|, [s[0]] + s[j..], |s| - j + 1;
    var f: seq<nat> := seq(m, i requires 0 <= i < m => if i == 0 then 0 else j + i - 1);
    forall i | 0 <= i < m
      ensures Clear(s, f[i], f[Next(i, m)]) && (i != 0 ==> Joins(n, f[i], f[Next(i, m)]))
    {
      Neighbours(i, m);
      if i > 0 { Neighbours(j + i - 1, n); }
    }
    PickedSimple(s, t, f, 0);
  }
}
