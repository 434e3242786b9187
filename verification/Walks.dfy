/** Walks over the directed edges of a boundary: what the contour tracer produces, and when its walks close. */
module Walks {
  import opened Permutations
  import opened Polygon

  const PI := 3.1415927

  /** An edge from node `tail` to node `head`; `angle` is its direction. */
  datatype Edge = Edge(from: Point, to: Point, tail: nat, head: nat, angle: real)

  // ----- Which edge comes next -----

  /** The turn from the way back along an edge of direction `incoming` to one of direction `outgoing`. */
  function Turn(incoming: real, outgoing: real): real {
    var turn := outgoing - (incoming + PI);
    if turn < -PI then turn + 2.0 * PI else turn
  }

  /** The edge takes part in walks out of node `n`; an edge from a node to itself never does. */
  predicate Leaves(e: Edge, n: nat) {
    e.tail == n && e.head != n
  }

  /** Edge `e` can still be taken out of node `n` once the edges `order` have been used. */
  ghost predicate Free(edges: seq<Edge>, order: seq<nat>, n: nat, e: nat) {
    e < |edges| && e !in order && Leaves(edges[e], n)
  }

  ghost predicate TurnsLess(edges: seq<Edge>, p: nat, e: nat, f: nat)
    requires p < |edges| && e < |edges| && f < |edges|
  {
    var te, tf := Turn(edges[p].angle, edges[e].angle), Turn(edges[p].angle, edges[f].angle);
    te < tf || (te == tf && e <= f)
  }

  /** Edge `e` follows edge `p`: it leaves the node where `p` ends, with the least turn of all free edges there. */
  ghost predicate Follows(edges: seq<Edge>, order: seq<nat>, p: nat, e: nat) {
    && p < |edges| && Free(edges, order, edges[p].head, e)
    && forall f :: Free(edges, order, edges[p].head, f) ==> TurnsLess(edges, p, e, f)
  }

  ghost predicate DeadEnd(edges: seq<Edge>, order: seq<nat>, p: nat) {
    p < |edges| && forall f :: !Free(edges, order, edges[p].head, f)
  }

  // ----- Walks -----

  ghost predicate InRange(edges: seq<Edge>, w: seq<nat>) {
    forall i :: 0 <= i < |w| ==> w[i] < |edges|
  }

  /** The walk ends in the node where it started. */
  ghost predicate Returns(edges: seq<Edge>, w: seq<nat>) {
    w != [] && InRange(edges, w) && edges[w[|w| - 1]].head == edges[w[0]].tail
  }

  /** The tracer takes a walk for closed when it returns after more than two edges. */
  ghost predicate Closed(edges: seq<Edge>, w: seq<nat>) {
    2 < |w| && Returns(edges, w)
  }

  ghost predicate Step(edges: seq<Edge>, order: seq<nat>, w: seq<nat>, i: nat)
    requires 1 <= i < |w|
  {
    !Closed(edges, w[..i]) && Follows(edges, order + w[..i], w[i - 1], w[i])
  }

  /** A walk under way, through edges that `order` has not used. */
  ghost predicate Walk(edges: seq<Edge>, order: seq<nat>, w: seq<nat>) {
    && w != [] && InRange(edges, w) && w[0] !in order
    && forall i :: 1 <= i < |w| ==> Step(edges, order, w, i)
  }

  /** A finished walk: it has closed, or no edge leads on. */
  ghost predicate Whole(edges: seq<Edge>, order: seq<nat>, w: seq<nat>) {
    Walk(edges, order, w) && (Closed(edges, w) || DeadEnd(edges, order + w, w[|w| - 1]))
  }

  function Flat(walks: seq<seq<nat>>): seq<nat> {
    if walks == [] then [] else Flat(walks[..|walks| - 1]) + walks[|walks| - 1]
  }

  /** The first walk starts with edge `first` when there is one, every other with the first unused edge. */
  ghost predicate Starts(edges: seq<Edge>, first: int, order: seq<nat>, e: nat) {
    if order == [] && 0 <= first then e == first
    else e < |edges| && e !in order && forall f: nat :: f < e ==> f in order
  }

  ghost predicate Traced(edges: seq<Edge>, first: int, order: seq<nat>, w: seq<nat>) {
    Whole(edges, order, w) && Starts(edges, first, order, w[0])
  }

  ghost predicate Tracing(edges: seq<Edge>, first: int, walks: seq<seq<nat>>) {
    forall k :: 0 <= k < |walks| ==> Traced(edges, first, Flat(walks[..k]), walks[k])
  }

  // ----- Every edge once -----

  lemma {:induction false} WalkIsDistinct(edges: seq<Edge>, order: seq<nat>, w: seq<nat>)
    requires Distinct(order) && Walk(edges, order, w)
    ensures Distinct(order + w)
  {
    var v := order + w;
    forall i, j | 0 <= i < j < |v| ensures v[i] != v[j] {
      if |order| <= j {
        var k := j - |order|;
        if k > 0 {
          assert Step(edges, order, w, k);
          assert v[i] == (order + w[..k])[i];
        }
      }
    }
  }

  // ----- One run only -----

  lemma SameStep(edges: seq<Edge>, order: seq<nat>, p: nat, e: nat, f: nat)
    requires Follows(edges, order, p, e) && Follows(edges, order, p, f)
    ensures e == f
  {
    assert TurnsLess(edges, p, e, f) && TurnsLess(edges, p, f, e);
  }

  lemma {:induction false} SamePrefix(edges: seq<Edge>, order: seq<nat>, w: seq<nat>, v: seq<nat>, i: nat)
    requires Walk(edges, order, w) && Walk(edges, order, v) && w[0] == v[0] && 1 <= i <= |w| && i <= |v|
    ensures w[..i] == v[..i]
  {
    if i > 1 {
      SamePrefix(edges, order, w, v, i - 1);
      assert Step(edges, order, w, i - 1) && Step(edges, order, v, i - 1);
      SameStep(edges, order + w[..i - 1], w[i - 2], w[i - 1], v[i - 1]);
      assert w[..i] == w[..i - 1] + [w[i - 1]] && v[..i] == v[..i - 1] + [v[i - 1]];
    }
  }

  lemma StepGoesOn(edges: seq<Edge>, order: seq<nat>, v: seq<nat>, n: nat)
    requires Walk(edges, order, v) && 1 <= n < |v|
    ensures !Closed(edges, v[..n]) && !DeadEnd(edges, order + v[..n], v[n - 1])
  {
    assert Step(edges, order, v, n);
  }

  lemma NoLonger(edges: seq<Edge>, order: seq<nat>, w: seq<nat>, v: seq<nat>)
    requires Whole(edges, order, w) && Walk(edges, order, v) && w[0] == v[0]
    ensures |v| <= |w|
  {
    var n := |w|;
    if n < |v| {
      SamePrefix(edges, order, w, v, n);
      assert v[..n] == w && v[n - 1] == w[n - 1];
      StepGoesOn(edges, order, v, n);
    }
  }

  lemma SameWalk(edges: seq<Edge>, first: int, order: seq<nat>, w: seq<nat>, v: seq<nat>)
    requires Traced(edges, first, order, w) && Traced(edges, first, order, v)
    ensures w == v
  {
    NoLonger(edges, order, w, v);
    NoLonger(edges, order, v, w);
    SamePrefix(edges, order, w, v, |w|);
    assert w[..|w|] == w && v[..|w|] == v;
  }

  lemma {:induction false} SameWalks(edges: seq<Edge>, first: int, a: seq<seq<nat>>, b: seq<seq<nat>>, k: nat)
    requires Tracing(edges, first, a) && Tracing(edges, first, b) && k <= |a| && k <= |b|
    ensures a[..k] == b[..k]
  {
    hide Traced, Flat;
    if k > 0 {
      SameWalks(edges, first, a, b, k - 1);
      assert Traced(edges, first, Flat(a[..k - 1]), a[k - 1]) && Traced(edges, first, Flat(b[..k - 1]), b[k - 1]);
      SameWalk(edges, first, Flat(a[..k - 1]), a[k - 1], b[k - 1]);
      assert a[..k] == a[..k - 1] + [a[k - 1]] && b[..k] == b[..k - 1] + [b[k - 1]];
    }
  }

  lemma StartIsNew(edges: seq<Edge>, first: int, walks: seq<seq<nat>>, k: nat)
    requires Tracing(edges, first, walks) && k < |walks|
    ensures walks[k] != [] && walks[k][0] < |edges| && walks[k][0] !in Flat(walks[..k])
  {
    hide Flat, Starts, Step;
    assert Traced(edges, first, Flat(walks[..k]), walks[k]);
  }

  lemma NoMoreWalks(edges: seq<Edge>, first: int, a: seq<seq<nat>>, b: seq<seq<nat>>)
    requires Tracing(edges, first, a) && Tracing(edges, first, b) && ListsAll(Flat(a), |edges|)
    ensures |b| <= |a|
  {
    hide Flat, Starts, Step, Distinct;
    var n := |a|;
    if n < |b| {
      assert a[..n] == a;
      StartIsNew(edges, first, b, n);
      SameWalks(edges, first, a, b, n);
    }
  }

  /** The edges and the first one determine all walks. */
  lemma TracingIsUnique(edges: seq<Edge>, first: int, a: seq<seq<nat>>, b: seq<seq<nat>>)
    requires Tracing(edges, first, a) && ListsAll(Flat(a), |edges|)
    requires Tracing(edges, first, b) && ListsAll(Flat(b), |edges|)
    ensures a == b
  {
    NoMoreWalks(edges, first, a, b);
    NoMoreWalks(edges, first, b, a);
    SameWalks(edges, first, a, b, |a|);
    assert a[..|a|] == a && b[..|a|] == b;
  }

  // ----- What a trace does at every step -----

  /** Turning counter-clockwise from straight ahead, the edge that follows comes before every other free one;
      of edges in the same direction it is the first. */
  lemma FollowsFirst(edges: seq<Edge>, order: seq<nat>, p: nat, e: nat, f: nat)
    requires Follows(edges, order, p, e) && Free(edges, order, edges[p].head, f)
    ensures p < |edges| && e < |edges| && f < |edges|
    ensures var a, b := edges[e].angle - edges[p].angle, edges[f].angle - edges[p].angle;
            var x, y := if a < 0.0 then a + 2.0 * PI else a, if b < 0.0 then b + 2.0 * PI else b;
            x < y || (x == y && e <= f)
  {
    assert TurnsLess(edges, p, e, f);
  }

  lemma TracedStep(edges: seq<Edge>, first: int, walks: seq<seq<nat>>, k: nat, i: nat)
    requires Tracing(edges, first, walks) && k < |walks| && 1 <= i < |walks[k]|
    ensures Follows(edges, Flat(walks[..k]) + walks[k][..i], walks[k][i - 1], walks[k][i])
  {
    hide Follows, Flat, Starts;
    assert Traced(edges, first, Flat(walks[..k]), walks[k]);
    assert Step(edges, Flat(walks[..k]), walks[k], i);
  }

  /** Every step of every walk goes on from the node it has reached, along the first unused edge counter-clockwise
      from straight ahead. */
  lemma EveryStepIsFirst(edges: seq<Edge>, first: int, walks: seq<seq<nat>>, k: nat, i: nat, f: nat)
    requires Tracing(edges, first, walks) && k < |walks| && 1 <= i < |walks[k]|
    ensures var p, e := walks[k][i - 1], walks[k][i];
            && p < |edges| && e < |edges| && edges[e].tail == edges[p].head != edges[e].head
            && (f < |edges| && edges[f].tail == edges[p].head != edges[f].head
                && f !in Flat(walks[..k]) && f !in walks[k][..i] ==>
                 var a, b := edges[e].angle - edges[p].angle, edges[f].angle - edges[p].angle;
                 var x, y := if a < 0.0 then a + 2.0 * PI else a, if b < 0.0 then b + 2.0 * PI else b;
                 x < y || (x == y && e <= f))
  {
    TracedStep(edges, first, walks, k, i);
    var order, p, e := Flat(walks[..k]) + walks[k][..i], walks[k][i - 1], walks[k][i];
    if Free(edges, order, edges[p].head, f) {
      FollowsFirst(edges, order, p, e, f);
    }
  }

  /** The first walk starts with edge `first` if there is one, every other with the least edge that is not used yet. */
  lemma EveryStartIsLeast(edges: seq<Edge>, first: int, walks: seq<seq<nat>>, k: nat)
    requires Tracing(edges, first, walks) && k < |walks|
    ensures walks[k] != [] && (k == 0 && 0 <= first ==> walks[k][0] == first)
    ensures 0 < k || first < 0 ==>
              walks[k][0] !in Flat(walks[..k]) && forall f: nat :: f < walks[k][0] ==> f in Flat(walks[..k])
  {
    hide Step;
    assert Traced(edges, first, Flat(walks[..k]), walks[k]);
    if 0 < k {
      StartIsNew(edges, first, walks, k - 1);
      assert walks[..k][..k - 1] == walks[..k - 1];
      assert Flat(walks[..k]) == Flat(walks[..k - 1]) + walks[k - 1];
    }
  }

  /** No walk goes on past its start after three edges or more; it ends there, or where no unused edge leads on. */
  lemma EveryWalkEnds(edges: seq<Edge>, first: int, walks: seq<seq<nat>>, k: nat)
    requires Tracing(edges, first, walks) && k < |walks|
    ensures var w := walks[k];
            && w != [] && InRange(edges, w)
            && (forall i :: 2 <= i < |w| - 1 ==> edges[w[i]].head != edges[w[0]].tail)
            && ((3 <= |w| && edges[w[|w| - 1]].head == edges[w[0]].tail)
                || forall f: nat :: f < |edges| && edges[f].tail == edges[w[|w| - 1]].head != edges[f].head ==>
                     f in Flat(walks[..k]) || f in w)
  {
    hide Flat, Starts, Follows;
    var w, order := walks[k], Flat(walks[..k]);
    assert Traced(edges, first, order, w);
    forall i | 2 <= i < |w| - 1 ensures edges[w[i]].head != edges[w[0]].tail {
      assert Step(edges, order, w, i + 1);
      assert w[..i + 1][i] == w[i] && w[..i + 1][0] == w[0];
    }
    if !Closed(edges, w) {
      forall f: nat | f < |edges| && edges[f].tail == edges[w[|w| - 1]].head != edges[f].head
        ensures f in order || f in w
      {
        assert !Free(edges, order + w, edges[w[|w| - 1]].head, f);
      }
    }
  }

  // ----- Balanced boundaries -----

  /** One for an edge out of node `n`, minus one for an edge into it. */
  function Flow(e: Edge, n: nat): int {
    (if e.tail == n then 1 else 0) - (if e.head == n then 1 else 0)
  }

  function NetOf(edges: seq<Edge>, n: nat): int {
    if edges == [] then 0 else NetOf(edges[..|edges| - 1], n) + Flow(edges[|edges| - 1], n)
  }

  /** As many edges leave every node as reach it. */
  ghost predicate Balanced(edges: seq<Edge>) {
    forall n: nat :: NetOf(edges, n) == 0
  }

  function Net(edges: seq<Edge>, s: seq<nat>, n: nat): int
    requires forall i :: 0 <= i < |s| ==> s[i] < |edges|
  {
    if s == [] then 0 else Flow(edges[s[0]], n) + Net(edges, s[1..], n)
  }

  lemma {:induction false} NetConcat(edges: seq<Edge>, s: seq<nat>, t: seq<nat>, n: nat)
    requires InRange(edges, s) && InRange(edges, t)
    ensures InRange(edges, s + t) && Net(edges, s + t, n) == Net(edges, s, n) + Net(edges, t, n)
  {
    if s == [] {
      assert s + t == t;
    } else {
      NetConcat(edges, s[1..], t, n);
      assert (s + t)[1..] == s[1..] + t;
    }
  }

  lemma {:induction false} NetPrefix(edges: seq<Edge>, s: seq<nat>, n: nat)
    requires edges != [] && InRange(edges[..|edges| - 1], s)
    ensures InRange(edges, s) && Net(edges, s, n) == Net(edges[..|edges| - 1], s, n)
  {
    if s != [] { NetPrefix(edges, s[1..], n); }
  }

  lemma NetRemove(edges: seq<Edge>, order: seq<nat>, i: nat, n: nat)
    requires InRange(edges, order) && i < |order|
    ensures InRange(edges, RemoveAt(order, i))
    ensures Net(edges, order, n) == Net(edges, RemoveAt(order, i), n) + Flow(edges[order[i]], n)
  {
    var e := order[i];
    NetConcat(edges, order[..i], order[i + 1..], n);
    assert order == order[..i] + ([e] + order[i + 1..]);
    NetConcat(edges, [e], order[i + 1..], n);
    NetConcat(edges, order[..i], [e] + order[i + 1..], n);
    assert [e][1..] == [];
  }

  /** In whatever order every edge is taken once, the flows add up to the same. */
  lemma {:induction false} NetOfPermutation(edges: seq<Edge>, order: seq<nat>, n: nat)
    requires ListsAll(order, |edges|) && InRange(edges, order)
    ensures Net(edges, order, n) == NetOf(edges, n)
  {
    if edges == [] {
      FirstIsIn(order);
    } else {
      var last := |edges| - 1;
      var i := RemoveLargest(order, |edges|);
      var rest := RemoveAt(order, i);
      assert InRange(edges[..last], rest) by {
        forall j | 0 <= j < |rest| ensures rest[j] < last { assert rest[j] in rest; }
      }
      NetOfPermutation(edges[..last], rest, n);
      NetPrefix(edges, rest, n);
      NetRemove(edges, order, i, n);
    }
  }

  /** A walk takes one from the node where it ends and adds one to the node where it starts. */
  lemma {:induction false} WalkNet(edges: seq<Edge>, order: seq<nat>, w: seq<nat>, n: nat)
    requires Walk(edges, order, w)
    ensures Net(edges, w, n) ==
            (if edges[w[0]].tail == n then 1 else 0) - (if edges[w[|w| - 1]].head == n then 1 else 0)
  {
    var k := |w| - 1;
    if k == 0 {
      assert w[1..] == [];
    } else {
      var v := w[..k];
      assert Step(edges, order, w, k);
      assert Walk(edges, order, v) by {
        forall i | 1 <= i < |v| ensures Step(edges, order, v, i) {
          assert Step(edges, order, w, i) && v[..i] == w[..i];
        }
      }
      WalkNet(edges, order, v, n);
      NetConcat(edges, v, [w[k]], n);
      assert w == v + [w[k]] && [w[k]][1..] == [];
    }
  }

  lemma {:induction false} FlatConcat(a: seq<seq<nat>>, b: seq<seq<nat>>)
    ensures Flat(a + b) == Flat(a) + Flat(b)
  {
    if b == [] {
      assert a + b == a;
    } else {
      FlatConcat(a, b[..|b| - 1]);
      assert (a + b)[..|a + b| - 1] == a + b[..|b| - 1];
    }
  }

  lemma FlatOne(w: seq<nat>)
    ensures Flat([w]) == w
  {
    assert [w][..0] == [];
  }

  lemma Split<T>(s: seq<T>, k: nat)
    requires k < |s|
    ensures s == s[..k] + [s[k]] + s[k + 1..]
  {
  }

  lemma FlatAround(walks: seq<seq<nat>>, k: nat)
    requires k < |walks|
    ensures Flat(walks) == Flat(walks[..k]) + walks[k] + Flat(walks[k + 1..])
  {
    hide Flat;
    FlatOne(walks[k]);
    FlatConcat(walks[..k], [walks[k]]);
    FlatConcat(walks[..k] + [walks[k]], walks[k + 1..]);
    Split(walks, k);
  }

  lemma TracingPrefix(edges: seq<Edge>, first: int, walks: seq<seq<nat>>, k: nat)
    requires Tracing(edges, first, walks) && k <= |walks|
    ensures Tracing(edges, first, walks[..k])
  {
    hide Traced;
    forall j | 0 <= j < k ensures Traced(edges, first, Flat(walks[..k][..j]), walks[j]) {
      assert walks[..k][..j] == walks[..j];
    }
  }

  /** Walks that return to where they started leave every node as they found it. */
  lemma {:induction false} ReturningNet(edges: seq<Edge>, first: int, walks: seq<seq<nat>>, n: nat)
    requires Tracing(edges, first, walks) && forall k :: 0 <= k < |walks| ==> Returns(edges, walks[k])
    ensures InRange(edges, Flat(walks)) && Net(edges, Flat(walks), n) == 0
  {
    if walks != [] {
      var k := |walks| - 1;
      var before := walks[..k];
      TracingPrefix(edges, first, walks, k);
      ReturningNet(edges, first, before, n);
      WalkNet(edges, Flat(before), walks[k], n);
      NetConcat(edges, Flat(before), walks[k], n);
    }
  }

  /** Edges that do not lead on from node `n` cannot add to it. */
  lemma {:induction false} NoWayOutNet(edges: seq<Edge>, rest: seq<nat>, n: nat)
    requires InRange(edges, rest) && forall i :: 0 <= i < |rest| ==> !Leaves(edges[rest[i]], n)
    ensures Net(edges, rest, n) <= 0
  {
    if rest != [] { NoWayOutNet(edges, rest[1..], n); }
  }

  lemma TracedAt(edges: seq<Edge>, first: int, walks: seq<seq<nat>>, k: nat)
    requires Tracing(edges, first, walks) && k < |walks|
    ensures var order, w := Flat(walks[..k]), walks[k];
            w != [] && InRange(edges, w) && Walk(edges, order, w) &&
            (Closed(edges, w) || DeadEnd(edges, order + w, w[|w| - 1]))
  {
    hide Closed, DeadEnd, Flat, Starts, Step;
    assert Traced(edges, first, Flat(walks[..k]), walks[k]);
  }

  lemma ClosedReturns(edges: seq<Edge>, w: seq<nat>)
    requires Closed(edges, w)
    ensures Returns(edges, w)
  {
  }

  lemma RestIsUnused(order: seq<nat>, rest: seq<nat>, i: nat)
    requires Distinct(order + rest) && i < |rest|
    ensures rest[i] !in order
  {
    var v := order + rest;
    assert rest[i] == v[|order| + i];
    forall j | 0 <= j < |order| ensures order[j] != rest[i] { assert v[j] == order[j]; }
  }

  lemma NoWayOn(edges: seq<Edge>, order: seq<nat>, rest: seq<nat>, p: nat)
    requires InRange(edges, rest) && Distinct(order + rest) && DeadEnd(edges, order, p)
    ensures Net(edges, rest, edges[p].head) <= 0
  {
    forall i | 0 <= i < |rest| ensures !Leaves(edges[rest[i]], edges[p].head) {
      RestIsUnused(order, rest, i);
      assert !Free(edges, order, edges[p].head, rest[i]);
    }
    NoWayOutNet(edges, rest, edges[p].head);
  }

  lemma NetAround(edges: seq<Edge>, a: seq<nat>, b: seq<nat>, c: seq<nat>, n: nat)
    requires ListsAll(a + b + c, |edges|)
    ensures InRange(edges, a) && InRange(edges, b) && InRange(edges, c)
    ensures Net(edges, a, n) + Net(edges, b, n) + Net(edges, c, n) == NetOf(edges, n)
  {
    var v := a + b + c;
    forall i | 0 <= i < |v| ensures v[i] < |edges| { assert v[i] in v; }
    assert forall i :: 0 <= i < |a| ==> a[i] == v[i];
    assert forall i :: 0 <= i < |b| ==> b[i] == v[|a| + i];
    assert forall i :: 0 <= i < |c| ==> c[i] == v[|a| + |b| + i];
    NetOfPermutation(edges, v, n);
    NetConcat(edges, a, b, n);
    NetConcat(edges, a + b, c, n);
  }

  lemma ReturnsNext(edges: seq<Edge>, first: int, walks: seq<seq<nat>>, k: nat)
    requires Tracing(edges, first, walks) && ListsAll(Flat(walks), |edges|) && Balanced(edges) && k < |walks|
    requires Tracing(edges, first, walks[..k]) && forall j :: 0 <= j < k ==> Returns(edges, walks[j])
    ensures Returns(edges, walks[k])
  {
    hide Tracing, Traced, Walk, Closed, DeadEnd, NetOf, Net, Flat;
    var before, w, rest := Flat(walks[..k]), walks[k], Flat(walks[k + 1..]);
    TracedAt(edges, first, walks, k);
    if !Closed(edges, w) {
      var m := edges[w[|w| - 1]].head;
      FlatAround(walks, k);
      NetAround(edges, before, w, rest, m);
      ReturningNet(edges, first, walks[..k], m);
      WalkNet(edges, before, w, m);
      NoWayOn(edges, before + w, rest, w[|w| - 1]);
    } else {
      ClosedReturns(edges, w);
    }
  }

  /** On a balanced boundary every walk returns to the node where it started: whichever way it is steered,
      the only dead end it can run into is its own start. */
  lemma {:induction false} BalancedReturns(edges: seq<Edge>, first: int, walks: seq<seq<nat>>, k: nat)
    requires Tracing(edges, first, walks) && ListsAll(Flat(walks), |edges|) && Balanced(edges) && k < |walks|
    ensures Returns(edges, walks[k])
  {
    hide Traced, Flat, ListsAll, Balanced;
    forall j | 0 <= j < k ensures Returns(edges, walks[j]) {
      BalancedReturns(edges, first, walks, j);
    }
    TracingPrefix(edges, first, walks, k);
    ReturnsNext(edges, first, walks, k);
  }

  /** All walks return to where they started exactly when the boundary is balanced. */
  lemma AllReturnIffBalanced(edges: seq<Edge>, first: int, walks: seq<seq<nat>>)
    requires Tracing(edges, first, walks) && ListsAll(Flat(walks), |edges|)
    ensures (forall k :: 0 <= k < |walks| ==> Returns(edges, walks[k])) <==> Balanced(edges)
  {
    if Balanced(edges) {
      forall k | 0 <= k < |walks| ensures Returns(edges, walks[k]) {
        BalancedReturns(edges, first, walks, k);
      }
    }
    if forall k :: 0 <= k < |walks| ==> Returns(edges, walks[k]) {
      forall n: nat ensures NetOf(edges, n) == 0 {
        ReturningNet(edges, first, walks, n);
        NetOfPermutation(edges, Flat(walks), n);
      }
    }
  }
}
