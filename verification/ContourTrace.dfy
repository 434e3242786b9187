/** The contour tracer: boundary edges are joined at shared nodes and followed until every one has been used. */
module ContourTrace {
  import opened Permutations
  import opened Polygon
  import opened Walks
  import Nodes = NodeMap

  // ----- Joining the edges at nodes -----

  datatype HalfEdge = HalfEdge(from: Point, to: Point)

  /** The numbered edge of a half-edge: its ends are near the nodes they are numbered after. */
  ghost predicate Joined(nodes: seq<Nodes.Entry>, h: HalfEdge, e: Edge) {
    && e.from == h.from && e.to == h.to && e.tail < |nodes| && e.head < |nodes|
    && Nodes.Near(nodes[e.tail].pos, h.from) && Nodes.Near(nodes[e.head].pos, h.to)
  }

  ghost predicate AllJoined(nodes: seq<Nodes.Entry>, boundary: seq<HalfEdge>, edges: seq<Edge>) {
    && |edges| <= |boundary|
    && forall i :: 0 <= i < |edges| ==> Joined(nodes, boundary[i], edges[i])
  }

  lemma JoinedStays(nodes: seq<Nodes.Entry>, more: seq<Nodes.Entry>, boundary: seq<HalfEdge>, edges: seq<Edge>)
    requires AllJoined(nodes, boundary, edges)
    ensures AllJoined(nodes + more, boundary, edges)
  {
    forall i | 0 <= i < |edges| ensures Joined(nodes + more, boundary[i], edges[i]) {
      assert Joined(nodes, boundary[i], edges[i]);
    }
  }

  /** Numbers the ends of every half-edge; `direction` is the angle of the line between two points. */
  method JoinEdges(boundary: seq<HalfEdge>, direction: (Point, Point) -> real)
    returns (edges: seq<Edge>, nodes: seq<Nodes.Entry>)
    ensures |edges| == |boundary| && AllJoined(nodes, boundary, edges) && Nodes.Apart(nodes)
    ensures forall i :: 0 <= i < |edges| ==> edges[i].angle == direction(edges[i].from, edges[i].to)
  {
    hide Nodes.Near, Nodes.Apart, Nodes.Indexed;
    var nodeMap := new Nodes.NodeMap.Init(|boundary| * 2);
    edges := [];
    var i := 0;
    while i < |boundary|
      invariant 0 <= i == |edges| <= |boundary| && nodeMap.Valid() && fresh(nodeMap)
      invariant AllJoined(nodeMap.entries, boundary, edges)
      invariant forall k :: 0 <= k < i ==> edges[k].angle == direction(edges[k].from, edges[k].to)
    {
      var h := boundary[i];
      ghost var before := nodeMap.entries;
      var tail := nodeMap.FindOrAdd(h.from);
      ghost var between := nodeMap.entries;
      var head := nodeMap.FindOrAdd(h.to);
      JoinedStays(before, nodeMap.entries[|before|..], boundary, edges);
      assert nodeMap.entries == before + nodeMap.entries[|before|..];
      assert nodeMap.entries[tail] == between[tail];
      edges := edges + [Edge(h.from, h.to, tail, head, direction(h.from, h.to))];
      i := i + 1;
    }
    nodes := nodeMap.entries;
  }

  /** Every end of an edge is less than half a unit from its node, and any two nodes are half a unit or more apart. */
  lemma EndsAndNodes(nodes: seq<Nodes.Entry>, boundary: seq<HalfEdge>, edges: seq<Edge>, i: nat, j: nat, k: nat)
    requires AllJoined(nodes, boundary, edges) && Nodes.Apart(nodes)
    ensures i < |edges| ==>
              var t, h := nodes[edges[i].tail].pos, nodes[edges[i].head].pos;
              && (t.x - boundary[i].from.x) * (t.x - boundary[i].from.x)
                 + (t.y - boundary[i].from.y) * (t.y - boundary[i].from.y) < 0.25
              && (h.x - boundary[i].to.x) * (h.x - boundary[i].to.x)
                 + (h.y - boundary[i].to.y) * (h.y - boundary[i].to.y) < 0.25
    ensures j < k < |nodes| ==>
              var p, q := nodes[j].pos, nodes[k].pos;
              (p.x - q.x) * (p.x - q.x) + (p.y - q.y) * (p.y - q.y) >= 0.25
  {
    if i < |edges| { assert Joined(nodes, boundary[i], edges[i]); }
    if j < k < |nodes| { assert !Nodes.Near(nodes[j].pos, nodes[k].pos); }
  }

  lemma Parallelogram(u: real, v: real)
    ensures (v - u) * (v - u) <= 2.0 * (u * u) + 2.0 * (v * v)
  {
    var s := u + v;
    assert s * s >= 0.0;
    assert (v - u) * (v - u) + s * s == 2.0 * (u * u) + 2.0 * (v * v);
  }

  lemma NearToBoth(n: Point, a: Point, b: Point)
    requires Nodes.Near(n, a) && Nodes.Near(n, b)
    ensures Nodes.DistSq(a, b) < 1.0
  {
    Parallelogram(n.x - a.x, n.x - b.x);
    Parallelogram(n.y - a.y, n.y - b.y);
    assert a.x - b.x == (n.x - b.x) - (n.x - a.x) && a.y - b.y == (n.y - b.y) - (n.y - a.y);
  }

  /** Where one edge of a walk ends and the next one starts, the end points are less than one unit apart. */
  lemma WalkIsConnected(nodes: seq<Nodes.Entry>, boundary: seq<HalfEdge>, edges: seq<Edge>, order: seq<nat>,
                        w: seq<nat>, i: nat)
    requires AllJoined(nodes, boundary, edges) && Walk(edges, order, w) && 1 <= i < |w|
    ensures edges[w[i - 1]].head == edges[w[i]].tail
    ensures Nodes.DistSq(edges[w[i - 1]].to, edges[w[i]].from) < 1.0
  {
    assert Step(edges, order, w, i);
    var a, b := w[i - 1], w[i];
    assert Joined(nodes, boundary[a], edges[a]) && Joined(nodes, boundary[b], edges[b]);
    NearToBoth(nodes[edges[b].tail].pos, edges[a].to, edges[b].from);
  }

  /** A walk that returns closes up: its last edge ends less than one unit from where its first one starts. */
  lemma WalkCloses(nodes: seq<Nodes.Entry>, boundary: seq<HalfEdge>, edges: seq<Edge>, w: seq<nat>)
    requires AllJoined(nodes, boundary, edges) && Returns(edges, w)
    ensures Nodes.DistSq(edges[w[|w| - 1]].to, edges[w[0]].from) < 1.0
  {
    var a, b := w[|w| - 1], w[0];
    assert Joined(nodes, boundary[a], edges[a]) && Joined(nodes, boundary[b], edges[b]);
    NearToBoth(nodes[edges[b].tail].pos, edges[a].to, edges[b].from);
  }

  // ----- Picking the next edge -----

  ghost predicate Directed(edges: seq<Edge>) {
    forall i :: 0 <= i < |edges| ==> -PI <= edges[i].angle <= PI
  }

  /** Turns are measured within half a turn either way, so every one is below the starting value of ten. */
  lemma TurnInRange(incoming: real, outgoing: real)
    requires -PI <= incoming <= PI && -PI <= outgoing <= PI
    ensures -PI <= Turn(incoming, outgoing) <= PI
  {
  }

  /** Brings a difference of directions to within half a turn, by whole turns. */
  method Normalized(difference: real) returns (turn: real, ghost turns: int)
    ensures -PI <= turn <= PI && turn == difference + turns as real * (2.0 * PI)
    ensures difference <= PI ==> 0 <= turns
    ensures difference >= -PI ==> turns <= 0
    ensures difference < -PI ==> turn < PI
  {
    turn, turns := difference, 0;
    while turn > PI
      invariant turn == difference + turns as real * (2.0 * PI) && turns <= 0
      invariant difference <= PI ==> turns == 0
      invariant difference >= -PI ==> turn >= -PI
      decreases turn
    {
      turn, turns := turn - 2.0 * PI, turns - 1;
    }
    while turn < -PI
      invariant turn == difference + turns as real * (2.0 * PI) && turn <= PI
      invariant difference <= PI ==> 0 <= turns
      invariant difference >= -PI ==> turns <= 0 && turn >= -PI
      invariant difference < -PI ==> turn < PI
      decreases -turn
    {
      turn, turns := turn + 2.0 * PI, turns + 1;
    }
  }

  /** `out` lists the edges that lead on from node `n`, in order. */
  ghost predicate Lists(edges: seq<Edge>, n: nat, out: seq<nat>) {
    && (forall i :: 0 <= i < |out| ==> out[i] < |edges| && Leaves(edges[out[i]], n))
    && (forall i, j :: 0 <= i < j < |out| ==> out[i] < out[j])
    && forall e: nat :: e < |edges| && Leaves(edges[e], n) ==> e in out
  }

  lemma ListsOneMore(edges: seq<Edge>, n: nat, out: seq<nat>, e: Edge)
    requires Lists(edges, n, out) && Leaves(e, n)
    ensures Lists(edges + [e], n, out + [|edges|])
  {
    hide Leaves;
    var out' := out + [|edges|];
    assert out'[|out|] == |edges|;
    forall k: nat | k < |edges| && Leaves(edges[k], n) ensures k in out' {
      assert k in out;
    }
  }

  lemma ListsNoMore(edges: seq<Edge>, n: nat, out: seq<nat>, e: Edge)
    requires Lists(edges, n, out) && !Leaves(e, n)
    ensures Lists(edges + [e], n, out)
  {
    hide Leaves;
    forall k: nat | k < |edges| + 1 && Leaves((edges + [e])[k], n) ensures k in out {
      assert (edges + [e])[k] == edges[k];
    }
  }

  lemma ListsMore(edges: seq<Edge>, n: nat, out: seq<nat>, i: nat)
    requires i < |edges| && Lists(edges[..i], n, out)
    ensures Lists(edges[..i + 1], n, if Leaves(edges[i], n) then out + [i] else out)
  {
    hide Leaves;
    var before, after := edges[..i], edges[..i + 1];
    assert after == before + [edges[i]];
    if Leaves(edges[i], n) {
      ListsOneMore(before, n, out, edges[i]);
    } else {
      ListsNoMore(before, n, out, edges[i]);
    }
  }

  /** Lists the edges that lead on from every node. */
  method Adjacency(edges: seq<Edge>, nn: nat) returns (adj: seq<seq<nat>>)
    requires forall i :: 0 <= i < |edges| ==> edges[i].tail < nn
    ensures |adj| == nn && forall n :: 0 <= n < nn ==> Lists(edges, n, adj[n])
  {
    adj := seq(nn, n => []);
    var i := 0;
    while i < |edges|
      invariant 0 <= i <= |edges| && |adj| == nn
      invariant forall n :: 0 <= n < nn ==> Lists(edges[..i], n, adj[n])
    {
      var e := edges[i];
      ghost var was := adj;
      if e.tail != e.head {
        adj := adj[e.tail := adj[e.tail] + [i]];
      }
      forall n | 0 <= n < nn ensures Lists(edges[..i + 1], n, adj[n]) {
        ListsMore(edges, n, was[n], i);
      }
      i := i + 1;
    }
    assert edges[..i] == edges;
  }

  /** Which edges have been used. */
  ghost predicate Marks(used: seq<bool>, order: seq<nat>) {
    forall e: nat :: e < |used| ==> (used[e] <==> e in order)
  }

  lemma Picked(edges: seq<Edge>, out: seq<nat>, used: seq<bool>, order: seq<nat>, p: nat, current: int)
    requires |used| == |edges| && Marks(used, order) && p < |edges| && Lists(edges, edges[p].head, out)
    requires current < 0 ==> forall j :: 0 <= j < |out| ==> used[out[j]]
    requires 0 <= current ==> current in out && !used[current]
    requires 0 <= current ==> forall j :: 0 <= j < |out| ==> used[out[j]] || TurnsLess(edges, p, current, out[j])
    ensures if current < 0 then DeadEnd(edges, order, p) else Follows(edges, order, p, current)
  {
    forall f: nat | Free(edges, order, edges[p].head, f)
      ensures 0 <= current && TurnsLess(edges, p, current, f)
    {
      var j :| 0 <= j < |out| && out[j] == f;
      assert !used[out[j]];
    }
  }

  /** The edge to follow `p`, or -1 when none is free: the first one with the least turn. */
  method LeastTurn(edges: seq<Edge>, out: seq<nat>, used: array<bool>, ghost order: seq<nat>, p: nat)
    returns (current: int)
    requires Directed(edges) && used.Length == |edges| && Marks(used[..], order)
    requires p < |edges| && Lists(edges, edges[p].head, out)
    ensures -1 <= current < |edges|
    ensures if current < 0 then DeadEnd(edges, order, p) else Follows(edges, order, p, current)
  {
    current := -1;
    var bestTurn := 10.0;
    var i := 0;
    while i < |out|
      invariant 0 <= i <= |out| && -1 <= current < |edges|
      invariant current < 0 ==> bestTurn == 10.0 && forall j :: 0 <= j < i ==> used[out[j]]
      invariant 0 <= current ==> current in out[..i] && bestTurn == Turn(edges[p].angle, edges[current].angle)
      invariant 0 <= current ==> !used[current] && forall j :: 0 <= j < i ==>
                  used[out[j]] || TurnsLess(edges, p, current, out[j])
    {
      var e := out[i];
      if !used[e] {
        TurnInRange(edges[p].angle, edges[e].angle);
        var turn, turns := Normalized(edges[e].angle - (edges[p].angle + PI));
        if turn < bestTurn {
          bestTurn := turn;
          current := e;
        }
      }
      i := i + 1;
    }
    Picked(edges, out, used[..], order, p, current);
  }

  // ----- Following one walk -----

  /** The start points of a walk's edges. */
  function Corners(edges: seq<Edge>, w: seq<nat>): (s: seq<Point>)
    requires forall i :: 0 <= i < |w| ==> w[i] < |edges|
    ensures |s| == |w|
  {
    seq(|w|, i requires 0 <= i < |w| => edges[w[i]].from)
  }

  ghost predicate Ready(edges: seq<Edge>, adj: seq<seq<nat>>) {
    && Directed(edges)
    && forall e :: 0 <= e < |edges| ==> edges[e].head < |adj| && Lists(edges, edges[e].head, adj[edges[e].head])
  }

  /** What the tracer knows between two edges of a walk: it goes on with `current`, or ends when that is -1. */
  ghost predicate Underway(edges: seq<Edge>, order: seq<nat>, w: seq<nat>, current: int) {
    if w == [] then 0 <= current < |edges| && current !in order
    else
      && Walk(edges, order, w) && !Closed(edges, w) && current < |edges|
      && if current < 0 then DeadEnd(edges, order + w, w[|w| - 1])
         else Follows(edges, order + w, w[|w| - 1], current)
  }

  lemma WalkGrows(edges: seq<Edge>, order: seq<nat>, w: seq<nat>, current: int)
    requires Underway(edges, order, w, current) && 0 <= current
    ensures Walk(edges, order, w + [current])
  {
    var v := w + [current as nat];
    assert v[..|w|] == w;
    forall i | 1 <= i < |v| ensures Step(edges, order, v, i) {
      if i < |w| {
        assert Step(edges, order, w, i) && v[..i] == w[..i];
      }
    }
  }

  lemma NextIsUnused(edges: seq<Edge>, order: seq<nat>, w: seq<nat>, current: int)
    requires Underway(edges, order, w, current)
    ensures 0 <= current ==> current as nat !in order + w
    ensures current < 0 ==> w != [] && Whole(edges, order, w)
  {
    assert w == [] ==> order + w == order;
  }

  /** Distinct edges stay below the bound that the counter starts from. */
  lemma CounterSuffices(edges: seq<Edge>, order: seq<nat>, w: seq<nat>)
    requires Distinct(order) && InRange(edges, order) && Walk(edges, order, w)
    ensures Distinct(order + w) && InRange(edges, order + w) && |order| + |w| <= |edges|
  {
    WalkIsDistinct(edges, order, w);
    var v := order + w;
    forall e | e in v ensures e < |edges| {
      var i :| 0 <= i < |v| && v[i] == e;
      if i >= |order| { assert e == w[i - |order|]; }
    }
    FewerThan(v, |edges|);
  }

  lemma MarksMore(used: seq<bool>, order: seq<nat>, w: seq<nat>, current: nat)
    requires Marks(used, order + w) && current < |used|
    ensures Marks(used[current := true], order + (w + [current]))
  {
    var v := order + (w + [current]);
    assert v == order + w + [current];
  }

  /** Follows a walk from edge `start` until it closes or runs into a dead end; the counter `safety` never
      ends it. */
  method FollowWalk(edges: seq<Edge>, adj: seq<seq<nat>>, used: array<bool>, ghost order: seq<nat>, start: nat)
    returns (ghost w: seq<nat>, contour: seq<Point>)
    requires Ready(edges, adj) && used.Length == |edges| && Marks(used[..], order)
    requires Distinct(order) && InRange(edges, order) && start < |edges| && start !in order
    modifies used
    ensures Whole(edges, order, w) && w != [] && w[0] == start && contour == Corners(edges, w)
    ensures Distinct(order + w) && InRange(edges, w) && InRange(edges, order + w) && Marks(used[..], order + w)
  {
    hide Walk, Follows, DeadEnd, Lists, Distinct;
    w, contour := [], [];
    var current: int := start;
    var safety := |edges| + 1;
    assert order + [] == order;
    FewerThan(order, |edges|);
    while current >= 0 && !used[current] && safety > 0
      invariant -1 <= current < |edges| && Underway(edges, order, w, current)
      invariant w != [] ==> w[0] == start
      invariant w == [] ==> current == start
      invariant safety == |edges| + 1 - |w| && |order| + |w| <= |edges|
      invariant InRange(edges, w) && InRange(edges, order + w) && Distinct(order + w) && Marks(used[..], order + w)
      invariant contour == Corners(edges, w)
      decreases safety
    {
      safety := safety - 1;
      WalkGrows(edges, order, w, current);
      MarksMore(used[..], order, w, current);
      ghost var was := used[..];
      used[current] := true;
      assert used[..] == was[current := true];
      w := w + [current as nat];
      contour := contour + [edges[current].from];
      CounterSuffices(edges, order, w);
      var to := edges[current].head;
      if |contour| > 2 && to == edges[start].tail {
        return;
      }
      current := LeastTurn(edges, adj[to], used, order + w, current);
    }
    NextIsUnused(edges, order, w, current);
  }

  // ----- Tracing the whole boundary -----

  /** A walk is an outline when it has at least three edges and its area is not negligible. */
  predicate IsOutline(contour: seq<Point>) {
    3 <= |contour| && Abs(Area2(contour)) > 5.0
  }

  function Outlines(edges: seq<Edge>, walks: seq<seq<nat>>): seq<seq<Point>>
    requires forall k :: 0 <= k < |walks| ==> InRange(edges, walks[k])
  {
    if walks == [] then []
    else
      assert InRange(edges, walks[|walks| - 1]);
      var contour := Corners(edges, walks[|walks| - 1]);
      Outlines(edges, walks[..|walks| - 1]) + if IsOutline(contour) then [contour] else []
  }

  /** The first unused edge, or -1. */
  method FirstUnused(used: array<bool>) returns (current: int)
    ensures -1 <= current < used.Length
    ensures 0 <= current ==> !used[current] && forall e :: 0 <= e < current ==> used[e]
    ensures current < 0 ==> forall e :: 0 <= e < used.Length ==> used[e]
  {
    current := 0;
    while current < used.Length
      invariant 0 <= current <= used.Length && forall e :: 0 <= e < current ==> used[e]
    {
      if !used[current] {
        return;
      }
      current := current + 1;
    }
    return -1;
  }

  lemma TracingGrows(edges: seq<Edge>, first: int, walks: seq<seq<nat>>, w: seq<nat>)
    requires Tracing(edges, first, walks) && Whole(edges, Flat(walks), w) && Starts(edges, first, Flat(walks), w[0])
    ensures Tracing(edges, first, walks + [w]) && Flat(walks + [w]) == Flat(walks) + w
  {
    hide Whole, Starts;
    var more := walks + [w];
    assert more[..|walks|] == walks;
    forall k | 0 <= k < |more| ensures Traced(edges, first, Flat(more[..k]), more[k]) {
      if k < |walks| { assert more[..k] == walks[..k]; }
    }
  }

  lemma NothingTraced(edges: seq<Edge>, first: int)
    ensures Flat([]) == [] && Tracing(edges, first, []) && Outlines(edges, []) == []
  {
  }

  lemma OutlinesGrow(edges: seq<Edge>, walks: seq<seq<nat>>, w: seq<nat>)
    requires InRange(edges, w) && forall k :: 0 <= k < |walks| ==> InRange(edges, walks[k])
    ensures forall k :: 0 <= k < |walks + [w]| ==> InRange(edges, (walks + [w])[k])
    ensures var contour, before := Corners(edges, w), Outlines(edges, walks);
            Outlines(edges, walks + [w]) == if IsOutline(contour) then before + [contour] else before
  {
    hide IsOutline;
    assert (walks + [w])[..|walks|] == walks;
  }

  /** The outlines are the start points of those walks that have three edges or more and go around an area above 2.5,
      in either direction. */
  lemma {:induction false} OutlinesAre(edges: seq<Edge>, walks: seq<seq<nat>>, contour: seq<Point>)
    requires forall k :: 0 <= k < |walks| ==> InRange(edges, walks[k])
    ensures contour in Outlines(edges, walks) <==>
            && 3 <= |contour| && (Area2(contour) > 5.0 || Area2(contour) < -5.0)
            && exists k :: 0 <= k < |walks| && |contour| == |walks[k]|
                           && forall i :: 0 <= i < |contour| ==> contour[i] == edges[walks[k][i]].from
  {
    hide Area2;
    if walks != [] {
      var n := |walks| - 1;
      var rest, last := walks[..n], Corners(edges, walks[n]);
      OutlinesAre(edges, rest, contour);
      assert forall k :: 0 <= k < n ==> rest[k] == walks[k];
      assert contour == last <==>
        |contour| == |walks[n]| && forall i :: 0 <= i < |contour| ==> contour[i] == edges[walks[n][i]].from;
    }
  }

  lemma AllUsed(used: seq<bool>, order: seq<nat>, edges: seq<Edge>)
    requires Marks(used, order) && |used| == |edges| && Distinct(order) && InRange(edges, order)
    requires forall e :: 0 <= e < |used| ==> used[e]
    ensures ListsAll(order, |edges|)
  {
    forall e | e in order ensures e < |edges| {
      var i :| 0 <= i < |order| && order[i] == e;
    }
  }

  lemma NoneUsed(edges: seq<Edge>, used: seq<bool>)
    requires forall e :: 0 <= e < |used| ==> !used[e]
    ensures Marks(used, []) && Distinct([]) && InRange(edges, [])
  {
  }

  lemma StartFound(edges: seq<Edge>, first: int, order: seq<nat>, used: seq<bool>, current: nat)
    requires Marks(used, order) && |used| == |edges| && current < |edges| && !used[current]
    requires (order == [] && 0 <= first && current == first) || forall e :: 0 <= e < current ==> used[e]
    requires order == [] && 0 <= first ==> current == first
    ensures Starts(edges, first, order, current) && current !in order
  {
  }

  /** Traces all walks. It stops because every edge has been used, never because `safetyGlobal` runs out. */
  method Trace(edges: seq<Edge>, nn: nat, first: int) returns (outlines: seq<seq<Point>>, ghost walks: seq<seq<nat>>)
    requires Directed(edges) && edges != [] && -1 <= first < |edges|
    requires forall e :: 0 <= e < |edges| ==> edges[e].tail < nn && edges[e].head < nn
    ensures Tracing(edges, first, walks) && ListsAll(Flat(walks), |edges|)
    ensures forall k :: 0 <= k < |walks| ==> InRange(edges, walks[k])
    ensures outlines == Outlines(edges, walks)
  {
    hide Whole, ListsAll, Distinct, Area2, Lists, Starts, Tracing, Flat, Outlines, Corners;
    var ne := |edges|;
    var adj := Adjacency(edges, nn);
    var used := new bool[ne](_ => false);
    outlines, walks := [], [];
    ghost var order: seq<nat> := [];
    NothingTraced(edges, first);
    var firstEdge := first;
    var safetyGlobal := ne * 4;
    NoneUsed(edges, used[..]);
    while safetyGlobal > 0
      invariant order == Flat(walks) && Tracing(edges, first, walks)
      invariant forall k :: 0 <= k < |walks| ==> InRange(edges, walks[k])
      invariant outlines == Outlines(edges, walks)
      invariant Distinct(order) && InRange(edges, order) && Marks(used[..], order)
      invariant firstEdge == if order == [] then first else -1
      invariant safetyGlobal == ne * 4 - |order| && |order| <= ne
      decreases safetyGlobal
    {
      var current := -1;
      if firstEdge >= 0 && !used[firstEdge] {
        current := firstEdge;
        firstEdge := -1;
      } else {
        current := FirstUnused(used);
      }
      if current < 0 {
        AllUsed(used[..], order, edges);
        return;
      }
      StartFound(edges, first, order, used[..], current);
      ghost var w: seq<nat>;
      var contour: seq<Point>;
      w, contour := FollowWalk(edges, adj, used, order, current);
      safetyGlobal := safetyGlobal - |contour|;
      FewerThan(order + w, ne);
      TracingGrows(edges, first, walks, w);
      OutlinesGrow(edges, walks, w);
      walks := walks + [w];
      order := order + w;
      if |contour| >= 3 {
        var area := SignedArea(contour);
        if Abs(area) > 5.0 {
          outlines := outlines + [contour];
        }
      }
    }
  }
}
