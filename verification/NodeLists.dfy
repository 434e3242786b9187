/** Singly linked lists threaded through one array of nodes.

The packer links its nodes by pointers into the storage the caller hands over; here a pointer is
the index of a node in that storage, and `NIL` is the null pointer.
*/
module NodeLists {
  import opened Columns
  import opened Skyline

  datatype Node = Node(x: int, y: int, next: int)

  const NIL := -1

  /** Following the links from `a` passes the nodes `s` and then arrives at `b`. */
  ghost predicate Chained(ns: seq<Node>, a: int, s: seq<int>, b: int)
    decreases |s|
  {
    if s == [] then a == b
    else a == s[0] && 0 <= a < |ns| && Chained(ns, ns[a].next, s[1..], b)
  }

  /** `m` holds every one of the first `n` indices exactly once, and nothing else. */
  ghost predicate OnceEach(m: multiset<int>, n: int) {
    forall k :: m[k] == if 0 <= k < n then 1 else 0
  }

  /** The two lists share out the first `n` indices between them. */
  ghost predicate Partition(n: int, active: seq<int>, free: seq<int>) {
    |active| + |free| == n && OnceEach(multiset(active) + multiset(free), n)
  }

  /** The link behind the `i`th node of `s`, for a list that ends at `b`. */
  function After(s: seq<int>, i: int, b: int): int
    requires -1 <= i < |s|
  {
    if i + 1 < |s| then s[i + 1] else b
  }

  lemma {:induction false} ChainedAt(ns: seq<Node>, a: int, s: seq<int>, b: int, i: nat)
    requires Chained(ns, a, s, b) && i < |s|
    ensures 0 <= s[i] < |ns| && ns[s[i]].next == After(s, i, b)
    decreases |s|
  {
    if i > 0 { ChainedAt(ns, ns[a].next, s[1..], b, i - 1); }
  }

  /** A change at a node outside the list leaves the list alone. */
  lemma {:induction false} ChainedFrame(ns: seq<Node>, a: int, s: seq<int>, b: int, n: int, v: Node)
    requires Chained(ns, a, s, b) && 0 <= n < |ns| && (n !in s || v.next == ns[n].next)
    ensures Chained(ns[n := v], a, s, b)
    decreases |s|
  {
    if s != [] { ChainedFrame(ns, ns[a].next, s[1..], b, n, v); }
  }

  lemma {:induction false} ChainedConcat(ns: seq<Node>, a: int, s: seq<int>, b: int, t: seq<int>, c: int)
    requires Chained(ns, a, s, b) && Chained(ns, b, t, c)
    ensures Chained(ns, a, s + t, c)
    decreases |s|
  {
    if s == [] {
      assert s + t == t;
    } else {
      ChainedConcat(ns, ns[a].next, s[1..], b, t, c);
      assert (s + t)[1..] == s[1..] + t;
    }
  }

  lemma {:induction false} ChainedSplit(ns: seq<Node>, a: int, s: seq<int>, c: int, k: nat)
    requires Chained(ns, a, s, c) && k <= |s|
    ensures Chained(ns, a, s[..k], After(s, k - 1, c)) && Chained(ns, After(s, k - 1, c), s[k..], c)
    decreases |s|
  {
    if k > 0 {
      ChainedSplit(ns, ns[a].next, s[1..], c, k - 1);
      assert s[..k][1..] == s[1..][..k - 1] && s[k..] == s[1..][k - 1..];
    }
  }

  /** Redirecting the last link of a list. */
  lemma ChainedRelink(ns: seq<Node>, a: int, s: seq<int>, b: int, c: int)
    requires Chained(ns, a, s, b) && s != [] && s[|s| - 1] !in s[..|s| - 1]
    ensures var last := s[|s| - 1];
            0 <= last < |ns| && Chained(ns[last := ns[last].(next := c)], a, s, c)
  {
    var k := |s| - 1;
    var last := s[k];
    ChainedSplit(ns, a, s, b, k);
    var ns' := ns[last := ns[last].(next := c)];
    ChainedFrame(ns, a, s[..k], last, last, ns'[last]);
    ChainedConcat(ns', a, s[..k], last, [last], c);
    assert s == s[..k] + [last];
  }

  /** An index that occurs in one part of an all-different collection occurs nowhere else. */
  lemma OnceMeansElsewhereNot(m: multiset<int>, part: seq<int>, rest: multiset<int>, k: int, n: int)
    requires OnceEach(m, n) && m == multiset(part) + rest && k in rest
    ensures k !in part
  {
    assert m[k] == multiset(part)[k] + rest[k];
  }

  lemma OnceMeansDistinct(part: seq<int>, rest: multiset<int>, n: int)
    requires OnceEach(multiset(part) + rest, n)
    ensures forall i, j :: 0 <= i < j < |part| ==> part[i] != part[j]
  {
    forall i, j | 0 <= i < j < |part| ensures part[i] != part[j] {
      assert part == part[..j] + part[j..];
      OnceMeansElsewhereNot(multiset(part) + rest, part[j..], multiset(part[..j]) + rest, part[i], n);
    }
  }

  lemma ChainedHead(ns: seq<Node>, a: int, s: seq<int>)
    requires Chained(ns, a, s, NIL) && s != []
    ensures a == s[0] && 0 <= a < |ns| && ns[a].next == After(s, 0, NIL)
    ensures ns[a].next == NIL <==> |s| == 1
    ensures ns[a].next != NIL ==> 0 <= ns[a].next < |ns|
  {
    ChainedAt(ns, a, s, NIL, 0);
    if |s| > 1 { ChainedAt(ns, a, s, NIL, 1); }
  }

  /** The lists while node `f` is being inserted: the nodes in front of it lead to it, the nodes from
      `cur` on still lead to each other, and `f` itself is in neither list. */
  ghost predicate Open(ns: seq<Node>, n: int, head: int, front: seq<int>, f: int, cur: int, back: seq<int>,
                       freeHead: int, free: seq<int>) {
    && |ns| == n && 0 <= f < n && |front| + 1 + |back| + |free| == n
    && OnceEach(multiset(front) + multiset{f} + multiset(back) + multiset(free), n)
    && Chained(ns, head, front, f) && Chained(ns, cur, back, NIL) && Chained(ns, freeHead, free, NIL)
  }

  /** Redirecting the head, or the link behind node `k - 1`, to `f` opens the active list. */
  lemma OpenAt(ns: seq<Node>, n: int, head: int, active: seq<int>, freeHead: int, free: seq<int>, k: nat, f: int)
    requires Chained(ns, head, active, NIL) && Chained(ns, freeHead, free, NIL) && k < |active|
    requires |ns| == n == |active| + 1 + |free| && 0 <= f < n
    requires OnceEach(multiset(active) + multiset{f} + multiset(free), n)
    ensures k == 0 ==> Open(ns, n, f, active[..k], f, active[k], active[k..], freeHead, free)
    ensures k > 0 ==>
              && 0 <= active[k - 1] < n
              && var ns' := ns[active[k - 1] := ns[active[k - 1]].(next := f)];
                 Open(ns', n, head, active[..k], f, active[k], active[k..], freeHead, free)
  {
    hide OnceEach;
    var front, back := active[..k], active[k..];
    var m := multiset(active) + multiset{f} + multiset(free);
    assert active == front + back;
    assert multiset(front) + multiset{f} + multiset(back) + multiset(free) == m;
    ChainedSplit(ns, head, active, NIL, k);
    if k > 0 {
      var last := active[k - 1];
      assert front == front[..k - 1] + [last];
      OnceMeansElsewhereNot(m, front[..k - 1], multiset{last} + multiset(back) + multiset{f} + multiset(free), last, n);
      OnceMeansElsewhereNot(m, back, multiset(front) + multiset{f} + multiset(free), last, n);
      OnceMeansElsewhereNot(m, free, multiset(front) + multiset{f} + multiset(back), last, n);
      ChainedRelink(ns, head, front, active[k], f);
      ChainedFrame(ns, active[k], back, NIL, last, ns[last].(next := f));
      ChainedFrame(ns, freeHead, free, NIL, last, ns[last].(next := f));
    }
  }

  /** Moving the first node of the back to the free list keeps the list open. */
  lemma FreeOne(ns: seq<Node>, n: int, head: int, front: seq<int>, f: int, cur: int, back: seq<int>,
                freeHead: int, free: seq<int>)
    requires Open(ns, n, head, front, f, cur, back, freeHead, free) && back != []
    ensures 0 <= cur < n
    ensures Open(ns[cur := ns[cur].(next := freeHead)], n, head, front, f, ns[cur].next, back[1..], cur, [cur] + free)
  {
    hide OnceEach;
    var m := multiset(front) + multiset{f} + multiset(back) + multiset(free);
    var v := ns[cur].(next := freeHead);
    assert back == [cur] + back[1..];
    OnceMeansElsewhereNot(m, front, multiset{f} + multiset(back) + multiset(free), cur, n);
    OnceMeansElsewhereNot(m, back[1..], multiset{cur} + multiset(front) + multiset{f} + multiset(free), cur, n);
    OnceMeansElsewhereNot(m, free, multiset(front) + multiset{f} + multiset(back), cur, n);
    ChainedFrame(ns, head, front, f, cur, v);
    ChainedFrame(ns, ns[cur].next, back[1..], NIL, cur, v);
    ChainedFrame(ns, freeHead, free, NIL, cur, v);
    assert ([cur] + free)[1..] == free;
    assert multiset(front) + multiset{f} + multiset(back[1..]) + multiset([cur] + free) == m;
  }

  /** The nodes after `cur` has been linked in behind `f` and moved to `right` if it starts before. */
  function Stitched(ns: seq<Node>, f: int, cur: int, right: int): seq<Node>
    requires 0 <= f < |ns| && 0 <= cur < |ns|
  {
    var ns' := ns[f := ns[f].(next := cur)];
    if ns'[cur].x < right then ns'[cur := ns'[cur].(x := right)] else ns'
  }

  lemma StitchLists(ns: seq<Node>, n: int, head: int, front: seq<int>, f: int, cur: int, back: seq<int>,
                    freeHead: int, free: seq<int>, right: int)
    requires Open(ns, n, head, front, f, cur, back, freeHead, free) && back != []
    ensures 0 <= cur < |ns| && cur == back[0] && cur != f
    ensures var ns', active := Stitched(ns, f, cur, right), front + [f] + back;
            && Chained(ns', head, active, NIL) && Chained(ns', freeHead, free, NIL)
            && Partition(n, active, free)
  {
    hide OnceEach;
    var m := multiset(front) + multiset{f} + multiset(back) + multiset(free);
    var active := front + [f] + back;
    OnceMeansElsewhereNot(m, front, multiset{f} + multiset(back) + multiset(free), f, n);
    OnceMeansElsewhereNot(m, back, multiset(front) + multiset{f} + multiset(free), f, n);
    OnceMeansElsewhereNot(m, free, multiset(front) + multiset{f} + multiset(back), f, n);
    var v := ns[f].(next := cur);
    var ns' := ns[f := v];
    ChainedFrame(ns, head, front, f, f, v);
    ChainedFrame(ns, cur, back, NIL, f, v);
    ChainedFrame(ns, freeHead, free, NIL, f, v);
    assert Chained(ns', f, [f], cur);
    ChainedConcat(ns', head, front, f, [f], cur);
    ChainedConcat(ns', head, front + [f], cur, back, NIL);
    var v' := ns'[cur].(x := right);
    ChainedFrame(ns', head, active, NIL, cur, v');
    ChainedFrame(ns', freeHead, free, NIL, cur, v');
    assert multiset(active) + multiset(free) == m;
  }

  /** The skyline that the list `s` stands for. */
  ghost function Segs(ns: seq<Node>, s: seq<int>): (sky: seq<Seg>)
    requires forall i :: 0 <= i < |s| ==> 0 <= s[i] < |ns|
    ensures |sky| == |s| && forall i :: 0 <= i < |s| ==> sky[i] == Seg(ns[s[i]].x, ns[s[i]].y)
  {
    seq(|s|, i requires 0 <= i < |s| => Seg(ns[s[i]].x, ns[s[i]].y))
  }

  /** Outside `except` every node is where it was, whatever its link. */
  ghost predicate Same(ns: seq<Node>, ns': seq<Node>, except: set<int>) {
    |ns'| == |ns| && forall k :: 0 <= k < |ns| && k !in except ==> ns'[k].x == ns[k].x && ns'[k].y == ns[k].y
  }

  lemma SameAfterLink(ns: seq<Node>, n: int, f: int)
    requires 0 <= n < |ns|
    ensures Same(ns, ns[n := ns[n].(next := f)], {})
  {
  }

  lemma SameAfterNothing(ns: seq<Node>)
    ensures Same(ns, ns, {})
  {
  }

  /** The nodes `s` start at the columns of `sky`. */
  ghost predicate Starts(ns: seq<Node>, s: seq<int>, sky: seq<Seg>) {
    |sky| == |s| && forall k :: 0 <= k < |s| ==> 0 <= s[k] < |ns| && ns[s[k]].x == sky[k].x
  }

  lemma StartsSame(ns: seq<Node>, ns': seq<Node>, s: seq<int>, sky: seq<Seg>, except: set<int>)
    requires Starts(ns, s, sky) && Same(ns, ns', except) && forall k :: 0 <= k < |s| ==> s[k] !in except
    ensures Starts(ns', s, sky)
  {
  }

  lemma SameTwice(ns: seq<Node>, ns': seq<Node>, ns'': seq<Node>)
    requires Same(ns, ns', {}) && Same(ns', ns'', {})
    ensures Same(ns, ns'', {})
  {
  }

  /** The test at node `n` of the list tells whether `Skip` goes on. */
  ghost predicate SkipsAt(ns: seq<Node>, s: seq<int>, sky: seq<Seg>, n: nat, right: int) {
    && n < |s| == |sky|
    && if n + 1 < |s| && 0 <= s[n + 1] < |ns| && ns[s[n + 1]].x <= right
       then Skip(sky, n, right) == Skip(sky, n + 1, right)
       else Skip(sky, n, right) == n
  }

  lemma SkipAt(ns: seq<Node>, s: seq<int>, sky: seq<Seg>, n: nat, right: int)
    requires Starts(ns, s, sky) && n < |s|
    ensures SkipsAt(ns, s, sky, n, right)
  {
  }

  /** Nodes `f` and `active[j]` hold the new rectangle and what is left of the last node under it;
      all others are where they were. */
  ghost predicate Moved(ns: seq<Node>, ns': seq<Node>, active: seq<int>, f: int, j: nat, x: int, top: int, right: int) {
    && j < |active| && |ns'| == |ns| && 0 <= f < |ns| && 0 <= active[j] < |ns|
    && ns'[f].x == x && ns'[f].y == top
    && ns'[active[j]].x == Max(ns[active[j]].x, right) && ns'[active[j]].y == ns[active[j]].y
    && Same(ns, ns', {f, active[j]})
  }

  lemma MovedInSteps(ns0: seq<Node>, ns1: seq<Node>, ns2: seq<Node>, active: seq<int>, f: int, j: nat, x: int, top: int,
                     right: int)
    requires j < |active| && 0 <= active[j] < |ns0| && 0 <= f < |ns0| && active[j] != f
    requires Same(ns0, ns1, {f}) && ns1[f].x == x && ns1[f].y == top && Same(ns1, ns2, {active[j]})
    requires ns2[active[j]].x == Max(ns1[active[j]].x, right) && ns2[active[j]].y == ns1[active[j]].y
    ensures Moved(ns0, ns2, active, f, j, x, top, right)
  {
  }

  /** The relinked list, and the skyline it should stand for. */
  function Relisted(active: seq<int>, f: int, kept: nat, j: nat): seq<int>
    requires kept <= |active| && j <= |active|
  {
    active[..kept] + [f] + active[j..]
  }

  function Reshaped(sky: seq<Seg>, kept: nat, j: nat, x: int, top: int, right: int): seq<Seg>
    requires kept <= j < |sky|
  {
    sky[..kept] + [Seg(x, top), Seg(Max(sky[j].x, right), sky[j].y)] + sky[j + 1..]
  }

  lemma PlacedAt(ns: seq<Node>, ns': seq<Node>, active: seq<int>, f: int, kept: nat, j: nat, x: int, top: int,
                 right: int, k: nat)
    requires kept <= j < |active| && forall k :: 0 <= k < |active| ==> 0 <= active[k] < |ns|
    requires f !in active && forall k, l :: 0 <= k < l < |active| ==> active[k] != active[l]
    requires Moved(ns, ns', active, f, j, x, top, right)
    requires k <= kept + |active| - j
    ensures var sky, active' := Segs(ns, active), Relisted(active, f, kept, j);
            && 0 <= active'[k] < |ns'|
            && Seg(ns'[active'[k]].x, ns'[active'[k]].y) == Reshaped(sky, kept, j, x, top, right)[k]
  {
    if k < kept {
      assert active[k] != active[j];
    } else if k > kept {
      var l := k - kept - 1 + j;
      assert Relisted(active, f, kept, j)[k] == active[l];
      assert l > j ==> active[j] != active[l];
    }
  }

  lemma MovedIsReshaped(ns: seq<Node>, ns': seq<Node>, active: seq<int>, f: int, kept: nat, j: nat, x: int, top: int,
                        right: int)
    requires kept <= j < |active| && forall k :: 0 <= k < |active| ==> 0 <= active[k] < |ns|
    requires f !in active && forall k, l :: 0 <= k < l < |active| ==> active[k] != active[l]
    requires Moved(ns, ns', active, f, j, x, top, right)
    ensures forall k :: 0 <= k < |Relisted(active, f, kept, j)| ==> 0 <= Relisted(active, f, kept, j)[k] < |ns'|
    ensures Segs(ns', Relisted(active, f, kept, j)) == Reshaped(Segs(ns, active), kept, j, x, top, right)
  {
    var sky, active' := Segs(ns, active), Relisted(active, f, kept, j);
    assert |active'| == kept + 1 + |active| - j == |Reshaped(sky, kept, j, x, top, right)|;
    hide Relisted, Reshaped, Moved;
    forall k | 0 <= k < |active'|
      ensures 0 <= active'[k] < |ns'|
      ensures Seg(ns'[active'[k]].x, ns'[active'[k]].y) == Reshaped(sky, kept, j, x, top, right)[k]
    {
      PlacedAt(ns, ns', active, f, kept, j, x, top, right, k);
    }
  }

  /** Seen as a skyline, the relinked list is the old one with the rectangle placed on it. */
  lemma MovedIsPlaced(ns: seq<Node>, ns': seq<Node>, active: seq<int>, f: int, i: nat, x: int, w: int, top: int)
    requires i + 1 < |active| && forall k :: 0 <= k < |active| ==> 0 <= active[k] < |ns|
    requires f !in active
    requires forall k, l :: 0 <= k < l < |active| ==> active[k] != active[l]
    requires var sky := Segs(ns, active); Moved(ns, ns', active, f, Skip(sky, Kept(sky, i, x), x + w), x, top, x + w)
    ensures var sky := Segs(ns, active);
            var kept := Kept(sky, i, x);
            var active' := active[..kept] + [f] + active[Skip(sky, kept, x + w)..];
            && (forall k :: 0 <= k < |active'| ==> 0 <= active'[k] < |ns'|)
            && Segs(ns', active') == Place(sky, i, x, w, top)
  {
    hide Moved;
    var sky := Segs(ns, active);
    var kept := Kept(sky, i, x);
    MovedIsReshaped(ns, ns', active, f, kept, Skip(sky, kept, x + w), x, top, x + w);
    hide Segs, Skip, Kept;
  }

  function UpTo(n: nat): (s: seq<int>)
    ensures |s| == n && forall i :: 0 <= i < n ==> s[i] == i
  {
    seq(n, i => i)
  }

  lemma {:induction false} CountUp(n: nat)
    ensures forall k :: multiset(UpTo(n))[k] == if 0 <= k < n then 1 else 0
  {
    if n > 0 {
      CountUp(n - 1);
      assert UpTo(n) == UpTo(n - 1) + [n - 1];
    }
  }

  lemma {:induction false} CountsDown(ns: seq<Node>, n: nat, k: nat)
    requires k <= n <= |ns|
    requires forall i :: 0 <= i < n ==> ns[i].next == if i + 1 < n then i + 1 else NIL
    ensures Chained(ns, if k < n then k else NIL, UpTo(n)[k..], NIL)
    decreases n - k
  {
    if k < n {
      CountsDown(ns, n, k + 1);
      assert UpTo(n)[k..][1..] == UpTo(n)[k + 1..];
    }
  }

  /** The lists of a fresh target: the extra nodes are active, the caller's are free. */
  lemma AllFree(ns: seq<Node>, n: int)
    requires 0 < n && |ns| == n + 2
    requires forall i :: 0 <= i < n ==> ns[i].next == if i + 1 < n then i + 1 else NIL
    requires ns[n].next == n + 1 && ns[n + 1].next == NIL
    ensures var active, free := [n, n + 1], UpTo(n);
            && Partition(n + 2, active, free)
            && Chained(ns, n, active, NIL) && Chained(ns, 0, free, NIL)
  {
    var free := UpTo(n);
    CountUp(n);
    CountsDown(ns, n, 0);
    assert free[0..] == free;
    assert Chained(ns, n + 1, [n + 1], NIL);
    assert [n, n + 1][1..] == [n + 1];
  }
}
