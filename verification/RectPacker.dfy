/** The packer as it runs: an array of linked nodes, relinked in place. */
module RectPacker {
  import opened Basics
  import opened Columns
  import opened Rounding
  import opened Skyline
  import opened Packing
  import Leader
  import Optimal
  import Waste
  import opened NodeLists

  /** A place that holds a pointer to an active node: the list head or some node's `next`. */
  datatype Link = ToHead | ToNext(node: int)

  class Context {
    var width: int
    var height: int
    var align: int
    var heuristic: Heuristic
    var numNodes: int
    var activeHead: int
    var freeHead: int
    var nodes: array<Node>       // the caller's `numNodes` nodes, then the two extra ones
    ghost var active: seq<int>   // from the leftmost node to the sentinel
    ghost var free: seq<int>
    ghost var boxes: seq<Box>    // everything packed since InitTarget

    /** The two lists share out all the nodes between them. */
    ghost predicate Shaped()
      reads this`nodes, this`numNodes, this`activeHead, this`freeHead, this`active, this`free, nodes
    {
      && nodes.Length == numNodes + 2 && Partition(numNodes + 2, active, free)
      && Chained(nodes[..], activeHead, active, NIL) && Chained(nodes[..], freeHead, free, NIL)
    }

    lemma InRange()
      requires Shaped()
      ensures forall i :: 0 <= i < |active| ==> 0 <= active[i] < nodes.Length
    {
      forall i | 0 <= i < |active| ensures 0 <= active[i] < nodes.Length {
        ChainedAt(nodes[..], activeHead, active, NIL, i);
      }
    }

    ghost function Sky(): (sky: seq<Seg>)
      requires Shaped()
      reads this`nodes, this`numNodes, this`activeHead, this`freeHead, this`active, this`free, nodes
      ensures |sky| == |active|
    {
      InRange();
      Segs(nodes[..], active)
    }

    /** The packer that the linked nodes stand for. */
    ghost function View(): Packer
      requires Shaped()
      reads this, nodes
    {
      Packer(width, height, align, heuristic, numNodes, Sky())
    }

    ghost predicate Valid()
      reads this, nodes
    {
      Shaped() && Packing.Valid(View()) && Waste.FloorLast(Sky()) && Safe(View(), boxes)
    }

    /** `node` is the `n`th active node. */
    ghost predicate At(node: int, n: nat)
      requires Shaped()
      reads this, nodes
    {
      && n < |active| == |Sky()| && 0 <= node < nodes.Length && node == active[n]
      && Sky()[n] == Seg(nodes[node].x, nodes[node].y) && nodes[node].next == After(active, n, NIL)
    }

    lemma ActiveNode(n: nat)
      requires Shaped() && n < |active|
      ensures At(active[n], n)
    {
      ChainedAt(nodes[..], activeHead, active, NIL, n);
    }

    lemma Head()
      requires Valid()
      ensures 2 <= |active| && At(activeHead, 0) && 0 < align && Sky()[0].x == 0
    {
      ActiveNode(0);
    }

    lemma Ordered(i: nat, j: nat)
      requires Valid() && i < j < |active|
      ensures |Sky()| == |active| && Sky()[i].x < Sky()[j].x <= width
    {
      hide Safe, Chained, Partition;
      NodesOrdered(Sky(), i, j);
    }

    lemma Bounded(i: nat)
      requires Valid() && i < |active|
      ensures |Sky()| == |active| && 0 <= Sky()[i].x <= width
    {
      if 0 < i { Ordered(0, i); } else { Ordered(i, |active| - 1); }
    }

    lemma Ends()
      requires Valid()
      ensures 2 <= |active| == |Sky()| && Chain(Sky()) && End(Sky()) == width
    {
    }

    /** Starts a target; `nodes` is the caller's storage together with the two extra nodes. */
    constructor InitTarget(width: int, height: int, nodes: array<Node>, numNodes: int)
      requires 0 < width && 0 <= height < SENTINEL_Y && 0 < numNodes && nodes.Length == numNodes + 2
      modifies nodes
      ensures Valid() && View() == Init(width, height, numNodes) && boxes == [] && this.nodes == nodes
    {
      hide Packing.Valid, Safe, DefaultAlign;
      var i := 0;
      while i < numNodes - 1
        invariant 0 <= i <= numNodes - 1
        invariant forall j :: 0 <= j < i ==> nodes[j].next == j + 1
      {
        nodes[i] := nodes[i].(next := i + 1);
        i := i + 1;
      }
      nodes[i] := nodes[i].(next := NIL);
      nodes[numNodes] := Node(0, 0, numNodes + 1);
      nodes[numNodes + 1] := Node(width, SENTINEL_Y, NIL);
      this.nodes, this.width, this.height, this.numNodes := nodes, width, height, numNodes;
      heuristic := BottomLeft;
      align := DefaultAlign(width, numNodes);
      freeHead, activeHead := 0, numNodes;
      active, free, boxes := [numNodes, numNodes + 1], UpTo(numNodes), [];
      new;
      AllFree(nodes[..], numNodes);
      assert Segs(nodes[..], active) == [Seg(0, 0), Seg(width, SENTINEL_Y)];
      InitIsSafe(width, height, numNodes);
    }

    method SetupAllowOutOfMem(allow: bool)
      requires Valid()
      modifies this`align
      ensures Valid() && View() == old(View()).(align := if allow then 1 else DefaultAlign(width, numNodes))
    {
      AlignBounds(width, numNodes);
      if allow {
        align := 1;
      } else {
        align := DefaultAlign(width, numNodes);
      }
    }

    method SetupHeuristic(heuristic: Heuristic)
      requires Valid()
      modifies this`heuristic
      ensures Valid() && View() == old(View()).(heuristic := heuristic)
    {
      this.heuristic := heuristic;
    }

    /** The height at which a span rests, and the area it wastes under it; `k` is the place of `first` in the list. */
    method FindMinY(first: int, x0: int, width: int, ghost k: nat) returns (minY: int, waste: int)
      requires Valid() && At(first, k) && Span(Sky(), k, x0, width)
      ensures var r := MinY(Sky(), k, x0, width); minY == r.minY && waste == r.waste
      ensures 0 <= x0 && minY == Rest(Heights(Sky()), x0, x0 + width)
      ensures waste == Gap(Heights(Sky()), x0, x0 + width, minY)
    {
      hide Packing.Valid, Safe, Shaped, Sky, Heights, Waste.FloorLast;
      Waste.WasteIsGap(Sky(), k, x0, width);
      ghost var sky := Sky();
      var node := first;
      ghost var n := k;
      var x1 := x0 + width;
      var visited := 0;
      minY, waste := 0, 0;
      while nodes[node].x < x1
        invariant k <= n && At(node, n)
        invariant WalkFrom(sky, n, x0, width, Walk(minY, visited, waste)) == MinY(sky, k, x0, width)
        decreases |active| - n
      {
        ghost var before := Walk(minY, visited, waste);
        assert n + 1 < |active|;
        ActiveNode(n + 1);
        var next := nodes[node].next;
        if nodes[node].y > minY {
          waste := waste + visited * (nodes[node].y - minY);
          minY := nodes[node].y;
          if nodes[node].x < x0 {
            visited := visited + nodes[next].x - x0;
          } else {
            visited := visited + nodes[next].x - nodes[node].x;
          }
        } else {
          var under := nodes[next].x - nodes[node].x;
          if under + visited > width {
            under := width - visited;
          }
          waste := waste + under * (minY - nodes[node].y);
          visited := visited + under;
        }
        assert Walk(minY, visited, waste) == StepOver(sky, n, x0, width, before);
        node := next;
        n := n + 1;
      }
    }

    // ----- Choosing a position -----

    /** The link that holds the pointer to the `i`th active node. */
    ghost function LinkTo(i: nat): Link
      requires i < |active|
      reads this
    {
      if i == 0 then ToHead else ToNext(active[i - 1])
    }

    /** The link kept by the passes points to the node in which the leading column lies. */
    ghost predicate Leads(width: int, h: int, seen: set<int>, lead: Option<int>, best: Option<Link>, bestY: int,
                          bestWaste: int)
      requires Valid() && 0 < width
      reads this, nodes
    {
      && Leader.Leads(View(), width, h, seen, lead)
      && Leader.Tracks(View(), width, h, lead, bestY, bestWaste)
      && best == if lead.None? then None else Some(LinkTo(Cover(Sky(), lead.value)))
    }

    /** The span at `x` in node `n` is what the packer measures there. */
    lemma MeasureAt(n: nat, width: int, x: int)
      requires Valid() && 0 < width && x + width <= this.width && Covers(Sky(), n, x)
      ensures 0 <= x && Cover(Sky(), x) == n && Span(Sky(), n, x, width)
      ensures Measure(View(), width, x) == MinY(Sky(), n, x, width)
      ensures Measure(View(), width, x).minY < SENTINEL_Y
    {
      hide Safe, Shaped, Sky, Measure;
      Packing.MeasureAt(View(), n, width, x);
    }

    lemma LeadsAnother(width: int, h: int, seen: set<int>, lead: Option<int>, best: Option<Link>, bestX: int,
                       bestY: int, bestWaste: int, n: nat, x: int)
      requires Valid() && 0 < width && x + width <= this.width && Covers(Sky(), n, x) && heuristic == BestFit
      requires Leads(width, h, seen, lead, best, bestY, bestWaste) && (lead.Some? ==> bestX == lead.value)
      ensures n < |active| && Span(Sky(), n, x, width)
      ensures var m := MinY(Sky(), n, x, width);
              if Leader.TakesRight(View(), h, m, x, bestX, bestY, bestWaste)
              then Leads(width, h, seen + {x}, Some(x), Some(LinkTo(n)), m.minY, m.waste)
              else Leads(width, h, seen + {x}, lead, best, bestY, bestWaste)
    {
      MeasureAt(n, width, x);
      Leader.TakesRightDecides(View(), width, h, seen, lead, bestX, bestY, bestWaste, x);
      hide Packing.Valid, Waste.FloorLast, Safe, Sky, Measure, Span, Covers, Leader.Leads, Leader.Tracks;
    }

    /** What the test of the second pass makes of the leading column, for the column left of the `t`th node. */
    lemma LeadsRight(width: int, h: int, seen0: set<int>, t: nat, lead: Option<int>, best: Option<Link>, bestX: int,
                     bestY: int, bestWaste: int, n: nat, x: int)
      requires Valid() && 0 < width && t < |Sky()| && x == Sky()[t].x - width && width <= Sky()[t].x
      requires x + width <= this.width && Covers(Sky(), n, x) && heuristic == BestFit
               && (lead.Some? ==> bestX == lead.value)
      requires Leads(width, h, seen0 + Leader.RightEnds(Sky(), width, t), lead, best, bestY, bestWaste)
      ensures n < |active| && Span(Sky(), n, x, width)
      ensures var m, seen := MinY(Sky(), n, x, width), seen0 + Leader.RightEnds(Sky(), width, t + 1);
              if m.minY + h <= height && m.minY <= bestY
                 && (m.minY < bestY || m.waste < bestWaste || (m.waste == bestWaste && x < bestX))
              then Leads(width, h, seen, Some(x), Some(LinkTo(n)), m.minY, m.waste)
              else Leads(width, h, seen, lead, best, bestY, bestWaste)
    {
      hide Packing.Valid, Waste.FloorLast, Safe, Sky, Measure, Span, Covers, Leads, Leader.RightEnds;
      var seen := seen0 + Leader.RightEnds(Sky(), width, t);
      Leader.RightEndsGrow(Sky(), width, t);
      assert seen + {x} == seen0 + Leader.RightEnds(Sky(), width, t + 1);
      LeadsAnother(width, h, seen, lead, best, bestX, bestY, bestWaste, n, x);
    }

    /** The second pass is at the `t`th node as the right end, and at node `n` as the left one. */
    ghost predicate Tails(tail: int, t: nat, n: nat, width: int)
      requires Shaped()
      reads this, nodes
    {
      && t <= |active| == |Sky()| && (tail == NIL <==> t == |active|) && n < |active|
      && (t < |active| ==> At(tail, t) && width <= Sky()[t].x && Sky()[n].x <= Sky()[t].x - width)
    }

    lemma TailsAt(tail: int, t: nat, n: nat, width: int)
      requires Shaped() && Tails(tail, t, n, width)
      ensures t <= |active| == |Sky()| && (tail == NIL <==> t == |active|) && n < |active|
      ensures t < |active| ==>
                && 0 <= tail < nodes.Length && nodes[tail].x == Sky()[t].x
                && width <= Sky()[t].x && Sky()[n].x <= Sky()[t].x - width
    {
    }

    /** Moving on to the next node, whose left end is no further to the left. */
    lemma NextTail(tail: int, t: nat, n: nat, n': nat, width: int)
      requires Valid() && Tails(tail, t, n, width) && t < |active| && n' < |active| && Sky()[n'].x <= Sky()[t].x - width
      ensures 0 <= tail < nodes.Length && Tails(nodes[tail].next, t + 1, n', width)
    {
      hide Safe, Sky, Waste.FloorLast;
      if t + 1 < |active| {
        ActiveNode(t + 1);
        Ordered(t, t + 1);
      }
    }

    /** First pass: every active node as the left end, up to node `n`. */
    method TryLeft(width: int, h: int)
      returns (best: Option<Link>, bestY: int, bestWaste: int, ghost n: nat, ghost lead: Option<int>)
      requires Valid() && 0 < width <= this.width
      ensures n < |Sky()| && this.width < Sky()[n].x + width && (n == 0 || Sky()[n - 1].x + width <= this.width)
      ensures Leads(width, h, Leader.LeftEnds(Sky(), n), lead, best, bestY, bestWaste)
    {
      hide Packing.Valid, Waste.FloorLast, Safe, Shaped, Sky, Measure, Heights, Leader.Leads, Leader.Tracks,
        Leader.LeftEnds;
      ghost var p, sky := View(), Sky();
      best, bestY, bestWaste, lead := None, SENTINEL_Y, SENTINEL_Y, None;
      var node, prev := activeHead, ToHead;
      n := 0;
      Head();
      Ends();
      Leader.NobodyLeads(p, width, h);
      while nodes[node].x + width <= this.width
        invariant At(node, n) && prev == LinkTo(n)
        invariant n == 0 || sky[n - 1].x + width <= this.width
        invariant Leads(width, h, Leader.LeftEnds(sky, n), lead, best, bestY, bestWaste)
        decreases |active| - n
      {
        ghost var x := sky[n].x;
        assert Covers(sky, n, x);
        MeasureAt(n, width, x);
        Leader.LeftEndsGrow(sky, n);
        Leader.TakesLeftDecides(p, width, h, Leader.LeftEnds(sky, n), lead, bestY, bestWaste, x);
        ActiveNode(n + 1);
        var y, waste := FindMinY(node, nodes[node].x, width, n);
        if heuristic == BottomLeft {
          if y < bestY {
            bestY, best, lead := y, Some(prev), Some(x);
          }
        } else if y + h <= height {
          if y < bestY || (y == bestY && waste < bestWaste) {
            bestY, bestWaste, best, lead := y, waste, Some(prev), Some(x);
          }
        }
        prev, node := ToNext(node), nodes[node].next;
        n := n + 1;
      }
    }

    /** The first node that leaves room for the rectangle on its left. */
    method FirstTail(width: int) returns (tail: int, ghost t: nat)
      requires Valid() && 0 < width <= this.width
      ensures At(tail, t) && width <= Sky()[t].x && Leader.RightEnds(Sky(), width, t) == {}
    {
      hide Packing.Valid, Waste.FloorLast, Safe, Shaped, Sky, Measure, Heights;
      Head();
      Ends();
      tail, t := activeHead, 0;
      while nodes[tail].x < width
        invariant At(tail, t) && forall j :: 0 <= j < t ==> Sky()[j].x < width
        decreases |active| - t
      {
        ActiveNode(t + 1);
        tail, t := nodes[tail].next, t + 1;
      }
    }

    /** Moves on from node `n` to the one that covers column `xpos`. */
    method FindLeft(xpos: int, ghost n0: nat, node0: int, prev0: Link) returns (ghost n: nat, node: int, prev: Link)
      requires Valid() && At(node0, n0) && prev0 == LinkTo(n0) && Sky()[n0].x <= xpos < width
      ensures At(node, n) && prev == LinkTo(n) && Covers(Sky(), n, xpos) && Sky()[n].x <= xpos
    {
      hide Packing.Valid, Waste.FloorLast, Safe, Shaped, Sky;
      n, node, prev := n0, node0, prev0;
      Ends();
      ActiveNode(n + 1);
      while nodes[nodes[node].next].x <= xpos
        invariant n + 1 < |active| && At(node, n) && prev == LinkTo(n) && Sky()[n].x <= xpos
        invariant At(nodes[node].next, n + 1)
        decreases |active| - n
      {
        prev, node := ToNext(node), nodes[node].next;
        n := n + 1;
        ActiveNode(n + 1);
      }
    }

    /** Second pass, for best fit only: every active node as the right end. */
    method TryRight(width: int, h: int, best0: Option<Link>, bestX0: int, bestY0: int, bestWaste0: int,
                    ghost seen0: set<int>, ghost lead0: Option<int>)
      returns (best: Option<Link>, bestX: int, bestY: int, ghost bestWaste: int, ghost lead: Option<int>)
      requires Valid() && 0 < width <= this.width && heuristic == BestFit
      requires Leads(width, h, seen0, lead0, best0, bestY0, bestWaste0)
      requires lead0.Some? ==> bestX0 == lead0.value
      ensures Leads(width, h, seen0 + Leader.RightEnds(Sky(), width, |Sky()|), lead, best, bestY, bestWaste)
      ensures lead.Some? ==> bestX == lead.value
    {
      hide Packing.Valid, Waste.FloorLast, Safe, Shaped, Sky, Measure, Span, Covers, Leads, Leader.RightEnds, Heights;
      ghost var sky := Sky();
      best, bestX, bestY, lead := best0, bestX0, bestY0, lead0;
      var bestW := bestWaste0;
      var tail;
      ghost var t: nat;
      tail, t := FirstTail(width);
      var node, prev := activeHead, ToHead;
      ghost var n: nat := 0;
      Head();
      assert seen0 + {} == seen0;
      assert Tails(tail, t, n, width);
      hide Tails;
      while tail != NIL
        invariant t <= |sky| == |active| && Tails(tail, t, n, width)
        invariant At(node, n) && prev == LinkTo(n)
        invariant Leads(width, h, seen0 + Leader.RightEnds(sky, width, t), lead, best, bestY, bestW)
        invariant lead.Some? ==> bestX == lead.value
        decreases |active| - t
      {
        TailsAt(tail, t, n, width);
        var xpos := nodes[tail].x - width;
        ghost var n0 := n;
        Bounded(t);
        n, node, prev := FindLeft(xpos, n, node, prev);
        LeadsRight(width, h, seen0, t, lead, best, bestX, bestY, bestW, n, xpos);
        var y, waste := FindMinY(node, xpos, width, n);
        if y + h <= height {
          if y <= bestY {
            if y < bestY || waste < bestW || (waste == bestW && xpos < bestX) {
              bestX, bestY, bestW, best, lead := xpos, y, waste, Some(prev), Some(xpos);
            }
          }
        }
        NextTail(tail, t, n0, n, width);
        tail, t := nodes[tail].next, t + 1;
      }
      TailsAt(tail, t, n, width);
      bestWaste := bestW;
    }

    /** The node that a link points to. */
    function Target(link: Link): int
      requires link.ToNext? ==> 0 <= link.node < nodes.Length
      reads this, nodes
    {
      match link
      case ToHead => activeHead
      case ToNext(node) => nodes[node].next
    }

    lemma TargetOf(n: nat)
      requires Chained(nodes[..], activeHead, active, NIL) && n < |active|
      ensures var link := LinkTo(n); (link.ToNext? ==> 0 <= link.node < nodes.Length) && Target(link) == active[n]
      ensures 0 <= active[n] < nodes.Length && nodes[active[n]].next == After(active, n, NIL)
    {
      ChainedAt(nodes[..], activeHead, active, NIL, n);
      if n > 0 { ChainedAt(nodes[..], activeHead, active, NIL, n - 1); }
    }

    /** A left-aligned column is where its node starts. */
    lemma StartsNode(x: int)
      requires Valid() && 0 <= x < width && LeftAligned(Sky(), x)
      ensures At(active[Cover(Sky(), x)], Cover(Sky(), x)) && Sky()[Cover(Sky(), x)].x == x
      ensures var link := LinkTo(Cover(Sky(), x));
              (link.ToNext? ==> 0 <= link.node < nodes.Length) && Target(link) == active[Cover(Sky(), x)]
    {
      hide Packing.Valid, Waste.FloorLast, Safe, Sky;
      Ends();
      var i :| 0 <= i < |Sky()| && Sky()[i].x == x;
      CoverUnique(Sky(), x, i);
      ActiveNode(i);
      TargetOf(i);
    }

    /** The best position, and the link to the node in which it lies. */
    method FindBestPos(w: int, h: int) returns (best: Option<Link>, bestX: int, bestY: int)
      requires Valid() && 0 < w
      ensures best.None? ==> forall x :: !IsBest(View(), w, h, x)
      ensures best.Some? ==>
                && IsBest(View(), w, h, bestX) && best.value == LinkTo(Cover(Sky(), bestX))
                && bestY == Measure(View(), RoundUp(w, align), bestX).minY
    {
      hide Packing.Valid, Waste.FloorLast, Safe, Shaped, Sky, Measure, Heights, RoundUp;
      Head();
      var width := RoundUp(w, align);
      if width > this.width || h > height {
        return None, 0, 0;
      }
      ghost var n, lead;
      var bestWaste;
      best, bestY, bestWaste, n, lead := TryLeft(width, h);
      Leader.SeenIsTried(View(), width, n);
      ghost var seen := Leader.LeftEnds(Sky(), n);
      if best.None? {
        bestX := 0;
      } else {
        StartsNode(lead.value);
        bestX := nodes[Target(best.value)].x;
      }
      if heuristic == BestFit {
        ghost var waste;
        best, bestX, bestY, waste, lead := TryRight(width, h, best, bestX, bestY, bestWaste, seen, lead);
        seen := seen + Leader.RightEnds(Sky(), width, |Sky()|);
      }
      Leader.LeaderIsBest(View(), width, h, seen, lead);
    }

    // ----- Relinking -----

    /** Node `f` is being inserted between `front` and `back`. */
    ghost predicate Inserting(f: int, front: seq<int>, cur: int, back: seq<int>)
      reads this, nodes
    {
      nodes.Length == numNodes + 2 && Open(nodes[..], numNodes + 2, activeHead, front, f, cur, back, freeHead, free)
    }

    /** Moves the first node of the back to the free list. */
    method FreeFirst(f: int, ghost front: seq<int>, cur: int, ghost back: seq<int>) returns (next: int)
      requires Inserting(f, front, cur, back) && back != []
      modifies this`freeHead, this`free, nodes
      ensures Inserting(f, front, next, back[1..])
      ensures Same(old(nodes[..]), nodes[..], {})
    {
      hide Open;
      ghost var ns := nodes[..];
      FreeOne(ns, numNodes + 2, activeHead, front, f, cur, back, freeHead, free);
      next := nodes[cur].next;
      nodes[cur] := nodes[cur].(next := freeHead);
      assert nodes[..] == ns[cur := nodes[cur]];
      freeHead := cur;
      free := [cur] + free;
    }

    /** Node `f` has been taken off the free list and is in neither list. */
    ghost predicate Taken(f: int)
      reads this, nodes
    {
      && nodes.Length == numNodes + 2 && 0 <= f < nodes.Length
      && |active| + 1 + |free| == numNodes + 2
      && OnceEach(multiset(active) + multiset{f} + multiset(free), numNodes + 2)
      && Chained(nodes[..], activeHead, active, NIL) && Chained(nodes[..], freeHead, free, NIL)
    }

    method TakeFree(x: int, top: int) returns (f: int)
      requires Shaped() && free != []
      modifies this`freeHead, this`free, nodes
      ensures Taken(f) && f == old(freeHead) && free == old(free)[1..]
      ensures nodes[f].x == x && nodes[f].y == top
      ensures Same(old(nodes[..]), nodes[..], {f})
    {
      ghost var ns := nodes[..];
      f := freeHead;
      nodes[f] := nodes[f].(x := x, y := top);
      assert nodes[..] == ns[f := nodes[f]];
      ChainedFrame(ns, activeHead, active, NIL, f, nodes[f]);
      ChainedFrame(ns, freeHead, free, NIL, f, nodes[f]);
      freeHead := nodes[f].next;
      assert free == [f] + free[1..];
      free := free[1..];
      assert multiset(active) + multiset{f} + multiset(free) == multiset(active) + multiset(old(free));
    }

    /** Lets the `k`th link of the active list point to `f`. */
    method Redirect(link: Link, f: int, ghost k: nat)
      requires Taken(f) && k < |active| && link == LinkTo(k)
      modifies this`activeHead, nodes
      ensures Inserting(f, active[..k], active[k], active[k..])
      ensures Same(old(nodes[..]), nodes[..], {})
    {
      hide OnceEach, Chained, Same, Open;
      ghost var ns := nodes[..];
      SameAfterNothing(ns);
      OpenAt(ns, numNodes + 2, activeHead, active, freeHead, free, k, f);
      match link {
        case ToHead =>
          activeHead := f;
        case ToNext(n) =>
          SameAfterLink(ns, n, f);
          nodes[n] := nodes[n].(next := f);
          assert nodes[..] == ns[n := nodes[n]];
      }
    }

    /** Stitches the rest of the list back in behind `f`, and moves its first node to `right`. */
    method Stitch(f: int, ghost front: seq<int>, cur: int, ghost back: seq<int>, right: int)
      requires Inserting(f, front, cur, back) && back != []
      modifies this`active, nodes
      ensures Shaped() && active == front + [f] + back && 0 <= cur < nodes.Length && cur == back[0]
      ensures nodes[cur].x == Max(old(nodes[cur].x), right) && nodes[cur].y == old(nodes[cur].y)
      ensures Same(old(nodes[..]), nodes[..], {cur})
    {
      ghost var ns := nodes[..];
      StitchLists(ns, numNodes + 2, activeHead, front, f, cur, back, freeHead, free, right);
      nodes[f] := nodes[f].(next := cur);
      if nodes[cur].x < right {
        nodes[cur] := nodes[cur].(x := right);
      }
      active := front + [f] + back;
      assert nodes[..] == Stitched(ns, f, cur, right);
    }

    static lemma DropOne(s: seq<int>, k: nat)
      requires k < |s|
      ensures s[k..][1..] == s[k + 1..]
    {
    }

    /** Frees the nodes from the `k`th on that the rectangle covers: those whose successor starts by `right`. */
    method FreeCovered(f: int, ghost front: seq<int>, cur0: int, ghost k: nat, right: int, ghost sky: seq<Seg>)
      returns (cur: int)
      requires k < |active| && Inserting(f, front, cur0, active[k..]) && Starts(nodes[..], active, sky)
      modifies this`freeHead, this`free, nodes
      ensures Inserting(f, front, cur, active[Skip(sky, k, right)..])
      ensures Same(old(nodes[..]), nodes[..], {})
    {
      hide OnceEach, Chained, Starts, Skip, Same;
      cur := cur0;
      ghost var n := k;
      ghost var ns := nodes[..];
      SameAfterNothing(ns);
      ChainedHead(nodes[..], cur, active[n..]);
      SkipAt(nodes[..], active, sky, n, right);
      while nodes[cur].next != NIL && nodes[nodes[cur].next].x <= right
        invariant n < |active| && Skip(sky, n, right) == Skip(sky, k, right)
        invariant Inserting(f, front, cur, active[n..]) && Starts(nodes[..], active, sky)
        invariant 0 <= cur < nodes.Length && nodes[cur].next == After(active, n, NIL)
        invariant nodes[cur].next == NIL <==> n + 1 == |active|
        invariant nodes[cur].next != NIL ==> 0 <= nodes[cur].next < nodes.Length
        invariant SkipsAt(nodes[..], active, sky, n, right)
        invariant Same(ns, nodes[..], {})
        decreases |active| - n
      {
        DropOne(active, n);
        ghost var ns' := nodes[..];
        cur := FreeFirst(f, front, cur, active[n..]);
        n := n + 1;
        StartsSame(ns', nodes[..], active, sky, {});
        SameTwice(ns, ns', nodes[..]);
        ChainedHead(nodes[..], cur, active[n..]);
        SkipAt(nodes[..], active, sky, n, right);
      }
    }

    lemma NotTaken(f: int)
      requires Taken(f)
      ensures f !in active
    {
      OnceMeansElsewhereNot(multiset(active) + multiset{f} + multiset(free), active, multiset{f} + multiset(free), f,
        numNodes + 2);
    }

    /** Takes a node for the new rectangle and links it in behind the nodes that stay in front of it. */
    method Cut(link: Link, x: int, top: int, ghost i: nat) returns (f: int, cur: int)
      requires Shaped() && free != [] && i + 1 < |active| && link == LinkTo(i)
      modifies this`activeHead, this`freeHead, this`free, nodes
      ensures var kept := Kept(old(Sky()), i, x);
              Inserting(f, active[..kept], cur, active[kept..]) && f == old(freeHead)
      ensures nodes[f].x == x && nodes[f].y == top
      ensures Same(old(nodes[..]), nodes[..], {f})
    {
      hide OnceEach, Chained;
      ActiveNode(i);
      f := TakeFree(x, top);
      NotTaken(f);
      TargetOf(i);
      cur := Target(link);
      if nodes[cur].x < x {
        var next := nodes[cur].next;
        Redirect(ToNext(cur), f, i + 1);
        cur := next;
      } else {
        Redirect(link, f, i);
      }
    }

    lemma StartsSky()
      requires Shaped()
      ensures Starts(nodes[..], active, Sky())
    {
      InRange();
    }

    lemma FreeNotActive()
      requires Shaped() && free != []
      ensures freeHead !in active && 0 <= freeHead < nodes.Length
    {
      OnceMeansElsewhereNot(multiset(active) + multiset(free), active, multiset(free), freeHead, numNodes + 2);
    }

    /** Takes a node, cuts the list open at `x`, and frees the nodes that the rectangle covers. */
    method Clear(link: Link, x: int, w: int, top: int, ghost i: nat, ghost sky: seq<Seg>) returns (f: int, cur: int)
      requires Shaped() && free != [] && i + 1 < |active| && link == LinkTo(i) && sky == Sky()
      modifies this`activeHead, this`freeHead, this`free, nodes
      ensures var kept := Kept(sky, i, x);
              Inserting(f, active[..kept], cur, active[Skip(sky, kept, x + w)..])
      ensures f == old(freeHead) && nodes[f].x == x && nodes[f].y == top && Same(old(nodes[..]), nodes[..], {f})
    {
      hide Skip, Kept, Starts, Shaped, Inserting, Sky, Segs;
      FreeNotActive();
      StartsSky();
      ghost var kept, ns0 := Kept(sky, i, x), nodes[..];
      f, cur := Cut(link, x, top, i);
      StartsSame(ns0, nodes[..], active, sky, {f});
      cur := FreeCovered(f, active[..kept], cur, kept, x + w, sky);
    }

    method Relink(link: Link, x: int, w: int, top: int, ghost i: nat, ghost sky: seq<Seg>) returns (ghost f: int)
      requires Shaped() && free != [] && i + 1 < |active| && link == LinkTo(i) && sky == Sky()
      modifies this`activeHead, this`freeHead, this`active, this`free, nodes
      ensures var kept := Kept(sky, i, x);
              var j := Skip(sky, kept, x + w);
              && Shaped() && f == old(freeHead) && active == old(active)[..kept] + [f] + old(active)[j..]
              && Moved(old(nodes[..]), nodes[..], old(active), f, j, x, top, x + w)
    {
      hide Skip, Kept, Same, Moved, Shaped, Inserting, Sky, Segs;
      FreeNotActive();
      ghost var ns0, active0 := nodes[..], active;
      ghost var kept := Kept(sky, i, x);
      ghost var j := Skip(sky, kept, x + w);
      ActiveNode(j);
      var node, cur := Clear(link, x, w, top, i, sky);
      ghost var ns1 := nodes[..];
      Stitch(node, active0[..kept], cur, active0[j..], x + w);
      MovedInSteps(ns0, ns1, nodes[..], active0, node, j, x, top, x + w);
      f := node;
    }

    lemma ActiveDistinct()
      requires Shaped()
      ensures forall i, j :: 0 <= i < j < |active| ==> active[i] != active[j]
    {
      OnceMeansDistinct(active, multiset(free), numNodes + 2);
    }

    /** Inserts a node of height `top` at `x`, in the node that `link` points to, and frees the nodes
        that the rectangle covers. */
    method Insert(link: Link, x: int, w: int, top: int, ghost i: nat)
      requires Shaped() && free != [] && i + 1 < |active| && link == LinkTo(i)
      modifies this`activeHead, this`freeHead, this`active, this`free, nodes
      ensures Shaped() && Sky() == Place(old(Sky()), i, x, w, top)
    {
      hide Place, Moved, Chained, Partition;
      InRange();
      ActiveDistinct();
      FreeNotActive();
      ghost var ns, active0 := nodes[..], active;
      ghost var f := Relink(link, x, w, top, i, Sky());
      MovedIsPlaced(ns, nodes[..], active0, f, i, x, w, top);
    }

    // ----- Packing -----

    lemma FreeNodes()
      requires Valid()
      ensures free != [] <==> HasFreeNode(View())
      ensures free == [] <==> freeHead == NIL
    {
      if free != [] { ChainedAt(nodes[..], freeHead, free, NIL, 0); }
    }

    /** Packs one rectangle, or reports that it cannot. */
    method PackRectangle(w: int, h: int) returns (packed: bool, x: int, y: int)
      requires Valid() && 0 < w && 0 < h
      modifies this`activeHead, this`freeHead, this`active, this`free, this`boxes, nodes
      ensures Valid()
      ensures var r := if packed then Some(Pos(x, y)) else None;
              Packs(old(View()), w, h, r, View()) && boxes == Grown(old(boxes), w, h, r)
    {
      hide Shaped, Sky, Wins, Measure, Place, Safe, RoundUp, Packing.Valid, Waste.FloorLast;
      ghost var p, boxes0 := View(), boxes;
      FreeNodes();
      Head();
      var best;
      best, x, y := FindBestPos(w, h);
      assert View() == p;
      forall x' ensures best.None? ==> !IsBest(p, w, h, x') {
        if best.None? { assert !IsBest(View(), w, h, x'); }
      }
      if best.None? || y + h > height || freeHead == NIL {
        packed := false;
        forall x' | IsBest(p, w, h, x')
          ensures RoundUp(w, p.align) + x' <= p.width && 0 <= x'
          ensures Measure(p, RoundUp(w, p.align), x').minY + h > p.height || !HasFreeNode(p)
        {
          BestInside(p, w, h, x');
          BestIsUnique(p, w, h, x, x');
          assert y == Measure(p, RoundUp(w, p.align), x').minY;
          assert freeHead == NIL ==> !HasFreeNode(p);
        }
        return;
      }
      packed := true;
      BestInside(p, w, h, x);
      ghost var i := Cover(p.sky, x);
      boxes := boxes + [Box(x, y, w, h)];
      Insert(best.value, x, w, y + h, i);
      PacksKeepsSafe(p, w, h, Some(Pos(x, y)), View(), boxes0);
      Optimal.PacksKeepsFloor(p, w, h, Some(Pos(x, y)), View());
    }
  }
}
