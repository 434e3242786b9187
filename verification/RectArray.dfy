/** Packing an array of rectangles: sort by height, pack one by one, restore the caller's order. */
module RectArray {
  import opened Basics
  import opened Packing
  import opened Permutations
  import opened NodeStorage
  import opened RectPacker

  const MAXVAL := 0x7fff_ffff

  datatype Rect = Rect(id: int, w: int, h: int, x: int, y: int, wasPacked: int)

  // ----- Sorting -----

  ghost predicate Permutes(perm: seq<nat>, n: nat) {
    |perm| == n && (forall i :: 0 <= i < n ==> perm[i] < n) && Distinct(perm)
  }

  /** `t` is `s` in the order `perm`. */
  ghost predicate Reorders(s: seq<Rect>, t: seq<Rect>, perm: seq<nat>) {
    |s| == |t| && Permutes(perm, |s|) && forall i :: 0 <= i < |s| ==> t[i] == s[perm[i]]
  }

  ghost predicate Ordered(s: seq<Rect>, compare: (Rect, Rect) -> int) {
    forall i, j :: 0 <= i < j < |s| ==> compare(s[i], s[j]) <= 0
  }

  ghost predicate TotalPreorder(compare: (Rect, Rect) -> int) {
    && (forall a, b :: compare(a, b) > 0 ==> compare(b, a) <= 0)
    && (forall a, b, c :: compare(a, b) <= 0 && compare(b, c) <= 0 ==> compare(a, c) <= 0)
  }

  /** Taller first, then wider. */
  function HeightCompare(p: Rect, q: Rect): int {
    if p.h > q.h then -1 else if p.h < q.h then 1
    else if p.w > q.w then -1 else if p.w < q.w then 1 else 0
  }

  function OriginalOrder(p: Rect, q: Rect): int {
    if p.wasPacked < q.wasPacked then -1 else if p.wasPacked > q.wasPacked then 1 else 0
  }

  lemma InsertOrdered(s: seq<Rect>, k: nat, r: Rect, compare: (Rect, Rect) -> int)
    requires Ordered(s, compare) && TotalPreorder(compare) && k <= |s|
    requires k > 0 ==> compare(s[k - 1], r) <= 0
    requires forall i :: k <= i < |s| ==> compare(r, s[i]) <= 0
    ensures Ordered(s[..k] + [r] + s[k..], compare)
  {
    var t := s[..k] + [r] + s[k..];
    forall i, j | 0 <= i < j < |t| ensures compare(t[i], t[j]) <= 0 {
      if j == k && i < k - 1 {
        assert compare(s[i], s[k - 1]) <= 0;
      }
    }
  }

  lemma InsertReorders(s: seq<Rect>, t: seq<Rect>, perm: seq<nat>, k: nat, r: Rect)
    requires Reorders(s, t, perm) && k <= |s|
    ensures Reorders(s + [r], t[..k] + [r] + t[k..], perm[..k] + [|s|] + perm[k..])
  {
  }

  /** Stands for the library's sort: all that is used of it is that it orders what it is given. */
  method Sort(a: array<Rect>, compare: (Rect, Rect) -> int) returns (ghost perm: seq<nat>)
    requires TotalPreorder(compare)
    modifies a
    ensures Ordered(a[..], compare) && Reorders(old(a[..]), a[..], perm)
  {
    var s: seq<Rect> := [];
    perm := [];
    var n := 0;
    while n < a.Length
      invariant n <= a.Length && a[..] == old(a[..])
      invariant Ordered(s, compare) && Reorders(a[..n], s, perm)
    {
      var k := n;
      while k > 0 && compare(s[k - 1], a[n]) > 0
        invariant 0 <= k <= n && forall i :: k <= i < n ==> compare(a[n], s[i]) <= 0
      {
        k := k - 1;
      }
      InsertOrdered(s, k, a[n], compare);
      InsertReorders(a[..n], s, perm, k, a[n]);
      assert a[..n + 1] == a[..n] + [a[n]];
      s := s[..k] + [a[n]] + s[k..];
      perm := perm[..k] + [n] + perm[k..];
      n := n + 1;
    }
    assert a[..n] == a[..];
    forall i | 0 <= i < a.Length { a[i] := s[i]; }
    assert a[..] == s;
  }

  lemma ComparesArePreorders()
    ensures TotalPreorder(HeightCompare) && TotalPreorder(OriginalOrder)
  {
  }

  lemma {:induction false} TagsAtLeast(tags: seq<int>, i: nat)
    requires i < |tags| && 0 <= tags[0] && forall k, l :: 0 <= k < l < |tags| ==> tags[k] < tags[l]
    ensures i <= tags[i]
  {
    if i > 0 { TagsAtLeast(tags, i - 1); }
  }

  lemma {:induction false} TagsAtMost(tags: seq<int>, n: nat, i: nat)
    requires i < |tags| == n && tags[n - 1] < n && forall k, l :: 0 <= k < l < n ==> tags[k] < tags[l]
    ensures tags[i] <= i
    decreases n - i
  {
    if i + 1 < n { TagsAtMost(tags, n, i + 1); }
  }

  /** Ordering distinct tags `0 .. n-1` puts tag `i` at place `i`. */
  lemma {:induction false} IncreasingTags(tags: seq<int>, n: nat, i: nat)
    requires |tags| == n && i < n
    requires forall k :: 0 <= k < n ==> 0 <= tags[k] < n
    requires forall k, l :: 0 <= k < l < n ==> tags[k] < tags[l]
    ensures tags[i] == i
  {
    TagsAtLeast(tags, i);
    TagsAtMost(tags, n, i);
  }

  // ----- What one call does -----

  datatype Size = Size(w: int, h: int)

  function SizeOf(r: Rect): Size { Size(r.w, r.h) }

  predicate Empty(q: Size) { q.w == 0 || q.h == 0 }

  /** A rectangle of size `q` is answered with `r`: an empty one needs no space. */
  ghost predicate Serves(p: Packer, q: Size, r: Option<Pos>, p': Packer) {
    && Valid(p) && 0 <= q.w && 0 <= q.h
    && if Empty(q) then r == Some(Pos(0, 0)) && p' == p else Packs(p, q.w, q.h, r, p')
  }

  /** The sizes `qs` are answered in turn with `rs`, passing through the packers `ps`. */
  ghost predicate Serving(ps: seq<Packer>, qs: seq<Size>, rs: seq<Option<Pos>>) {
    && |ps| == |qs| + 1 && |rs| == |qs|
    && forall k :: 0 <= k < |qs| ==> Serves(ps[k], qs[k], rs[k], ps[k + 1])
  }

  /** The boxes after the answers `rs` to `qs`. */
  function Stack(boxes: seq<Box>, qs: seq<Size>, rs: seq<Option<Pos>>): seq<Box>
    requires |rs| == |qs|
  {
    if qs == [] then boxes
    else
      var n := |qs| - 1;
      var front := Stack(boxes, qs[..n], rs[..n]);
      if Empty(qs[n]) then front else Grown(front, qs[n].w, qs[n].h, rs[n])
  }

  /** Rectangle `r` with its answer filled in. */
  function Answered(r: Rect, a: Option<Pos>): Rect {
    match a
    case None => r.(x := MAXVAL, y := MAXVAL, wasPacked := 0)
    case Some(pos) => r.(x := pos.x, y := pos.y, wasPacked := 1)
  }

  ghost function Sizes(before: seq<Rect>, order: seq<nat>): (qs: seq<Size>)
    requires Permutes(order, |before|)
    ensures |qs| == |before| && forall k :: 0 <= k < |qs| ==> qs[k] == SizeOf(before[order[k]])
  {
    seq(|before|, k requires 0 <= k < |before| => SizeOf(before[order[k]]))
  }

  /** The call visits the rectangles in `order`, tallest first, and fills in every answer in place. */
  ghost predicate Served(before: seq<Rect>, after: seq<Rect>, order: seq<nat>, ps: seq<Packer>, rs: seq<Option<Pos>>) {
    && |after| == |before| && Permutes(order, |before|)
    && (forall k, l :: 0 <= k < l < |before| ==> HeightCompare(before[order[k]], before[order[l]]) <= 0)
    && Serving(ps, Sizes(before, order), rs)
    && forall k :: 0 <= k < |before| ==> after[order[k]] == Answered(before[order[k]], rs[k])
  }

  /** A whole call keeps everything packed so far, now with the boxes of this call, safe. */
  lemma {:induction false} ServingKeepsSafe(ps: seq<Packer>, qs: seq<Size>, rs: seq<Option<Pos>>, boxes: seq<Box>)
    requires Serving(ps, qs, rs) && Valid(ps[0]) && Safe(ps[0], boxes)
    ensures Valid(ps[|qs|]) && Safe(ps[|qs|], Stack(boxes, qs, rs))
  {
    hide Valid, Safe, Packs;
    if qs != [] {
      var n := |qs| - 1;
      assert Serves(ps[n], qs[n], rs[n], ps[n + 1]);
      ServingKeepsSafe(ps[..n + 1], qs[..n], rs[..n], boxes);
      if !Empty(qs[n]) {
        PacksKeepsSafe(ps[n], qs[n].w, qs[n].h, rs[n], ps[n + 1], Stack(boxes, qs[..n], rs[..n]));
      }
    }
  }

  function BoxOf(qs: seq<Size>, rs: seq<Option<Pos>>, k: nat): Box
    requires |rs| == |qs| && k < |qs| && rs[k].Some?
  {
    Box(rs[k].value.x, rs[k].value.y, qs[k].w, qs[k].h)
  }

  /** The stack starts with the old boxes and holds the box of every packed non-empty rectangle. */
  lemma {:induction false} StackHolds(boxes: seq<Box>, qs: seq<Size>, rs: seq<Option<Pos>>)
    requires |rs| == |qs|
    ensures boxes <= Stack(boxes, qs, rs)
    ensures forall k :: 0 <= k < |qs| && !Empty(qs[k]) && rs[k].Some? ==>
              BoxOf(qs, rs, k) in Stack(boxes, qs, rs)[|boxes|..]
  {
    if qs != [] {
      var n := |qs| - 1;
      StackHolds(boxes, qs[..n], rs[..n]);
      var front, all := Stack(boxes, qs[..n], rs[..n]), Stack(boxes, qs, rs);
      if !Empty(qs[n]) && rs[n].Some? {
        assert all[|boxes|..] == front[|boxes|..] + [BoxOf(qs, rs, n)];
      } else {
        assert all == front;
      }
      forall k | 0 <= k < n && !Empty(qs[k]) && rs[k].Some? ensures BoxOf(qs, rs, k) in all[|boxes|..] {
        assert BoxOf(qs[..n], rs[..n], k) == BoxOf(qs, rs, k);
      }
    }
  }

  /** The boxes of two packed non-empty rectangles of one call are apart. */
  lemma {:induction false} ServedApart(ps: seq<Packer>, qs: seq<Size>, rs: seq<Option<Pos>>, boxes: seq<Box>, k: nat,
                                       l: nat)
    requires Serving(ps, qs, rs) && Valid(ps[0]) && Safe(ps[0], boxes) && k < l < |qs|
    requires !Empty(qs[k]) && rs[k].Some? && !Empty(qs[l]) && rs[l].Some?
    ensures Disjoint(BoxOf(qs, rs, k), BoxOf(qs, rs, l))
  {
    hide Valid, Packs, Disjoint;
    ServingKeepsSafe(ps[..l + 2], qs[..l + 1], rs[..l + 1], boxes);
    StackHolds(boxes, qs[..l], rs[..l]);
    assert qs[..l + 1][..l] == qs[..l] && rs[..l + 1][..l] == rs[..l];
    var front := Stack(boxes, qs[..l], rs[..l]);
    assert BoxOf(qs[..l], rs[..l], k) == BoxOf(qs, rs, k);
    var i :| 0 <= i < |front| && front[i] == BoxOf(qs, rs, k);
    var all := Stack(boxes, qs[..l + 1], rs[..l + 1]);
    assert all == front + [BoxOf(qs, rs, l)];
    assert all[i] == front[i] && all[|front|] == BoxOf(qs, rs, l);
  }

  lemma ServingGrows(ps: seq<Packer>, qs: seq<Size>, rs: seq<Option<Pos>>, q: Size, r: Option<Pos>, p': Packer)
    requires Serving(ps, qs, rs) && Serves(ps[|qs|], q, r, p')
    ensures Serving(ps + [p'], qs + [q], rs + [r])
  {
    hide Serves;
  }

  lemma StackGrows(boxes: seq<Box>, qs: seq<Size>, rs: seq<Option<Pos>>, q: Size, r: Option<Pos>)
    requires |rs| == |qs|
    ensures Stack(boxes, qs + [q], rs + [r])
         == if Empty(q) then Stack(boxes, qs, rs) else Grown(Stack(boxes, qs, rs), q.w, q.h, r)
  {
    assert (qs + [q])[..|qs|] == qs && (rs + [r])[..|rs|] == rs;
  }

  // ----- What the caller sees -----

  /** A permutation of the places reaches every place. */
  lemma PermutesOnto(perm: seq<nat>, n: nat, i: nat) returns (k: nat)
    requires Permutes(perm, n) && i < n
    ensures k < n && perm[k] == i
  {
    if i !in perm {
      DistinctConcat(perm, [i]);
      FewerThan(perm + [i], n);
      assert false;
    }
    k :| 0 <= k < n && perm[k] == i;
  }

  predicate Occupies(r: Rect) { r.wasPacked == 1 && r.w != 0 && r.h != 0 }

  function RectBox(r: Rect): Box { Box(r.x, r.y, r.w, r.h) }

  lemma DisjointSym(a: Box, b: Box)
    ensures Disjoint(a, b) <==> Disjoint(b, a)
  {
  }

  /** After a call every rectangle is the caller's own, packed or not, and the packed ones that take up
      space lie inside the target, apart from each other and from all that was packed before. */
  lemma CallIsSafe(before: seq<Rect>, after: seq<Rect>, order: seq<nat>, ps: seq<Packer>, rs: seq<Option<Pos>>,
                   boxes: seq<Box>, i: nat, j: nat)
    requires Served(before, after, order, ps, rs) && Valid(ps[0]) && Safe(ps[0], boxes) && i < |before| && j < |before|
    ensures after[i].id == before[i].id && SizeOf(after[i]) == SizeOf(before[i]) && after[i].wasPacked in {0, 1}
    ensures Occupies(after[i]) ==> Inside(RectBox(after[i]), ps[|before|].width, ps[|before|].height)
    ensures Occupies(after[i]) ==> forall b :: b in boxes ==> Disjoint(b, RectBox(after[i]))
    ensures i != j && Occupies(after[i]) && Occupies(after[j]) ==> Disjoint(RectBox(after[i]), RectBox(after[j]))
  {
    hide Valid, Serves, Disjoint, Inside, Below;
    var qs := Sizes(before, order);
    var k := PermutesOnto(order, |before|, i);
    var l := PermutesOnto(order, |before|, j);
    if Occupies(after[i]) {
      ServingKeepsSafe(ps, qs, rs, boxes);
      StackHolds(boxes, qs, rs);
      var all := Stack(boxes, qs, rs);
      assert RectBox(after[i]) == BoxOf(qs, rs, k);
      var m :| |boxes| <= m < |all| && all[m] == RectBox(after[i]);
      forall b | b in boxes ensures Disjoint(b, RectBox(after[i])) {
        var m' :| 0 <= m' < |boxes| && boxes[m'] == b;
        assert all[m'] == b;
      }
      if i != j && Occupies(after[j]) {
        ServedApart(ps, qs, rs, boxes, if k < l then k else l, if k < l then l else k);
        DisjointSym(RectBox(after[i]), RectBox(after[j]));
      }
    }
  }

  /** With a node per column, a rectangle that is left out fitted nowhere when its turn came, and one
      that was packed fitted. */
  lemma PackedIffItFits(before: seq<Rect>, after: seq<Rect>, order: seq<nat>, ps: seq<Packer>, rs: seq<Option<Pos>>,
                        k: nat)
    requires Served(before, after, order, ps, rs) && k < |before| && ps[k].width <= ps[k].numNodes
    requires !Empty(SizeOf(before[order[k]]))
    ensures Valid(ps[k]) && 0 < before[order[k]].w
    ensures after[order[k]].wasPacked == 1 <==> Fits(ps[k], before[order[k]].w, before[order[k]].h)
  {
    hide Packs, Valid, Fits;
    var r := before[order[k]];
    assert Serves(ps[k], Sizes(before, order)[k], rs[k], ps[k + 1]);
    EnoughNodes(ps[k]);
    PackedIffFits(ps[k], r.w, r.h, rs[k], ps[k + 1]);
  }

  /** A taller rectangle has its turn before every lower one, and of equally tall ones a wider before a narrower. */
  lemma TallerGoesFirst(before: seq<Rect>, after: seq<Rect>, order: seq<nat>, ps: seq<Packer>, rs: seq<Option<Pos>>,
                        k: nat, l: nat)
    requires Served(before, after, order, ps, rs) && k < l < |before|
    ensures var r, s := before[order[k]], before[order[l]];
            r.h > s.h || (r.h == s.h && r.w >= s.w)
  {
    hide Serving;
    assert HeightCompare(before[order[k]], before[order[l]]) <= 0;
  }

  /** Empty rectangles are packed at the origin, and those left out end up at the largest coordinates there are. */
  lemma EmptyAndLeftOut(before: seq<Rect>, after: seq<Rect>, order: seq<nat>, ps: seq<Packer>, rs: seq<Option<Pos>>,
                        i: nat)
    requires Served(before, after, order, ps, rs) && i < |before|
    ensures before[i].w == 0 || before[i].h == 0 ==> after[i] == before[i].(x := 0, y := 0, wasPacked := 1)
    ensures after[i].wasPacked == 0 ==>
              after[i] == before[i].(x := 0x7fff_ffff, y := 0x7fff_ffff, wasPacked := 0)
  {
    hide Valid, Packs;
    var k := PermutesOnto(order, |before|, i);
    assert Serves(ps[k], Sizes(before, order)[k], rs[k], ps[k + 1]);
  }

  // ----- The call -----

  function Tagged(s: seq<Rect>): (t: seq<Rect>)
    ensures |t| == |s| && forall i :: 0 <= i < |s| ==> t[i] == s[i].(wasPacked := i)
  {
    seq(|s|, i requires 0 <= i < |s| => s[i].(wasPacked := i))
  }

  function SizesOf(s: seq<Rect>): (qs: seq<Size>)
    ensures |qs| == |s| && forall i :: 0 <= i < |s| ==> qs[i] == SizeOf(s[i])
  {
    seq(|s|, i requires 0 <= i < |s| => SizeOf(s[i]))
  }

  /** Rectangle `r` at its place, before its flag is set. */
  function At(r: Rect, a: Option<Pos>): Rect {
    if a.Some? then r.(x := a.value.x, y := a.value.y) else r.(x := MAXVAL, y := MAXVAL)
  }

  function Flagged(r: Rect): Rect {
    r.(wasPacked := if r.x == MAXVAL && r.y == MAXVAL then 0 else 1)
  }

  method Tag(rects: array<Rect>)
    modifies rects
    ensures rects[..] == Tagged(old(rects[..]))
  {
    var i := 0;
    while i < rects.Length
      invariant 0 <= i <= rects.Length
      invariant forall k :: 0 <= k < rects.Length ==>
                  rects[k] == if k < i then old(rects[k]).(wasPacked := k) else old(rects[k])
    {
      rects[i] := rects[i].(wasPacked := i);
      i := i + 1;
    }
  }

  function FlaggedAll(s: seq<Rect>): (t: seq<Rect>)
    ensures |t| == |s| && forall i :: 0 <= i < |s| ==> t[i] == Flagged(s[i])
  {
    seq(|s|, i requires 0 <= i < |s| => Flagged(s[i]))
  }

  method Flag(rects: array<Rect>) returns (allPacked: int)
    modifies rects
    ensures rects[..] == FlaggedAll(old(rects[..]))
    ensures allPacked == if forall k :: 0 <= k < rects.Length ==> rects[k].wasPacked == 1 then 1 else 0
  {
    allPacked := 1;
    var i := 0;
    while i < rects.Length
      invariant 0 <= i <= rects.Length
      invariant forall k :: 0 <= k < rects.Length ==>
                  rects[k] == if k < i then Flagged(old(rects[k])) else old(rects[k])
      invariant allPacked == if forall k :: 0 <= k < i ==> rects[k].wasPacked == 1 then 1 else 0
    {
      rects[i] := Flagged(rects[i]);
      if rects[i].wasPacked == 0 {
        allPacked := 0;
      }
      i := i + 1;
    }
  }

  lemma NothingServed(p: Packer, boxes: seq<Box>)
    ensures Serving([p], [], []) && Stack(boxes, [], []) == boxes
  {
  }

  method PackOne(c: Context, rects: array<Rect>, i: int) returns (ghost r: Option<Pos>)
    requires c.Valid() && 0 <= i < rects.Length && 0 <= rects[i].w && 0 <= rects[i].h
    modifies rects, c`activeHead, c`freeHead, c`active, c`free, c`boxes, c.nodes
    ensures c.Valid() && Serves(old(c.View()), SizeOf(old(rects[i])), r, c.View())
    ensures c.boxes == if Empty(SizeOf(old(rects[i]))) then old(c.boxes)
            else Grown(old(c.boxes), old(rects[i].w), old(rects[i].h), r)
    ensures forall k :: 0 <= k < rects.Length ==> rects[k] == if k == i then At(old(rects[k]), r) else old(rects[k])
  {
    hide Packing.Valid, Safe, Packs;
    if rects[i].w == 0 || rects[i].h == 0 {
      rects[i] := rects[i].(x := 0, y := 0);
      r := Some(Pos(0, 0));
    } else {
      var packed, x, y := c.PackRectangle(rects[i].w, rects[i].h);
      if packed {
        rects[i] := rects[i].(x := x, y := y);
      } else {
        rects[i] := rects[i].(x := MAXVAL, y := MAXVAL);
      }
      r := if packed then Some(Pos(x, y)) else None;
    }
  }

  ghost predicate Placed(s: seq<Rect>, t: seq<Rect>, rs: seq<Option<Pos>>) {
    |t| == |s| == |rs| && forall k :: 0 <= k < |s| ==> t[k] == At(s[k], rs[k])
  }

  /** Packs the rectangles in the order in which they stand. */
  method PackInOrder(c: Context, rects: array<Rect>) returns (ghost ps: seq<Packer>, ghost rs: seq<Option<Pos>>)
    requires c.Valid() && forall i :: 0 <= i < rects.Length ==> 0 <= rects[i].w && 0 <= rects[i].h
    modifies rects, c`activeHead, c`freeHead, c`active, c`free, c`boxes, c.nodes
    ensures c.Valid() && Serving(ps, SizesOf(old(rects[..])), rs)
    ensures ps[0] == old(c.View()) && ps[rects.Length] == c.View()
    ensures c.boxes == Stack(old(c.boxes), SizesOf(old(rects[..])), rs)
    ensures Placed(old(rects[..]), rects[..], rs)
  {
    hide Packing.Valid, Safe, Packs, Serving, Stack;
    ghost var qs, boxes0 := SizesOf(rects[..]), c.boxes;
    ps, rs := [c.View()], [];
    NothingServed(c.View(), c.boxes);
    var i := 0;
    while i < rects.Length
      invariant 0 <= i <= rects.Length == |qs| && c.Valid() && |rs| == i
      invariant |ps| == i + 1 && Serving(ps, qs[..i], rs) && ps[0] == old(c.View()) && ps[i] == c.View()
      invariant c.boxes == Stack(boxes0, qs[..i], rs)
      invariant forall k :: 0 <= k < rects.Length ==>
                  rects[k] == if k < i then At(old(rects[k]), rs[k]) else old(rects[k])
    {
      ghost var r := PackOne(c, rects, i);
      ServingGrows(ps, qs[..i], rs, qs[i], r, c.View());
      StackGrows(boxes0, qs[..i], rs, qs[i], r);
      assert qs[..i + 1] == qs[..i] + [qs[i]];
      ps, rs := ps + [c.View()], rs + [r];
      i := i + 1;
    }
    assert qs[..i] == qs;
  }

  /** Sorting by tag puts every rectangle back where the caller had it. */
  lemma Restored(before: seq<Rect>, packed: seq<Rect>, restored: seq<Rect>, order: seq<nat>, back: seq<nat>,
                 rs: seq<Option<Pos>>)
    requires Permutes(order, |before|) && |rs| == |before| == |packed|
    requires forall k :: 0 <= k < |before| ==> packed[k] == At(Tagged(before)[order[k]], rs[k])
    requires Reorders(packed, restored, back) && Ordered(restored, OriginalOrder)
    ensures forall k :: 0 <= k < |before| ==> restored[order[k]] == At(Tagged(before)[order[k]], rs[k])
  {
    var n := |before|;
    var tags := seq(n, i requires 0 <= i < n => restored[i].wasPacked);
    forall k | 0 <= k < n ensures tags[k] == order[back[k]] { }
    forall k, l | 0 <= k < l < n ensures tags[k] < tags[l] {
      assert OriginalOrder(restored[k], restored[l]) <= 0;
      assert back[k] != back[l];
    }
    forall k | 0 <= k < n ensures restored[order[k]] == packed[k] {
      IncreasingTags(tags, n, order[k]);
      var m := back[order[k]];
      assert order[m] == order[k];
    }
  }

  /** No packed rectangle lies where unpacked ones are put. */
  lemma AnswersAreFlagged(ps: seq<Packer>, qs: seq<Size>, rs: seq<Option<Pos>>, r: Rect, k: nat)
    requires Serving(ps, qs, rs) && k < |qs|
    ensures forall t :: Flagged(At(r.(wasPacked := t), rs[k])) == Answered(r, rs[k])
  {
    hide Measure;
    assert Serves(ps[k], qs[k], rs[k], ps[k + 1]);
  }

  lemma SortedSizes(before: seq<Rect>, sorted: seq<Rect>, order: seq<nat>)
    requires Reorders(Tagged(before), sorted, order)
    ensures SizesOf(sorted) == Sizes(before, order)
  {
  }

  /** Tagging, sorting, packing, sorting back and flagging together serve the caller's array. */
  lemma CallServes(before: seq<Rect>, sorted: seq<Rect>, packed: seq<Rect>, restored: seq<Rect>,
                   order: seq<nat>, back: seq<nat>, ps: seq<Packer>, rs: seq<Option<Pos>>)
    requires Reorders(Tagged(before), sorted, order) && Ordered(sorted, HeightCompare)
    requires Serving(ps, SizesOf(sorted), rs) && Placed(sorted, packed, rs)
    requires Reorders(packed, restored, back) && Ordered(restored, OriginalOrder)
    ensures Served(before, FlaggedAll(restored), order, ps, rs)
  {
    hide Serves;
    SortedSizes(before, sorted, order);
    Restored(before, packed, restored, order, back, rs);
    forall k, l | 0 <= k < l < |before| ensures HeightCompare(before[order[k]], before[order[l]]) <= 0 {
      assert HeightCompare(sorted[k], sorted[l]) <= 0;
    }
    forall k | 0 <= k < |before| ensures FlaggedAll(restored)[order[k]] == Answered(before[order[k]], rs[k]) {
      AnswersAreFlagged(ps, SizesOf(sorted), rs, before[order[k]], k);
    }
  }

  lemma KeepsSizes(before: seq<Rect>, sorted: seq<Rect>, order: seq<nat>)
    requires Reorders(Tagged(before), sorted, order)
    requires forall i :: 0 <= i < |before| ==> 0 <= before[i].w && 0 <= before[i].h
    ensures Permutes(order, |before|)
    ensures forall i :: 0 <= i < |sorted| ==> 0 <= sorted[i].w && 0 <= sorted[i].h
  {
  }

  /** Remembers the order of the rectangles, and sorts them tallest first. */
  method TallestFirst(rects: array<Rect>) returns (ghost order: seq<nat>)
    modifies rects
    ensures Reorders(Tagged(old(rects[..])), rects[..], order) && Ordered(rects[..], HeightCompare)
  {
    hide Reorders, Ordered, TotalPreorder;
    ComparesArePreorders();
    Tag(rects);
    order := Sort(rects, HeightCompare);
  }

  /** Sorts the rectangles back into the order they came in, and flags them. */
  method InOriginalOrder(rects: array<Rect>) returns (allPacked: int, ghost restored: seq<Rect>, ghost back: seq<nat>)
    modifies rects
    ensures Reorders(old(rects[..]), restored, back) && Ordered(restored, OriginalOrder)
    ensures rects[..] == FlaggedAll(restored)
    ensures allPacked == if forall i :: 0 <= i < rects.Length ==> rects[i].wasPacked == 1 then 1 else 0
  {
    hide Reorders, Ordered, TotalPreorder;
    ComparesArePreorders();
    back := Sort(rects, OriginalOrder);
    restored := rects[..];
    allPacked := Flag(rects);
  }

  /** Packs every rectangle that fits; 1 if all of them do. */
  method PackRects(c: Context, rects: array<Rect>)
    returns (allPacked: int, ghost order: seq<nat>, ghost ps: seq<Packer>, ghost rs: seq<Option<Pos>>)
    requires c.Valid() && forall i :: 0 <= i < rects.Length ==> 0 <= rects[i].w && 0 <= rects[i].h
    modifies rects, c`activeHead, c`freeHead, c`active, c`free, c`boxes, c.nodes
    ensures c.Valid()
    ensures Served(old(rects[..]), rects[..], order, ps, rs) && ps[0] == old(c.View()) && ps[rects.Length] == c.View()
    ensures forall k, l :: 0 <= k < l < rects.Length ==>
              var r, s := old(rects[..])[order[k]], old(rects[..])[order[l]];
              r.h > s.h || (r.h == s.h && r.w >= s.w)
    ensures c.boxes == Stack(old(c.boxes), Sizes(old(rects[..]), order), rs)
    ensures allPacked == if forall i :: 0 <= i < rects.Length ==> rects[i].wasPacked == 1 then 1 else 0
  {
    hide Serving, Served, Stack, Packing.Valid, Safe, Reorders, Placed, Ordered, TotalPreorder;
    ghost var before := rects[..];
    order := TallestFirst(rects);
    ghost var sorted := rects[..];
    SortedSizes(before, sorted, order);
    KeepsSizes(before, sorted, order);
    ps, rs := PackInOrder(c, rects);
    ghost var packed := rects[..];
    ghost var restored, back;
    allPacked, restored, back := InOriginalOrder(rects);
    CallServes(before, sorted, packed, restored, order, back, ps, rs);
    forall k, l | 0 <= k < l < |before|
      ensures var r, s := before[order[k]], before[order[l]]; r.h > s.h || (r.h == s.h && r.w >= s.w)
    {
      TallerGoesFirst(before, rects[..], order, ps, rs, k, l);
    }
  }
}
