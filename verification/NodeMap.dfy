/** A map from points to node numbers that merges points less than half a unit apart. It looks points up
    through a hash of the half-unit cell they lie in. */
module NodeMap {
  import opened Basics
  import opened Polygon

  const CELL := 0.5
  const MERGE_SQ := 0.25

  datatype Entry = Entry(pos: Point, idx: nat)

  function DistSq(a: Point, b: Point): real {
    (a.x - b.x) * (a.x - b.x) + (a.y - b.y) * (a.y - b.y)
  }

  predicate Near(a: Point, b: Point) {
    DistSq(a, b) < MERGE_SQ
  }

  // ----- Hashing -----

  function Cell(v: real): int {
    (v / CELL).Floor
  }

  /** The low 32 bits of an integer. */
  function Low32(n: int): bv32 {
    (n % 0x1_0000_0000) as bv32
  }

  function Signed(b: bv32): int {
    var n := b as int;
    if n < 0x8000_0000 then n else n - 0x1_0000_0000
  }

  /** The remainder of a division that rounds towards zero. */
  function Rem(a: int, n: int): int
    requires 0 < n
  {
    if 0 <= a then a % n else -(-a % n)
  }

  function Mixed(ix: int, iy: int): int {
    Signed(Low32(ix * 73856093) ^ Low32(iy * 19349663))
  }

  function CellHash(ix: int, iy: int, n: nat): int
    requires 0 < n
  {
    Rem(Rem(Mixed(ix, iy), n) + n, n)
  }

  function Hash(x: real, y: real, n: nat): int
    requires 0 < n
  {
    CellHash(Cell(x), Cell(y), n)
  }

  /** Adding the divisor and dividing again turns the remainder that rounds towards zero into the one that
      is never negative. */
  lemma RemTwice(a: int, n: int)
    requires 0 < n
    ensures Rem(Rem(a, n) + n, n) == a % n
  {
    if 0 <= a {
      QuotientIs(a % n + n, n, 1, a % n);
    } else {
      var m := -a % n;
      assert -a == n * (-a / n) + m;
      if m == 0 {
        assert a == n * -(-a / n);
        QuotientIs(a, n, -(-a / n), 0);
        QuotientIs(n, n, 1, 0);
      } else {
        QuotientIs(a, n, -(-a / n) - 1, n - m);
        QuotientIs(n - m, n, 0, n - m);
      }
    }
  }

  /** Every hash is the number of a bucket. */
  lemma HashInRange(x: real, y: real, n: nat)
    requires 0 < n
    ensures 0 <= Hash(x, y, n) < n
  {
    hide Mixed;
    RemTwice(Mixed(Cell(x), Cell(y)), n);
  }

  /** Cells that are less than half a unit apart are the same or neighbours. */
  lemma CellShift(v: real, d: int)
    ensures Cell(v + d as real * CELL) == Cell(v) + d
  {
    assert (v + d as real * CELL) / CELL == v / CELL + d as real;
  }

  lemma NearOnAxis(v: real, w: real)
    requires -0.5 < v - w < 0.5
    ensures -1 <= Cell(v) - Cell(w) <= 1
  {
    assert v / CELL == 2.0 * v && w / CELL == 2.0 * w;
  }

  lemma Square(u: real)
    ensures u * u >= 0.0 && (u * u < 0.25 ==> -0.5 < u < 0.5)
  {
  }

  lemma NearCoordinates(q: Point, p: Point)
    requires Near(q, p)
    ensures -0.5 < q.x - p.x < 0.5 && -0.5 < q.y - p.y < 0.5
  {
    Square(q.x - p.x);
    Square(q.y - p.y);
  }

  /** A point near `p` hashes like one of the nine points that a look-up of `p` probes. */
  lemma NearIsProbed(q: Point, p: Point, n: nat) returns (dx: int, dy: int)
    requires Near(q, p) && 0 < n
    ensures -1 <= dx <= 1 && -1 <= dy <= 1
    ensures Hash(q.x, q.y, n) == Hash(p.x + dx as real * CELL, p.y + dy as real * CELL, n)
  {
    NearCoordinates(q, p);
    NearOnAxis(q.x, p.x);
    NearOnAxis(q.y, p.y);
    dx, dy := Cell(q.x) - Cell(p.x), Cell(q.y) - Cell(p.y);
    CellShift(p.x, dx);
    CellShift(p.y, dy);
  }

  // ----- The map -----

  /** No two stored points are near each other. */
  ghost predicate Apart(entries: seq<Entry>) {
    forall i, j :: 0 <= i < j < |entries| ==> !Near(entries[i].pos, entries[j].pos)
  }

  function Home(e: Entry, n: nat): int
    requires 0 < n
  {
    Hash(e.pos.x, e.pos.y, n)
  }

  /** Every bucket lists exactly the entries that hash to it. */
  ghost predicate Indexed(entries: seq<Entry>, buckets: seq<seq<nat>>) {
    && 0 < |buckets|
    && (forall k :: 0 <= k < |entries| ==>
          var h := Home(entries[k], |buckets|); entries[k].idx == k && 0 <= h < |buckets| && k in buckets[h])
    && forall b, j :: 0 <= b < |buckets| && 0 <= j < |buckets[b]| ==>
         buckets[b][j] < |entries| && Home(entries[buckets[b][j]], |buckets|) == b
  }

  function Probe(p: Point, dx: int, dy: int, n: nat): int
    requires 0 < n
  {
    Hash(p.x + dx as real * CELL, p.y + dy as real * CELL, n)
  }

  /** Listing a new entry in the bucket of its own cell keeps the buckets exact. */
  lemma Listed(entries: seq<Entry>, buckets: seq<seq<nat>>, p: Point)
    requires Indexed(entries, buckets)
    ensures var k, h := |entries|, Hash(p.x, p.y, |buckets|);
            0 <= h < |buckets| && Indexed(entries + [Entry(p, k)], buckets[h := buckets[h] + [k]])
  {
    hide Hash;
    HashInRange(p.x, p.y, |buckets|);
    var n, e, h := |entries|, Entry(p, |entries|), Hash(p.x, p.y, |buckets|);
    var entries', buckets' := entries + [e], buckets[h := buckets[h] + [n]];
    forall b, j | 0 <= b < |buckets'| && 0 <= j < |buckets'[b]|
      ensures buckets'[b][j] < |entries'| && Home(entries'[buckets'[b][j]], |buckets'|) == b
    {
      if b == h && j == |buckets[h]| { assert buckets'[b][j] == n; } else { assert buckets'[b][j] == buckets[b][j]; }
    }
    forall k | 0 <= k < |entries'|
      ensures var g := Home(entries'[k], |buckets'|); 0 <= g < |buckets'| && k in buckets'[g]
    {
      if k == n { assert buckets'[h][|buckets[h]|] == n; } else { assert entries'[k] == entries[k]; }
    }
  }

  /** None of the listed entries is near `p`. */
  ghost predicate Misses(entries: seq<Entry>, bucket: seq<nat>, p: Point) {
    forall k :: k in bucket && k < |entries| ==> !Near(entries[k].pos, p)
  }

  ghost predicate Clear(entries: seq<Entry>, buckets: seq<seq<nat>>, p: Point, dx: int, dy: int) {
    0 < |buckets| && var h := Probe(p, dx, dy, |buckets|); 0 <= h < |buckets| && Misses(entries, buckets[h], p)
  }

  /** A stored point near `p` is listed in one of the nine buckets that a look-up of `p` goes through. */
  lemma StoredIsProbed(entries: seq<Entry>, buckets: seq<seq<nat>>, p: Point, k: nat) returns (dx: int, dy: int)
    requires Indexed(entries, buckets) && k < |entries| && Near(entries[k].pos, p)
    ensures -1 <= dx <= 1 && -1 <= dy <= 1
    ensures !Clear(entries, buckets, p, dx, dy)
  {
    hide Hash, Near;
    var q := entries[k].pos;
    dx, dy := NearIsProbed(q, p, |buckets|);
    HashInRange(q.x, q.y, |buckets|);
  }

  lemma BucketInRange(entries: seq<Entry>, buckets: seq<seq<nat>>, p: Point, dx: int, dy: int)
    requires Indexed(entries, buckets)
    ensures var h := Probe(p, dx, dy, |buckets|);
      0 <= h < |buckets| && forall j :: 0 <= j < |buckets[h]| ==> buckets[h][j] < |entries|
  {
    hide Hash, Home;
    HashInRange(p.x + dx as real * CELL, p.y + dy as real * CELL, |buckets|);
    var h := Probe(p, dx, dy, |buckets|);
  }

  /** When all nine buckets are clear, no stored point is near `p`. */
  lemma AllClear(entries: seq<Entry>, buckets: seq<seq<nat>>, p: Point)
    requires Indexed(entries, buckets)
    requires forall cx, cy :: -1 <= cx <= 1 && -1 <= cy <= 1 ==> Clear(entries, buckets, p, cx, cy)
    ensures forall k :: 0 <= k < |entries| ==> !Near(entries[k].pos, p)
  {
    hide Near, Clear, Indexed;
    forall k | 0 <= k < |entries| ensures !Near(entries[k].pos, p) {
      if Near(entries[k].pos, p) {
        var cx, cy := StoredIsProbed(entries, buckets, p, k);
      }
    }
  }

  class NodeMap {
    var entries: seq<Entry>
    var buckets: seq<seq<nat>>
    var bucketCount: nat

    ghost predicate Valid()
      reads this
    {
      bucketCount == |buckets| && Indexed(entries, buckets) && Apart(entries)
    }

    constructor Init(expected: nat)
      ensures Valid() && entries == []
    {
      var count := if expected * 2 < 64 then 64 else expected * 2;
      bucketCount := count;
      buckets := seq(count, i => []);
      entries := [];
    }

    /** Goes through one bucket. */
    method Scan(p: Point, bucket: seq<nat>) returns (found: bool, idx: nat)
      requires Valid() && forall j :: 0 <= j < |bucket| ==> bucket[j] < |entries|
      ensures found ==> idx < |entries| && Near(entries[idx].pos, p)
      ensures !found ==> Misses(entries, bucket, p)
    {
      var i := 0;
      while i < |bucket|
        invariant 0 <= i <= |bucket|
        invariant forall j :: 0 <= j < i ==> !Near(entries[bucket[j]].pos, p)
      {
        var e := entries[bucket[i]];
        if DistSq(e.pos, p) < MERGE_SQ {
          return true, e.idx;
        }
        i := i + 1;
      }
      return false, 0;
    }

    /** Goes through the nine buckets around `p`. */
    method Find(p: Point) returns (found: bool, idx: nat)
      requires Valid()
      ensures found ==> idx < |entries| && Near(entries[idx].pos, p)
      ensures !found ==> forall k :: 0 <= k < |entries| ==> !Near(entries[k].pos, p)
    {
      hide Probe, Near, Misses, Indexed, Apart;
      var dx := -1;
      while dx <= 1
        invariant -1 <= dx <= 2
        invariant forall cx, cy :: -1 <= cx < dx && -1 <= cy <= 1 ==> Clear(entries, buckets, p, cx, cy)
      {
        var dy := -1;
        while dy <= 1
          invariant -1 <= dy <= 2
          invariant forall cx, cy :: -1 <= cx < dx && -1 <= cy <= 1 ==> Clear(entries, buckets, p, cx, cy)
          invariant forall cy :: -1 <= cy < dy ==> Clear(entries, buckets, p, dx, cy)
        {
          BucketInRange(entries, buckets, p, dx, dy);
          found, idx := Scan(p, buckets[Probe(p, dx, dy, bucketCount)]);
          if found {
            return;
          }
          dy := dy + 1;
        }
        dx := dx + 1;
      }
      AllClear(entries, buckets, p);
      return false, 0;
    }

    /** The node of `p`: a stored point near it when there is one, and otherwise `p` itself, added at the end. */
    method FindOrAdd(p: Point) returns (idx: nat)
      requires Valid()
      modifies this
      ensures Valid() && idx < |entries| && Near(entries[idx].pos, p)
      ensures if exists k :: 0 <= k < |old(entries)| && Near(old(entries)[k].pos, p)
              then entries == old(entries)
              else entries == old(entries) + [Entry(p, idx)]
    {
      hide Hash;
      var found, at := Find(p);
      if found {
        return at;
      }
      idx := |entries|;
      Listed(entries, buckets, p);
      var h := Hash(p.x, p.y, bucketCount);
      entries := entries + [Entry(p, idx)];
      buckets := buckets[h := buckets[h] + [idx]];
    }
  }
}
