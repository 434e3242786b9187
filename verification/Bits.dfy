/** Reading a block bit by bit, lowest bit first. */
module Bits {
  import opened Basics

  function Pow2(n: nat): (p: nat)
    ensures 0 < p
  {
    if n == 0 then 1 else 2 * Pow2(n - 1)
  }

  /** A block is 16 bytes. */
  predicate IsBlock(data: seq<Byte>) {
    |data| == 16
  }

  function BitOf(b: int, k: nat): int {
    b / Pow2(k) % 2
  }

  /** Bit `pos` of a block. */
  function Bit(data: seq<Byte>, pos: nat): int
    requires IsBlock(data) && pos < 128
  {
    BitOf(data[pos / 8], pos % 8)
  }

  /** The `n` bits from `pos` on, as a number. */
  function Slice(data: seq<Byte>, pos: nat, n: nat): (v: nat)
    requires IsBlock(data) && pos + n <= 128
    ensures v < Pow2(n)
  {
    if n == 0 then 0 else Slice(data, pos, n - 1) + Bit(data, pos + n - 1) * Pow2(n - 1)
  }

  lemma {:induction false} PowAdd(a: nat, b: nat)
    ensures Pow2(a + b) == Pow2(a) * Pow2(b)
  {
    if b > 0 {
      PowAdd(a, b - 1);
      assert Pow2(a + b) == 2 * Pow2(a + (b - 1));
    }
  }

  lemma Distribute(p: int, s: int, b: int, q: int)
    ensures p * (s + b * q) == p * s + b * (p * q)
  {
  }

  lemma SliceGrows(data: seq<Byte>, pos: nat, n: nat)
    requires IsBlock(data) && pos + n + 1 <= 128
    ensures Slice(data, pos, n + 1) == Slice(data, pos, n) + Bit(data, pos + n) * Pow2(n)
  {
    hide Bit, Pow2;
  }

  lemma EmptySlice(data: seq<Byte>, pos: nat)
    requires IsBlock(data) && pos <= 128
    ensures Slice(data, pos, 0) == 0
  {
  }

  lemma ConcatNone(data: seq<Byte>, pos: nat, n: nat)
    requires IsBlock(data) && pos + n <= 128
    ensures Slice(data, pos, n + 0) == Slice(data, pos, n) + Pow2(n) * Slice(data, pos + n, 0)
  {
    EmptySlice(data, pos + n);
  }

  lemma ConcatStep(p: int, q: int, pq: int, b: int, s: int, t: int)
    requires pq == p * q
    ensures (s + p * t) + b * pq == s + p * (t + b * q)
  {
    Distribute(p, t, b, q);
  }

  lemma ConcatOne(data: seq<Byte>, pos: nat, n: nat, m: nat)
    requires IsBlock(data) && pos + n + m + 1 <= 128
    requires Slice(data, pos, n + m) == Slice(data, pos, n) + Pow2(n) * Slice(data, pos + n, m)
    ensures Slice(data, pos, n + (m + 1)) == Slice(data, pos, n) + Pow2(n) * Slice(data, pos + n, m + 1)
  {
    hide Slice, Bit, Pow2;
    PowAdd(n, m);
    SliceGrows(data, pos, n + m);
    SliceGrows(data, pos + n, m);
    ConcatStep(Pow2(n), Pow2(m), Pow2(n + m), Bit(data, pos + n + m), Slice(data, pos, n), Slice(data, pos + n, m));
  }

  /** Slices next to each other make up one slice. */
  lemma {:induction false} SliceConcat(data: seq<Byte>, pos: nat, n: nat, m: nat)
    requires IsBlock(data) && pos + n + m <= 128
    ensures Slice(data, pos, n + m) == Slice(data, pos, n) + Pow2(n) * Slice(data, pos + n, m)
  {
    hide Slice, Bit, Pow2;
    if m == 0 {
      ConcatNone(data, pos, n);
    } else {
      SliceConcat(data, pos, n, m - 1);
      ConcatOne(data, pos, n, m - 1);
    }
  }

  /** The block as a little-endian number. */
  function Number(data: seq<Byte>): int {
    if data == [] then 0 else data[0] + 256 * Number(data[1..])
  }

  lemma Remainders(b: nat, p: int)
    requires 0 < p
    ensures b % (2 * p) == b % p + (b / p % 2) * p
  {
    var q, r := b / p, b % p;
    var h, l := q / 2, q % 2;
    Distribute(p, l, h, 2);
    assert b == p * q + r;
    assert l == 0 || l == 1;
    QuotientIs(b, 2 * p, h, p * l + r);
  }

  lemma LowBits(b: nat, k: nat)
    ensures b % Pow2(k + 1) == b % Pow2(k) + BitOf(b, k) * Pow2(k)
  {
    Remainders(b, Pow2(k));
    assert Pow2(k + 1) == 2 * Pow2(k);
  }

  lemma {:induction false} BitsOfByte(data: seq<Byte>, i: nat, k: nat)
    requires IsBlock(data) && i < 16 && k <= 8
    ensures Slice(data, 8 * i, k) == data[i] % Pow2(k)
  {
    if k > 0 {
      BitsOfByte(data, i, k - 1);
      var pos := 8 * i + k - 1;
      assert pos / 8 == i && pos % 8 == k - 1;
      LowBits(data[i], k - 1);
    }
  }

  lemma ByteSlice(data: seq<Byte>, i: nat)
    requires IsBlock(data) && i < 16
    ensures Slice(data, 8 * i, 8) == data[i]
  {
    hide Slice, Bit;
    BitsOfByte(data, i, 8);
    assert Pow2(8) == 256;
  }

  lemma {:induction false} NumberFrom(data: seq<Byte>, i: nat)
    requires IsBlock(data) && i <= 16
    ensures Number(data[i..]) == Slice(data, 8 * i, 128 - 8 * i)
    decreases 16 - i
  {
    if i < 16 {
      NumberFrom(data, i + 1);
      assert data[i..][1..] == data[i + 1..];
      SliceConcat(data, 8 * i, 8, 128 - 8 * (i + 1));
      ByteSlice(data, i);
      assert Pow2(8) == 256;
    }
  }

  /** Every read is a slice of the block's number: what is below it and what is above it make up the rest. */
  lemma SliceOfNumber(data: seq<Byte>, pos: nat, n: nat)
    requires IsBlock(data) && pos + n <= 128
    ensures Number(data) ==
            Slice(data, 0, pos) + Pow2(pos) * (Slice(data, pos, n) + Pow2(n) * Slice(data, pos + n, 128 - pos - n))
  {
    hide Slice, Bit, Pow2, Number;
    NumberFrom(data, 0);
    assert data[0..] == data;
    SliceConcat(data, 0, pos, 128 - pos);
    SliceConcat(data, pos, n, 128 - pos - n);
  }

  class BitReader {
    const data: seq<Byte>

    var pos: nat

    constructor (data: seq<Byte>, pos: nat)
      ensures this.data == data && this.pos == pos
    {
      this.data := data;
      this.pos := pos;
    }

    method Read(bits: nat) returns (val: nat)
      requires IsBlock(data) && pos + bits <= 128
      modifies this`pos
      ensures val == Slice(data, old(pos), bits) && pos == old(pos) + bits
    {
      val := 0;
      var i := 0;
      while i < bits
        invariant 0 <= i <= bits && pos == old(pos) + i && val == Slice(data, old(pos), i)
      {
        val := val + BitOf(data[pos / 8], pos % 8) * Pow2(i);
        pos := pos + 1;
        i := i + 1;
      }
    }
  }
}
