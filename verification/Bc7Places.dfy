/** The block format in plain numbers: at which bits the fields of every mode lie, and how exact the texels are. */
module Bc7Places {
  import opened Basics
  import opened Bits
  import opened Bc7Tables
  import opened Bc7

  // ----- Numbers -----

  lemma SmallPowers()
    ensures Pow2(0) == 1 && Pow2(1) == 2 && Pow2(2) == 4 && Pow2(3) == 8 && Pow2(4) == 16 && Pow2(5) == 32
    ensures Pow2(6) == 64 && Pow2(7) == 128 && Pow2(8) == 256
  {
  }

  /** The weight of an index is the 64th nearest to its share of the largest index. */
  lemma WeightIsNearest(bits: nat, index: nat)
    requires 2 <= bits <= 4 && index < Pow2(bits)
    ensures var n := Pow2(bits) - 1;
            -n < 2 * (Weight(bits, index) * n - 64 * index) < n
  {
    SmallPowers();
  }

  /** Interpolation rounds to the nearest number, and up when there are two. */
  lemma InterpRounds(e0: nat, e1: nat, index: nat, bits: nat)
    requires 2 <= bits <= 4 && index < Pow2(bits)
    ensures var v, w := Interp(e0, e1, index, bits), Weight(bits, index);
            64 * v <= e0 * (64 - w) + e1 * w + 32 < 64 * v + 64
  {
    hide Weight;
  }

  lemma Bounded(d: int, x: int, n: int)
    requires 0 <= n && -n <= x <= n
    ensures -((if d < 0 then -d else d) * n) <= d * x <= (if d < 0 then -d else d) * n
  {
    if d < 0 {
      assert (-d) * (n - x) >= 0 && (-d) * (n + x) >= 0;
    } else {
      assert d * (n - x) >= 0 && d * (n + x) >= 0;
    }
  }

  lemma Apportion(n: int, v: int, w: int, e0: int, e1: int, index: int)
    ensures n * (64 * v) - 64 * (e0 * (n - index) + e1 * index) ==
            n * (64 * v - (e0 * (64 - w) + e1 * w)) + (e1 - e0) * (w * n - 64 * index)
  {
    assert n * (e0 * (64 - w) + e1 * w) == 64 * n * e0 + (e1 - e0) * (w * n);
    assert 64 * (e0 * (n - index) + e1 * index) == 64 * n * e0 + (e1 - e0) * (64 * index);
  }

  lemma Doubled(n: int, v: int, error: int, mean: int, exact: int, distance: int)
    requires n * (64 * v) - 64 * exact == n * error + mean
    requires -(n * 32) <= n * error <= n * 32 && -(distance * n) <= 2 * mean <= distance * n
    ensures -n * (64 + distance) <= 128 * (n * v - exact) <= n * (64 + distance)
  {
    assert n * (64 * v) == 64 * (n * v) && n * (64 + distance) == 64 * n + distance * n;
    assert -n * (64 + distance) == -(n * (64 + distance));
  }

  lemma Twice(d: int, x: int)
    ensures d * (2 * x) == 2 * (d * x)
  {
  }

  /** So every value is within half a unit, and a 128th of the distance of the end points, of the exact mean. */
  lemma InterpIsClose(e0: nat, e1: nat, index: nat, bits: nat)
    requires 2 <= bits <= 4 && index < Pow2(bits)
    ensures var n, v := Pow2(bits) - 1, Interp(e0, e1, index, bits);
            var exact, distance := e0 * (n - index) + e1 * index, if e0 < e1 then e1 - e0 else e0 - e1;
            -n * (64 + distance) <= 128 * (n * v - exact) <= n * (64 + distance)
  {
    hide Weight, Interp, Pow2;
    var n, v, w := Pow2(bits) - 1, Interp(e0, e1, index, bits), Weight(bits, index);
    var exact, distance := e0 * (n - index) + e1 * index, if e0 < e1 then e1 - e0 else e0 - e1;
    WeightIsNearest(bits, index);
    InterpRounds(e0, e1, index, bits);
    Apportion(n, v, w, e0, e1, index);
    var error, slant := 64 * v - (e0 * (64 - w) + e1 * w), w * n - 64 * index;
    Bounded(n, error, 32);
    Bounded(e1 - e0, 2 * slant, n);
    Twice(e1 - e0, slant);
    Doubled(n, v, error, (e1 - e0) * slant, exact, distance);
  }

  predicate Binary(a: int, b: int, c: int, d: int) {
    0 <= a < 2 && 0 <= b < 2 && 0 <= c < 2 && 0 <= d < 2
  }

  lemma EightBits(x: nat, a: int, b: int, c: int, d: int, e: int, f: int, g: int, h: int)
    requires Binary(a, b, c, d) && Binary(e, f, g, h)
    requires x == 128 * a + 64 * b + 32 * c + 16 * d + 8 * e + 4 * f + 2 * g + h
    ensures BitOf(x, 7) == a && BitOf(x, 6) == b && BitOf(x, 5) == c && BitOf(x, 4) == d
    ensures BitOf(x, 3) == e && BitOf(x, 2) == f && BitOf(x, 1) == g && BitOf(x, 0) == h
  {
    SmallPowers();
    assert x / 2 == 64 * a + 32 * b + 16 * c + 8 * d + 4 * e + 2 * f + g;
    assert x / 4 == 32 * a + 16 * b + 8 * c + 4 * d + 2 * e + f;
    assert x / 8 == 16 * a + 8 * b + 4 * c + 2 * d + e;
    assert x / 16 == 8 * a + 4 * b + 2 * c + d;
    assert x / 32 == 4 * a + 2 * b + c;
    assert x / 64 == 2 * a + b;
    assert x / 128 == a;
  }

  /** The eight lowest bits of a number below 256. */
  lemma Split(v: nat)
    returns (a: int, b: int, c: int, d: int, e: int, f: int, g: int, h: int)
    requires v < 256
    ensures Binary(a, b, c, d) && Binary(e, f, g, h)
    ensures v == 128 * a + 64 * b + 32 * c + 16 * d + 8 * e + 4 * f + 2 * g + h
  {
    var v1 := v / 2;
    var v2 := v1 / 2;
    var v3 := v2 / 2;
    var v4 := v3 / 2;
    var v5 := v4 / 2;
    var v6 := v5 / 2;
    h, g, f, e, d, c, b, a := v % 2, v1 % 2, v2 % 2, v3 % 2, v4 % 2, v5 % 2, v6 % 2, v6 / 2;
  }

  lemma Repeats4(v: nat, k: nat)
    requires v < 16 && k < 8
    ensures BitOf(v * 16 + v, 7 - k) == BitOf(v, 3 - k % 4)
  {
    hide BitOf;
    var a, b, c, d, e, f, g, h := Split(v);
    assert a == b == c == d == 0;
    EightBits(v, a, b, c, d, e, f, g, h);
    EightBits(v * 16 + v, e, f, g, h, e, f, g, h);
  }

  lemma Repeats5(v: nat, k: nat)
    requires v < 32 && k < 8
    ensures BitOf(v * 8 + v / 4, 7 - k) == BitOf(v, 4 - k % 5)
  {
    hide BitOf;
    var a, b, c, d, e, f, g, h := Split(v);
    assert a == b == c == 0;
    assert v / 4 == 4 * d + 2 * e + f;
    EightBits(v, a, b, c, d, e, f, g, h);
    EightBits(v * 8 + v / 4, d, e, f, g, h, d, e, f);
  }

  lemma Repeats6(v: nat, k: nat)
    requires v < 64 && k < 8
    ensures BitOf(v * 4 + v / 16, 7 - k) == BitOf(v, 5 - k % 6)
  {
    hide BitOf;
    var a, b, c, d, e, f, g, h := Split(v);
    assert a == b == 0;
    assert v / 16 == 2 * c + d;
    EightBits(v, a, b, c, d, e, f, g, h);
    EightBits(v * 4 + v / 16, c, d, e, f, g, h, c, d);
  }

  lemma Repeats7(v: nat, k: nat)
    requires v < 128 && k < 8
    ensures BitOf(v * 2 + v / 64, 7 - k) == BitOf(v, 6 - k % 7)
  {
    hide BitOf;
    var a, b, c, d, e, f, g, h := Split(v);
    assert a == 0;
    assert v / 64 == b;
    EightBits(v, a, b, c, d, e, f, g, h);
    EightBits(v * 2 + v / 64, b, c, d, e, f, g, h, b);
  }

  lemma Repeats8(v: nat, k: nat)
    requires v < 256 && k < 8
    ensures BitOf(v, 7 - k) == BitOf(v, 7 - k % 8)
  {
    hide BitOf;
    var a, b, c, d, e, f, g, h := Split(v);
    EightBits(v, a, b, c, d, e, f, g, h);
  }

  lemma ExpandIs(v: nat)
    ensures v < 16 ==> v < Pow2(4) && Expand(v, 4) == v * 16 + v
    ensures v < 32 ==> v < Pow2(5) && Expand(v, 5) == v * 8 + v / 4
    ensures v < 64 ==> v < Pow2(6) && Expand(v, 6) == v * 4 + v / 16
    ensures v < 128 ==> v < Pow2(7) && Expand(v, 7) == v * 2 + v / 64
    ensures v < 256 ==> v < Pow2(8) && Expand(v, 8) == v
  {
    SmallPowers();
  }

  /** The bits of an expanded value are those of the value, over and over from the top. */
  lemma ExpandRepeats(v: nat, bits: nat, k: nat)
    requires 4 <= bits <= 8 && v < Pow2(bits) && k < 8
    ensures BitOf(Expand(v, bits), 7 - k) == BitOf(v, bits - 1 - k % bits)
  {
    hide BitOf, Expand;
    SmallPowers();
    ExpandIs(v);
    if bits == 4 {
      Repeats4(v, k);
    } else if bits == 5 {
      Repeats5(v, k);
    } else if bits == 6 {
      Repeats6(v, k);
    } else if bits == 7 {
      Repeats7(v, k);
    } else {
      Repeats8(v, k);
    }
  }

  // ----- The mode -----

  lemma BitIsBinary(block: seq<Byte>, k: nat)
    requires IsBlock(block) && k < 8
    ensures Bit(block, k) == BitOf(block[0], k) && 0 <= Bit(block, k) < 2
  {
  }

  lemma {:induction false} ModeFromIs(block: seq<Byte>, k: nat, m: nat)
    requires IsBlock(block) && k <= 8 && m < 8
    ensures ModeFrom(block, k) == m <==>
              k <= m && (forall j :: k <= j < m ==> Bit(block, j) == 0) && Bit(block, m) == 1
    decreases 8 - k
  {
    hide Bit;
    if k < 8 {
      BitIsBinary(block, k);
      if Bit(block, k) == 0 { ModeFromIs(block, k + 1, m); }
    }
  }

  lemma Remainders(x: nat, a: int, b: int, c: int, d: int, e: int, f: int, g: int, h: int)
    requires Binary(a, b, c, d) && Binary(e, f, g, h)
    requires x == 128 * a + 64 * b + 32 * c + 16 * d + 8 * e + 4 * f + 2 * g + h
    ensures x % 2 == h
    ensures x % 4 == 2 * g + h
    ensures x % 8 == 4 * f + 2 * g + h
    ensures x % 16 == 8 * e + 4 * f + 2 * g + h
    ensures x % 32 == 16 * d + 8 * e + 4 * f + 2 * g + h
    ensures x % 64 == 32 * c + 16 * d + 8 * e + 4 * f + 2 * g + h
    ensures x % 128 == 64 * b + 32 * c + 16 * d + 8 * e + 4 * f + 2 * g + h
    ensures x % 256 == 128 * a + 64 * b + 32 * c + 16 * d + 8 * e + 4 * f + 2 * g + h
  {
    QuotientIs(x, 2, 64 * a + 32 * b + 16 * c + 8 * d + 4 * e + 2 * f + g, h);
    QuotientIs(x, 4, 32 * a + 16 * b + 8 * c + 4 * d + 2 * e + f, 2 * g + h);
    QuotientIs(x, 8, 16 * a + 8 * b + 4 * c + 2 * d + e, 4 * f + 2 * g + h);
    QuotientIs(x, 16, 8 * a + 4 * b + 2 * c + d, 8 * e + 4 * f + 2 * g + h);
    QuotientIs(x, 32, 4 * a + 2 * b + c, 16 * d + 8 * e + 4 * f + 2 * g + h);
    QuotientIs(x, 64, 2 * a + b, 32 * c + 16 * d + 8 * e + 4 * f + 2 * g + h);
    QuotientIs(x, 128, a, 64 * b + 32 * c + 16 * d + 8 * e + 4 * f + 2 * g + h);
    QuotientIs(x, 256, 0, 128 * a + 64 * b + 32 * c + 16 * d + 8 * e + 4 * f + 2 * g + h);
  }

  lemma LowBits(x: nat, m: nat)
    requires x < 256 && m < 8
    ensures x % Pow2(m + 1) == Pow2(m) <==> (forall j :: 0 <= j < m ==> BitOf(x, j) == 0) && BitOf(x, m) == 1
  {
    hide BitOf, Pow2;
    SmallPowers();
    var a, b, c, d, e, f, g, h := Split(x);
    EightBits(x, a, b, c, d, e, f, g, h);
    Remainders(x, a, b, c, d, e, f, g, h);
    assert BitOf(x, 0) == h && BitOf(x, 1) == g && BitOf(x, 2) == f && BitOf(x, 3) == e;
    if m == 0 {} else if m == 1 {} else if m == 2 {} else if m == 3 {} else if m == 4 {} else if m == 5 {}
    else if m == 6 {} else {}
  }

  /** The mode is the number of zero bits below the lowest one of the first byte. */
  lemma ModeIs(block: seq<Byte>, m: nat)
    requires IsBlock(block) && m < 8
    ensures ModeOf(block) == m <==> block[0] % Pow2(m + 1) == Pow2(m)
  {
    hide BitOf, Bit, Pow2;
    ModeFromIs(block, 0, m);
    LowBits(block[0], m);
    forall j: nat | j < 8 ensures Bit(block, j) == BitOf(block[0], j) {
      BitIsBinary(block, j);
    }
  }

  // ----- Where the fields lie -----

  /** The colors of the end points of a mode, first all reds, then all greens, then all blues. */
  lemma ColorPlaces(block: seq<Byte>, m: nat, ep: nat, ch: nat)
    requires IsBlock(block) && m < 8 && ch < 3 && ep < [6, 4, 6, 4, 2, 2, 2, 4][m]
    ensures var start, count, width := [5, 8, 9, 10, 8, 8, 7, 14][m], [6, 4, 6, 4, 2, 2, 2, 4][m],
                                       [4, 6, 5, 7, 5, 7, 7, 5][m];
            var pos := start + (ch * count + ep) * width;
            pos + width <= 128 && StoredColor(block, m, ep, ch) == Slice(block, pos, width)
  {
    hide Slice;
    if m == 0 {} else if m == 1 {} else if m == 2 {} else if m == 3 {} else if m == 4 {} else if m == 5 {}
    else if m == 6 {} else {}
  }

  /** Their alphas, in the modes that have them. */
  lemma AlphaPlaces(block: seq<Byte>, m: nat, ep: nat)
    requires IsBlock(block) && 4 <= m < 8 && ep < [2, 2, 2, 4][m - 4]
    ensures var pos, width := [38, 50, 49, 74][m - 4] + ep * [6, 8, 7, 5][m - 4], [6, 8, 7, 5][m - 4];
            pos + width <= 128 && StoredAlpha(block, m, ep) == Slice(block, pos, width)
  {
    hide Slice;
    if m == 4 {} else if m == 5 {} else if m == 6 {} else {}
  }

  /** The bits that are put below them: one per end point, in mode 1 one per subset, and none in modes 2, 4 and 5. */
  lemma PBitPlaces(block: seq<Byte>, m: nat, ep: nat, v: nat)
    requires IsBlock(block) && m < 8 && ep < [6, 4, 6, 4, 2, 2, 2, 4][m]
    ensures WithP(block, m, ep, v) ==
            if m == 0 then 2 * v + Slice(block, 77 + ep, 1)
            else if m == 1 then 2 * v + Slice(block, 80 + ep / 2, 1)
            else if m == 3 || m == 7 then 2 * v + Slice(block, 94 + ep, 1)
            else if m == 6 then 2 * v + Slice(block, 63 + ep, 1)
            else v
  {
    hide Slice;
    if m == 0 {} else if m == 1 {} else if m == 2 {} else if m == 3 {} else if m == 4 {} else if m == 5 {}
    else if m == 6 {} else {}
  }

  lemma AtMostOneEach(ns: nat, p: nat, i: nat)
    requires p < 64
    ensures Anchors(ns, p, i) <= i
  {
    hide Anchor2, Anchor3a, Anchor3b;
    ThirdAnchorsDiffer(p);
  }

  /** The indices, each right after the one before; those of anchors are one bit shorter. */
  lemma IndexPlaces(block: seq<Byte>, m: nat, i: nat)
    requires IsBlock(block) && m < 8 && i < 16
    ensures var start, ns, width := [83, 82, 99, 98, 50, 66, 65, 98][m], [3, 2, 3, 2, 1, 1, 1, 2][m],
                                    [3, 3, 2, 2, 2, 2, 4, 2][m];
            var p := Partition(block, m);
            var pos, n := start + i * width - Anchors(ns, p, i), if IsAnchor(ns, p, i) then width - 1 else width;
            0 <= pos && Index(block, m, i) == if pos + n <= 128 then Slice(block, pos, n) else 0
  {
    hide Slice, Anchors, IsAnchor, Bitcount;
    var mi, p := Info(m), Partition(block, m);
    BitcountIs(mi.ib, mi.ns, p, i);
    AtMostOneEach(mi.ns, p, i);
    if m == 0 {} else if m == 1 {} else if m == 2 {} else if m == 3 {} else if m == 4 {} else if m == 5 {}
    else if m == 6 {} else {}
  }

  /** The second indices of modes 4 and 5, behind the first ones. */
  lemma SecondIndexPlaces(block: seq<Byte>, m: nat, i: nat)
    requires IsBlock(block) && 4 <= m <= 5 && i < 16
    ensures var start, width := if m == 4 then 81 else 97, if m == 4 then 3 else 2;
            Index2(block, m, i) ==
            if i == 0 then Slice(block, start, width - 1) else Slice(block, start + i * width - 1, width)
  {
    hide Slice, Anchor2, Anchor3a, Anchor3b;
    var mi, p := Info(m), Partition(block, m);
    BitcountIs(mi.ib, mi.ns, p, 16);
  }

  /** The fields behind the mode: the partition, the rotation (modes 4 and 5), and the index selector (mode 4). */
  lemma HeaderPlaces(block: seq<Byte>, m: nat)
    requires IsBlock(block) && m < 8
    ensures Partition(block, m) == Slice(block, m + 1, [4, 6, 6, 6, 0, 0, 0, 6][m])
    ensures Rotation(block, m) == if m == 4 then Slice(block, 5, 2) else if m == 5 then Slice(block, 6, 2) else 0
    ensures Swapped(block, m) <==> m == 4 && Slice(block, 7, 1) != 0
  {
    EmptySlice(block, m + 1 + Info(m).pb);
    EmptySlice(block, m + 1 + Info(m).pb + Info(m).rb);
    hide Slice;
    if m == 0 {} else if m == 1 {} else if m == 2 {} else if m == 3 {} else if m == 4 {} else if m == 5 {}
    else if m == 6 {} else {}
  }

  // ----- The texels -----

  /** Which index a channel takes. In mode 4 colors take the short one and alpha the long one, or the other way round
      when the selector is set; in mode 5 colors take the first and alpha the second. */
  lemma WhichIndex(block: seq<Byte>, m: nat, i: nat, ch: nat)
    requires IsBlock(block) && m < 8 && i < 16 && ch < 4
    ensures ChannelIndex(block, m, i, ch) ==
            if m == 4 then
              if (ch == 3) == (Slice(block, 7, 1) != 0) then (Index(block, 4, i), 2) else (Index2(block, 4, i), 3)
            else if m == 5 then
              if ch == 3 then (Index2(block, 5, i), 2) else (Index(block, 5, i), 2)
            else (Index(block, m, i), [3, 3, 2, 2, 2, 2, 4, 2][m])
  {
    HeaderPlaces(block, m);
    hide Slice, Swapped, Index, Index2;
    if m == 0 {} else if m == 1 {} else if m == 2 {} else if m == 3 {} else if m == 4 {} else if m == 5 {}
    else if m == 6 {} else {}
  }

  lemma ChannelRounds(block: seq<Byte>, m: nat, i: nat, c: nat)
    requires IsBlock(block) && m < 8 && i < 16 && c < 4 && (c == 3 ==> 4 <= m)
    ensures var s, x := Subset([3, 2, 3, 2, 1, 1, 1, 2][m], Partition(block, m), i), ChannelIndex(block, m, i, c);
            var e0, e1, w := EndPoint(block, m, 2 * s, c), EndPoint(block, m, 2 * s + 1, c), Weight(x.1, x.0);
            64 * Channel(block, m, i, c) <= e0 * (64 - w) + e1 * w + 32 < 64 * Channel(block, m, i, c) + 64
  {
    hide Subset, EndPoint, ChannelIndex, Interp, Weight;
    var s, x := Subset(Info(m).ns, Partition(block, m), i), ChannelIndex(block, m, i, c);
    InterpRounds(EndPoint(block, m, 2 * s, c), EndPoint(block, m, 2 * s + 1, c), x.0, x.1);
    if m == 0 {} else if m == 1 {} else if m == 2 {} else if m == 3 {} else if m == 4 {} else if m == 5 {}
    else if m == 6 {} else {}
  }

  /** A channel of a texel is, after rotation, opaque or the rounded mean of the end points of its subset; rotation
      exchanges alpha with red, green or blue. */
  lemma TexelIsMean(block: seq<Byte>, i: nat, ch: nat)
    requires IsBlock(block) && i < 16 && ch < 4 && ModeOf(block) < 8
    ensures var m := ModeOf(block);
            var r := if m == 4 then Slice(block, 5, 2) else if m == 5 then Slice(block, 6, 2) else 0;
            var c := if r == 0 then ch else if ch == 3 then r - 1 else if ch == r - 1 then 3 else ch;
            var v, p := Texel(block, i, ch), Partition(block, m);
            if c == 3 && m < 4 then v == 255
            else
              var s := if m == 0 || m == 2 then Partition3(p)[i] else if 4 <= m <= 6 then 0 else Partition2(p)[i];
              var x := ChannelIndex(block, m, i, c);
              var e0, e1, w := EndPoint(block, m, 2 * s, c), EndPoint(block, m, 2 * s + 1, c), Weight(x.1, x.0);
              64 * v <= e0 * (64 - w) + e1 * w + 32 < 64 * v + 64
  {
    hide Slice, Channel, ChannelIndex, EndPoint, Weight, Rotation, Partition2, Partition3, Partition;
    var m := ModeOf(block);
    HeaderPlaces(block, m);
    assert m == 4 || m == 5 ==> Rotation(block, m) < 4 by { SmallPowers(); }
    var c := Source(Rotation(block, m), ch);
    if c == 3 && m < 4 {
      OpaqueChannel(block, m, i);
    } else {
      ChannelRounds(block, m, i, c);
    }
  }

  lemma Mode6End(block: seq<Byte>, ep: nat, ch: nat)
    requires IsBlock(block) && ep < 2 && ch < 4
    ensures EndPoint(block, 6, ep, ch) == 2 * Slice(block, 7 + 14 * ch + 7 * ep, 7) + Slice(block, 63 + ep, 1)
  {
    hide Slice, StoredColor, StoredAlpha, WithP;
    if ch < 3 {
      ColorPlaces(block, 6, ep, ch);
      PBitPlaces(block, 6, ep, StoredColor(block, 6, ep, ch));
    } else {
      AlphaPlaces(block, 6, ep);
      PBitPlaces(block, 6, ep, StoredAlpha(block, 6, ep));
    }
  }

  lemma Mode6Index(block: seq<Byte>, i: nat)
    requires IsBlock(block) && i < 16
    ensures Index(block, 6, i) == if i == 0 then Slice(block, 65, 3) else Slice(block, 64 + 4 * i, 4)
  {
    hide Slice, Index;
    IndexPlaces(block, 6, i);
  }

  /** In mode 6, say, with one subset of two end points and no rotation. */
  lemma Mode6Texel(block: seq<Byte>, i: nat, ch: nat)
    requires IsBlock(block) && i < 16 && ch < 4 && block[0] % 128 == 64
    ensures var e0 := 2 * Slice(block, 7 + 14 * ch, 7) + Slice(block, 63, 1);
            var e1 := 2 * Slice(block, 14 + 14 * ch, 7) + Slice(block, 64, 1);
            var index := if i == 0 then Slice(block, 65, 3) else Slice(block, 64 + 4 * i, 4);
            exists w ::
              && -15 < 2 * (15 * w - 64 * index) < 15
              && 64 * Texel(block, i, ch) <= e0 * (64 - w) + e1 * w + 32 < 64 * Texel(block, i, ch) + 64
  {
    hide Slice, Texel, Weight, Pow2, Index, EndPoint, Partition, ChannelIndex;
    SmallPowers();
    ModeIs(block, 6);
    WhichIndex(block, 6, i, ch);
    Mode6Index(block, i);
    TexelIsMean(block, i, ch);
    Mode6End(block, 0, ch);
    Mode6End(block, 1, ch);
    var w := Weight(4, Index(block, 6, i));
    WeightIsNearest(4, Index(block, 6, i));
    assert -15 < 2 * (15 * w - 64 * Index(block, 6, i)) < 15;
  }
}
