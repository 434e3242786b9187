/** The block format: where every field of a block lies, and the texels that a block stands for. */
module Bc7 {
  import opened Basics
  import opened Bits
  import opened Bc7Tables

  /** Subsets; bits of the partition, the rotation, the index selector, a color, an alpha, p-bits per end point
      and per subset, and of the two kinds of index. */
  datatype Mode = Mode(ns: nat, pb: nat, rb: nat, isb: nat, cb: nat, ab: nat, epb: nat, spb: nat, ib: nat, ib2: nat)

  function Info(m: nat): Mode
    requires m < 8
  {
    match m
    case 0 => Mode(3, 4, 0, 0, 4, 0, 1, 0, 3, 0)
    case 1 => Mode(2, 6, 0, 0, 6, 0, 0, 1, 3, 0)
    case 2 => Mode(3, 6, 0, 0, 5, 0, 0, 0, 2, 0)
    case 3 => Mode(2, 6, 0, 0, 7, 0, 1, 0, 2, 0)
    case 4 => Mode(1, 0, 2, 1, 5, 6, 0, 0, 2, 3)
    case 5 => Mode(1, 0, 2, 0, 7, 8, 0, 0, 2, 2)
    case 6 => Mode(1, 0, 0, 0, 7, 7, 1, 0, 4, 0)
    case _ => Mode(2, 6, 0, 0, 5, 5, 1, 0, 2, 0)
  }

  /** The position of the first bit that is set among the first eight, or 8. */
  function ModeFrom(block: seq<Byte>, m: nat): (r: nat)
    requires IsBlock(block) && m <= 8
    ensures m <= r <= 8
    decreases 8 - m
  {
    if m == 8 || Bit(block, m) == 1 then m else ModeFrom(block, m + 1)
  }

  function ModeOf(block: seq<Byte>): (m: nat)
    requires IsBlock(block)
    ensures m <= 8
  {
    ModeFrom(block, 0)
  }

  // ----- Where the fields lie -----

  function ColorsAt(m: nat): nat
    requires m < 8
  {
    m + 1 + Info(m).pb + Info(m).rb + Info(m).isb
  }

  function AlphasAt(m: nat): nat
    requires m < 8
  {
    ColorsAt(m) + 6 * Info(m).ns * Info(m).cb
  }

  function PBitsAt(m: nat): nat
    requires m < 8
  {
    AlphasAt(m) + 2 * Info(m).ns * Info(m).ab
  }

  function IndicesAt(m: nat): nat
    requires m < 8
  {
    var mi := Info(m);
    PBitsAt(m) + if mi.epb > 0 then 2 * mi.ns else if mi.spb > 0 then mi.ns else 0
  }

  function Field(block: seq<Byte>, pos: nat, n: nat): (v: nat)
    requires IsBlock(block)
    ensures v < Pow2(n)
  {
    if pos + n <= 128 then Slice(block, pos, n) else 0
  }

  /** The fields end where they should: what is left for the indices is 16 times their width, less one bit for
      every subset, in all modes. */
  lemma Layout(m: nat)
    requires m < 8
    ensures var mi := Info(m);
            IndicesAt(m) + 16 * mi.ib - mi.ns + (if mi.ib2 > 0 then 16 * mi.ib2 - 1 else 0) == 128
  {
    var _ := Info(m);
  }

  // ----- Anchors and indices -----

  function Partition(block: seq<Byte>, m: nat): (p: nat)
    requires IsBlock(block) && m < 8
    ensures p < 64
  {
    assert Pow2(0) == 1 && Pow2(4) == 16 && Pow2(6) == 64;
    Field(block, m + 1, Info(m).pb)
  }

  lemma ThirdAnchorsDiffer(p: nat)
    requires p < 64
    ensures Anchor3a(p) != Anchor3b(p)
  {
  }

  /** The texels whose index is stored with one bit less. With three subsets, the anchor of the second of two
      counts as well. */
  predicate IsAnchor(ns: nat, p: nat, i: nat)
    requires p < 64
  {
    i == 0 || (ns >= 2 && i == Anchor2(p)) || (ns >= 3 && (i == Anchor3a(p) || i == Anchor3b(p)))
  }

  function Width(ib: nat, ns: nat, p: nat, i: nat): nat
    requires p < 64 && 0 < ib
  {
    if IsAnchor(ns, p, i) then ib - 1 else ib
  }

  /** How many bits the first `i` indices take. */
  function Bitcount(ib: nat, ns: nat, p: nat, i: nat): nat
    requires p < 64 && 0 < ib
  {
    if i == 0 then 0 else Bitcount(ib, ns, p, i - 1) + Width(ib, ns, p, i - 1)
  }

  /** How many of the texels before `i` are anchors. */
  function Anchors(ns: nat, p: nat, i: nat): nat
    requires p < 64
  {
    (if i > 0 then 1 else 0)
    + (if ns >= 2 && Anchor2(p) < i then 1 else 0)
    + (if ns >= 3 && Anchor3a(p) < i && Anchor3a(p) != Anchor2(p) then 1 else 0)
    + (if ns >= 3 && Anchor3b(p) < i && Anchor3b(p) != Anchor2(p) then 1 else 0)
  }

  lemma {:induction false} BitcountIs(ib: nat, ns: nat, p: nat, i: nat)
    requires p < 64 && 0 < ib
    ensures Bitcount(ib, ns, p, i) == i * ib - Anchors(ns, p, i)
  {
    hide Anchor2, Anchor3a, Anchor3b;
    if i > 0 {
      BitcountIs(ib, ns, p, i - 1);
      ThirdAnchorsDiffer(p);
      assert i * ib == (i - 1) * ib + ib;
    }
  }

  /** The bit after the last index. */
  function End(m: nat, p: nat): nat
    requires m < 8 && p < 64
  {
    var mi := Info(m);
    IndicesAt(m) + Bitcount(mi.ib, mi.ns, p, 16) + if mi.ib2 > 0 then 16 * mi.ib2 - 1 else 0
  }

  /** With three subsets, one of their anchors is also the one that is used with two. */
  predicate AnchorsMeet(p: nat)
    requires p < 64
  {
    Anchor2(p) == Anchor3a(p) || Anchor2(p) == Anchor3b(p)
  }

  /** Reading takes up the whole block exactly when there are fewer than three subsets or the anchors meet;
      otherwise one index is a bit too short, and the last bit of the block is never read. */
  lemma WholeBlockIff(m: nat, p: nat)
    requires m < 8 && p < 64
    ensures End(m, p) == 128 <==> Info(m).ns < 3 || AnchorsMeet(p)
    ensures End(m, p) == 128 || End(m, p) == 127
  {
    hide Anchor2, Anchor3a, Anchor3b, IndicesAt, Bitcount;
    var mi := Info(m);
    Layout(m);
    BitcountIs(mi.ib, mi.ns, p, 16);
    ThirdAnchorsDiffer(p);
  }

  /** A partition for which the last bit is never read. */
  lemma LastBitUnread()
    ensures End(0, 1) == 127
  {
    WholeBlockIff(0, 1);
    assert Anchor2(1) == 15 && Anchor3a(1) == 3 && Anchor3b(1) == 8;
  }

  // ----- End points -----

  /** A value of 4 to 8 bits spread over eight: its high bits are repeated below it. */
  function Expand(v: nat, bits: nat): (e: nat)
    requires 4 <= bits <= 8 && v < Pow2(bits)
    ensures e < 256
  {
    assert Pow2(0) == 1 && Pow2(4) == 16 && Pow2(5) == 32 && Pow2(6) == 64 && Pow2(7) == 128 && Pow2(8) == 256;
    if bits == 8 then v else v * Pow2(8 - bits) + v * Pow2(8 - bits) / Pow2(bits)
  }

  /** Expanding keeps the order, and the value itself in the high bits; the ends of the range go to the ends. */
  lemma ExpandSpreads(v: nat, w: nat, bits: nat)
    requires 4 <= bits <= 8 && v < w < Pow2(bits)
    ensures Expand(v, bits) < Expand(w, bits)
    ensures Expand(v, bits) / Pow2(8 - bits) == v
    ensures Expand(0, bits) == 0 && Expand(Pow2(bits) - 1, bits) == 255
  {
    assert Pow2(0) == 1 && Pow2(1) == 2 && Pow2(2) == 4 && Pow2(3) == 8;
    assert Pow2(4) == 16 && Pow2(5) == 32 && Pow2(6) == 64 && Pow2(7) == 128 && Pow2(8) == 256;
    if bits == 4 {} else if bits == 5 {} else if bits == 6 {} else if bits == 7 {} else {}
  }

  predicate HasP(mi: Mode) {
    mi.epb > 0 || mi.spb > 0
  }

  /** The p-bit of an end point: its own, or that of its subset. */
  function PBit(block: seq<Byte>, m: nat, ep: nat): (p: nat)
    requires IsBlock(block) && m < 8
    ensures p < 2
  {
    assert Pow2(1) == 2;
    Field(block, PBitsAt(m) + if Info(m).epb > 0 then ep else ep / 2, 1)
  }

  function WithP(block: seq<Byte>, m: nat, ep: nat, v: nat): nat
    requires IsBlock(block) && m < 8
  {
    if HasP(Info(m)) then 2 * v + PBit(block, m, ep) else v
  }

  /** The color of an end point as it is stored: all end points' reds come first, then the greens, then the blues. */
  function StoredColor(block: seq<Byte>, m: nat, ep: nat, ch: nat): (v: nat)
    requires IsBlock(block) && m < 8
    ensures v < Pow2(Info(m).cb)
  {
    Field(block, ColorsAt(m) + (ch * (2 * Info(m).ns) + ep) * Info(m).cb, Info(m).cb)
  }

  function StoredAlpha(block: seq<Byte>, m: nat, ep: nat): (v: nat)
    requires IsBlock(block) && m < 8
    ensures v < Pow2(Info(m).ab)
  {
    Field(block, AlphasAt(m) + ep * Info(m).ab, Info(m).ab)
  }

  function ColorBits(mi: Mode): nat { mi.cb + if HasP(mi) then 1 else 0 }

  function AlphaBits(mi: Mode): nat { mi.ab + if HasP(mi) then 1 else 0 }

  lemma WithPInRange(block: seq<Byte>, m: nat, ep: nat, v: nat, bits: nat)
    requires IsBlock(block) && m < 8 && v < Pow2(bits)
    ensures WithP(block, m, ep, v) < Pow2(bits + if HasP(Info(m)) then 1 else 0)
  {
  }

  lemma DepthsInRange(m: nat)
    requires m < 8
    ensures 4 <= ColorBits(Info(m)) <= 8 && (Info(m).ab > 0 ==> 4 <= AlphaBits(Info(m)) <= 8)
  {
  }

  /** Channel `ch` of an end point. Without stored alpha, end points are opaque. */
  function EndPoint(block: seq<Byte>, m: nat, ep: nat, ch: nat): (e: nat)
    requires IsBlock(block) && m < 8 && ch < 4
    ensures e < 256
  {
    DepthsInRange(m);
    if ch < 3 then
      WithPInRange(block, m, ep, StoredColor(block, m, ep, ch), Info(m).cb);
      Expand(WithP(block, m, ep, StoredColor(block, m, ep, ch)), ColorBits(Info(m)))
    else if Info(m).ab > 0 then
      WithPInRange(block, m, ep, StoredAlpha(block, m, ep), Info(m).ab);
      Expand(WithP(block, m, ep, StoredAlpha(block, m, ep)), AlphaBits(Info(m)))
    else 255
  }

  // ----- Texels -----

  /** The weight of the second end point, in 64ths. */
  function Weight(bits: nat, index: nat): (w: nat)
    requires 2 <= bits <= 4 && index < Pow2(bits)
    ensures w <= 64
  {
    assert Pow2(0) == 1 && Pow2(2) == 4 && Pow2(3) == 8 && Pow2(4) == 16;
    if bits == 2 then [0, 21, 43, 64][index]
    else if bits == 3 then [0, 9, 18, 27, 37, 46, 55, 64][index]
    else [0, 4, 9, 13, 17, 21, 26, 30, 34, 38, 43, 47, 51, 55, 60, 64][index]
  }

  function Interp(e0: nat, e1: nat, index: nat, bits: nat): nat
    requires 2 <= bits <= 4 && index < Pow2(bits)
  {
    (e0 * (64 - Weight(bits, index)) + e1 * Weight(bits, index) + 32) / 64
  }

  lemma Scaled(d: nat, w: nat)
    requires w <= 64
    ensures 0 <= d * w <= 64 * d
  {
  }

  lemma Mix(e0: nat, e1: nat, w: nat)
    requires w <= 64
    ensures e0 <= e1 ==> 64 * e0 <= e0 * (64 - w) + e1 * w <= 64 * e1
    ensures e1 <= e0 ==> 64 * e1 <= e0 * (64 - w) + e1 * w <= 64 * e0
  {
    if e0 <= e1 {
      Scaled(e1 - e0, w);
      assert e0 * (64 - w) + e1 * w == 64 * e0 + (e1 - e0) * w;
    } else {
      Scaled(e0 - e1, 64 - w);
      assert e0 * (64 - w) + e1 * w == 64 * e1 + (e0 - e1) * (64 - w);
    }
  }

  /** An interpolated value lies between its end points. */
  lemma InterpBetween(e0: nat, e1: nat, index: nat, bits: nat)
    requires 2 <= bits <= 4 && index < Pow2(bits)
    ensures var v := Interp(e0, e1, index, bits);
            (e0 <= e1 ==> e0 <= v <= e1) && (e1 <= e0 ==> e1 <= v <= e0)
  {
    hide Weight;
    var w := Weight(bits, index);
    Mix(e0, e1, w);
  }

  lemma WeightMirrors(bits: nat, index: nat)
    requires 2 <= bits <= 4 && index < Pow2(bits)
    ensures Weight(bits, index) + Weight(bits, Pow2(bits) - 1 - index) == 64
    ensures Weight(bits, 0) == 0 && Weight(bits, Pow2(bits) - 1) == 64
  {
    assert Pow2(0) == 1 && Pow2(2) == 4 && Pow2(3) == 8 && Pow2(4) == 16;
  }

  /** Counting the index from the other end is the same as swapping the end points. */
  lemma InterpMirrors(e0: nat, e1: nat, index: nat, bits: nat)
    requires 2 <= bits <= 4 && index < Pow2(bits)
    ensures Interp(e0, e1, index, bits) == Interp(e1, e0, Pow2(bits) - 1 - index, bits)
    ensures Interp(e0, e1, 0, bits) == e0 && Interp(e0, e1, Pow2(bits) - 1, bits) == e1
  {
    WeightMirrors(bits, index);
  }

  /** The subset of a texel. */
  function Subset(ns: nat, p: nat, i: nat): (s: nat)
    requires p < 64 && i < 16
    ensures s < (if 2 <= ns <= 3 then ns else 1)
  {
    if ns == 3 then Partition3(p)[i] else if ns == 2 then Partition2(p)[i] else 0
  }

  /** The first index of a texel: it comes right after those of the texels before it. */
  function Index(block: seq<Byte>, m: nat, i: nat): (x: nat)
    requires IsBlock(block) && m < 8 && i < 16
    ensures x < Pow2(Info(m).ib)
  {
    var mi, p := Info(m), Partition(block, m);
    Field(block, IndicesAt(m) + Bitcount(mi.ib, mi.ns, p, i), Width(mi.ib, mi.ns, p, i))
  }

  /** The second index of a texel, in the two modes that have one. */
  function Index2(block: seq<Byte>, m: nat, i: nat): (x: nat)
    requires IsBlock(block) && m < 8 && i < 16 && Info(m).ib2 > 0
    ensures x < Pow2(Info(m).ib2)
  {
    var mi, p := Info(m), Partition(block, m);
    var start := IndicesAt(m) + Bitcount(mi.ib, mi.ns, p, 16);
    if i == 0 then Field(block, start, mi.ib2 - 1) else Field(block, start + i * mi.ib2 - 1, mi.ib2)
  }

  function Rotation(block: seq<Byte>, m: nat): nat
    requires IsBlock(block) && m < 8
  {
    Field(block, m + 1 + Info(m).pb, Info(m).rb)
  }

  /** The colors take the second index and alpha the first, instead of the other way round. */
  predicate Swapped(block: seq<Byte>, m: nat)
    requires IsBlock(block) && m < 8
  {
    Field(block, m + 1 + Info(m).pb + Info(m).rb, Info(m).isb) != 0
  }

  /** The index that a channel takes, and its width. */
  function ChannelIndex(block: seq<Byte>, m: nat, i: nat, ch: nat): (x: (nat, nat))
    requires IsBlock(block) && m < 8 && i < 16 && ch < 4
    ensures 2 <= x.1 <= 4 && x.0 < Pow2(x.1)
  {
    if Info(m).ib2 > 0 && (ch == 3) != Swapped(block, m) then (Index2(block, m, i), Info(m).ib2)
    else (Index(block, m, i), Info(m).ib)
  }

  /** A channel of a texel before rotation. */
  function Channel(block: seq<Byte>, m: nat, i: nat, ch: nat): (v: Byte)
    requires IsBlock(block) && m < 8 && i < 16 && ch < 4
  {
    if ch == 3 && Info(m).ab == 0 then 255
    else
      var s := Subset(Info(m).ns, Partition(block, m), i);
      var x := ChannelIndex(block, m, i, ch);
      var e0, e1 := EndPoint(block, m, 2 * s, ch), EndPoint(block, m, 2 * s + 1, ch);
      InterpBetween(e0, e1, x.0, x.1);
      Interp(e0, e1, x.0, x.1)
  }

  /** The rotation exchanges alpha with one of the colors. */
  function Source(rotation: nat, ch: nat): (c: nat)
    requires ch < 4
    ensures c < 4
  {
    if 1 <= rotation <= 3 && ch == 3 then rotation - 1
    else if 1 <= rotation <= 3 && ch == rotation - 1 then 3 else ch
  }

  /** What a block stands for: 16 texels of four bytes. A block without a mode is all zero. */
  function Texel(block: seq<Byte>, i: nat, ch: nat): Byte
    requires IsBlock(block) && i < 16 && ch < 4
  {
    var m := ModeOf(block);
    if m == 8 then 0 else Channel(block, m, i, Source(Rotation(block, m), ch))
  }

  lemma OpaqueEnds(block: seq<Byte>, m: nat, ep: nat)
    requires IsBlock(block) && m < 8
    ensures Info(m).ab == 0 ==> EndPoint(block, m, ep, 3) == 255
  {
  }

  /** Every channel of a texel lies between the two end points of its subset. */
  lemma ChannelBetween(block: seq<Byte>, m: nat, i: nat, ch: nat)
    requires IsBlock(block) && m < 8 && i < 16 && ch < 4
    ensures var s := Subset(Info(m).ns, Partition(block, m), i);
            var v, e0, e1 := Channel(block, m, i, ch), EndPoint(block, m, 2 * s, ch), EndPoint(block, m, 2 * s + 1, ch);
            e0 <= v <= e1 || e1 <= v <= e0
  {
    hide Subset, EndPoint, ChannelIndex, Interp;
    var s, x := Subset(Info(m).ns, Partition(block, m), i), ChannelIndex(block, m, i, ch);
    OpaqueEnds(block, m, 2 * s);
    OpaqueEnds(block, m, 2 * s + 1);
    InterpBetween(EndPoint(block, m, 2 * s, ch), EndPoint(block, m, 2 * s + 1, ch), x.0, x.1);
  }

  lemma NoRotation(block: seq<Byte>, m: nat)
    requires IsBlock(block) && m < 4
    ensures Rotation(block, m) == 0
  {
    assert Pow2(0) == 1;
  }

  lemma OpaqueChannel(block: seq<Byte>, m: nat, i: nat)
    requires IsBlock(block) && m < 4 && i < 16
    ensures Channel(block, m, i, 3) == 255
  {
    hide Interp, ChannelIndex, EndPoint;
  }

  /** The first four modes have no alpha: all their texels are opaque. */
  lemma OpaqueModes(block: seq<Byte>, i: nat)
    requires IsBlock(block) && i < 16 && ModeOf(block) < 4
    ensures Texel(block, i, 3) == 255
  {
    hide Channel, Field;
    var m := ModeOf(block);
    NoRotation(block, m);
    OpaqueChannel(block, m, i);
  }
}
