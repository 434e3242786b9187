/** The block decoder: one pass over the bits of a block. */
module Bc7Decode {
  import opened Basics
  import opened Bits
  import opened Bc7Tables
  import opened Bc7

  lemma OneMore(k: nat, w: nat)
    ensures (k + 1) * w == k * w + w
  {
  }

  lemma ColorFits(m: nat, k: nat)
    requires m < 8 && k < 6 * Info(m).ns
    ensures ColorsAt(m) + k * Info(m).cb + Info(m).cb <= 128
  {
    var n, w := 6 * Info(m).ns, Info(m).cb;
    assert n * w == (n - 1 - k) * w + k * w + w;
    assert ColorsAt(m) + n * w <= 128;
  }

  lemma AlphaFits(m: nat, k: nat)
    requires m < 8 && k < 2 * Info(m).ns
    ensures AlphasAt(m) + k * Info(m).ab + Info(m).ab <= 128
  {
    var n, w := 2 * Info(m).ns, Info(m).ab;
    assert n * w == (n - 1 - k) * w + k * w + w;
    assert AlphasAt(m) + n * w <= 128;
  }

  /** The end point buffer: six end points of four channels. */
  predicate IsBuffer(endpoints: array2<nat>) {
    endpoints.Length0 == 6 && endpoints.Length1 == 4
  }

  lemma InfoFits(m: nat)
    requires m < 8
    ensures 1 <= Info(m).ns <= 3 && 2 <= Info(m).ib
  {
  }

  lemma ColorsEnd(m: nat)
    requires m < 8
    ensures ColorsAt(m) + 3 * (2 * Info(m).ns) * Info(m).cb == AlphasAt(m)
  {
  }

  lemma ColorAt(block: seq<Byte>, m: nat, ep: nat, ch: nat)
    requires IsBlock(block) && m < 8 && ep < 2 * Info(m).ns && ch < 3
    ensures var pos := ColorsAt(m) + (ch * (2 * Info(m).ns) + ep) * Info(m).cb;
            pos + Info(m).cb <= 128 && StoredColor(block, m, ep, ch) == Slice(block, pos, Info(m).cb)
  {
    var n := 2 * Info(m).ns;
    assert ch * n <= 2 * n;
    ColorFits(m, ch * n + ep);
  }

  method ReadColors(br: BitReader, endpoints: array2<nat>, m: nat)
    requires IsBlock(br.data) && m < 8 && br.pos == ColorsAt(m) && IsBuffer(endpoints)
    modifies br`pos, endpoints
    ensures br.pos == AlphasAt(m)
    ensures forall ep, ch :: 0 <= ep < 2 * Info(m).ns && 0 <= ch < 3 ==>
              endpoints[ep, ch] == StoredColor(br.data, m, ep, ch)
  {
    hide StoredColor, Info, Pow2;
    var numEp, cb := 2 * Info(m).ns, Info(m).cb;
    InfoFits(m);
    var ch := 0;
    while ch < 3
      invariant 0 <= ch <= 3 && br.pos == ColorsAt(m) + ch * numEp * cb
      invariant forall e, c :: 0 <= e < numEp && 0 <= c < ch ==> endpoints[e, c] == StoredColor(br.data, m, e, c)
    {
      var ep := 0;
      while ep < numEp
        invariant 0 <= ep <= numEp && br.pos == ColorsAt(m) + (ch * numEp + ep) * cb
        invariant forall e, c :: 0 <= e < numEp && 0 <= c < ch ==> endpoints[e, c] == StoredColor(br.data, m, e, c)
        invariant forall e :: 0 <= e < ep ==> endpoints[e, ch] == StoredColor(br.data, m, e, ch)
      {
        ColorAt(br.data, m, ep, ch);
        endpoints[ep, ch] := br.Read(cb);
        OneMore(ch * numEp + ep, cb);
        ep := ep + 1;
      }
      OneMore(ch, numEp);
      ch := ch + 1;
    }
    ColorsEnd(m);
  }

  /** The stored alpha, or full opacity where a mode has none. */
  function AlphaOrOpaque(block: seq<Byte>, m: nat, ep: nat): nat
    requires IsBlock(block) && m < 8
  {
    if Info(m).ab > 0 then StoredAlpha(block, m, ep) else 255
  }

  lemma AlphaAt(block: seq<Byte>, m: nat, ep: nat)
    requires IsBlock(block) && m < 8 && ep < 2 * Info(m).ns
    ensures var pos := AlphasAt(m) + ep * Info(m).ab;
            pos + Info(m).ab <= 128 && StoredAlpha(block, m, ep) == Slice(block, pos, Info(m).ab)
  {
    AlphaFits(m, ep);
  }

  method ReadAlphas(br: BitReader, endpoints: array2<nat>, m: nat)
    requires IsBlock(br.data) && m < 8 && br.pos == AlphasAt(m) && IsBuffer(endpoints)
    modifies br`pos, endpoints
    ensures br.pos == PBitsAt(m)
    ensures forall ep :: 0 <= ep < 2 * Info(m).ns ==> endpoints[ep, 3] == AlphaOrOpaque(br.data, m, ep)
    ensures forall ep, ch :: 0 <= ep < 6 && 0 <= ch < 3 ==> endpoints[ep, ch] == old(endpoints[ep, ch])
  {
    hide StoredAlpha, Info, Pow2;
    var numEp, ab := 2 * Info(m).ns, Info(m).ab;
    InfoFits(m);
    var ep := 0;
    while ep < numEp
      invariant 0 <= ep <= numEp && br.pos == AlphasAt(m) + ep * ab
      invariant forall e :: 0 <= e < ep ==> endpoints[e, 3] == AlphaOrOpaque(br.data, m, e)
      invariant forall e, ch :: 0 <= e < 6 && 0 <= ch < 3 ==> endpoints[e, ch] == old(endpoints[e, ch])
    {
      if ab > 0 {
        AlphaAt(br.data, m, ep);
        endpoints[ep, 3] := br.Read(ab);
      } else {
        endpoints[ep, 3] := 255;
      }
      OneMore(ep, ab);
      ep := ep + 1;
    }
  }

  /** The four channels of end point `ep`. */
  function Row(endpoints: array2<nat>, ep: nat): seq<nat>
    requires IsBuffer(endpoints) && ep < 6
    reads endpoints
  {
    [endpoints[ep, 0], endpoints[ep, 1], endpoints[ep, 2], endpoints[ep, 3]]
  }

  /** End point `ep` as it is read, with its p-bit, and expanded. */
  function Stored(block: seq<Byte>, m: nat, ep: nat): seq<nat>
    requires IsBlock(block) && m < 8
  {
    [StoredColor(block, m, ep, 0), StoredColor(block, m, ep, 1), StoredColor(block, m, ep, 2),
      AlphaOrOpaque(block, m, ep)]
  }

  function Doubled(row: seq<nat>, pbit: nat, alpha: bool): seq<nat>
    requires |row| == 4
  {
    [row[0] * 2 + pbit, row[1] * 2 + pbit, row[2] * 2 + pbit, if alpha then row[3] * 2 + pbit else row[3]]
  }

  function Completed(block: seq<Byte>, m: nat, ep: nat): seq<nat>
    requires IsBlock(block) && m < 8
  {
    if HasP(Info(m)) then Doubled(Stored(block, m, ep), PBit(block, m, ep), Info(m).ab > 0) else Stored(block, m, ep)
  }

  function Expanded(block: seq<Byte>, m: nat, ep: nat): seq<nat>
    requires IsBlock(block) && m < 8
  {
    [EndPoint(block, m, ep, 0), EndPoint(block, m, ep, 1), EndPoint(block, m, ep, 2), EndPoint(block, m, ep, 3)]
  }

  /** Puts a p-bit below the channels of one end point. */
  method AddPBit(endpoints: array2<nat>, ep: nat, pbit: nat, alpha: bool)
    requires IsBuffer(endpoints) && ep < 6
    modifies endpoints
    ensures Row(endpoints, ep) == Doubled(old(Row(endpoints, ep)), pbit, alpha)
    ensures forall e :: 0 <= e < 6 && e != ep ==> Row(endpoints, e) == old(Row(endpoints, e))
  {
    var ch := 0;
    while ch < 3
      invariant 0 <= ch <= 3
      invariant forall c :: 0 <= c < ch ==> endpoints[ep, c] == old(endpoints[ep, c]) * 2 + pbit
      invariant forall c :: ch <= c < 4 ==> endpoints[ep, c] == old(endpoints[ep, c])
      invariant forall e, c :: 0 <= e < 6 && 0 <= c < 4 && e != ep ==> endpoints[e, c] == old(endpoints[e, c])
    {
      endpoints[ep, ch] := endpoints[ep, ch] * 2 + pbit;
      ch := ch + 1;
    }
    if alpha {
      endpoints[ep, 3] := endpoints[ep, 3] * 2 + pbit;
    }
  }

  lemma PBitAt(block: seq<Byte>, m: nat, ep: nat)
    requires IsBlock(block) && m < 8 && ep < 2 * Info(m).ns && HasP(Info(m))
    ensures var pos := PBitsAt(m) + if Info(m).epb > 0 then ep else ep / 2;
            pos + 1 <= 128 && PBit(block, m, ep) == Slice(block, pos, 1)
  {
  }

  method AddPBits(br: BitReader, endpoints: array2<nat>, m: nat)
    requires IsBlock(br.data) && m < 8 && br.pos == PBitsAt(m) && IsBuffer(endpoints)
    requires 2 * Info(m).ns <= 6 && forall ep :: 0 <= ep < 2 * Info(m).ns ==>
               Row(endpoints, ep) == Stored(br.data, m, ep)
    modifies br`pos, endpoints
    ensures br.pos == IndicesAt(m)
    ensures forall ep :: 0 <= ep < 2 * Info(m).ns ==> Row(endpoints, ep) == Completed(br.data, m, ep)
  {
    hide Stored, Row, Doubled, Info, Pow2, PBit;
    var mi := Info(m);
    if mi.epb > 0 {
      var ep := 0;
      while ep < 2 * mi.ns
        invariant 0 <= ep <= 2 * mi.ns && br.pos == PBitsAt(m) + ep
        invariant forall e :: 0 <= e < ep ==> Row(endpoints, e) == Completed(br.data, m, e)
        invariant forall e :: ep <= e < 2 * mi.ns ==> Row(endpoints, e) == Stored(br.data, m, e)
      {
        PBitAt(br.data, m, ep);
        var pbit := br.Read(1);
        AddPBit(endpoints, ep, pbit, mi.ab > 0);
        ep := ep + 1;
      }
    } else if mi.spb > 0 {
      var s := 0;
      while s < mi.ns
        invariant 0 <= s <= mi.ns && br.pos == PBitsAt(m) + s
        invariant forall e :: 0 <= e < 2 * s ==> Row(endpoints, e) == Completed(br.data, m, e)
        invariant forall e :: 2 * s <= e < 2 * mi.ns ==> Row(endpoints, e) == Stored(br.data, m, e)
      {
        PBitAt(br.data, m, 2 * s);
        PBitAt(br.data, m, 2 * s + 1);
        var pbit := br.Read(1);
        AddPBit(endpoints, 2 * s, pbit, mi.ab > 0);
        AddPBit(endpoints, 2 * s + 1, pbit, mi.ab > 0);
        s := s + 1;
      }
    }
  }

  method ExpandOne(endpoints: array2<nat>, ep: nat, mi: Mode, ghost block: seq<Byte>, ghost m: nat)
    requires IsBlock(block) && m < 8 && mi == Info(m) && IsBuffer(endpoints) && ep < 6
    requires Row(endpoints, ep) == Completed(block, m, ep)
    modifies endpoints
    ensures Row(endpoints, ep) == Expanded(block, m, ep)
    ensures forall e :: 0 <= e < 6 && e != ep ==> Row(endpoints, e) == old(Row(endpoints, e))
  {
    hide StoredColor, StoredAlpha, Info, Pow2, PBit, Expand;
    DepthsInRange(m);
    ghost var was := Row(endpoints, ep);
    var ch := 0;
    while ch < 3
      invariant 0 <= ch <= 3
      invariant forall c :: 0 <= c < ch ==> endpoints[ep, c] == EndPoint(block, m, ep, c)
      invariant forall c :: ch <= c < 4 ==> endpoints[ep, c] == old(endpoints[ep, c])
      invariant forall e, c :: 0 <= e < 6 && 0 <= c < 4 && e != ep ==> endpoints[e, c] == old(endpoints[e, c])
    {
      WithPInRange(block, m, ep, StoredColor(block, m, ep, ch), mi.cb);
      assert endpoints[ep, ch] == was[ch] == WithP(block, m, ep, StoredColor(block, m, ep, ch));
      endpoints[ep, ch] := Expand(endpoints[ep, ch], ColorBits(mi));
      ch := ch + 1;
    }
    if mi.ab > 0 {
      WithPInRange(block, m, ep, StoredAlpha(block, m, ep), mi.ab);
      assert endpoints[ep, 3] == was[3];
      endpoints[ep, 3] := Expand(endpoints[ep, 3], AlphaBits(mi));
    }
  }

  method ExpandAll(endpoints: array2<nat>, m: nat, ghost block: seq<Byte>)
    requires IsBlock(block) && m < 8 && IsBuffer(endpoints) && 2 * Info(m).ns <= 6
    requires forall ep :: 0 <= ep < 2 * Info(m).ns ==> Row(endpoints, ep) == Completed(block, m, ep)
    modifies endpoints
    ensures forall ep :: 0 <= ep < 2 * Info(m).ns ==> Row(endpoints, ep) == Expanded(block, m, ep)
  {
    hide Row, Completed, Expanded, Info;
    var mi := Info(m);
    var ep := 0;
    while ep < 2 * mi.ns
      invariant 0 <= ep <= 2 * mi.ns
      invariant forall e :: 0 <= e < ep ==> Row(endpoints, e) == Expanded(block, m, e)
      invariant forall e :: ep <= e < 2 * mi.ns ==> Row(endpoints, e) == Completed(block, m, e)
    {
      ExpandOne(endpoints, ep, mi, block, m);
      ep := ep + 1;
    }
  }

  /** All end points: read, completed with p-bits, and expanded. */
  method ReadEndPoints(br: BitReader, endpoints: array2<nat>, m: nat)
    requires IsBlock(br.data) && m < 8 && br.pos == ColorsAt(m) && IsBuffer(endpoints)
    modifies br`pos, endpoints
    ensures br.pos == IndicesAt(m)
    ensures forall ep :: 0 <= ep < 2 * Info(m).ns ==> Row(endpoints, ep) == Expanded(br.data, m, ep)
  {
    hide StoredColor, AlphaOrOpaque, Info, Pow2, Completed, Expanded;
    InfoFits(m);
    ReadColors(br, endpoints, m);
    ReadAlphas(br, endpoints, m);
    AddPBits(br, endpoints, m);
    ExpandAll(endpoints, m, br.data);
  }

  // ----- Indices -----

  lemma {:induction false} BitcountGrows(ib: nat, ns: nat, p: nat, i: nat, j: nat)
    requires p < 64 && 0 < ib && i <= j
    ensures Bitcount(ib, ns, p, i) <= Bitcount(ib, ns, p, j)
    decreases j
  {
    hide IsAnchor;
    if i < j { BitcountGrows(ib, ns, p, i, j - 1); }
  }

  lemma IndexEnds(m: nat, p: nat, i: nat)
    requires m < 8 && p < 64 && i < 16
    ensures var mi := Info(m); IndicesAt(m) + Bitcount(mi.ib, mi.ns, p, i) + Width(mi.ib, mi.ns, p, i) <= 128
  {
    hide Anchor2, Anchor3a, Anchor3b, Info, IndicesAt, Width;
    InfoFits(m);
    var mi := Info(m);
    assert Bitcount(mi.ib, mi.ns, p, i + 1) == Bitcount(mi.ib, mi.ns, p, i) + Width(mi.ib, mi.ns, p, i);
    BitcountGrows(mi.ib, mi.ns, p, i + 1, 16);
    WholeBlockIff(m, p);
  }

  lemma IndexFits(block: seq<Byte>, m: nat, i: nat)
    requires IsBlock(block) && m < 8 && i < 16
    ensures var mi, p := Info(m), Partition(block, m);
            var pos, n := IndicesAt(m) + Bitcount(mi.ib, mi.ns, p, i), Width(mi.ib, mi.ns, p, i);
            pos + n <= 128 && Index(block, m, i) == Slice(block, pos, n)
  {
    hide Partition, Info, IndicesAt, Bitcount, Width;
    InfoFits(m);
    IndexEnds(m, Partition(block, m), i);
  }

  method ReadIndices(br: BitReader, indices: array<nat>, m: nat, partition: nat)
    requires IsBlock(br.data) && m < 8 && br.pos == IndicesAt(m) && partition == Partition(br.data, m)
             && indices.Length == 16
    modifies br`pos, indices
    ensures br.pos == IndicesAt(m) + Bitcount(Info(m).ib, Info(m).ns, partition, 16)
    ensures forall i :: 0 <= i < 16 ==> indices[i] == Index(br.data, m, i)
  {
    hide Index, Anchor2, Anchor3a, Anchor3b, Pow2, IndicesAt, Partition;
    var mi := Info(m);
    var i := 0;
    while i < 16
      invariant 0 <= i <= 16 && br.pos == IndicesAt(m) + Bitcount(mi.ib, mi.ns, partition, i)
      invariant forall k :: 0 <= k < i ==> indices[k] == Index(br.data, m, k)
    {
      var isAnchor := i == 0;
      if mi.ns >= 2 {
        isAnchor := isAnchor || i == Anchor2(partition);
      }
      if mi.ns >= 3 {
        isAnchor := isAnchor || i == Anchor3a(partition) || i == Anchor3b(partition);
      }
      IndexFits(br.data, m, i);
      var index := br.Read(mi.ib - if isAnchor then 1 else 0);
      indices[i] := index;
      i := i + 1;
    }
  }

  function Indices2At(m: nat, p: nat, i: nat): int
    requires m < 8 && p < 64
  {
    IndicesAt(m) + Bitcount(Info(m).ib, Info(m).ns, p, 16) + if i == 0 then 0 else i * Info(m).ib2 - 1
  }

  lemma Index2Fits(block: seq<Byte>, m: nat, i: nat)
    requires IsBlock(block) && m < 8 && i < 16 && Info(m).ib2 > 0
    ensures var pos, n := Indices2At(m, Partition(block, m), i), if i == 0 then Info(m).ib2 - 1 else Info(m).ib2;
            0 <= pos && pos + n <= 128 && Index2(block, m, i) == Slice(block, pos, n)
  {
    hide Anchor2, Anchor3a, Anchor3b, Partition, Bitcount, IndicesAt;
    WholeBlockIff(m, Partition(block, m));
  }

  method ReadIndices2(br: BitReader, indices2: array<nat>, m: nat, ghost p: nat)
    requires IsBlock(br.data) && m < 8 && p == Partition(br.data, m) && Info(m).ib2 > 0
    requires br.pos == Indices2At(m, p, 0) && indices2.Length == 16
    modifies br`pos, indices2
    ensures br.pos == End(m, p)
    ensures forall i :: 0 <= i < 16 ==> indices2[i] == Index2(br.data, m, i)
  {
    hide Index2, Pow2, IndicesAt, Partition, Bitcount, Info, Slice;
    InfoFits(m);
    var mi := Info(m);
    var i := 0;
    while i < 16
      invariant 0 <= i <= 16 && br.pos == Indices2At(m, p, i)
      invariant forall k :: 0 <= k < i ==> indices2[k] == Index2(br.data, m, k)
    {
      Index2Fits(br.data, m, i);
      var index := br.Read(mi.ib2 - if i == 0 then 1 else 0);
      indices2[i] := index;
      OneMore(i, mi.ib2);
      i := i + 1;
    }
  }

  // ----- Texels -----

  lemma SameChannel(endpoints: array2<nat>, block: seq<Byte>, m: nat, ep: nat, ch: nat)
    requires IsBlock(block) && m < 8 && IsBuffer(endpoints) && ep < 6 && ch < 4
    requires Row(endpoints, ep) == Expanded(block, m, ep)
    ensures endpoints[ep, ch] == EndPoint(block, m, ep, ch)
  {
    hide EndPoint;
    assert endpoints[ep, ch] == Row(endpoints, ep)[ch];
    assert Expanded(block, m, ep)[ch] == EndPoint(block, m, ep, ch);
  }

  lemma SubsetFits(block: seq<Byte>, m: nat, i: nat)
    requires IsBlock(block) && m < 8 && i < 16
    ensures Subset(Info(m).ns, Partition(block, m), i) < Info(m).ns <= 3
  {
    hide Subset;
  }

  /** One channel of a texel, from the buffers. */
  method Interpolate(endpoints: array2<nat>, m: nat, i: nat, ch: nat, s: nat, index: nat, bits: nat,
                     ghost block: seq<Byte>)
    returns (v: Byte)
    requires IsBlock(block) && m < 8 && i < 16 && ch < 4 && IsBuffer(endpoints)
    requires forall ep :: 0 <= ep < 2 * Info(m).ns ==> Row(endpoints, ep) == Expanded(block, m, ep)
    requires s == Subset(Info(m).ns, Partition(block, m), i) && (index, bits) == ChannelIndex(block, m, i, ch)
    requires ch == 3 ==> Info(m).ab > 0
    ensures v == Channel(block, m, i, ch)
  {
    hide Subset, ChannelIndex, EndPoint, Info, Pow2;
    SubsetFits(block, m, i);
    assert Row(endpoints, 2 * s) == Expanded(block, m, 2 * s);
    assert Row(endpoints, 2 * s + 1) == Expanded(block, m, 2 * s + 1);
    SameChannel(endpoints, block, m, 2 * s, ch);
    SameChannel(endpoints, block, m, 2 * s + 1, ch);
    InterpBetween(endpoints[2 * s, ch], endpoints[2 * s + 1, ch], index, bits);
    v := Interp(endpoints[2 * s, ch], endpoints[2 * s + 1, ch], index, bits);
  }

  /** The color and the alpha index of a texel, and their widths. */
  method PickIndices(indices: array<nat>, indices2: array<nat>, m: nat, i: nat, idxSel: nat, ghost block: seq<Byte>)
    returns (colorIdx: nat, colorBits: nat, alphaIdx: nat, alphaBits: nat)
    requires IsBlock(block) && m < 8 && i < 16 && indices.Length == indices2.Length == 16
    requires indices[i] == Index(block, m, i) && (Info(m).ib2 > 0 ==> indices2[i] == Index2(block, m, i))
    requires (idxSel != 0) == Swapped(block, m)
    ensures forall ch :: 0 <= ch < 3 ==> ChannelIndex(block, m, i, ch) == (colorIdx, colorBits)
    ensures ChannelIndex(block, m, i, 3) == (alphaIdx, alphaBits)
  {
    hide Index, Index2, Swapped, Info;
    var mi := Info(m);
    colorIdx, colorBits := indices[i], mi.ib;
    alphaIdx, alphaBits := indices[i], mi.ib;
    if mi.ib2 > 0 {
      alphaIdx, alphaBits := indices2[i], mi.ib2;
    }
    if idxSel != 0 {
      colorIdx, alphaIdx := alphaIdx, colorIdx;
      colorBits, alphaBits := alphaBits, colorBits;
    }
  }

  lemma NoAlpha(block: seq<Byte>, m: nat, i: nat)
    requires IsBlock(block) && m < 8 && i < 16 && Info(m).ab == 0
    ensures Channel(block, m, i, 3) == 255
  {
    hide Interp, EndPoint, ChannelIndex;
  }

  lemma TexelIs(block: seq<Byte>, m: nat, i: nat, ch: nat)
    requires IsBlock(block) && m == ModeOf(block) < 8 && i < 16 && ch < 4
    ensures Texel(block, i, ch) == Channel(block, m, i, Source(Rotation(block, m), ch))
  {
    hide Channel, ModeOf;
  }

  /** Writes one texel: interpolates its channels and exchanges two of them as the rotation says. */
  method WriteTexel(endpoints: array2<nat>, indices: array<nat>, indices2: array<nat>, out: array<Byte>,
                    m: nat, i: nat, partition: nat, rotation: nat, idxSel: nat, ghost block: seq<Byte>)
    requires IsBlock(block) && m < 8 && m == ModeOf(block) && i < 16
    requires IsBuffer(endpoints) && indices.Length == indices2.Length == 16 && out.Length == 64
    requires forall ep :: 0 <= ep < 2 * Info(m).ns ==> Row(endpoints, ep) == Expanded(block, m, ep)
    requires indices[i] == Index(block, m, i) && (Info(m).ib2 > 0 ==> indices2[i] == Index2(block, m, i))
    requires partition == Partition(block, m) && rotation == Rotation(block, m) && (idxSel != 0) == Swapped(block, m)
    modifies out
    ensures forall ch :: 0 <= ch < 4 ==> out[4 * i + ch] == Texel(block, i, ch)
    ensures forall k :: 0 <= k < 64 && !(4 * i <= k < 4 * i + 4) ==> out[k] == old(out[k])
  {
    hide Index, Index2, Subset, ChannelIndex, Info, Row, Expanded, Channel, Partition, Rotation, Swapped, ModeOf,
      Interp;
    var s := Subset(Info(m).ns, partition, i);
    var colorIdx, colorBits, alphaIdx, alphaBits := PickIndices(indices, indices2, m, i, idxSel, block);
    var c0 := Interpolate(endpoints, m, i, 0, s, colorIdx, colorBits, block);
    var c1 := Interpolate(endpoints, m, i, 1, s, colorIdx, colorBits, block);
    var c2 := Interpolate(endpoints, m, i, 2, s, colorIdx, colorBits, block);
    var c3: Byte := 255;
    if Info(m).ab > 0 {
      c3 := Interpolate(endpoints, m, i, 3, s, alphaIdx, alphaBits, block);
    } else {
      NoAlpha(block, m, i);
    }
    var d := 4 * i;
    out[d], out[d + 1], out[d + 2], out[d + 3] := c0, c1, c2, c3;
    if rotation == 1 {
      out[d + 3], out[d] := out[d], out[d + 3];
    } else if rotation == 2 {
      out[d + 3], out[d + 1] := out[d + 1], out[d + 3];
    } else if rotation == 3 {
      out[d + 3], out[d + 2] := out[d + 2], out[d + 3];
    }
    TexelIs(block, m, i, 0);
    TexelIs(block, m, i, 1);
    TexelIs(block, m, i, 2);
    TexelIs(block, m, i, 3);
  }

  // ----- Blocks -----

  lemma FirstByte(block: seq<Byte>, k: nat)
    requires IsBlock(block) && k < 8
    ensures Bit(block, k) == BitOf(block[0], k)
    ensures BitOf(block[0], k) == 0 || Bit(block, k) == 1
  {
  }

  /** The mode: the number of zero bits before the first one. */
  method FindMode(block: seq<Byte>) returns (mode: nat)
    requires IsBlock(block)
    ensures mode == ModeOf(block)
  {
    hide Bit;
    mode := 0;
    while mode < 8 && BitOf(block[0], mode) == 0
      invariant mode <= 8 && ModeFrom(block, mode) == ModeOf(block)
    {
      FirstByte(block, mode);
      mode := mode + 1;
    }
    if mode < 8 { FirstByte(block, mode); }
  }

  lemma HeaderFits(block: seq<Byte>, m: nat)
    requires IsBlock(block) && m < 8
    ensures var mi := Info(m); m + 1 + mi.pb + mi.rb + mi.isb <= 128 && mi.isb <= 1
    ensures forall pos: nat :: pos <= 128 ==> Slice(block, pos, 0) == 0
  {
  }

  method ReadHeader(br: BitReader, m: nat) returns (partition: nat, rotation: nat, idxSel: nat)
    requires IsBlock(br.data) && m < 8 && br.pos == m + 1
    modifies br`pos
    ensures br.pos == ColorsAt(m)
    ensures partition == Partition(br.data, m) && rotation == Rotation(br.data, m)
            && (idxSel != 0) == Swapped(br.data, m)
  {
    HeaderFits(br.data, m);
    hide Slice, Pow2, Info;
    var mi := Info(m);
    partition, rotation, idxSel := 0, 0, 0;
    if mi.pb > 0 {
      partition := br.Read(mi.pb);
    }
    if mi.rb > 0 {
      rotation := br.Read(mi.rb);
    }
    if mi.isb > 0 {
      idxSel := br.Read(1);
    }
  }

  /** Decodes a block into 64 bytes. `end` is where reading stopped. */
  method DecodeBlock(block: seq<Byte>, out: array<Byte>) returns (ghost end: nat)
    requires IsBlock(block) && out.Length == 64
    modifies out
    ensures forall i, ch :: 0 <= i < 16 && 0 <= ch < 4 ==> out[4 * i + ch] == Texel(block, i, ch)
    ensures var m := ModeOf(block); if m == 8 then end == 0 else end == End(m, Partition(block, m))
  {
    hide Index, Index2, Info, Row, Expanded, Channel, Partition, Rotation, Swapped, ModeOf, Pow2, IndicesAt, Bitcount;
    var m := FindMode(block);
    if m >= 8 {
      forall k | 0 <= k < 64 {
        out[k] := 0;
      }
      return 0;
    }
    var br := new BitReader(block, m + 1);
    var partition, rotation, idxSel := ReadHeader(br, m);
    var endpoints := new nat[6, 4];
    ReadEndPoints(br, endpoints, m);
    var indices, indices2 := new nat[16], new nat[16];
    ReadIndices(br, indices, m, partition);
    if Info(m).ib2 > 0 {
      ReadIndices2(br, indices2, m, partition);
    }
    end := br.pos;
    var i := 0;
    while i < 16
      modifies out
      invariant 0 <= i <= 16
      invariant forall k, ch :: 0 <= k < i && 0 <= ch < 4 ==> out[4 * k + ch] == Texel(block, k, ch)
    {
      WriteTexel(endpoints, indices, indices2, out, m, i, partition, rotation, idxSel, block);
      i := i + 1;
    }
  }
}
