/** Decoding an image block by block, row by row of each block, into pixels of four bytes. */
module Bc7Image {
  import opened Basics
  import opened Bits
  import opened Bc7
  import opened Bc7Decode
  import opened Permutations

  /** How many blocks it takes to cover a length. */
  function Blocks(length: nat): nat {
    (length + 3) / 4
  }

  // ----- Pixel numbers -----

  /** The row and the column of pixel `n`. */
  function RowOf(n: nat, width: nat): (y: nat)
    requires 0 < width
  {
    n / width
  }

  function ColumnOf(n: nat, width: nat): (x: nat)
    requires 0 < width
    ensures x < width
  {
    n % width
  }

  lemma RowsBelow(y: nat, width: nat, height: nat)
    requires y < height
    ensures y * width + width <= width * height
  {
    assert (height - 1 - y) * width >= 0;
    assert (height - 1 - y) * width == height * width - width - y * width;
  }

  lemma PixelAt(x: nat, y: nat, width: nat, height: nat)
    requires x < width && y < height
    ensures y * width + x < width * height
    ensures RowOf(y * width + x, width) == y && ColumnOf(y * width + x, width) == x
  {
    QuotientIs(y * width + x, width, y, x);
    RowsBelow(y, width, height);
  }

  lemma PixelIs(n: nat, width: nat, height: nat)
    requires 0 < width && n < width * height
    ensures n == RowOf(n, width) * width + ColumnOf(n, width) && RowOf(n, width) < height
  {
    var y := n / width;
    assert n == width * y + n % width;
    assert y >= height ==> width * (y - height) >= 0;
    assert width * (y - height) == width * y - width * height;
  }

  /** The pixels of row `y` in the blocks' column `blockX`. */
  predicate InRow(n: nat, width: nat, height: nat, blockX: nat, y: nat)
    requires 0 < width
  {
    n < width * height && RowOf(n, width) == y && ColumnOf(n, width) / 4 == blockX
  }

  predicate InBlock(n: nat, width: nat, height: nat, blockX: nat, blockY: nat)
    requires 0 < width
  {
    n < width * height && RowOf(n, width) / 4 == blockY && ColumnOf(n, width) / 4 == blockX
  }

  /** The texel that pixel `n` takes from the block it lies in. */
  function Place(n: nat, width: nat): (i: nat)
    requires 0 < width
    ensures i < 16
  {
    RowOf(n, width) % 4 * 4 + ColumnOf(n, width) % 4
  }

  /** The four bytes of pixel `n`. */
  function Pixel(bytes: seq<Byte>, n: nat): seq<Byte> {
    if 4 * n + 4 <= |bytes| then [bytes[4 * n], bytes[4 * n + 1], bytes[4 * n + 2], bytes[4 * n + 3]] else []
  }

  // ----- Writing -----

  /** One write to the image: pixel `n` becomes `texel`. */
  datatype Write = Write(n: nat, texel: seq<Byte>)

  function Put(bytes: seq<Byte>, w: Write): (r: seq<Byte>)
    ensures |r| == |bytes|
  {
    if 4 * w.n + 4 <= |bytes| && |w.texel| == 4
    then bytes[..4 * w.n] + w.texel + bytes[4 * w.n + 4..]
    else bytes
  }

  /** The image after the writes of `log`, one after the other. */
  function Replay(bytes: seq<Byte>, log: seq<Write>): (r: seq<Byte>)
    ensures |r| == |bytes|
  {
    if log == [] then bytes else Put(Replay(bytes, log[..|log| - 1]), log[|log| - 1])
  }

  /** The pixels that a log writes, in order. */
  function Pixels(log: seq<Write>): (pixels: seq<nat>)
    ensures |pixels| == |log|
  {
    seq(|log|, i requires 0 <= i < |log| => log[i].n)
  }

  lemma {:induction false} ReplayConcat(bytes: seq<Byte>, log: seq<Write>, more: seq<Write>)
    ensures Replay(bytes, log + more) == Replay(Replay(bytes, log), more)
  {
    hide Put;
    if more == [] {
      assert log + more == log;
    } else {
      var n := |more| - 1;
      ReplayConcat(bytes, log, more[..n]);
      assert (log + more)[..|log| + n] == log + more[..n];
    }
  }

  lemma PixelsConcat(log: seq<Write>, more: seq<Write>)
    ensures Pixels(log + more) == Pixels(log) + Pixels(more)
  {
  }

  lemma SamePixel(s: seq<Byte>, t: seq<Byte>, n: nat, m: nat)
    requires |s| == |t| && m != n && forall k :: 0 <= k < |s| && !(4 * n <= k < 4 * n + 4) ==> t[k] == s[k]
    ensures Pixel(t, m) == Pixel(s, m)
  {
  }

  lemma PutIs(was: seq<Byte>, now: seq<Byte>, w: Write)
    requires 4 * w.n + 4 <= |was| == |now| && |w.texel| == 4
    requires forall k :: 0 <= k < |now| ==>
               now[k] == if 4 * w.n <= k < 4 * w.n + 4 then w.texel[k - 4 * w.n] else was[k]
    ensures now == Put(was, w)
  {
  }

  lemma PutPixel(bytes: seq<Byte>, w: Write)
    requires 4 * w.n + 4 <= |bytes| && |w.texel| == 4
    ensures Pixel(Put(bytes, w), w.n) == w.texel
    ensures forall m: nat :: m != w.n ==> Pixel(Put(bytes, w), m) == Pixel(bytes, m)
    ensures forall k :: 4 * w.n + 4 <= k < |bytes| ==> Put(bytes, w)[k] == bytes[k]
  {
    var r := Put(bytes, w);
    assert forall k :: 0 <= k < |r| ==> r[k] == if 4 * w.n <= k < 4 * w.n + 4 then w.texel[k - 4 * w.n] else bytes[k];
    hide Put;
    forall m: nat | m != w.n ensures Pixel(r, m) == Pixel(bytes, m) {
      SamePixel(bytes, r, w.n, m);
    }
  }

  lemma EmptyLog()
    ensures Pixels([]) == [] && forall bytes :: Replay(bytes, []) == bytes
  {
  }

  lemma ReplayOne(bytes: seq<Byte>, w: Write)
    ensures Replay(bytes, [w]) == Put(bytes, w) && Pixels([w]) == [w.n]
  {
    assert Replay(bytes, [w][..0]) == bytes;
  }

  // ----- Copying -----

  method CopyPixel(rgba: array<Byte>, i: nat, dst: array<Byte>, n: nat) returns (ghost log: seq<Write>)
    requires rgba.Length == 64 && i < 16 && 4 * n + 4 <= dst.Length && rgba != dst
    modifies dst
    ensures Pixels(log) == [n] && dst[..] == Replay(old(dst[..]), log)
    ensures Pixel(dst[..], n) == Pixel(rgba[..], i)
    ensures forall m: nat :: m != n ==> Pixel(dst[..], m) == Pixel(old(dst[..]), m)
    ensures forall k :: 4 * n + 4 <= k < dst.Length ==> dst[k] == old(dst[k])
  {
    hide Replay, Pixels;
    ghost var w := Write(n, Pixel(rgba[..], i));
    log := [w];
    ReplayOne(dst[..], w);
    dst[4 * n], dst[4 * n + 1] := rgba[4 * i], rgba[4 * i + 1];
    dst[4 * n + 2], dst[4 * n + 3] := rgba[4 * i + 2], rgba[4 * i + 3];
    forall k | 0 <= k < dst.Length
      ensures dst[..][k] == if 4 * n <= k < 4 * n + 4 then w.texel[k - 4 * n] else old(dst[..])[k]
    {
    }
    PutIs(old(dst[..]), dst[..], w);
    PutPixel(old(dst[..]), w);
  }

  /** The pixels in `written` have been copied from a block, and no others have changed. */
  ghost predicate Copied(was: seq<Byte>, now: seq<Byte>, rgba: seq<Byte>, written: seq<nat>, width: nat)
    requires 0 < width
  {
    forall n: nat :: Pixel(now, n) == if n in written then Pixel(rgba, Place(n, width)) else Pixel(was, n)
  }

  lemma OneMoreCopied(was: seq<Byte>, before: seq<Byte>, now: seq<Byte>, rgba: seq<Byte>, written: seq<nat>, width: nat,
                      n: nat)
    requires 0 < width && Copied(was, before, rgba, written, width)
    requires Pixel(now, n) == Pixel(rgba, Place(n, width))
    requires forall m: nat :: m != n ==> Pixel(now, m) == Pixel(before, m)
    ensures Copied(was, now, rgba, written + [n], width)
  {
    hide Pixel, Place;
  }

  /** The pixels of a row before its `px`-th one. */
  predicate InRowBefore(n: nat, width: nat, height: nat, blockX: nat, y: nat, px: nat)
    requires 0 < width
  {
    InRow(n, width, height, blockX, y) && ColumnOf(n, width) < blockX * 4 + px
  }

  lemma NothingCopied(was: seq<Byte>, rgba: seq<Byte>, width: nat, height: nat, blockX: nat, y: nat)
    requires 0 < width
    ensures Copied(was, was, rgba, [], width)
    ensures forall n: nat :: !InRowBefore(n, width, height, blockX, y, 0)
  {
  }

  lemma RowDone(width: nat, height: nat, blockX: nat, y: nat, px: nat)
    requires 0 < width && (4 <= px || width <= blockX * 4 + px)
    ensures forall n: nat :: InRowBefore(n, width, height, blockX, y, px) <==> InRow(n, width, height, blockX, y)
  {
  }

  /** The pixel that is written next is the only new one in its column. */
  lemma NextColumn(width: nat, height: nat, blockX: nat, y: nat, px: nat)
    requires px < 4 && blockX * 4 + px < width && y < height
    ensures var n := y * width + (blockX * 4 + px);
            && n < width * height && Place(n, width) == y % 4 * 4 + px
            && !InRowBefore(n, width, height, blockX, y, px)
            && forall m: nat :: InRowBefore(m, width, height, blockX, y, px + 1)
                                <==> InRowBefore(m, width, height, blockX, y, px) || m == n
  {
    var n := y * width + (blockX * 4 + px);
    PixelAt(blockX * 4 + px, y, width, height);
    hide RowOf, ColumnOf;
    forall m: nat | InRow(m, width, height, blockX, y) && ColumnOf(m, width) == blockX * 4 + px ensures m == n {
      PixelIs(m, width, height);
    }
  }

  /** Copies one row of a block, as far as the image reaches. `log` are the writes. */
  method CopyRow(rgba: array<Byte>, dst: array<Byte>, width: nat, height: nat, blockX: nat, dy: nat)
    returns (ghost log: seq<Write>)
    requires rgba.Length == 64 && rgba != dst && 4 * (width * height) <= dst.Length
    requires 0 < width && dy < height
    modifies dst
    ensures dst[..] == Replay(old(dst[..]), log)
    ensures Distinct(Pixels(log)) && forall n: nat :: n in Pixels(log) <==> InRow(n, width, height, blockX, dy)
    ensures Copied(old(dst[..]), dst[..], rgba[..], Pixels(log), width)
    ensures forall k :: 4 * (width * height) <= k < dst.Length ==> dst[k] == old(dst[k])
  {
    hide Pixel, Pixels, Replay, Copied, Place, InRow;
    EmptyLog();
    log := [];
    ghost var was := dst[..];
    var px := 0;
    NothingCopied(was, rgba[..], width, height, blockX, dy);
    while px < 4 && blockX * 4 + px < width
      invariant 0 <= px <= 4
      invariant dst[..] == Replay(was, log)
      invariant Distinct(Pixels(log)) && forall n: nat :: n in Pixels(log) <==>
                  InRowBefore(n, width, height, blockX, dy, px)
      invariant Copied(was, dst[..], rgba[..], Pixels(log), width)
      invariant forall k :: 4 * (width * height) <= k < dst.Length ==> dst[k] == was[k]
    {
      var dx := blockX * 4 + px;
      NextColumn(width, height, blockX, dy, px);
      var n := dy * width + dx;
      ghost var before := dst[..];
      ghost var write := CopyPixel(rgba, dy % 4 * 4 + px, dst, n);
      OneMoreCopied(was, before, dst[..], rgba[..], Pixels(log), width, n);
      DistinctConcat(Pixels(log), [n]);
      ReplayConcat(was, log, write);
      PixelsConcat(log, write);
      log := log + write;
      px := px + 1;
    }
    RowDone(width, height, blockX, dy, px);
  }

  // ----- Blocks -----

  lemma MoreCopied(was: seq<Byte>, before: seq<Byte>, now: seq<Byte>, rgba: seq<Byte>, done: seq<nat>, more: seq<nat>,
                   width: nat)
    requires 0 < width && Copied(was, before, rgba, done, width) && Copied(before, now, rgba, more, width)
    requires forall n :: n in done ==> n !in more
    ensures Copied(was, now, rgba, done + more, width)
  {
    hide Pixel, Place;
  }

  /** The pixels of a block in the rows before its `py`-th one. */
  predicate InBlockBefore(n: nat, width: nat, height: nat, blockX: nat, blockY: nat, py: nat)
    requires 0 < width
  {
    InBlock(n, width, height, blockX, blockY) && RowOf(n, width) < blockY * 4 + py
  }

  lemma RowsOfBlock(y: nat, blockY: nat, py: nat)
    requires py < 4
    ensures y / 4 == blockY ==> blockY * 4 <= y
    ensures y == blockY * 4 + py ==> y / 4 == blockY
  {
  }

  lemma NextRowAt(n: nat, width: nat, height: nat, blockX: nat, blockY: nat, py: nat)
    requires 0 < width && py < 4
    ensures InBlockBefore(n, width, height, blockX, blockY, py + 1) <==>
              InBlockBefore(n, width, height, blockX, blockY, py) || InRow(n, width, height, blockX, blockY * 4 + py)
    ensures InBlockBefore(n, width, height, blockX, blockY, py) ==> !InRow(n, width, height, blockX, blockY * 4 + py)
    ensures !InBlockBefore(n, width, height, blockX, blockY, 0)
  {
    hide RowOf, ColumnOf;
    RowsOfBlock(RowOf(n, width), blockY, py);
  }

  lemma NextRow(width: nat, height: nat, blockX: nat, blockY: nat, py: nat)
    requires 0 < width && py < 4
    ensures forall n: nat :: InBlockBefore(n, width, height, blockX, blockY, py + 1) <==>
              InBlockBefore(n, width, height, blockX, blockY, py) || InRow(n, width, height, blockX, blockY * 4 + py)
    ensures forall n: nat :: InBlockBefore(n, width, height, blockX, blockY, py) ==>
              !InRow(n, width, height, blockX, blockY * 4 + py)
    ensures forall n: nat :: !InBlockBefore(n, width, height, blockX, blockY, 0)
  {
    hide InBlockBefore, InRow;
    forall n: nat
      ensures InBlockBefore(n, width, height, blockX, blockY, py + 1) <==>
                InBlockBefore(n, width, height, blockX, blockY, py) || InRow(n, width, height, blockX, blockY * 4 + py)
      ensures InBlockBefore(n, width, height, blockX, blockY, py) ==> !InRow(n, width, height, blockX, blockY * 4 + py)
      ensures !InBlockBefore(n, width, height, blockX, blockY, 0)
    {
      NextRowAt(n, width, height, blockX, blockY, py);
    }
  }

  lemma BlockDone(width: nat, height: nat, blockX: nat, blockY: nat, py: nat)
    requires 0 < width && (4 <= py || height <= blockY * 4 + py)
    ensures forall n: nat :: InBlockBefore(n, width, height, blockX, blockY, py) <==>
              InBlock(n, width, height, blockX, blockY)
  {
    forall n: nat | InBlock(n, width, height, blockX, blockY) ensures RowOf(n, width) < blockY * 4 + py {
      PixelIs(n, width, height);
    }
  }

  lemma NothingYet(was: seq<Byte>, rgba: seq<Byte>, width: nat)
    requires 0 < width
    ensures Copied(was, was, rgba, [], width)
  {
  }

  /** Copies one block, as far as the image reaches. */
  method CopyBlock(rgba: array<Byte>, dst: array<Byte>, width: nat, height: nat, blockX: nat, blockY: nat)
    returns (ghost log: seq<Write>)
    requires rgba.Length == 64 && rgba != dst && 4 * (width * height) <= dst.Length && 0 < width
    modifies dst
    ensures dst[..] == Replay(old(dst[..]), log)
    ensures Distinct(Pixels(log)) && forall n: nat :: n in Pixels(log) <==> InBlock(n, width, height, blockX, blockY)
    ensures Copied(old(dst[..]), dst[..], rgba[..], Pixels(log), width)
    ensures forall k :: 4 * (width * height) <= k < dst.Length ==> dst[k] == old(dst[k])
  {
    hide Copied, InRow, InBlock, InBlockBefore, Pixels, Replay;
    EmptyLog();
    log := [];
    ghost var was := dst[..];
    NothingYet(was, rgba[..], width);
    var py := 0;
    NextRow(width, height, blockX, blockY, 0);
    while py < 4 && blockY * 4 + py < height
      invariant 0 <= py <= 4
      invariant dst[..] == Replay(was, log)
      invariant Distinct(Pixels(log))
      invariant forall n: nat :: n in Pixels(log) <==> InBlockBefore(n, width, height, blockX, blockY, py)
      invariant Copied(was, dst[..], rgba[..], Pixels(log), width)
      invariant forall k :: 4 * (width * height) <= k < dst.Length ==> dst[k] == was[k]
    {
      ghost var before := dst[..];
      ghost var row := CopyRow(rgba, dst, width, height, blockX, blockY * 4 + py);
      NextRow(width, height, blockX, blockY, py);
      MoreCopied(was, before, dst[..], rgba[..], Pixels(log), Pixels(row), width);
      DistinctConcat(Pixels(log), Pixels(row));
      ReplayConcat(was, log, row);
      PixelsConcat(log, row);
      log := log + row;
      py := py + 1;
    }
    BlockDone(width, height, blockX, blockY, py);
  }

  // ----- Images -----

  /** The 16 bytes of block `b`. */
  function BlockAt(src: seq<Byte>, b: nat): (block: seq<Byte>)
    requires 16 * b + 16 <= |src|
    ensures IsBlock(block)
  {
    src[16 * b..16 * b + 16]
  }

  function Texels(block: seq<Byte>, i: nat): seq<Byte>
    requires IsBlock(block) && i < 16
  {
    [Texel(block, i, 0), Texel(block, i, 1), Texel(block, i, 2), Texel(block, i, 3)]
  }

  /** The number of the block that pixel `n` lies in: blocks are stored row by row. */
  function BlockOf(n: nat, width: nat): nat
    requires 0 < width
  {
    RowOf(n, width) / 4 * Blocks(width) + ColumnOf(n, width) / 4
  }

  lemma BlockExists(n: nat, width: nat, height: nat)
    requires 0 < width && n < width * height
    ensures BlockOf(n, width) < Blocks(width) * Blocks(height)
  {
    PixelIs(n, width, height);
    var y, x := RowOf(n, width) / 4, ColumnOf(n, width) / 4;
    RowsBelow(y, Blocks(width), Blocks(height));
  }

  /** What the image should hold in pixel `n`: the texel for it in the block that it lies in. */
  function Wanted(src: seq<Byte>, n: nat, width: nat, height: nat): seq<Byte>
    requires 0 < width && n < width * height && 16 * (Blocks(width) * Blocks(height)) <= |src|
  {
    BlockExists(n, width, height);
    Texels(BlockAt(src, BlockOf(n, width)), Place(n, width))
  }

  lemma BlockAtPixel(x: nat, y: nat, width: nat, height: nat)
    requires x < width && y < height
    ensures var n := y * width + x;
            && n < width * height && Place(n, width) == y % 4 * 4 + x % 4
            && BlockOf(n, width) == y / 4 * Blocks(width) + x / 4 < Blocks(width) * Blocks(height)
  {
    PixelAt(x, y, width, height);
    BlockExists(y * width + x, width, height);
    hide RowOf, ColumnOf, Blocks;
  }

  /** In columns and rows: pixel (`x`, `y`) takes the texel at the same place within its block of four by four, and
      the blocks follow each other row by row, as many in a row as it takes to cover the width. */
  lemma WantedAt(src: seq<Byte>, x: nat, y: nat, width: nat, height: nat, b: nat, i: nat)
    requires x < width && y < height && 16 * (Blocks(width) * Blocks(height)) <= |src|
    requires b == y / 4 * ((width + 3) / 4) + x / 4 && i == y % 4 * 4 + x % 4
    ensures y * width + x < width * height && 16 * b + 16 <= |src| && i < 16
    ensures var block := src[16 * b..16 * b + 16];
            Wanted(src, y * width + x, width, height) ==
            [Texel(block, i, 0), Texel(block, i, 1), Texel(block, i, 2), Texel(block, i, 3)]
  {
    hide Texel, RowOf, ColumnOf, IsBlock;
    BlockAtPixel(x, y, width, height);
  }

  /** The pixels of all blocks before block `b`. */
  predicate InBlocksBefore(n: nat, width: nat, height: nat, b: nat)
    requires 0 < width
  {
    n < width * height && BlockOf(n, width) < b
  }

  lemma BlockNumber(x: nat, y: nat, width: nat)
    requires 0 < width && x < Blocks(width)
    ensures forall n: nat :: RowOf(n, width) / 4 == y && ColumnOf(n, width) / 4 == x <==>
              BlockOf(n, width) == y * Blocks(width) + x
  {
    forall n: nat | BlockOf(n, width) == y * Blocks(width) + x
      ensures RowOf(n, width) / 4 == y && ColumnOf(n, width) / 4 == x
    {
      var w := Blocks(width);
      QuotientIs(BlockOf(n, width), w, RowOf(n, width) / 4, ColumnOf(n, width) / 4);
      QuotientIs(BlockOf(n, width), w, y, x);
    }
  }

  /** What is right so far: the pixels in `written` hold what they should, and no others have changed. */
  ghost predicate Decoded(src: seq<Byte>, was: seq<Byte>, now: seq<Byte>, written: seq<nat>, width: nat, height: nat)
    requires 0 < width && 16 * (Blocks(width) * Blocks(height)) <= |src|
  {
    forall n: nat :: n < width * height ==>
      Pixel(now, n) == if n in written then Wanted(src, n, width, height) else Pixel(was, n)
  }

  lemma BlockDecoded(src: seq<Byte>, was: seq<Byte>, before: seq<Byte>, now: seq<Byte>, rgba: seq<Byte>,
                     done: seq<nat>, more: seq<nat>, width: nat, height: nat, b: nat)
    requires 0 < width && 16 * (Blocks(width) * Blocks(height)) <= |src| && 16 * b + 16 <= |src|
    requires Decoded(src, was, before, done, width, height) && Copied(before, now, rgba, more, width)
    requires forall n :: n in more ==> n < width * height && BlockOf(n, width) == b
    requires forall n :: n in done ==> n !in more
    requires forall i: nat :: i < 16 ==> Pixel(rgba, i) == Texels(BlockAt(src, b), i)
    ensures Decoded(src, was, now, done + more, width, height)
  {
    hide Pixel, Place, Texels, BlockOf;
    forall n: nat | n < width * height
      ensures Pixel(now, n) == if n in done + more then Wanted(src, n, width, height) else Pixel(was, n)
    {
      if n in more {
        assert Pixel(rgba, Place(n, width)) == Texels(BlockAt(src, b), Place(n, width));
      }
    }
  }

  lemma BlockPixels(width: nat, height: nat, blockX: nat, blockY: nat, b: nat)
    requires 0 < width && blockX < Blocks(width) && b == blockY * Blocks(width) + blockX
    ensures forall n: nat :: InBlock(n, width, height, blockX, blockY) <==> n < width * height && BlockOf(n, width) == b
    ensures forall n: nat :: InBlocksBefore(n, width, height, b + 1)
                             <==> InBlocksBefore(n, width, height, b) || InBlock(n, width, height, blockX, blockY)
  {
    BlockNumber(blockX, blockY, width);
    hide BlockOf;
  }

  lemma AllBlocks(width: nat, height: nat)
    requires 0 < width
    ensures forall n: nat :: InBlocksBefore(n, width, height, Blocks(height) * Blocks(width)) <==> n < width * height
  {
    forall n: nat | n < width * height ensures BlockOf(n, width) < Blocks(height) * Blocks(width) {
      BlockExists(n, width, height);
    }
  }

  /** Decodes block `b` into a buffer of its own. */
  method DecodeAt(src: seq<Byte>, b: nat) returns (rgba: array<Byte>)
    requires 16 * b + 16 <= |src|
    ensures fresh(rgba) && rgba.Length == 64
    ensures forall i: nat :: i < 16 ==> Pixel(rgba[..], i) == Texels(BlockAt(src, b), i)
  {
    hide Texel;
    rgba := new Byte[64];
    var block := BlockAt(src, b);
    ghost var end := DecodeBlock(block, rgba);
    forall i: nat | i < 16 ensures Pixel(rgba[..], i) == Texels(block, i) {
      assert rgba[4 * i + 0] == Texel(block, i, 0) && rgba[4 * i + 1] == Texel(block, i, 1);
      assert rgba[4 * i + 2] == Texel(block, i, 2) && rgba[4 * i + 3] == Texel(block, i, 3);
    }
  }

  /** The blocks of an image, row by row. */
  method DecodeBlocks(src: seq<Byte>, dst: array<Byte>, width: nat, height: nat) returns (ghost log: seq<Write>)
    requires 16 * (Blocks(width) * Blocks(height)) <= |src| && 4 * (width * height) <= dst.Length && 0 < width
    modifies dst
    ensures dst[..] == Replay(old(dst[..]), log) && ListsAll(Pixels(log), width * height)
    ensures forall n: nat :: n < width * height ==> Pixel(dst[..], n) == Wanted(src, n, width, height)
    ensures forall k :: 4 * (width * height) <= k < dst.Length ==> dst[k] == old(dst[k])
  {
    hide Pixel, Texels, Texel, InBlock, BlockOf, Wanted, Copied, Pixels, Replay;
    EmptyLog();
    var bw, bh := Blocks(width), Blocks(height);
    log := [];
    ghost var was := dst[..];
    var next := 0;
    var blockY := 0;
    while blockY < bh
      invariant 0 <= blockY <= bh && next == blockY * bw
      invariant dst[..] == Replay(was, log)
      invariant Distinct(Pixels(log)) && forall n: nat :: n in Pixels(log) <==> InBlocksBefore(n, width, height, next)
      invariant Decoded(src, was, dst[..], Pixels(log), width, height)
      invariant forall k :: 4 * (width * height) <= k < dst.Length ==> dst[k] == was[k]
    {
      var blockX := 0;
      while blockX < bw
        invariant 0 <= blockX <= bw && next == blockY * bw + blockX
        invariant dst[..] == Replay(was, log)
        invariant Distinct(Pixels(log)) && forall n: nat :: n in Pixels(log) <==> InBlocksBefore(n, width, height, next)
        invariant Decoded(src, was, dst[..], Pixels(log), width, height)
        invariant forall k :: 4 * (width * height) <= k < dst.Length ==> dst[k] == was[k]
      {
        RowsBelow(blockY, bw, bh);
        var rgba := DecodeAt(src, next);
        ghost var before := dst[..];
        ghost var block := CopyBlock(rgba, dst, width, height, blockX, blockY);
        BlockPixels(width, height, blockX, blockY, next);
        BlockDecoded(src, was, before, dst[..], rgba[..], Pixels(log), Pixels(block), width, height, next);
        DistinctConcat(Pixels(log), Pixels(block));
        ReplayConcat(was, log, block);
        PixelsConcat(log, block);
        log := log + block;
        next := next + 1;
        blockX := blockX + 1;
      }
      OneMore(blockY, bw);
      blockY := blockY + 1;
    }
    AllBlocks(width, height);
  }

  /** Decodes an image. Every pixel is written exactly once, in the order of `log`, with the texel for it in
      the block that it lies in, and nothing outside the image is touched. */
  method DecodeImage(src: seq<Byte>, dst: array<Byte>, width: nat, height: nat) returns (ghost log: seq<Write>)
    requires 16 * (Blocks(width) * Blocks(height)) <= |src| && 4 * (width * height) <= dst.Length
    modifies dst
    ensures dst[..] == Replay(old(dst[..]), log) && ListsAll(Pixels(log), width * height)
    ensures forall n: nat :: 0 < width && n < width * height ==> Pixel(dst[..], n) == Wanted(src, n, width, height)
    ensures forall k :: 4 * (width * height) <= k < dst.Length ==> dst[k] == old(dst[k])
  {
    hide Pixel, Wanted;
    if width > 0 {
      log := DecodeBlocks(src, dst, width, height);
    } else {
      log := [];
    }
  }
}
