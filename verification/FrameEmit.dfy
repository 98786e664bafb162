/** Frames as they are written: a header, blocks, an end. */
module FrameEmit {
  import opened BlockFormat
  import opened FrameFormat
  import XxHash32

  /** LZ4F_writeLE32. */
  function LE32Bytes(n: nat): (r: seq<byte>)
    requires n < 0x1_0000_0000
    ensures |r| == 4
  {
    [n % 0x100, n / 0x100 % 0x100, n / 0x1_0000 % 0x100, n / 0x100_0000]
  }

  lemma LE32RoundTrip(n: nat)
    requires n < 0x1_0000_0000
    ensures LE32(LE32Bytes(n), 0) == n
  {
    var a := n / 0x100;
    var b := a / 0x100;
    assert n / 0x1_0000 == b && n / 0x100_0000 == b / 0x100;
  }

  lemma LE32Shift(pre: seq<byte>, b: seq<byte>, rest: seq<byte>, i: nat)
    requires i + 4 <= |b|
    ensures LE32(pre + b + rest, |pre| + i) == LE32(b, i)
  {
    var s := pre + b + rest;
    assert s[|pre| + i] == b[i] && s[|pre| + i + 1] == b[i + 1] && s[|pre| + i + 2] == b[i + 2] && s[|pre| + i + 3] == b[i + 3];
  }

  lemma SliceShift(pre: seq<byte>, b: seq<byte>, rest: seq<byte>, i: nat, j: nat)
    requires i <= j <= |b|
    ensures (pre + b + rest)[|pre| + i..|pre| + j] == b[i..j]
  {
  }

  /** f is the beginning of a frame: a header and whole blocks whose text is out. */
  ghost predicate Stands(f: seq<byte>, info: FrameInfo, out: seq<byte>) {
    && ValidBlockSizeID(info.blockSizeID)
    && forall rest: seq<byte> :: DecodeFrame(f + rest) == DecodeBlocks(f + rest, info, |f|, out)
  }

  /** b is a whole block, header and checksum included, that stands for text behind out. */
  ghost predicate IsBlock(b: seq<byte>, info: FrameInfo, out: seq<byte>, text: seq<byte>) {
    && ValidBlockSizeID(info.blockSizeID) && |b| >= BHSize && LE32(b, 0) != 0
    && BlockOk(b, info, 0, out) && NextBlock(b, info, 0) == |b| && TextAt(b, info, 0, out) == text
  }

  /** A block means the same wherever it stands in a frame. */
  lemma BlockShift(pre: seq<byte>, b: seq<byte>, rest: seq<byte>, info: FrameInfo, out: seq<byte>, text: seq<byte>)
    requires IsBlock(b, info, out, text)
    ensures var f := pre + b + rest;
      && |pre| + BHSize <= |f| && LE32(f, |pre|) != 0
      && BlockOk(f, info, |pre|, out) && NextBlock(f, info, |pre|) == |pre + b| && TextAt(f, info, |pre|, out) == text
  {
    hide XxHash32.LE32, Checksum, DataOk, BlockSize;
    var f, n := pre + b + rest, DataSize(LE32(b, 0));
    LE32Shift(pre, b, rest, 0);
    SliceShift(pre, b, rest, BHSize, BHSize + n);
    if info.blockChecksum { LE32Shift(pre, b, rest, BHSize + n); }
  }

  /** The block at p is decoded, then what follows it. */
  lemma BlockPassed(g: seq<byte>, info: FrameInfo, p: nat, out: seq<byte>, next: nat, text: seq<byte>)
    requires ValidBlockSizeID(info.blockSizeID) && p + BHSize <= |g| && LE32(g, p) != 0
    requires BlockOk(g, info, p, out) && NextBlock(g, info, p) == next && TextAt(g, info, p, out) == text
    ensures DecodeBlocks(g, info, p, out) == DecodeBlocks(g, info, next, out + text)
  {
    hide LE32, BlockOk, EndOfFrame, NextBlock, TextAt;
  }

  /** One more block. */
  lemma BlockStands(f: seq<byte>, info: FrameInfo, out: seq<byte>, b: seq<byte>, text: seq<byte>)
    requires Stands(f, info, out) && IsBlock(b, info, out, text)
    ensures Stands(f + b, info, out + text)
  {
    hide DecodeFrame, LE32, BlockOk, IsBlock, DecodeBlocks, NextBlock, TextAt;
    forall rest: seq<byte> ensures DecodeFrame(f + b + rest) == DecodeBlocks(f + b + rest, info, |f + b|, out + text) {
      BlockShift(f, b, rest, info, out, text);
      BlockPassed(f + b + rest, info, |f|, out, |f + b|, text);
      assert f + b + rest == f + (b + rest);
      assert DecodeFrame(f + (b + rest)) == DecodeBlocks(f + (b + rest), info, |f|, out);
    }
  }

  /** What ends a frame whose content is out. */
  function EndBytes(info: FrameInfo, out: seq<byte>): seq<byte> {
    LE32Bytes(0) + (if info.contentChecksum then LE32Bytes(Checksum(out)) else [])
  }

  /** The end mark makes it a whole frame. */
  lemma FrameEnds(f: seq<byte>, info: FrameInfo, out: seq<byte>)
    requires Stands(f, info, out) && (info.contentSize != 0 ==> |out| == info.contentSize)
    ensures DecodeFrame(f + EndBytes(info, out)) == Decoded(out)
  {
    hide DecodeFrame, XxHash32.LE32, Checksum, BlockOk;
    var e := EndBytes(info, out);
    assert f + e + [] == f + e;
    LE32Shift(f, LE32Bytes(0), e[4..], 0);
    assert f + LE32Bytes(0) + e[4..] == f + e;
    LE32RoundTrip(0);
    if info.contentChecksum {
      LE32Shift(f + LE32Bytes(0), LE32Bytes(Checksum(out)), [], 0);
      assert f + LE32Bytes(0) + LE32Bytes(Checksum(out)) + [] == f + e;
      LE32RoundTrip(Checksum(out));
    }
  }

  /** A header alone is the beginning of a frame without text. */
  lemma HeaderStands(h: seq<byte>)
    requires HeaderOk(h) && |h| == HeaderLength(h[4])
    ensures Stands(h, InfoOf(h), [])
  {
    hide DecodeBlocks, XxHash32.LE32, Checksum;
    forall rest: seq<byte> ensures DecodeFrame(h + rest) == DecodeBlocks(h + rest, InfoOf(h), |h|, []) {
      HeaderLonger(h, rest);
    }
  }

  lemma HeaderLonger(h: seq<byte>, rest: seq<byte>)
    requires HeaderOk(h) && |h| == HeaderLength(h[4])
    ensures HeaderOk(h + rest) && InfoOf(h + rest) == InfoOf(h) && !Skippable(h + rest) && HeaderLength((h + rest)[4]) == |h|
  {
    hide XxHash32.LE32, Checksum;
    assert [] + h + rest == h + rest;
    LE32Shift([], h, rest, 0);
    assert (h + rest)[4..|h| - 1] == h[4..|h| - 1];
    if Flag(h[4], 3) {
      LE32Shift([], h, rest, 6);
      LE32Shift([], h, rest, 10);
    }
  }

  /** A block as it is written: its header, its data and, if the frame has them, its checksum. */
  function BlockBytes(header: nat, data: seq<byte>, info: FrameInfo): seq<byte>
    requires header < 0x1_0000_0000
  {
    LE32Bytes(header) + data + (if info.blockChecksum then LE32Bytes(Checksum(data)) else [])
  }

  lemma BlockBytesRead(header: nat, data: seq<byte>, info: FrameInfo)
    requires ValidBlockSizeID(info.blockSizeID)
    requires 0 < header < 0x1_0000_0000 && DataSize(header) == |data| <= BlockSize(info.blockSizeID)
    ensures var b := BlockBytes(header, data, info);
      LE32(b, 0) == header && BlockThere(b, info, 0) && NextBlock(b, info, 0) == |b| && BlockData(b, info, 0) == data
  {
    hide XxHash32.LE32, Checksum, BlockSize;
    var b, n := BlockBytes(header, data, info), |data|;
    var crc := if info.blockChecksum then LE32Bytes(Checksum(data)) else [];
    LE32RoundTrip(header);
    assert [] + LE32Bytes(header) + (data + crc) == b;
    LE32Shift([], LE32Bytes(header), data + crc, 0);
    SliceShift(LE32Bytes(header), data, crc, 0, n);
    if info.blockChecksum {
      LE32RoundTrip(Checksum(data));
      assert LE32Bytes(header) + data + crc + [] == b;
      LE32Shift(LE32Bytes(header) + data, crc, [], 0);
    }
  }

  /** A raw block. */
  lemma RawIsBlock(info: FrameInfo, out: seq<byte>, text: seq<byte>)
    requires ValidBlockSizeID(info.blockSizeID) && |text| <= BlockSize(info.blockSizeID)
    ensures IsBlock(BlockBytes(LZ4F_BLOCKUNCOMPRESSED_FLAG + |text|, text, info), info, out, text)
  {
    hide XxHash32.LE32, Checksum, DataOk;
    BlockBytesRead(LZ4F_BLOCKUNCOMPRESSED_FLAG + |text|, text, info);
  }

  /** A compressed block. */
  lemma CompressedIsBlock(info: FrameInfo, out: seq<byte>, data: seq<byte>, text: seq<byte>)
    requires ValidBlockSizeID(info.blockSizeID) && 0 < |data| <= BlockSize(info.blockSizeID) && |text| <= BlockSize(info.blockSizeID)
    requires Represents(data, History(info, out), text)
    ensures IsBlock(BlockBytes(|data|, data, info), info, out, text)
  {
    hide XxHash32.LE32, Checksum, Decode, Conforming, Represents;
    BlockBytesRead(|data|, data, info);
    RepresentsIsWellFormed(data, History(info, out), text);
  }
}
