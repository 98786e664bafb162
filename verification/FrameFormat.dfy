/** The LZ4 frame format: what a frame means, decoded in one pass. */
module FrameFormat {
  import opened BlockFormat
  import XxHash32

  const LZ4F_MAGICNUMBER := 0x184D2204
  const LZ4F_MAGIC_SKIPPABLE_START := 0x184D2A50
  const LZ4F_BLOCKUNCOMPRESSED_FLAG := 0x8000_0000

  const minFHSize := 7
  const maxFHSize := 19
  const BHSize := 4
  const BFSize := 4

  function LE32(s: seq<byte>, p: nat): nat
    requires p + 4 <= |s|
  {
    XxHash32.LE32(s, p)
  }

  function LE64(s: seq<byte>, p: nat): nat
    requires p + 8 <= |s|
  {
    LE32(s, p) + 0x1_0000_0000 * LE32(s, p + 4)
  }

  function Checksum(s: seq<byte>): (r: nat)
    ensures r < 0x1_0000_0000
  {
    XxHash32.Hash(s, 0)
  }

  /** LZ4F_headerChecksum: one byte of the checksum. */
  function HeaderChecksum(s: seq<byte>): byte {
    Checksum(s) / 0x100 % 0x100
  }

  // ---------- Frame descriptor ----------

  /** contentSize is 0 when the frame does not declare it. */
  datatype FrameInfo = FrameInfo(linked: bool, blockChecksum: bool, contentChecksum: bool, blockSizeID: nat, contentSize: nat)

  predicate ValidBlockSizeID(id: nat) { 4 <= id <= 7 }

  /** LZ4F_getBlockSize: 64 KB, 256 KB, 1 MB or 4 MB. */
  function BlockSize(id: nat): (r: nat)
    requires ValidBlockSizeID(id)
    ensures 0x1_0000 <= r <= 0x40_0000
  {
    if id == 4 then 0x1_0000 else if id == 5 then 0x4_0000 else if id == 6 then 0x10_0000 else 0x40_0000
  }

  function Flag(b: byte, bit: nat): bool
    requires bit < 8
  {
    b as int / [1, 2, 4, 8, 16, 32, 64, 128][bit] % 2 == 1
  }

  /** Version number and reserved bit of the FLG byte. */
  predicate FlgOk(flg: byte) {
    flg as int / 64 == 1 && !Flag(flg, 1)
  }

  /** Reserved bits and block size of the BD byte. */
  predicate BdOk(bd: byte) {
    bd < 128 && bd as int % 16 == 0 && bd as int / 16 >= 4
  }

  /** Length of a header with this FLG byte. */
  function HeaderLength(flg: byte): (r: nat)
    ensures minFHSize <= r <= maxFHSize
  {
    minFHSize + (if Flag(flg, 3) then 8 else 0) + (if Flag(flg, 0) then 4 else 0)
  }

  function InfoOf(f: seq<byte>): (r: FrameInfo)
    requires |f| >= minFHSize && |f| >= HeaderLength(f[4]) && BdOk(f[5])
    ensures ValidBlockSizeID(r.blockSizeID)
  {
    FrameInfo(!Flag(f[4], 5), Flag(f[4], 4), Flag(f[4], 2), f[5] as int / 16, if Flag(f[4], 3) then LE64(f, 6) else 0)
  }

  /** f starts with a frame header that respects the format. */
  predicate HeaderOk(f: seq<byte>) {
    && |f| >= minFHSize && LE32(f, 0) == LZ4F_MAGICNUMBER
    && FlgOk(f[4]) && |f| >= HeaderLength(f[4])
    && BdOk(f[5])
    && f[HeaderLength(f[4]) - 1] == HeaderChecksum(f[4..HeaderLength(f[4]) - 1])
  }

  // ---------- Data blocks ----------

  function CrcSize(info: FrameInfo): (r: nat)
    ensures r <= 4
  {
    if info.blockChecksum then BFSize else 0
  }

  /** What follows the end mark: nothing, or the checksum of the content. */
  function EndOfFrame(f: seq<byte>, info: FrameInfo, p: nat, out: seq<byte>): Decoded
    requires p <= |f|
  {
    if info.contentSize != 0 && |out| != info.contentSize then Malformed
    else if info.contentChecksum then
      if p + 4 == |f| && LE32(f, p) == Checksum(out) then Decoded(out) else Malformed
    else
      if p == |f| then Decoded(out) else Malformed
  }

  /** Size of the data of a block, from its header. */
  function DataSize(h: nat): nat {
    h % LZ4F_BLOCKUNCOMPRESSED_FLAG
  }

  /** The block whose header is at p is there as a whole, no larger than allowed, and its checksum, if any, is right. */
  predicate BlockThere(f: seq<byte>, info: FrameInfo, p: nat)
    requires ValidBlockSizeID(info.blockSizeID)
  {
    && p + BHSize <= |f|
    && (var n := DataSize(LE32(f, p));
        && n <= BlockSize(info.blockSizeID)
        && p + BHSize + n + CrcSize(info) <= |f|
        && (info.blockChecksum ==> LE32(f, p + BHSize + n) == Checksum(f[p + BHSize..p + BHSize + n])))
  }

  /** What a block of a frame refers to: everything before it, or nothing. */
  function History(info: FrameInfo, out: seq<byte>): seq<byte> {
    if info.linked then out else []
  }

  /** The data of a compressed block is a block of the block format, and not too large. */
  ghost predicate DataOk(info: FrameInfo, data: seq<byte>, out: seq<byte>)
    requires ValidBlockSizeID(info.blockSizeID)
  {
    WellFormed(data, History(info, out)) && |Text(data, History(info, out))| <= BlockSize(info.blockSizeID)
  }

  /** The data of the block at p, and where the next block starts. */
  function BlockData(f: seq<byte>, info: FrameInfo, p: nat): seq<byte>
    requires ValidBlockSizeID(info.blockSizeID) && BlockThere(f, info, p)
  {
    f[p + BHSize..p + BHSize + DataSize(LE32(f, p))]
  }

  function NextBlock(f: seq<byte>, info: FrameInfo, p: nat): (r: nat)
    requires ValidBlockSizeID(info.blockSizeID) && BlockThere(f, info, p)
    ensures p < r <= |f|
  {
    p + BHSize + DataSize(LE32(f, p)) + CrcSize(info)
  }

  /** The text of the block at p. */
  ghost function TextAt(f: seq<byte>, info: FrameInfo, p: nat, out: seq<byte>): seq<byte>
    requires ValidBlockSizeID(info.blockSizeID) && BlockThere(f, info, p)
    requires LE32(f, p) < LZ4F_BLOCKUNCOMPRESSED_FLAG ==> DataOk(info, BlockData(f, info, p), out)
  {
    if LE32(f, p) >= LZ4F_BLOCKUNCOMPRESSED_FLAG then BlockData(f, info, p)
    else Text(BlockData(f, info, p), History(info, out))
  }

  /** The block at p is a raw one, or a valid compressed one. */
  ghost predicate BlockOk(f: seq<byte>, info: FrameInfo, p: nat, out: seq<byte>)
    requires ValidBlockSizeID(info.blockSizeID)
  {
    && BlockThere(f, info, p)
    && (LE32(f, p) < LZ4F_BLOCKUNCOMPRESSED_FLAG ==> DataOk(info, BlockData(f, info, p), out))
  }

  /** The rest of the frame f from the block header at p on, with the text out before it. */
  ghost function DecodeBlocks(f: seq<byte>, info: FrameInfo, p: nat, out: seq<byte>): Decoded
    requires p <= |f| && ValidBlockSizeID(info.blockSizeID)
    decreases |f| - p
  {
    if p + BHSize > |f| then Malformed
    else if LE32(f, p) == 0 then EndOfFrame(f, info, p + BHSize, out)
    else if BlockOk(f, info, p, out) then DecodeBlocks(f, info, NextBlock(f, info, p), out + TextAt(f, info, p, out))
    else Malformed
  }

  predicate Skippable(f: seq<byte>) {
    |f| >= 8 && LE32(f, 0) / 16 == LZ4F_MAGIC_SKIPPABLE_START / 16
  }

  /** The text of a whole frame; a skippable frame has none. */
  ghost function DecodeFrame(f: seq<byte>): Decoded {
    if Skippable(f) then
      if |f| == 8 + LE32(f, 4) then Decoded([]) else Malformed
    else if HeaderOk(f) then DecodeBlocks(f, InfoOf(f), HeaderLength(f[4]), [])
    else Malformed
  }

  // ---------- A frame ends where it ends ----------

  lemma LE32Longer(f: seq<byte>, tail: seq<byte>, p: nat)
    requires p + 4 <= |f|
    ensures LE32(f + tail, p) == LE32(f, p)
  {
    var g := f + tail;
    assert g[p] == f[p] && g[p + 1] == f[p + 1] && g[p + 2] == f[p + 2] && g[p + 3] == f[p + 3];
  }

  /** A block is the same with bytes behind the frame. */
  lemma BlockLonger(f: seq<byte>, tail: seq<byte>, info: FrameInfo, p: nat, out: seq<byte>)
    requires ValidBlockSizeID(info.blockSizeID) && BlockOk(f, info, p, out)
    ensures BlockOk(f + tail, info, p, out) && NextBlock(f + tail, info, p) == NextBlock(f, info, p)
    ensures TextAt(f + tail, info, p, out) == TextAt(f, info, p, out)
  {
    hide XxHash32.LE32, Checksum, DataOk, BlockSize;
    var n := DataSize(LE32(f, p));
    LE32Longer(f, tail, p);
    assert (f + tail)[p + BHSize..p + BHSize + n] == f[p + BHSize..p + BHSize + n];
    if info.blockChecksum { LE32Longer(f, tail, p + BHSize + n); }
  }

  lemma {:induction false} BlocksDelimited(f: seq<byte>, tail: seq<byte>, info: FrameInfo, p: nat, out: seq<byte>)
    requires p <= |f| && ValidBlockSizeID(info.blockSizeID) && DecodeBlocks(f, info, p, out).Decoded? && tail != []
    ensures DecodeBlocks(f + tail, info, p, out) == Malformed
    decreases |f| - p
  {
    hide LE32, BlockThere, DataOk, Checksum;
    LE32Longer(f, tail, p);
    if LE32(f, p) != 0 {
      BlockLonger(f, tail, info, p, out);
      BlocksDelimited(f, tail, info, NextBlock(f, info, p), out + TextAt(f, info, p, out));
    }
  }

  /** Bytes behind a whole frame make it something else. */
  lemma FrameDelimited(f: seq<byte>, tail: seq<byte>)
    requires DecodeFrame(f).Decoded? && tail != []
    ensures DecodeFrame(f + tail) == Malformed
  {
    hide DecodeBlocks, XxHash32.LE32, Checksum;
    if Skippable(f) {
      LE32Longer(f, tail, 0);
      LE32Longer(f, tail, 4);
    } else {
      LE32Longer(f, tail, 0);
      HeaderStays(f, tail);
      BlocksDelimited(f, tail, InfoOf(f), HeaderLength(f[4]), []);
    }
  }

  lemma HeaderStays(f: seq<byte>, tail: seq<byte>)
    requires HeaderOk(f)
    ensures HeaderOk(f + tail) && InfoOf(f + tail) == InfoOf(f) && (f + tail)[4] == f[4] && !Skippable(f + tail)
  {
    hide XxHash32.LE32, Checksum;
    var n := HeaderLength(f[4]);
    LE32Longer(f, tail, 0);
    assert (f + tail)[4..n - 1] == f[4..n - 1];
    if Flag(f[4], 3) {
      LE32Longer(f, tail, 6);
      LE32Longer(f, tail, 10);
    }
  }
}
