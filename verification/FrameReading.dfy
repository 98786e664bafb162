/**
  What a decoder makes of any bytes: how far they are a frame, and the text up to there. A frame of the format is read as
  a whole; beyond that, compressed blocks need not respect the end-of-block restrictions.
 */
module FrameReading {
  import opened BlockFormat
  import opened FrameFormat
  import XxHash32

  /** Unspecified is the reading of frames with a block that uses offset 0, which the format forbids. */
  datatype Ending = Ended(pos: nat) | CutShort | Refused | Unspecified

  /** strict: the blocks, and the declared size, are as the format wants them. */
  datatype Reading = Reading(ending: Ending, text: seq<byte>, strict: bool)

  /**
    The input of a decoder from the beginning of a frame on. left is what is left in its size counter from a frame that has
    been given up; it is 0 in a new decoder, and after a complete frame.
   */
  datatype Input = Input(bytes: seq<byte>, left: nat)

  /** What is missing from the declared size, in 64 bits; without a declared size, the counter keeps what is left in it. */
  function Missing(info: FrameInfo, left: nat, n: nat): (r: nat)
    ensures info.contentSize != 0 && n <= info.contentSize < 0x1_0000_0000_0000_0000 ==> r == info.contentSize - n
  {
    if info.contentSize == 0 then left else (info.contentSize - n) % 0x1_0000_0000_0000_0000
  }

  function ReadEnd(f: seq<byte>, info: FrameInfo, left: nat, p: nat, out: seq<byte>): Reading
    requires p <= |f|
  {
    var strict := info.contentSize == 0 || info.contentSize == |out|;
    if Missing(info, left, |out|) != 0 then Reading(Refused, out, true)
    else if !info.contentChecksum then Reading(Ended(p), out, strict)
    else if p + BFSize > |f| then Reading(CutShort, out, strict)
    else if LE32(f, p) != Checksum(out) then Reading(Refused, out, strict)
    else Reading(Ended(p + BFSize), out, strict)
  }

  /** The data of a compressed block can be decoded, and is not too large. */
  ghost predicate Decodes(info: FrameInfo, data: seq<byte>, out: seq<byte>)
    requires ValidBlockSizeID(info.blockSizeID)
  {
    Decode(data, 0, History(info, out)).Decoded? && |Text(data, History(info, out))| <= BlockSize(info.blockSizeID)
  }

  ghost function DataText(info: FrameInfo, data: seq<byte>, out: seq<byte>): seq<byte>
    requires ValidBlockSizeID(info.blockSizeID) && Decodes(info, data, out)
  {
    Text(data, History(info, out))
  }

  /** From the block header at p on, with the text out before it. */
  ghost function ReadBlocks(f: seq<byte>, info: FrameInfo, left: nat, p: nat, out: seq<byte>): Reading
    requires p <= |f| && ValidBlockSizeID(info.blockSizeID)
    decreases |f| - p, 0
  {
    if p + BHSize > |f| then Reading(CutShort, out, true)
    else if LE32(f, p) == 0 then ReadEnd(f, info, left, p + BHSize, out)
    else if DataSize(LE32(f, p)) > BlockSize(info.blockSizeID) then Reading(Refused, out, true)
    else if LE32(f, p) >= LZ4F_BLOCKUNCOMPRESSED_FLAG then
      ReadRaw(f, info, left, p + BHSize, p + BHSize, DataSize(LE32(f, p)), out)
    else ReadData(f, info, left, p + BHSize, DataSize(LE32(f, p)) + CrcSize(info), out)
  }

  /** The last rem bytes of a raw block, whose data starts at q. */
  ghost function ReadRaw(f: seq<byte>, info: FrameInfo, left: nat, q: nat, p: nat, rem: nat, out: seq<byte>): Reading
    requires q <= p <= |f| && ValidBlockSizeID(info.blockSizeID)
    decreases |f| - p, 1
  {
    if p + rem > |f| then Reading(CutShort, out + f[p..], true)
    else if info.blockChecksum then ReadCrc(f, info, left, q, p + rem, out + f[p..p + rem])
    else ReadBlocks(f, info, left, p + rem, out + f[p..p + rem])
  }

  /** The checksum of a raw block, whose data starts at q. */
  ghost function ReadCrc(f: seq<byte>, info: FrameInfo, left: nat, q: nat, p: nat, out: seq<byte>): Reading
    requires q <= p <= |f| && ValidBlockSizeID(info.blockSizeID)
    decreases |f| - p, 0
  {
    if p + BFSize > |f| then Reading(CutShort, out, true)
    else if LE32(f, p) != Checksum(f[q..p]) then Reading(Refused, out, true)
    else ReadBlocks(f, info, left, p + BFSize, out)
  }

  /** The data of a compressed block, target bytes with its checksum. */
  ghost function ReadData(f: seq<byte>, info: FrameInfo, left: nat, p: nat, target: nat, out: seq<byte>): Reading
    requires p <= |f| && ValidBlockSizeID(info.blockSizeID) && CrcSize(info) < target
    decreases |f| - p, 0
  {
    if p + target > |f| then Reading(CutShort, out, true)
    else
      var n := target - CrcSize(info);
      if info.blockChecksum && LE32(f, p + n) != Checksum(f[p..p + n]) then Reading(Refused, out, true)
      else AfterBlock(f, info, left, f[p..p + n], p + target, out)
  }

  /** A compressed block, and what follows it at p. */
  ghost function AfterBlock(f: seq<byte>, info: FrameInfo, left: nat, data: seq<byte>, p: nat, out: seq<byte>): Reading
    requires p <= |f| && ValidBlockSizeID(info.blockSizeID)
    decreases |f| - p, 1
  {
    if UsesZeroOffset(data, 0) then Reading(Unspecified, out, false)
    else if !Decodes(info, data, out) then Reading(Refused, out, true)
    else
      var rest := ReadBlocks(f, info, left, p, out + DataText(info, data, out));
      rest.(strict := rest.strict && WellFormed(data, History(info, out)))
  }

  predicate SkippableStart(f: seq<byte>) {
    |f| >= minFHSize && LE32(f, 0) / 16 == LZ4F_MAGIC_SKIPPABLE_START / 16
  }

  /** A frame of the format, from what it is read with: a declared size overwrites what is left in the counter. */
  function LeftFor(f: seq<byte>, left: nat): nat
    requires |f| > 4
  {
    if Flag(f[4], 3) then 0 else left
  }

  /** The frame that the input starts with. */
  ghost function ReadFrame(f: Input): Reading {
    var b := f.bytes;
    if |b| < minFHSize then Reading(CutShort, [], true)
    else if SkippableStart(b) then
      if |b| < 8 || |b| < 8 + LE32(b, 4) then Reading(CutShort, [], true)
      else Reading(Ended(8 + LE32(b, 4)), [], true)
    else if LE32(b, 0) != LZ4F_MAGICNUMBER || !FlgOk(b[4]) then Reading(Refused, [], true)
    else if |b| < HeaderLength(b[4]) then Reading(CutShort, [], true)
    else if !HeaderOk(b) then Reading(Refused, [], true)
    else ReadBlocks(b, InfoOf(b), LeftFor(b, f.left), HeaderLength(b[4]), [])
  }

  /** No block that matters uses offset 0. */
  ghost predicate Specified(f: Input) {
    !ReadFrame(f).ending.Unspecified?
  }

  /** f, as far as it goes, is as the format wants it. */
  ghost predicate MustAccept(f: Input) {
    !ReadFrame(f).ending.Refused? && ReadFrame(f).strict
  }

  /** The frame that f starts with ends at pos, and its text is out. */
  ghost predicate EndsAt(f: Input, pos: int, out: seq<byte>) {
    ReadFrame(f).ending.Ended? && ReadFrame(f).ending.pos == pos && ReadFrame(f).text == out
  }

  /** The reading r is the rest of w, apart from blocks that are not strict before it. */
  predicate Leads(r: Reading, w: Reading) {
    r.ending == w.ending && r.text == w.text && (w.strict ==> r.strict)
  }

  // ---------- Readings grow ----------

  /** Reading only ever appends, and ends behind where it starts. */
  lemma {:induction false} BlocksGrow(f: seq<byte>, info: FrameInfo, left: nat, p: nat, out: seq<byte>)
    requires p <= |f| && ValidBlockSizeID(info.blockSizeID)
    ensures out <= ReadBlocks(f, info, left, p, out).text
    ensures ReadBlocks(f, info, left, p, out).ending.Ended? ==> p + BHSize <= ReadBlocks(f, info, left, p, out).ending.pos <= |f|
    decreases |f| - p, 0
  {
    hide LE32, ReadRaw, ReadData, BlockSize, Checksum;
    if p + BHSize <= |f| && LE32(f, p) != 0 && DataSize(LE32(f, p)) <= BlockSize(info.blockSizeID) {
      if LE32(f, p) >= LZ4F_BLOCKUNCOMPRESSED_FLAG {
        RawGrows(f, info, left, p + BHSize, p + BHSize, DataSize(LE32(f, p)), out);
      } else {
        DataGrows(f, info, left, p + BHSize, DataSize(LE32(f, p)) + CrcSize(info), out);
      }
    }
  }

  lemma {:induction false} RawGrows(f: seq<byte>, info: FrameInfo, left: nat, q: nat, p: nat, rem: nat, out: seq<byte>)
    requires q <= p <= |f| && ValidBlockSizeID(info.blockSizeID)
    ensures out <= ReadRaw(f, info, left, q, p, rem, out).text
    ensures ReadRaw(f, info, left, q, p, rem, out).ending.Ended? ==>
      p + rem + CrcSize(info) + BHSize <= ReadRaw(f, info, left, q, p, rem, out).ending.pos <= |f|
    decreases |f| - p, 1
  {
    hide LE32, ReadBlocks, ReadCrc, Checksum;
    if p + rem <= |f| {
      if info.blockChecksum {
        CrcGrows(f, info, left, q, p + rem, out + f[p..p + rem]);
      } else {
        BlocksGrow(f, info, left, p + rem, out + f[p..p + rem]);
      }
    }
  }

  lemma {:induction false} CrcGrows(f: seq<byte>, info: FrameInfo, left: nat, q: nat, p: nat, out: seq<byte>)
    requires q <= p <= |f| && ValidBlockSizeID(info.blockSizeID)
    ensures out <= ReadCrc(f, info, left, q, p, out).text
    ensures ReadCrc(f, info, left, q, p, out).ending.Ended? ==>
      p + BFSize + BHSize <= ReadCrc(f, info, left, q, p, out).ending.pos <= |f|
    decreases |f| - p, 0
  {
    hide LE32, ReadBlocks, Checksum;
    if p + BFSize <= |f| { BlocksGrow(f, info, left, p + BFSize, out); }
  }

  lemma {:induction false} DataGrows(f: seq<byte>, info: FrameInfo, left: nat, p: nat, target: nat, out: seq<byte>)
    requires p <= |f| && ValidBlockSizeID(info.blockSizeID) && CrcSize(info) < target
    ensures out <= ReadData(f, info, left, p, target, out).text
    ensures ReadData(f, info, left, p, target, out).ending.Ended? ==>
      p + target + BHSize <= ReadData(f, info, left, p, target, out).ending.pos <= |f|
    decreases |f| - p, 0
  {
    hide LE32, ReadBlocks, Checksum, Decodes, WellFormed, UsesZeroOffset, DataText, History, BlockSize;
    var n := target - CrcSize(info);
    if p + target <= |f| && Decodes(info, f[p..p + n], out) {
      BlocksGrow(f, info, left, p + target, out + DataText(info, f[p..p + n], out));
    }
  }

  // ---------- Strict readings are frames of the format ----------

  /** A block that decodes has no zero offset. */
  lemma {:induction false} DecodableHasOffsets(src: seq<byte>, ip: nat, out: seq<byte>)
    requires ip <= |src| && Decode(src, ip, out).Decoded?
    ensures !UsesZeroOffset(src, ip)
    decreases |src| - ip
  {
    hide Parse, CopyMatch;
    DecodableHasNext(src, ip, out);
    var s := Parse(src, ip);
    if s.Match? { DecodableHasOffsets(src, s.next, CopyMatch(out + src[s.start..s.start + s.ll], s.offset, s.len)); }
  }

  /** A block of the format is read as the format says. */
  lemma BlockRead(f: seq<byte>, info: FrameInfo, left: nat, p: nat, out: seq<byte>)
    requires ValidBlockSizeID(info.blockSizeID) && BlockOk(f, info, p, out) && LE32(f, p) != 0
    ensures ReadBlocks(f, info, left, p, out) == ReadBlocks(f, info, left, NextBlock(f, info, p), out + TextAt(f, info, p, out))
  {
    hide LE32, BlockSize, Checksum, ReadBlocks, Decode, UsesZeroOffset;
    BlocksUnfold(f, info, left, p, out);
    if LE32(f, p) < LZ4F_BLOCKUNCOMPRESSED_FLAG { DecodableHasOffsets(BlockData(f, info, p), 0, History(info, out)); }
  }

  /** One step of ReadBlocks. */
  lemma BlocksUnfold(f: seq<byte>, info: FrameInfo, left: nat, p: nat, out: seq<byte>)
    requires p + BHSize <= |f| && ValidBlockSizeID(info.blockSizeID) && LE32(f, p) != 0
    ensures DataSize(LE32(f, p)) > BlockSize(info.blockSizeID) ==> ReadBlocks(f, info, left, p, out) == Reading(Refused, out, true)
    ensures LE32(f, p) < LZ4F_BLOCKUNCOMPRESSED_FLAG ==> DataSize(LE32(f, p)) > 0
    ensures DataSize(LE32(f, p)) <= BlockSize(info.blockSizeID) ==>
      ReadBlocks(f, info, left, p, out) ==
        if LE32(f, p) >= LZ4F_BLOCKUNCOMPRESSED_FLAG then ReadRaw(f, info, left, p + BHSize, p + BHSize, DataSize(LE32(f, p)), out)
        else ReadData(f, info, left, p + BHSize, DataSize(LE32(f, p)) + CrcSize(info), out)
  {
    hide LE32, BlockSize, Checksum, ReadRaw, ReadData;
  }

  /** A block that a strict reading gets behind is a block of the format. */
  lemma StrictBlock(f: seq<byte>, info: FrameInfo, left: nat, p: nat, out: seq<byte>)
    requires p + BHSize <= |f| && ValidBlockSizeID(info.blockSizeID) && LE32(f, p) != 0
    requires ReadBlocks(f, info, left, p, out).ending.Ended? && ReadBlocks(f, info, left, p, out).strict
    ensures BlockOk(f, info, p, out)
  {
    hide LE32, BlockSize, Checksum, ReadBlocks, Decode, UsesZeroOffset, Conforming;
    BlocksUnfold(f, info, left, p, out);
  }

  lemma LE32Prefix(f: seq<byte>, n: nat, p: nat)
    requires p + 4 <= n <= |f|
    ensures LE32(f[..n], p) == LE32(f, p)
  {
    assert f[..n] + f[n..] == f;
    LE32Longer(f[..n], f[n..], p);
  }

  /** A block that ends before position n is the same without the bytes from there on. */
  lemma BlockWithin(f: seq<byte>, n: nat, info: FrameInfo, p: nat, out: seq<byte>)
    requires ValidBlockSizeID(info.blockSizeID) && BlockOk(f, info, p, out) && NextBlock(f, info, p) <= n <= |f|
    ensures BlockOk(f[..n], info, p, out) && NextBlock(f[..n], info, p) == NextBlock(f, info, p)
    ensures TextAt(f[..n], info, p, out) == TextAt(f, info, p, out)
  {
    hide XxHash32.LE32, Checksum, DataOk, BlockSize;
    var m := DataSize(LE32(f, p));
    LE32Prefix(f, n, p);
    assert f[..n][p + BHSize..p + BHSize + m] == f[p + BHSize..p + BHSize + m];
    if info.blockChecksum { LE32Prefix(f, n, p + BHSize + m); }
  }

  lemma {:induction false} BlocksStrict(f: seq<byte>, info: FrameInfo, left: nat, p: nat, out: seq<byte>)
    requires p <= |f| && ValidBlockSizeID(info.blockSizeID)
    requires ReadBlocks(f, info, left, p, out).ending.Ended? && ReadBlocks(f, info, left, p, out).strict
    ensures p + BHSize <= ReadBlocks(f, info, left, p, out).ending.pos <= |f|
    ensures DecodeBlocks(f[..ReadBlocks(f, info, left, p, out).ending.pos], info, p, out) == Decoded(ReadBlocks(f, info, left, p, out).text)
    decreases |f| - p
  {
    hide XxHash32.LE32, Checksum, BlockThere, DataOk, TextAt, ReadRaw, ReadData;
    BlocksGrow(f, info, left, p, out);
    var n := ReadBlocks(f, info, left, p, out).ending.pos;
    LE32Prefix(f, n, p);
    if LE32(f, p) == 0 {
      if info.contentChecksum { LE32Prefix(f, n, p + BHSize); }
    } else {
      StrictBlock(f, info, left, p, out);
      BlockRead(f, info, left, p, out);
      BlocksGrow(f, info, left, NextBlock(f, info, p), out + TextAt(f, info, p, out));
      BlockWithin(f, n, info, p, out);
      BlocksStrict(f, info, left, NextBlock(f, info, p), out + TextAt(f, info, p, out));
    }
  }

  lemma {:induction false} BlocksRead(f: seq<byte>, tail: seq<byte>, info: FrameInfo, left: nat, p: nat, out: seq<byte>)
    requires p <= |f| && ValidBlockSizeID(info.blockSizeID) && DecodeBlocks(f, info, p, out).Decoded?
    requires info.contentSize != 0 || left == 0
    ensures ReadBlocks(f + tail, info, left, p, out) == Reading(Ended(|f|), DecodeBlocks(f, info, p, out).out, true)
    decreases |f| - p
  {
    hide XxHash32.LE32, Checksum, BlockThere, DataOk, TextAt, ReadRaw, ReadData;
    LE32Longer(f, tail, p);
    if LE32(f, p) == 0 {
      if info.contentChecksum { LE32Longer(f, tail, p + BHSize); }
    } else {
      BlockLonger(f, tail, info, p, out);
      BlockRead(f + tail, info, left, p, out);
      BlocksRead(f, tail, info, left, NextBlock(f, info, p), out + TextAt(f, info, p, out));
    }
  }

  /** Nothing is left in the counter that could spoil the frame f. */
  predicate Clean(f: seq<byte>, left: nat) {
    left == 0 || Skippable(f) || (|f| > 4 && Flag(f[4], 3))
  }

  /** A frame of the format is read as such, whatever follows it. */
  lemma FrameRead(f: seq<byte>, tail: seq<byte>, left: nat)
    requires DecodeFrame(f).Decoded? && Clean(f, left)
    ensures ReadFrame(Input(f + tail, left)) == Reading(Ended(|f|), DecodeFrame(f).out, true)
  {
    hide DecodeBlocks, ReadBlocks, XxHash32.LE32, Checksum;
    LE32Longer(f, tail, 0);
    if Skippable(f) {
      LE32Longer(f, tail, 4);
    } else {
      HeaderStays(f, tail);
      BlocksRead(f, tail, InfoOf(f), LeftFor(f, left), HeaderLength(f[4]), []);
    }
  }

  /** And whatever is read strictly up to its end is a frame of the format. */
  lemma StrictFrame(f: Input)
    requires ReadFrame(f).ending.Ended? && ReadFrame(f).strict
    ensures ReadFrame(f).ending.pos <= |f.bytes| && DecodeFrame(f.bytes[..ReadFrame(f).ending.pos]) == Decoded(ReadFrame(f).text)
  {
    hide DecodeBlocks, ReadBlocks, XxHash32.LE32, Checksum;
    var b, n := f.bytes, ReadFrame(f).ending.pos;
    if SkippableStart(b) {
      LE32Prefix(b, n, 0);
      LE32Prefix(b, n, 4);
    } else {
      BlocksStrict(b, InfoOf(b), LeftFor(b, f.left), HeaderLength(b[4]), []);
      HeaderWithin(b, n);
    }
  }

  // ---------- What is left in the size counter ----------

  /** Without a declared size, a counter that is not 0 is never met. */
  lemma {:induction false} NeverMet(f: seq<byte>, tail: seq<byte>, info: FrameInfo, left: nat, p: nat, out: seq<byte>)
    requires p <= |f| && ValidBlockSizeID(info.blockSizeID) && DecodeBlocks(f, info, p, out).Decoded?
    requires info.contentSize == 0 && left != 0
    ensures ReadBlocks(f + tail, info, left, p, out).ending.Refused?
    decreases |f| - p
  {
    hide XxHash32.LE32, Checksum, BlockThere, DataOk, TextAt, ReadRaw, ReadData;
    LE32Longer(f, tail, p);
    if LE32(f, p) != 0 {
      BlockLonger(f, tail, info, p, out);
      BlockRead(f + tail, info, left, p, out);
      NeverMet(f, tail, info, left, NextBlock(f, info, p), out + TextAt(f, info, p, out));
    }
  }

  /**
    A frame of the format is read to its end if and only if nothing is left in the counter that could spoil it; if there is,
    the frame is refused.
   */
  lemma ReadIffClean(f: seq<byte>, tail: seq<byte>, left: nat)
    requires DecodeFrame(f).Decoded?
    ensures Clean(f, left) ==> ReadFrame(Input(f + tail, left)) == Reading(Ended(|f|), DecodeFrame(f).out, true)
    ensures !Clean(f, left) ==> ReadFrame(Input(f + tail, left)).ending.Refused?
  {
    hide DecodeBlocks, ReadBlocks, XxHash32.LE32, Checksum;
    if Clean(f, left) {
      FrameRead(f, tail, left);
    } else {
      LE32Longer(f, tail, 0);
      HeaderStays(f, tail);
      NeverMet(f, tail, InfoOf(f), left, HeaderLength(f[4]), []);
    }
  }

  lemma HeaderWithin(f: seq<byte>, n: nat)
    requires HeaderOk(f) && HeaderLength(f[4]) <= n <= |f|
    ensures HeaderOk(f[..n]) && InfoOf(f[..n]) == InfoOf(f) && !Skippable(f[..n])
  {
    hide XxHash32.LE32, Checksum;
    var h := HeaderLength(f[4]);
    LE32Prefix(f, n, 0);
    assert f[..n][4..h - 1] == f[4..h - 1];
    if Flag(f[4], 3) {
      LE32Prefix(f, n, 6);
      LE32Prefix(f, n, 10);
    }
  }
}
