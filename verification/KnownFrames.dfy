/** Frames with every byte written out. */
module KnownFrames {
  import opened BlockFormat
  import opened FrameDecoder
  import opened FrameEmit
  import opened FrameEncoder
  import opened FrameFormat
  import opened FrameReading
  import FrameRoundTrip
  import KnownBlocks
  import KnownHashes
  import LogFile
  import XxHash32

  /** The header of every log file: linked blocks of 64 KB, no checksums, no size. */
  const FIRMWARE_HEADER: seq<byte> := [0x04, 0x22, 0x4D, 0x18, 0x40, 0x40, 0xC0]

  /** Linked blocks of 4 MB, both checksums, and a declared size of 3. */
  const FULL_HEADER: seq<byte> := [0x04, 0x22, 0x4D, 0x18, 0x5C, 0x70, 3, 0, 0, 0, 0, 0, 0, 0, 0xCF]

  /** Independent blocks of 256 KB, and a dictionary ID. */
  const DICTIONARY_HEADER: seq<byte> := [0x04, 0x22, 0x4D, 0x18, 0x61, 0x50, 1, 2, 3, 4, 0xA4]

  lemma HeaderBytesAre(prefs: Preferences, d: seq<byte>, h: nat)
    requires ValidPreferences(prefs) && Descriptor(prefs) == d && XxHash32.Hash(d, 0) == h
    ensures HeaderBytes(prefs) == [0x04, 0x22, 0x4D, 0x18] + d + [(h / 0x100 % 0x100) as byte]
  {
    hide XxHash32.Hash, Descriptor;
  }

  lemma FirmwareHeader()
    ensures HeaderOk(FIRMWARE_HEADER) && HeaderLength(0x40) == 7 && InfoOf(FIRMWARE_HEADER) == FrameInfo(true, false, false, 4, 0)
    ensures HeaderBytes(LogFile.kPrefs) == FIRMWARE_HEADER
  {
    hide XxHash32.Hash, HeaderBytes;
    KnownHashes.FirmwareDescriptor();
    assert FIRMWARE_HEADER[4..6] == [0x40, 0x40];
    HeaderBytesAre(LogFile.kPrefs, [0x40, 0x40], 0x101EC066);
  }

  lemma FullHeader()
    ensures HeaderOk(FULL_HEADER) && HeaderLength(0x5C) == 15 && InfoOf(FULL_HEADER) == FrameInfo(true, true, true, 7, 3)
    ensures HeaderBytes(Preferences(FrameInfo(true, true, true, 7, 3), 0, 0, false)) == FULL_HEADER
  {
    hide XxHash32.Hash, HeaderBytes;
    KnownHashes.FullDescriptor();
    assert FULL_HEADER[4..14] == [0x5C, 0x70, 3, 0, 0, 0, 0, 0, 0, 0];
    HeaderBytesAre(Preferences(FrameInfo(true, true, true, 7, 3), 0, 0, false), [0x5C, 0x70, 3, 0, 0, 0, 0, 0, 0, 0], 0x1E7ECF67);
  }

  lemma DictionaryHeader()
    ensures HeaderOk(DICTIONARY_HEADER) && HeaderLength(0x61) == 11
    ensures InfoOf(DICTIONARY_HEADER) == FrameInfo(false, false, false, 5, 0)
    ensures HeaderBytes(Preferences(FrameInfo(false, false, false, 5, 0), 0x04030201, 0, false)) == DICTIONARY_HEADER
  {
    hide XxHash32.Hash, HeaderBytes;
    KnownHashes.DictionaryDescriptor();
    assert DICTIONARY_HEADER[4..10] == [0x61, 0x50, 1, 2, 3, 4];
    HeaderBytesAre(Preferences(FrameInfo(false, false, false, 5, 0), 0x04030201, 0, false), [0x61, 0x50, 1, 2, 3, 4], 0x0EB4A4A0);
  }

  // ---------- Whole frames ----------

  /** The text that the block of KnownBlocks.AbcdTwice stands for. */
  const ABCD_TEXT: seq<byte> := [97, 98, 99, 100, 97, 98, 99, 100, 97, 98, 99, 100, 118, 119, 120, 121, 122]

  /** A compressed block, its size before it. */
  const ABCD_BLOCK: seq<byte> := [0x0D, 0, 0, 0, 0x44, 97, 98, 99, 100, 0x04, 0x00, 0x50, 118, 119, 120, 121, 122]

  /** A raw block: the highest bit of its size is set. */
  const ABC_BLOCK: seq<byte> := [0x03, 0, 0, 0x80, 97, 98, 99]

  /** The same with its checksum. */
  const ABC_CHECKED: seq<byte> := [0x03, 0, 0, 0x80, 97, 98, 99, 0xFF, 0x53, 0xD1, 0x32]

  /** The end mark alone. */
  const END_MARK: seq<byte> := [0, 0, 0, 0]

  /** The end mark, and the checksum of the content abc. */
  const ABC_END: seq<byte> := [0, 0, 0, 0, 0xFF, 0x53, 0xD1, 0x32]

  const ABCD_DATA: seq<byte> := [0x44, 97, 98, 99, 100, 0x04, 0x00, 0x50, 118, 119, 120, 121, 122]

  lemma AbcdBytes(info: FrameInfo)
    requires !info.blockChecksum
    ensures |ABCD_DATA| == 13 && BlockBytes(13, ABCD_DATA, info) == ABCD_BLOCK
  {
  }

  lemma AbcdMeans()
    ensures Represents(ABCD_DATA, [], ABCD_TEXT) && |ABCD_TEXT| == 17
  {
    hide Decode, Conforming;
    KnownBlocks.AbcdTwice();
    KnownBlocks.AbcdConforms();
    assert [] + ABCD_TEXT == ABCD_TEXT;
  }

  lemma AbcdBlock(info: FrameInfo)
    requires ValidBlockSizeID(info.blockSizeID) && !info.blockChecksum
    ensures IsBlock(ABCD_BLOCK, info, [], ABCD_TEXT)
  {
    hide Represents, IsBlock, BlockBytes;
    AbcdMeans();
    AbcdBytes(info);
    CompressedIsBlock(info, [], ABCD_DATA, ABCD_TEXT);
  }

  lemma AbcBlock(info: FrameInfo, out: seq<byte>)
    requires ValidBlockSizeID(info.blockSizeID)
    ensures IsBlock(if info.blockChecksum then ABC_CHECKED else ABC_BLOCK, info, out, [97, 98, 99])
  {
    hide XxHash32.Hash, IsBlock;
    KnownHashes.AbcHashed();
    RawIsBlock(info, out, [97, 98, 99]);
    assert BlockBytes(0x8000_0003, [97, 98, 99], info) == if info.blockChecksum then ABC_CHECKED else ABC_BLOCK;
  }

  lemma AbcEnd(info: FrameInfo)
    requires info.contentChecksum
    ensures EndBytes(info, [97, 98, 99]) == ABC_END
  {
    hide XxHash32.Hash;
    KnownHashes.AbcHashed();
  }

  lemma TwoBlocks(h: seq<byte>, info: FrameInfo, b: seq<byte>, text: seq<byte>, c: seq<byte>, more: seq<byte>)
    requires HeaderOk(h) && |h| == HeaderLength(h[4]) && InfoOf(h) == info && info.contentSize == 0
    requires IsBlock(b, info, [], text) && IsBlock(c, info, text, more)
    ensures DecodeFrame(h + b + c + EndBytes(info, text + more)) == Decoded(text + more)
  {
    hide DecodeFrame, HeaderOk, HeaderLength, Stands, IsBlock, InfoOf, EndBytes;
    HeaderStands(h);
    assert [] + text == text;
    BlockStands(h, info, [], b, text);
    BlockStands(h + b, info, text, c, more);
    FrameEnds(h + b + c, info, text + more);
  }

  lemma OneBlock(h: seq<byte>, info: FrameInfo, b: seq<byte>, text: seq<byte>)
    requires HeaderOk(h) && |h| == HeaderLength(h[4]) && InfoOf(h) == info && info.contentSize == |text|
    requires IsBlock(b, info, [], text)
    ensures DecodeFrame(h + b + EndBytes(info, text)) == Decoded(text)
  {
    hide DecodeFrame, HeaderOk, HeaderLength, Stands, IsBlock, InfoOf, EndBytes;
    HeaderStands(h);
    assert [] + text == text;
    BlockStands(h, info, [], b, text);
    FrameEnds(h + b, info, text);
  }

  lemma FirmwareFrame()
    ensures DecodeFrame(FIRMWARE_HEADER + ABCD_BLOCK + ABC_BLOCK + END_MARK) == Decoded(ABCD_TEXT + [97, 98, 99])
  {
    hide DecodeFrame, HeaderOk, Stands, IsBlock, InfoOf;
    var info := FrameInfo(true, false, false, 4, 0);
    FirmwareHeader();
    AbcdBlock(info);
    AbcBlock(info, ABCD_TEXT);
    TwoBlocks(FIRMWARE_HEADER, info, ABCD_BLOCK, ABCD_TEXT, ABC_BLOCK, [97, 98, 99]);
    assert EndBytes(info, ABCD_TEXT + [97, 98, 99]) == END_MARK;
  }

  lemma FullFrame()
    ensures DecodeFrame(FULL_HEADER + ABC_CHECKED + ABC_END) == Decoded([97, 98, 99])
  {
    hide DecodeFrame, HeaderOk, Stands, IsBlock, InfoOf, XxHash32.Hash, EndBytes;
    var info := FrameInfo(true, true, true, 7, 3);
    FullHeader();
    AbcBlock(info, []);
    OneBlock(FULL_HEADER, info, ABC_CHECKED, [97, 98, 99]);
    AbcEnd(info);
  }

  /** Skippable frames have any of 16 magic numbers; the size of what is to be skipped is next. */
  lemma SkippableFrame(k: nat, s: seq<byte>)
    requires k < 16 && |s| < 256
    ensures DecodeFrame([(0x50 + k) as byte, 0x2A, 0x4D, 0x18, |s|, 0, 0, 0] + s) == Decoded([])
  {
    hide HeaderOk;
  }

  lemma BlockSizes()
    ensures BlockSize(4) == 65536 && BlockSize(5) == 262144 && BlockSize(6) == 1048576 && BlockSize(7) == 4194304
  {
  }

  /** Cut in any way, the two frames decode to their texts. */
  method DecodeKnown(ins: nat -> nat, outs: nat -> nat) returns (text1: seq<byte>, text2: seq<byte>)
    requires forall i: nat :: ins(i) > 0 && outs(i) > 0
    ensures text1 == [97, 98, 99, 100, 97, 98, 99, 100, 97, 98, 99, 100, 118, 119, 120, 121, 122, 97, 98, 99]
    ensures text2 == [97, 98, 99]
  {
    hide DecodeFrame;
    FirmwareFrame();
    FullFrame();
    text1 := FrameRoundTrip.Decode(FIRMWARE_HEADER + ABCD_BLOCK + ABC_BLOCK + END_MARK, ins, outs);
    text2 := FrameRoundTrip.Decode(FULL_HEADER + ABC_CHECKED + ABC_END, ins, outs);
  }

  /** LZ4F_compressBegin as the log files use it. */
  method WriteFirmwareHeader(ctx: CCtx, dst: array<byte>, cap: nat) returns (result: Result)
    requires ctx.Usable() && 19 <= cap <= dst.Length && dst !in ctx.Repr()
    modifies ctx.Repr(), dst
    ensures result == Size(7) && dst[0..7] == [0x04, 0x22, 0x4D, 0x18, 0x40, 0x40, 0xC0]
  {
    hide HeaderBytes, CCtx.Encoding, CCtx.Usable;
    FirmwareHeader();
    result := ctx.CompressBegin(dst, 0, cap, LogFile.kPrefs);
    assert |dst[0..result.size]| == result.size;
  }

  /** The header of a log file, alone, is accepted by a new context, which then knows the parameters. */
  method ReadFirmwareHeader() returns (ctx: DCtx, step: Step)
    ensures step.Stop? && step.hint > 0 && ctx.info == FrameInfo(true, false, false, 4, 0)
  {
    hide DCtx.Resettable, HeaderOk, InfoOf;
    FirmwareHeader();
    ctx, step := FeedHeader(FIRMWARE_HEADER);
  }
}
