/** LZ4F_compressBegin, LZ4F_compressUpdate, LZ4F_flush and LZ4F_compressEnd of lz4frame.c, at the fast levels. */
module FrameEncoder {
  import opened BlockFormat
  import opened BlockStream
  import opened FrameEmit
  import opened FrameFormat
  import opened GreedyParse
  import opened Memory
  import opened Window
  import XxHash32

  const KB128 := 0x2_0000
  const LZ4HC_CLEVEL_MIN := 3

  /** LZ4F_preferences_t. A contentSize of 0 in info means that the header does not declare it. */
  datatype Preferences = Preferences(info: FrameInfo, dictID: nat, compressionLevel: int, autoFlush: bool)

  datatype Error = DstMaxSizeTooSmall | Generic | FrameSizeWrong

  datatype Result = Size(size: nat) | Err(error: Error)

  // ---------- LZ4F_compressBound_internal ----------

  /** Room for the blocks that r bytes make: whole blocks, and a partial one when everything is flushed. */
  function BlocksRoom(r: nat, info: FrameInfo, flush: bool): nat
    requires ValidBlockSizeID(info.blockSizeID)
  {
    var blockSize := BlockSize(info.blockSizeID);
    var full, rest := r / blockSize, if flush then r % blockSize else 0;
    (BHSize + CrcSize(info)) * (full + if rest > 0 then 1 else 0) + blockSize * full + rest
  }

  function FrameEndSize(info: FrameInfo): nat {
    BHSize + if info.contentChecksum then BFSize else 0
  }

  function CompressBoundInternal(srcSize: nat, prefs: Preferences, alreadyBuffered: nat): (r: nat)
    requires ValidBlockSizeID(prefs.info.blockSizeID)
    ensures r >= FrameEndSize(prefs.info)
  {
    var maxBuffered := BlockSize(prefs.info.blockSizeID) - 1;
    BlocksRoom(srcSize + Min(alreadyBuffered, maxBuffered), prefs.info, prefs.autoFlush || srcSize == 0) + FrameEndSize(prefs.info)
  }

  lemma BoundOfBlocks(n: nat, prefs: Preferences, held: nat)
    requires ValidBlockSizeID(prefs.info.blockSizeID) && held < BlockSize(prefs.info.blockSizeID)
    ensures CompressBoundInternal(n, prefs, held)
         == BlocksRoom(n + held, prefs.info, prefs.autoFlush || n == 0) + FrameEndSize(prefs.info)
  {
    hide BlocksRoom, BlockSize;
  }

  /** LZ4F_compressBound, for given preferences. */
  function LZ4F_compressBound(srcSize: nat, prefs: Preferences): nat
    requires ValidBlockSizeID(prefs.info.blockSizeID)
  {
    CompressBoundInternal(srcSize, prefs, if prefs.autoFlush then 0 else BlockSize(prefs.info.blockSizeID))
  }

  lemma DivStep(r: nat, id: nat)
    requires ValidBlockSizeID(id) && BlockSize(id) <= r
    ensures var b := BlockSize(id); r / b == (r - b) / b + 1 && r % b == (r - b) % b
  {
    if id == 4 {
    } else if id == 5 {
    } else if id == 6 {
    } else {
    }
  }

  /** How much of held bytes stays in the buffer: what does not make a whole block, or nothing. */
  function Left(held: nat, prefs: Preferences): nat
    requires ValidBlockSizeID(prefs.info.blockSizeID)
  {
    if prefs.autoFlush then 0 else held % BlockSize(prefs.info.blockSizeID)
  }

  lemma LeftStep(held: nat, prefs: Preferences)
    requires ValidBlockSizeID(prefs.info.blockSizeID) && held >= BlockSize(prefs.info.blockSizeID)
    ensures Left(held - BlockSize(prefs.info.blockSizeID), prefs) == Left(held, prefs)
  {
    DivStep(held, prefs.info.blockSizeID);
  }

  lemma LeftLast(held: nat, prefs: Preferences)
    requires ValidBlockSizeID(prefs.info.blockSizeID)
    ensures prefs.autoFlush ==> Left(held, prefs) == 0
    ensures !prefs.autoFlush && held < BlockSize(prefs.info.blockSizeID) ==> Left(held, prefs) == held
  {
  }

  /** A whole block takes its share of the room. */
  lemma RoomStep(r: nat, info: FrameInfo, flush: bool)
    requires ValidBlockSizeID(info.blockSizeID) && r >= BlockSize(info.blockSizeID)
    ensures var b := BlockSize(info.blockSizeID);
      BlocksRoom(r, info, flush) == BHSize + b + CrcSize(info) + BlocksRoom(r - b, info, flush)
  {
    var b := BlockSize(info.blockSizeID);
    DivStep(r, info.blockSizeID);
    var full, rest := (r - b) / b, if flush then r % b else 0;
    var k := full + if rest > 0 then 1 else 0;
    assert (BHSize + CrcSize(info)) * (k + 1) == (BHSize + CrcSize(info)) * k + (BHSize + CrcSize(info));
    assert b * (full + 1) == b * full + b;
  }

  /** So does the partial block at the end. */
  lemma RoomLast(r: nat, info: FrameInfo, flush: bool)
    requires ValidBlockSizeID(info.blockSizeID) && r < BlockSize(info.blockSizeID)
    ensures BlocksRoom(r, info, flush) == if flush && r > 0 then BHSize + r + CrcSize(info) else 0
  {
  }

  /** More input never needs less room. */
  lemma {:induction false} RoomMonotone(r: nat, more: nat, info: FrameInfo, flush: bool)
    requires ValidBlockSizeID(info.blockSizeID) && r <= more
    ensures BlocksRoom(r, info, flush) <= BlocksRoom(more, info, flush)
    decreases more
  {
    hide BlocksRoom, BlockSize;
    var b := BlockSize(info.blockSizeID);
    if more >= b { RoomStep(more, info, flush); } else { RoomLast(more, info, flush); }
    if r >= b {
      RoomStep(r, info, flush);
      RoomMonotone(r - b, more - b, info, flush);
    } else {
      RoomLast(r, info, flush);
    }
  }

  /** The documented room, which does not depend on the state, is enough in every state. */
  lemma BoundSuffices(n: nat, prefs: Preferences, buffered: nat)
    requires ValidBlockSizeID(prefs.info.blockSizeID) && buffered < BlockSize(prefs.info.blockSizeID)
    requires prefs.autoFlush ==> buffered == 0
    ensures CompressBoundInternal(n, prefs, buffered) <= LZ4F_compressBound(n, prefs)
  {
    hide BlocksRoom;
    var b := BlockSize(prefs.info.blockSizeID);
    if !prefs.autoFlush { RoomMonotone(n + buffered, n + b - 1, prefs.info, n == 0); }
  }

  // ---------- LZ4F_makeBlock ----------

  method WriteLE32(dst: array<byte>, p: nat, n: nat)
    requires p + 4 <= dst.Length && n < 0x1_0000_0000
    modifies dst
    ensures dst[p..p + 4] == LE32Bytes(n)
    ensures forall i :: 0 <= i < dst.Length && !(p <= i < p + 4) ==> dst[i] == old(dst[i])
  {
    dst[p], dst[p + 1], dst[p + 2], dst[p + 3] := n % 0x100, n / 0x100 % 0x100, n / 0x1_0000 % 0x100, n / 0x100_0000;
  }

  method AppendLE32(dst: array<byte>, ghost d0: nat, p: nat, n: nat)
    requires d0 <= p && p + 4 <= dst.Length && n < 0x1_0000_0000
    modifies dst
    ensures dst[d0..p + 4] == old(dst[d0..p]) + LE32Bytes(n)
    ensures forall i :: 0 <= i < dst.Length && !(p <= i < p + 4) ==> dst[i] == old(dst[i])
  {
    hide LE32Bytes;
    ghost var before := dst[d0..p];
    WriteLE32(dst, p, n);
    assert dst[d0..p] == before;
    assert dst[d0..p + 4] == before + dst[p..p + 4];
  }

  /** The block's header and checksum around data that is already in place. */
  method CloseBlock(dst: array<byte>, d0: nat, header: nat, cSize: nat, info: FrameInfo) returns (size: nat)
    requires d0 + BHSize + cSize + CrcSize(info) <= dst.Length && header < 0x1_0000_0000
    modifies dst
    ensures size == BHSize + cSize + CrcSize(info)
    ensures dst[d0..d0 + size] == BlockBytes(header, old(dst[d0 + BHSize..d0 + BHSize + cSize]), info)
    ensures forall i :: 0 <= i < dst.Length && !(d0 <= i < d0 + size) ==> dst[i] == old(dst[i])
  {
    hide LE32Bytes, XxHash32.Hash;
    ghost var data := dst[d0 + BHSize..d0 + BHSize + cSize];
    WriteLE32(dst, d0, header);
    size := BHSize + cSize;
    assert dst[d0 + BHSize..d0 + size] == data;
    assert dst[d0..d0 + size] == dst[d0..d0 + BHSize] + dst[d0 + BHSize..d0 + size];
    if info.blockChecksum {
      var crc32 := XxHash32.OneShot(dst[d0 + BHSize..d0 + size], 0);
      AppendLE32(dst, d0, d0 + size, crc32);
      size := size + BFSize;
    } else {
      assert dst[d0..d0 + size] == LE32Bytes(header) + data + [];
    }
  }

  function Acceleration(level: int): int {
    if level < 0 then -level + 1 else 1
  }

  /** The block compressor is ready for the next block of a frame whose blocks so far stand for out. */
  ghost predicate StreamReady(stream: Stream, linked: bool, out: seq<byte>)
    reads stream, stream.hashTable, if linked then {stream.dictionary} else {}
  {
    if linked then stream.Valid() && !stream.tableType.ByU16? && EndsWith(out, stream.Dict()) else stream.TableValid()
  }

  /** A dictionary that has been cut is still the end of the text. */
  lemma RemainingEnds(stream: Stream, src: array<byte>, s0: nat, n: nat, out: seq<byte>)
    requires stream.Valid() && EndsWith(out, stream.Dict())
    ensures EndsWith(out, stream.Remaining(src, s0, n))
  {
    hide EndsWith, Kept;
    EndsWithDrop(stream.Dict(), |stream.Remaining(src, s0, n)|);
    EndsWithTrans(out, stream.Dict(), stream.Remaining(src, s0, n));
  }

  /** What LZ4F_compressBlock (or LZ4F_compressBlock_continue, for linked blocks) makes of src[s0..s0 + n). */
  ghost function BlockPlan(stream: Stream, linked: bool, src: array<byte>, s0: nat, n: nat, level: int): (plan: Plan)
    requires if linked then stream.Valid() else stream.TableValid()
    requires s0 + n <= src.Length && n <= LZ4_MAX_INPUT_SIZE
    reads src, stream, stream.hashTable, stream.dictionary
    ensures plan.Ok()
  {
    var a := Accelerate(Acceleration(level));
    if linked then stream.ContinuePlan(src, s0, n, a) else stream.ResetPlan(src[s0..s0 + n], a)
  }

  /** LZ4F_compressBlock and LZ4F_compressBlock_continue. */
  method CompressBlock(stream: Stream, linked: bool, src: array<byte>, s0: nat, n: nat, dst: array<byte>, d0: nat, cap: nat,
                       level: int, ghost out: seq<byte>)
    returns (cSize: nat)
    requires StreamReady(stream, linked, out) && n <= LZ4_MAX_INPUT_SIZE
    requires s0 + n <= src.Length && d0 + cap <= dst.Length && dst != src && (linked ==> dst != stream.dictionary)
    modifies stream, stream.hashTable, dst
    ensures StreamReady(stream, linked, out + old(src[s0..s0 + n]))
    ensures if linked then stream.dictionary == src && stream.dictStart + stream.dictSize == s0 + n && stream.dictSize >= n
            else stream.dictionary == null
    ensures BlockMade(dst[..], old(dst[..]), d0, cap, cSize, n, if linked then out else [], old(src[s0..s0 + n]))
    ensures RunsShrink(old(src[s0..s0 + n]), cap, cSize)
    ensures d0 + cSize <= dst.Length
    ensures AsPlanned(old(BlockPlan(stream, linked, src, s0, n, level)), cap, dst[d0..d0 + cSize], stream.hashTable[..])
  {
    hide BlockMade, RunsShrink, EndsWith, Kept, AsPlanned, Plan.Ok, Stream.ContinuePlan, Stream.ResetPlan, Stream.Remaining;
    if linked {
      RemainingEnds(stream, src, s0, n, out);
      cSize := stream.CompressFastContinue(src, s0, n, dst, d0, cap, Acceleration(level), out);
    } else {
      cSize := stream.CompressFastReset(src, s0, n, dst, d0, cap, Acceleration(level));
    }
  }

  /** What LZ4F_makeBlock leaves in dst is one block of the frame. */
  ghost predicate BlockWritten(before: seq<byte>, after: seq<byte>, d0: nat, size: nat, info: FrameInfo, out: seq<byte>, text: seq<byte>) {
    && |before| == |after| && d0 + size <= |after|
    && size <= BHSize + |text| + CrcSize(info)
    && IsBlock(after[d0..d0 + size], info, out, text)
    && forall i :: 0 <= i < |after| && !(d0 <= i < d0 + BHSize + |text| + CrcSize(info)) ==> after[i] == before[i]
  }

  /** The plan as a block of the frame, if it is smaller than the text; otherwise a raw block. */
  ghost function BlockFor(plan: Plan, text: seq<byte>, info: FrameInfo): seq<byte>
    requires plan.Ok() && 1 <= |text| <= 0x40_0000
  {
    if |plan.Bytes()| < |text| then BlockBytes(|plan.Bytes()|, plan.Bytes(), info)
    else BlockBytes(LZ4F_BLOCKUNCOMPRESSED_FLAG + |text|, text, info)
  }

  /** LZ4F_makeBlock: a compressed block if that is smaller than the source, a raw one otherwise. */
  method MakeBlock(stream: Stream, info: FrameInfo, src: array<byte>, s0: nat, n: nat, dst: array<byte>, d0: nat, level: int,
                   ghost out: seq<byte>)
    returns (size: nat)
    requires ValidBlockSizeID(info.blockSizeID) && 1 <= n <= BlockSize(info.blockSizeID)
    requires StreamReady(stream, info.linked, out)
    requires s0 + n <= src.Length && d0 + BHSize + n + CrcSize(info) <= dst.Length
    requires dst != src && (info.linked ==> dst != stream.dictionary)
    modifies stream, stream.hashTable, dst
    ensures StreamReady(stream, info.linked, out + old(src[s0..s0 + n]))
    ensures if info.linked then stream.dictionary == src && stream.dictStart + stream.dictSize == s0 + n && stream.dictSize >= n
            else stream.dictionary == null
    ensures BlockWritten(old(dst[..]), dst[..], d0, size, info, out, old(src[s0..s0 + n]))
    ensures dst[d0..d0 + size] == BlockFor(old(BlockPlan(stream, info.linked, src, s0, n, level)), old(src[s0..s0 + n]), info)
    ensures Uniform(old(src[s0..s0 + n])) && n >= 13 ==> size <= BHSize + 10 + (n + 230) / 255 + CrcSize(info) < BHSize + n + CrcSize(info)
  {
    hide Uniform, StreamReady, Represents, IsBlock, BlockBytes, BlockPlan, Plan.Ok, Plan.Bytes;
    ghost var text := src[s0..s0 + n];
    var cSize := CompressBlock(stream, info.linked, src, s0, n, dst, d0 + BHSize, n - 1, level, out);
    if cSize == 0 {
      CopyIn(dst, d0 + BHSize, src[..], s0, n);
      assert dst[d0 + BHSize..d0 + BHSize + n] == text;
      RawIsBlock(info, out, text);
      size := CloseBlock(dst, d0, LZ4F_BLOCKUNCOMPRESSED_FLAG + n, n, info);
    } else {
      assert dst[..][d0 + BHSize..d0 + BHSize + cSize] == dst[d0 + BHSize..d0 + BHSize + cSize];
      CompressedIsBlock(info, out, dst[d0 + BHSize..d0 + BHSize + cSize], text);
      size := CloseBlock(dst, d0, cSize, cSize, info);
    }
    assert dst[..][d0..d0 + size] == dst[d0..d0 + size];
  }

  // ---------- The header ----------

  function Bit(b: bool, weight: nat): nat { if b then weight else 0 }

  function FlgByte(prefs: Preferences): byte {
    64 + Bit(!prefs.info.linked, 32) + Bit(prefs.info.blockChecksum, 16) + Bit(prefs.info.contentSize > 0, 8)
    + Bit(prefs.info.contentChecksum, 4) + Bit(prefs.dictID > 0, 1)
  }

  lemma FlgBits(prefs: Preferences)
    ensures var flg := FlgByte(prefs);
      && FlgOk(flg) && (Flag(flg, 5) <==> !prefs.info.linked) && (Flag(flg, 4) <==> prefs.info.blockChecksum)
      && (Flag(flg, 3) <==> prefs.info.contentSize > 0) && (Flag(flg, 2) <==> prefs.info.contentChecksum)
      && (Flag(flg, 0) <==> prefs.dictID > 0)
  {
  }

  /** The fields of a header between the magic number and the checksum byte. */
  function Descriptor(prefs: Preferences): (r: seq<byte>)
    requires ValidPreferences(prefs)
    ensures |r| == 2 + (if prefs.info.contentSize > 0 then 8 else 0) + (if prefs.dictID > 0 then 4 else 0)
  {
    [FlgByte(prefs), prefs.info.blockSizeID * 16]
    + (if prefs.info.contentSize > 0 then
         LE32Bytes(prefs.info.contentSize % 0x1_0000_0000) + LE32Bytes(prefs.info.contentSize / 0x1_0000_0000)
       else [])
    + (if prefs.dictID > 0 then LE32Bytes(prefs.dictID) else [])
  }

  predicate ValidPreferences(prefs: Preferences) {
    && ValidBlockSizeID(prefs.info.blockSizeID) && prefs.info.contentSize < 0x1_0000_0000_0000_0000
    && prefs.dictID < 0x1_0000_0000 && prefs.compressionLevel < LZ4HC_CLEVEL_MIN
  }

  /** The fields of the descriptor, one after the other, and its checksum. */
  method WriteHeader(dst: array<byte>, d0: nat, prefs: Preferences) returns (n: nat)
    requires ValidPreferences(prefs) && d0 + maxFHSize <= dst.Length
    modifies dst
    ensures n <= maxFHSize && dst[d0..d0 + n] == HeaderBytes(prefs)
    ensures forall i :: 0 <= i < dst.Length && !(d0 <= i < d0 + maxFHSize) ==> dst[i] == old(dst[i])
  {
    hide LE32Bytes, FlgByte, XxHash32.Hash;
    WriteLE32(dst, d0, LZ4F_MAGICNUMBER);
    var p := WriteDescriptor(dst, d0 + 4, prefs);
    var crc := XxHash32.OneShot(dst[d0 + 4..p], 0);
    ghost var before := dst[d0..p];
    assert before == dst[d0..d0 + 4] + dst[d0 + 4..p];
    dst[p] := crc / 0x100 % 0x100;
    n := p + 1 - d0;
    assert dst[d0..d0 + n] == before + [dst[p]];
  }

  method WriteDescriptor(dst: array<byte>, d0: nat, prefs: Preferences) returns (p: nat)
    requires ValidPreferences(prefs) && d0 + 14 <= dst.Length
    modifies dst
    ensures p == d0 + |Descriptor(prefs)| && dst[d0..p] == Descriptor(prefs)
    ensures forall i :: 0 <= i < dst.Length && !(d0 <= i < d0 + 14) ==> dst[i] == old(dst[i])
  {
    hide LE32Bytes, FlgByte;
    dst[d0], dst[d0 + 1] := FlgByte(prefs), prefs.info.blockSizeID * 16;
    p := d0 + 2;
    assert dst[d0..p] == [FlgByte(prefs), prefs.info.blockSizeID * 16];
    if prefs.info.contentSize > 0 {
      AppendLE32(dst, d0, p, prefs.info.contentSize % 0x1_0000_0000);
      AppendLE32(dst, d0, p + 4, prefs.info.contentSize / 0x1_0000_0000);
      p := p + 8;
    }
    if prefs.dictID > 0 {
      AppendLE32(dst, d0, p, prefs.dictID);
      p := p + 4;
    }
  }

  function HeaderBytes(prefs: Preferences): (r: seq<byte>)
    requires ValidPreferences(prefs)
  {
    LE32Bytes(LZ4F_MAGICNUMBER) + Descriptor(prefs) + [HeaderChecksum(Descriptor(prefs))]
  }

  /** The header that is written is a header of the format, with the parameters it was written for. */
  lemma HeaderWritten(prefs: Preferences)
    requires ValidPreferences(prefs)
    ensures var h := HeaderBytes(prefs); minFHSize <= |h| <= maxFHSize && HeaderOk(h) && |h| == HeaderLength(h[4]) && InfoOf(h) == prefs.info
  {
    hide XxHash32.LE32, HeaderChecksum, LE32Bytes;
    var h, d := HeaderBytes(prefs), Descriptor(prefs);
    FlgBits(prefs);
    LE32RoundTrip(LZ4F_MAGICNUMBER);
    assert [] + LE32Bytes(LZ4F_MAGICNUMBER) + (d + [HeaderChecksum(d)]) == h;
    LE32Shift([], LE32Bytes(LZ4F_MAGICNUMBER), d + [HeaderChecksum(d)], 0);
    assert h[4] == d[0] && h[5] == d[1];
    assert h[4..|h| - 1] == d;
    if prefs.info.contentSize > 0 {
      SizeWritten(prefs);
    }
  }

  lemma SizeWritten(prefs: Preferences)
    requires ValidPreferences(prefs) && prefs.info.contentSize > 0
    ensures |HeaderBytes(prefs)| >= 14 && LE64(HeaderBytes(prefs), 6) == prefs.info.contentSize
  {
    hide XxHash32.LE32, HeaderChecksum, LE32Bytes, FlgByte;
    var h, d, n := HeaderBytes(prefs), Descriptor(prefs), prefs.info.contentSize;
    var lo, hi := n % 0x1_0000_0000, n / 0x1_0000_0000;
    LE32RoundTrip(lo);
    LE32RoundTrip(hi);
    var front := LE32Bytes(LZ4F_MAGICNUMBER) + [FlgByte(prefs), prefs.info.blockSizeID * 16];
    var back := (if prefs.dictID > 0 then LE32Bytes(prefs.dictID) else []) + [HeaderChecksum(d)];
    assert h == front + LE32Bytes(lo) + (LE32Bytes(hi) + back);
    LE32Shift(front, LE32Bytes(lo), LE32Bytes(hi) + back, 0);
    assert h == (front + LE32Bytes(lo)) + LE32Bytes(hi) + back;
    LE32Shift(front + LE32Bytes(lo), LE32Bytes(hi), back, 0);
  }

  /** A block size of 0 in the preferences stands for 64 KB. */
  function Defaulted(prefs: Preferences): Preferences {
    if prefs.info.blockSizeID == 0 then prefs.(info := prefs.info.(blockSizeID := 4)) else prefs
  }

  // ---------- The context ----------

  /** LZ4F_cctx. */
  class CCtx {
    var prefs: Preferences
    var cStage: nat
    var maxBlockSize: nat
    var maxBufferSize: nat
    var tmpBuff: array?<byte>
    var tmpIn: nat
    var tmpInSize: nat
    var totalInSize: nat
    const xxh: XxHash32.State
    const stream: Stream
    /** What the checksum state has taken in. */
    ghost var hashed: seq<byte>

    ghost function Repr(): set<object>
      reads this
    {
      {this, xxh, xxh.mem32, stream, stream.hashTable} + (if tmpBuff == null then {} else {tmpBuff})
    }

    ghost predicate Buffers()
      reads `tmpBuff, `maxBufferSize
    {
      && xxh.mem32.Length == 16 && (tmpBuff != null ==> tmpBuff != xxh.mem32)
      && (maxBufferSize > 0 ==> tmpBuff != null && tmpBuff.Length >= maxBufferSize)
    }

    /** The context can start a frame. */
    ghost predicate Usable()
      reads this, xxh, xxh.mem32, stream, stream.hashTable
    {
      Buffers() && xxh.Holds(0, hashed) && stream.TableValid()
    }

    /** Buffer space that a frame with these preferences needs. */
    static function RequiredBuffSize(prefs: Preferences): nat
      requires ValidBlockSizeID(prefs.info.blockSizeID)
    {
      if prefs.autoFlush then (if prefs.info.linked then KB64 else 0)
      else BlockSize(prefs.info.blockSizeID) + (if prefs.info.linked then KB128 else 0)
    }

    /** The parameters of the frame in progress, and buffers that suit them. */
    ghost predicate Started()
      reads `prefs, `cStage, `maxBlockSize, `maxBufferSize, `tmpBuff, `tmpIn
    {
      && Buffers() && cStage == 1 && ValidPreferences(prefs) && maxBlockSize == BlockSize(prefs.info.blockSizeID)
      && maxBufferSize >= RequiredBuffSize(prefs)
      && (!prefs.info.linked ==> tmpIn == 0)
    }

    /** The block compressor stands behind out, and its dictionary is out of the way of what will be buffered. */
    ghost predicate StreamOk(out: seq<byte>)
      reads `prefs, `tmpBuff, `tmpIn, stream, stream.hashTable, if prefs.info.linked then {stream.dictionary} else {}
    {
      && StreamReady(stream, prefs.info.linked, out)
      && (prefs.info.linked && stream.dictionary != null ==>
        stream.dictionary != xxh.mem32 && (stream.dictionary == tmpBuff ==> stream.dictStart + stream.dictSize <= tmpIn))
    }

    /** There is always room for a whole block when input is buffered. */
    ghost predicate RoomOk()
      reads `prefs, `maxBlockSize, `maxBufferSize, `tmpIn, `tmpInSize
    {
      if prefs.autoFlush then tmpInSize == 0 else tmpIn + maxBlockSize <= maxBufferSize && tmpInSize < maxBlockSize
    }

    /** The blocks in emitted stand for all of text except its last bytes, which are buffered. */
    ghost predicate Holding(emitted: seq<byte>, text: seq<byte>)
      reads `prefs, `cStage, `maxBlockSize, `maxBufferSize, `tmpBuff, `tmpIn, `tmpInSize,
            stream, stream.hashTable, tmpBuff, if prefs.info.linked then {stream.dictionary} else {}
    {
      && Started() && RoomOk() && tmpInSize <= |text|
      && StreamOk(text[..|text| - tmpInSize]) && Stands(emitted, prefs.info, text[..|text| - tmpInSize])
      && Slice(tmpBuff, tmpIn, tmpInSize) == text[|text| - tmpInSize..]
    }

    /** The checksum and the counter have seen text. */
    ghost predicate Counted(text: seq<byte>)
      reads `prefs, `totalInSize, `hashed, xxh, xxh.mem32
    {
      && xxh.Holds(0, hashed) && (prefs.info.contentChecksum ==> hashed == text)
      && (prefs.info.contentSize > 0 ==> totalInSize == |text|)
    }

    /** In the middle of a frame: emitted has been written and text taken in. */
    ghost predicate Encoding(emitted: seq<byte>, text: seq<byte>)
      reads this, xxh, xxh.mem32, stream, stream.hashTable, tmpBuff, if prefs.info.linked then {stream.dictionary} else {}
    {
      Holding(emitted, text) && Counted(text)
    }

    /** No memory of the caller is referred to. */
    ghost predicate SelfContained()
      reads `prefs, `tmpBuff, stream`dictionary
    {
      prefs.info.linked ==> stream.dictionary == null || stream.dictionary == tmpBuff
    }

    lemma InFrame(emitted: seq<byte>, text: seq<byte>)
      requires Encoding(emitted, text)
      ensures cStage == 1 && ValidPreferences(prefs) && tmpInSize < BlockSize(prefs.info.blockSizeID)
      ensures prefs.autoFlush ==> tmpInSize == 0
      ensures xxh.mem32 != tmpBuff
    {
    }

    /** LZ4F_createCompressionContext. */
    constructor ()
      ensures Usable() && fresh(Repr()) && cStage == 0 && stream.dictionary == null
    {
      prefs := Preferences(FrameInfo(true, false, false, 0, 0), 0, 0, false);
      cStage, maxBlockSize, maxBufferSize, tmpBuff, tmpIn, tmpInSize, totalInSize := 0, 0, 0, null, 0, 0, 0;
      hashed := [];
      xxh := new XxHash32.State();
      stream := new Stream();
    }

    /** Buffer management of LZ4F_compressBegin. */
    method Allocate(requiredBuffSize: nat)
      requires Buffers()
      modifies `maxBufferSize, `tmpBuff
      ensures Buffers() && maxBufferSize >= requiredBuffSize
      ensures tmpBuff == old(tmpBuff) || fresh(tmpBuff)
    {
      if maxBufferSize < requiredBuffSize {
        tmpBuff := new byte[requiredBuffSize](_ => 0);
        maxBufferSize := requiredBuffSize;
      }
    }

    /** The block compressor has no history. */
    ghost predicate StreamNew()
      reads `prefs, stream, stream.hashTable
    {
      if prefs.info.linked then stream.Valid() && stream.dictionary == null && !stream.tableType.ByU16? else stream.TableValid()
    }

    /** Everything of LZ4F_compressBegin but the header. */
    method StartFrame(preferences: Preferences)
      requires Usable() && ValidPreferences(preferences)
      modifies Repr()
      ensures fresh(Repr() - old(Repr()))
      ensures prefs == preferences && Started() && StreamNew() && RoomOk() && Counted([]) && tmpIn == 0 && tmpInSize == 0
    {
      hide XxHash32.State.Holds, BlockSize, Stream.TableValid;
      SetUp(preferences);
      xxh.Reset(0);
      hashed := [];
      if prefs.info.linked { stream.ResetFast(); }
      if prefs.info.contentSize > 0 { totalInSize := 0; }
    }

    /** Parameters and buffers. */
    method SetUp(preferences: Preferences)
      requires Buffers() && ValidPreferences(preferences)
      modifies `prefs, `cStage, `maxBlockSize, `maxBufferSize, `tmpBuff, `tmpIn, `tmpInSize
      ensures prefs == preferences && Started() && RoomOk() && tmpIn == 0 && tmpInSize == 0
      ensures tmpBuff == old(tmpBuff) || fresh(tmpBuff)
    {
      hide BlockSize;
      prefs := preferences;
      maxBlockSize := BlockSize(prefs.info.blockSizeID);
      Allocate(RequiredBuffSize(prefs));
      tmpIn, tmpInSize, cStage := 0, 0, 1;
    }

    /** After the header. */
    lemma FrameStarted(header: seq<byte>)
      requires Started() && StreamNew() && RoomOk() && tmpIn == 0 && tmpInSize == 0 && Stands(header, prefs.info, [])
      ensures Holding(header, [])
    {
      hide BlockSize, Stands;
    }

    /** The header of a frame that has been started. */
    method PutHeader(dst: array<byte>, d0: nat) returns (n: nat)
      requires Started() && StreamNew() && RoomOk() && Counted([]) && tmpIn == 0 && tmpInSize == 0
      requires d0 + maxFHSize <= dst.Length && dst !in Repr()
      modifies dst
      ensures n <= maxFHSize && Encoding(dst[d0..d0 + n], [])
      ensures ValidPreferences(prefs) && dst[d0..d0 + n] == HeaderBytes(prefs)
      ensures forall i :: 0 <= i < dst.Length && !(d0 <= i < d0 + maxFHSize) ==> dst[i] == old(dst[i])
    {
      hide XxHash32.State.Holds, BlockSize, Stands, Holding, HeaderBytes;
      n := WriteHeader(dst, d0, prefs);
      HeaderWritten(prefs);
      HeaderStands(dst[d0..d0 + n]);
      FrameStarted(dst[d0..d0 + n]);
    }

    /** LZ4F_compressBegin: the header; a block size of 0 stands for 64 KB. */
    method CompressBegin(dst: array<byte>, d0: nat, cap: nat, preferences: Preferences) returns (result: Result)
      requires Usable() && d0 + cap <= dst.Length && dst !in Repr()
      requires ValidPreferences(Defaulted(preferences))
      modifies Repr(), dst
      ensures fresh(Repr() - old(Repr()))
      ensures forall i :: 0 <= i < dst.Length && !(d0 <= i < d0 + cap) ==> dst[i] == old(dst[i])
      ensures cap < maxFHSize ==> result == Err(DstMaxSizeTooSmall) && Usable()
      ensures cap >= maxFHSize ==>
        && result.Size? && result.size <= maxFHSize && prefs == Defaulted(preferences)
        && dst[d0..d0 + result.size] == HeaderBytes(prefs)
        && Encoding(dst[d0..d0 + result.size], []) && tmpInSize == 0
        && (prefs.info.linked ==> stream.dictionary == null)
    {
      hide XxHash32.State.Holds, BlockSize, Encoding, Counted, Started, HeaderBytes;
      if cap < maxFHSize { return Err(DstMaxSizeTooSmall); }
      StartFrame(Defaulted(preferences));
      var n := PutHeader(dst, d0);
      return Size(n);
    }

    // ---------- Blocks ----------

    /** The output buffer is none of the buffers that are read while it is written. */
    ghost predicate Clear(dst: array<byte>)
      reads `prefs, `tmpBuff, stream`dictionary
    {
      dst != tmpBuff && dst != xxh.mem32 && (prefs.info.linked ==> dst != stream.dictionary)
    }

    /** Neither is the input, which is not buffered in itself. */
    ghost predicate Apart(dst: array<byte>, src: array<byte>)
      reads `prefs, `tmpBuff, stream`dictionary
    {
      Clear(dst) && dst != src && src != tmpBuff && src != xxh.mem32
    }

    /** emitted and what has been written into dst since then are the beginning of a frame whose text so far is out. */
    ghost predicate Written(dst: array<byte>, d0: int, d: int, emitted: seq<byte>, out: seq<byte>)
      reads `prefs, dst
    {
      0 <= d0 <= d <= dst.Length && Stands(emitted + dst[d0..d], prefs.info, out)
    }

    /** One more block, made of n bytes of mem. */
    method EmitBlock(mem: array<byte>, s0: nat, n: nat, dst: array<byte>, ghost d0: nat, d: nat,
                     ghost emitted: seq<byte>, ghost out: seq<byte>)
      returns (size: nat)
      requires ValidPreferences(prefs) && 1 <= n <= BlockSize(prefs.info.blockSizeID)
      requires StreamReady(stream, prefs.info.linked, out) && Written(dst, d0, d, emitted, out)
      requires s0 + n <= mem.Length && d + BHSize + n + CrcSize(prefs.info) <= dst.Length
      requires dst != mem && (prefs.info.linked ==> dst != stream.dictionary)
      modifies stream, stream.hashTable, dst
      ensures StreamReady(stream, prefs.info.linked, out + old(mem[s0..s0 + n]))
      ensures prefs.info.linked ==>
        stream.dictionary == mem && stream.dictStart + stream.dictSize == s0 + n && stream.dictSize > 0
      ensures size <= BHSize + n + CrcSize(prefs.info) && Written(dst, d0, d + size, emitted, out + old(mem[s0..s0 + n]))
      ensures dst[d..d + size] ==
        BlockFor(old(BlockPlan(stream, prefs.info.linked, mem, s0, n, prefs.compressionLevel)), old(mem[s0..s0 + n]), prefs.info)
      ensures forall i :: 0 <= i < dst.Length && !(d <= i < d + BHSize + n + CrcSize(prefs.info)) ==> dst[i] == old(dst[i])
    {
      hide StreamReady, Stands, IsBlock, BlockSize, BlockFor, BlockPlan;
      ghost var before := dst[d0..d];
      size := MakeBlock(stream, prefs.info, mem, s0, n, dst, d, prefs.compressionLevel, out);
      assert dst[..][d..d + size] == dst[d..d + size];
      assert emitted + dst[d0..d + size] == emitted + before + dst[d..d + size];
      BlockStands(emitted + before, prefs.info, out, dst[d..d + size], old(mem[s0..s0 + n]));
    }

    /** The n bytes that are buffered become a block. */
    method EmitTmp(n: nat, dst: array<byte>, ghost d0: nat, d: nat, ghost emitted: seq<byte>, ghost out: seq<byte>)
      returns (size: nat)
      requires Started() && StreamOk(out) && Written(dst, d0, d, emitted, out) && Clear(dst)
      requires 1 <= n <= maxBlockSize && tmpBuff != null && tmpIn + n <= tmpBuff.Length
      requires d + BHSize + n + CrcSize(prefs.info) <= dst.Length
      modifies `tmpIn, `tmpInSize, stream, stream.hashTable, dst
      ensures Started() && tmpInSize == 0 && StreamOk(out + old(tmpBuff[tmpIn..tmpIn + n])) && Clear(dst)
      ensures tmpIn == old(tmpIn) + if prefs.info.linked then n else 0
      ensures prefs.info.linked ==> stream.dictionary == tmpBuff
      ensures size <= BHSize + n + CrcSize(prefs.info)
      ensures Written(dst, d0, d + size, emitted, out + old(tmpBuff[tmpIn..tmpIn + n]))
      ensures forall i :: 0 <= i < dst.Length && !(d <= i < d + BHSize + n + CrcSize(prefs.info)) ==> dst[i] == old(dst[i])
    {
      hide StreamReady, Written, BlockSize, BlockFor, BlockPlan, Plan.Ok;
      size := EmitBlock(tmpBuff, tmpIn, n, dst, d0, d, emitted, out);
      if prefs.info.linked { tmpIn := tmpIn + n; }
      tmpInSize := 0;
    }

    /** memcpy behind what is buffered. */
    method Fill(src: seq<byte>, s: nat, k: nat, ghost out: seq<byte>)
      requires Started() && StreamOk(out) && s + k <= |src|
      requires tmpBuff != null && tmpIn + tmpInSize + k <= tmpBuff.Length
      modifies tmpBuff
      ensures Started() && StreamOk(out)
      ensures tmpBuff[tmpIn..tmpIn + tmpInSize + k] == old(Slice(tmpBuff, tmpIn, tmpInSize)) + src[s..s + k]
    {
      hide EndsWith, BlockSize, Slice, Stream.TableValid;
      SliceIs(tmpBuff, tmpIn, tmpInSize);
      if prefs.info.linked {
        Deliver(tmpBuff, tmpIn, tmpIn + tmpInSize, src, s, k, stream.dictionary, stream.dictStart, stream.dictSize);
      } else {
        Deliver(tmpBuff, tmpIn, tmpIn + tmpInSize, src, s, k, null, 0, 0);
      }
      JoinSlices(tmpBuff, tmpIn, tmpInSize, k);
      SliceIs(tmpBuff, tmpIn, tmpInSize + k);
    }

    /** LZ4F_localSaveDict, and the input buffer behind the dictionary. */
    method SaveTmp(ghost out: seq<byte>)
      requires Started() && StreamOk(out) && prefs.info.linked && tmpBuff != null && tmpBuff.Length >= KB64
      modifies `tmpIn, stream, tmpBuff
      ensures Started() && StreamOk(out) && tmpIn <= KB64 && stream.dictionary == tmpBuff
      ensures tmpIn == stream.dictSize == old(if stream.dictSize > KB64 then KB64 else stream.dictSize)
    {
      hide EndsWith, BlockSize, Stream.TableValid;
      ghost var dict := stream.Dict();
      tmpIn := stream.SaveDict(tmpBuff, 0, KB64);
      EndsWithTrans(out, dict, stream.Dict());
    }

    /** Keep tmpIn within limits. */
    method Limit(dst: array<byte>, ghost out: seq<byte>)
      requires Started() && StreamOk(out) && tmpInSize == 0 && !prefs.autoFlush && Clear(dst)
      modifies `tmpIn, stream, tmpBuff
      ensures Started() && StreamOk(out) && RoomOk() && Clear(dst)
      ensures stream.dictionary == old(stream.dictionary) || stream.dictionary == tmpBuff
      ensures prefs.info.linked ==> stream.dictSize == old(stream.dictSize) || stream.dictSize == KB64 < old(stream.dictSize)
    {
      hide StreamOk;
      if tmpIn + maxBlockSize > maxBufferSize {
        SaveTmp(out);
      }
    }

    /** Preserve the dictionary after blocks from src, unless src stays. */
    method PreserveDict(stableSrc: bool, dst: array<byte>, src: array<byte>, ghost out: seq<byte>)
      requires Started() && StreamOk(out) && tmpInSize == 0 && Apart(dst, src)
      requires prefs.info.linked && stream.dictionary == src && stream.dictSize > 0
      modifies `tmpIn, stream, tmpBuff
      ensures Started() && StreamOk(out) && Apart(dst, src)
      ensures if stableSrc then stream.dictionary == src else stream.dictionary == tmpBuff
      ensures stream.dictSize == old(stream.dictSize) || stream.dictSize == KB64 < old(stream.dictSize)
    {
      if stableSrc {
        tmpIn := 0;
      } else {
        SaveTmp(out);
        assert tmpIn > 0;  // a dictionary has been saved: no LZ4F_ERROR_GENERIC
      }
    }

    /** Between two blocks: nothing is buffered, out has been written. */
    ghost predicate Between(dst: array<byte>, d0: int, d: int, src: array<byte>, emitted: seq<byte>, out: seq<byte>)
      reads `prefs, `cStage, `maxBlockSize, `maxBufferSize, `tmpBuff, `tmpIn, `tmpInSize, dst,
            stream, stream.hashTable, if prefs.info.linked then {stream.dictionary} else {}
    {
      Started() && tmpInSize == 0 && StreamOk(out) && Apart(dst, src) && Written(dst, d0, d, emitted, out)
    }

    /** Complete the buffered block and compress it. */
    method CompleteTmp(src: array<byte>, s0: nat, dst: array<byte>, d0: nat, ghost emitted: seq<byte>, ghost text: seq<byte>)
      returns (s: nat, d: nat)
      requires Holding(emitted, text) && Apart(dst, src) && tmpInSize > 0 && s0 + maxBlockSize - tmpInSize <= src.Length
      requires d0 + BHSize + maxBlockSize + CrcSize(prefs.info) <= dst.Length
      modifies `tmpIn, `tmpInSize, stream, stream.hashTable, tmpBuff, dst
      ensures s == s0 + maxBlockSize - old(tmpInSize) && d0 <= d <= d0 + BHSize + maxBlockSize + CrcSize(prefs.info)
      ensures Between(dst, d0, d, src, emitted, text + src[s0..s])
      ensures prefs.info.linked ==> stream.dictionary == tmpBuff
      ensures forall i :: 0 <= i < dst.Length && !(d0 <= i < d0 + BHSize + maxBlockSize + CrcSize(prefs.info)) ==> dst[i] == old(dst[i])
    {
      hide StreamOk, Stands, BlockSize;
      ghost var done := text[..|text| - tmpInSize];
      s := s0 + maxBlockSize - tmpInSize;
      Fill(src[..], s0, maxBlockSize - tmpInSize, done);
      assert emitted + dst[d0..d0] == emitted;
      ghost var block := tmpBuff[tmpIn..tmpIn + maxBlockSize];
      var size := EmitTmp(maxBlockSize, dst, d0, d0, emitted, done);
      d := d0 + size;
      assert done + block == text + src[s0..s];
    }

    /** A block from the source. */
    method EmitSrc(src: array<byte>, s0: nat, s: nat, n: nat, dst: array<byte>, ghost d0: nat, d: nat,
                   ghost emitted: seq<byte>, ghost text: seq<byte>)
      returns (d': nat)
      requires s0 <= s && s + n <= src.Length && Between(dst, d0, d, src, emitted, text + src[s0..s])
      requires 1 <= n <= maxBlockSize && d + BHSize + n + CrcSize(prefs.info) <= dst.Length
      modifies stream, stream.hashTable, dst
      ensures d <= d' <= d + BHSize + n + CrcSize(prefs.info) && Between(dst, d0, d', src, emitted, text + src[s0..s + n])
      ensures prefs.info.linked ==> stream.dictionary == src && stream.dictSize > 0
      ensures forall i :: 0 <= i < dst.Length && !(d <= i < d + BHSize + n + CrcSize(prefs.info)) ==> dst[i] == old(dst[i])
    {
      hide StreamReady, Written, BlockSize, BlockFor, BlockPlan, Plan.Ok;
      assert text + src[s0..s] + src[s..s + n] == text + src[s0..s + n];
      var size := EmitBlock(src, s, n, dst, d0, d, emitted, text + src[s0..s]);
      d' := d + size;
    }

    /** Full blocks, and a partial one if nothing may stay behind. */
    method EmitSrcBlocks(src: array<byte>, s0: nat, s1: nat, end: nat, dst: array<byte>, ghost d0: nat, d1: nat, ghost dEnd: nat,
                         ghost flush: bool, ghost emitted: seq<byte>, ghost text: seq<byte>)
      returns (s: nat, d: nat)
      requires s0 <= s1 <= end <= src.Length && d0 <= d1 && Between(dst, d0, d1, src, emitted, text + src[s0..s1])
      requires d1 + BlocksRoom(end - s1, prefs.info, flush) <= dEnd <= dst.Length && (prefs.autoFlush ==> flush)
      modifies stream, stream.hashTable, dst
      ensures s1 <= s <= end && d1 <= d <= dEnd && Between(dst, d0, d, src, emitted, text + src[s0..s])
      ensures end - s == Left(end - s1, prefs)
      ensures if prefs.autoFlush then s == end else end - s < maxBlockSize
      ensures s == s1 ==> stream.dictionary == old(stream.dictionary)
      ensures s > s1 && prefs.info.linked ==> stream.dictionary == src && stream.dictSize > 0
      ensures forall i :: 0 <= i < dst.Length && !(d0 <= i < dEnd) ==> dst[i] == old(dst[i])
    {
      hide Left, StreamOk, Apart, Written, BlocksRoom, BlockSize;
      s, d := s1, d1;
      while end - s >= maxBlockSize
        invariant s1 <= s <= end && d1 <= d && d + BlocksRoom(end - s, prefs.info, flush) <= dEnd
        invariant Left(end - s, prefs) == Left(end - s1, prefs)
        invariant Between(dst, d0, d, src, emitted, text + src[s0..s])
        invariant s == s1 ==> stream.dictionary == old(stream.dictionary)
        invariant s > s1 && prefs.info.linked ==> stream.dictionary == src && stream.dictSize > 0
        invariant forall i :: 0 <= i < dst.Length && !(d0 <= i < dEnd) ==> dst[i] == old(dst[i])
      {
        RoomStep(end - s, prefs.info, flush);
        LeftStep(end - s, prefs);
        d := EmitSrc(src, s0, s, maxBlockSize, dst, d0, d, emitted, text);
        s := s + maxBlockSize;
      }
      LeftLast(end - s, prefs);
      if prefs.autoFlush && s < end {
        RoomLast(end - s, prefs.info, flush);
        d := EmitSrc(src, s0, s, end - s, dst, d0, d, emitted, text);
        s := end;
      }
    }

    /** What is left of the source, less than a block, is buffered. */
    method KeepRest(src: array<byte>, s0: nat, s: nat, end: nat, ghost emitted: seq<byte>, ghost text: seq<byte>)
      requires s0 <= s <= end <= src.Length && src != tmpBuff
      requires Started() && RoomOk() && tmpInSize == 0 && StreamOk(text + src[s0..s]) && Stands(emitted, prefs.info, text + src[s0..s])
      requires if prefs.autoFlush then s == end else end - s < maxBlockSize
      modifies `tmpInSize, tmpBuff
      ensures Holding(emitted, text + src[s0..end]) && tmpInSize == end - s
      ensures Started()
    {
      hide StreamReady, Stands, BlockSize;
      if s < end {
        Fill(src[..], s, end - s, text + src[s0..s]);
        tmpInSize := end - s;
      }
      SplitRest(text, src[..], s0, s, end);
    }

    static lemma SplitRest(text: seq<byte>, src: seq<byte>, s0: nat, s: nat, end: nat)
      requires s0 <= s <= end <= |src|
      ensures var all := text + src[s0..end];
        all[..|all| - (end - s)] == text + src[s0..s] && all[|all| - (end - s)..] == src[s..end]
    {
      assert src[s0..end] == src[s0..s] + src[s..end];
    }

    /** Everything fits into the buffer. */
    method BufferMore(src: array<byte>, s0: nat, n: nat, ghost emitted: seq<byte>, ghost text: seq<byte>)
      requires s0 + n <= src.Length && src != tmpBuff
      requires Holding(emitted, text) && 0 < tmpInSize && tmpInSize + n < maxBlockSize
      modifies `tmpInSize, tmpBuff
      ensures Holding(emitted, text + src[s0..s0 + n]) && tmpInSize == old(tmpInSize) + n
    {
      hide StreamReady, Stands, BlockSize;
      ghost var done := text[..|text| - tmpInSize];
      Fill(src[..], s0, n, done);
      tmpInSize := tmpInSize + n;
      ghost var all := text + src[s0..s0 + n];
      assert all[..|all| - tmpInSize] == done;
      assert all[|all| - tmpInSize..] == text[|done|..] + src[s0..s0 + n];
    }

    /** The state after the last block: the dictionary in a safe place, the rest of the source in the buffer. */
    method Settle(fromSrc: bool, stableSrc: bool, dst: array<byte>, ghost d0: nat, ghost d: nat, src: array<byte>, s0: nat, s: nat,
                  end: nat, ghost emitted: seq<byte>, ghost text: seq<byte>)
      requires s0 <= s <= end <= src.Length && Between(dst, d0, d, src, emitted, text + src[s0..s])
      requires if prefs.autoFlush then s == end else end - s < maxBlockSize
      requires fromSrc && prefs.info.linked ==> stream.dictionary == src && stream.dictSize > 0
      modifies `tmpIn, `tmpInSize, stream, tmpBuff
      ensures d0 <= d <= dst.Length && Holding(emitted + dst[d0..d], text + src[s0..end]) && tmpInSize == end - s
      ensures stream.dictionary in {old(stream.dictionary), tmpBuff}
      ensures fromSrc && prefs.info.linked && !stableSrc ==> stream.dictionary == tmpBuff
    {
      hide StreamOk, Stands, Holding, BlockSize;
      ghost var out := text + src[s0..s];
      if fromSrc && prefs.info.linked { PreserveDict(stableSrc, dst, src, out); }
      if !prefs.autoFlush { Limit(dst, out); }
      KeepRest(src, s0, s, end, emitted + dst[d0..d], text);
    }

    /** The blocks of the source from s1 on, and the state behind them. */
    method CompressSource(dst: array<byte>, d0: nat, d1: nat, ghost dEnd: nat, src: array<byte>, s0: nat, s1: nat, end: nat, stableSrc: bool,
                          ghost flush: bool, ghost emitted: seq<byte>, ghost text: seq<byte>)
      returns (d: nat)
      requires s0 <= s1 <= end <= src.Length && d0 <= d1 && Between(dst, d0, d1, src, emitted, text + src[s0..s1])
      requires d1 + BlocksRoom(end - s1, prefs.info, flush) <= dEnd <= dst.Length && (prefs.autoFlush ==> flush)
      modifies `tmpIn, `tmpInSize, stream, stream.hashTable, tmpBuff, dst
      ensures d0 <= d <= dEnd && Holding(emitted + dst[d0..d], text + src[s0..end]) && tmpInSize == Left(end - s1, prefs)
      ensures prefs.info.linked ==> stream.dictionary in {old(stream.dictionary), tmpBuff} + if stableSrc then {src} else {}
      ensures forall i :: 0 <= i < dst.Length && !(d0 <= i < dEnd) ==> dst[i] == old(dst[i])
    {
      hide Left, StreamOk, Stands, BlocksRoom, BlockSize, Holding;
      var s;
      s, d := EmitSrcBlocks(src, s0, s1, end, dst, d0, d1, dEnd, flush, emitted, text);
      Settle(s > s1, stableSrc, dst, d0, d, src, s0, s, end, emitted, text);
    }

    /** LZ4F_compressUpdate when it gets far enough to write a block, or nothing is buffered. */
    method CompressBlocks(dst: array<byte>, d0: nat, cap: nat, src: array<byte>, s0: nat, n: nat, stableSrc: bool,
                          ghost emitted: seq<byte>, ghost text: seq<byte>)
      returns (m: nat)
      requires Holding(emitted, text) && Apart(dst, src) && d0 + cap <= dst.Length && s0 + n <= src.Length
      requires tmpInSize > 0 ==> maxBlockSize - tmpInSize <= n
      requires CompressBoundInternal(n, prefs, tmpInSize) <= cap
      modifies `tmpIn, `tmpInSize, stream, stream.hashTable, tmpBuff, dst
      ensures m + FrameEndSize(prefs.info) <= CompressBoundInternal(n, prefs, old(tmpInSize))
      ensures d0 + m <= dst.Length && Holding(emitted + dst[d0..d0 + m], text + src[s0..s0 + n])
      ensures tmpInSize == Left(old(tmpInSize) + n, prefs)
      ensures prefs.info.linked ==> stream.dictionary in {old(stream.dictionary), tmpBuff} + if stableSrc then {src} else {}
      ensures forall i :: 0 <= i < dst.Length && !(d0 <= i < d0 + cap) ==> dst[i] == old(dst[i])
    {
      hide Left, StreamOk, Stands, BlocksRoom, BlockSize, CompressBoundInternal, FrameEndSize;
      var s, d := s0, d0;
      ghost var flush, r := prefs.autoFlush || n == 0, n + tmpInSize;
      BoundOfBlocks(n, prefs, tmpInSize);
      if tmpInSize > 0 {
        RoomStep(r, prefs.info, flush);
        LeftStep(r, prefs);
        s, d := CompleteTmp(src, s0, dst, d0, emitted, text);
      } else {
        assert text[..|text| - tmpInSize] == text == text + src[s0..s];
        assert emitted + dst[d0..d] == emitted;
      }
      d := CompressSource(dst, d0, d, d0 + BlocksRoom(r, prefs.info, flush), src, s0, s, s0 + n, stableSrc, flush, emitted, text);
      m := d - d0;
    }

    /** The content checksum and the count of what has been taken in. */
    method Count(input: seq<byte>, ghost emitted: seq<byte>, ghost text: seq<byte>)
      requires Counted(text) && Holding(emitted, text + input)
      modifies `totalInSize, `hashed, xxh, xxh.mem32
      ensures Encoding(emitted, text + input)
    {
      hide XxHash32.State.Holds, StreamReady, Stands, BlockSize;
      if prefs.info.contentChecksum {
        xxh.Update(input, 0, hashed);
        hashed := hashed + input;
      }
      totalInSize := totalInSize + |input|;
    }

    /**
      LZ4F_compressUpdate takes src[s0..s0 + n) in and writes what blocks it completes. It fails only when the room is
      less than the documented bound, or no frame has been started. Unless the caller promises that src stays, nothing
      refers to it afterwards.
     */
    method CompressUpdate(dst: array<byte>, d0: nat, cap: nat, src: array<byte>, s0: nat, n: nat, stableSrc: bool,
                          ghost emitted: seq<byte>, ghost text: seq<byte>)
      returns (result: Result)
      requires d0 + cap <= dst.Length && s0 + n <= src.Length && Apart(dst, src)
      requires cStage == 1 ==> Encoding(emitted, text)
      modifies `tmpIn, `tmpInSize, `totalInSize, `hashed, xxh, xxh.mem32, stream, stream.hashTable, tmpBuff, dst
      ensures forall i :: 0 <= i < dst.Length && !(d0 <= i < d0 + cap) ==> dst[i] == old(dst[i])
      ensures cStage != 1 ==> result == Err(Generic)
      ensures cStage == 1 && cap < CompressBoundInternal(n, prefs, old(tmpInSize)) ==>
        result == Err(DstMaxSizeTooSmall) && Encoding(emitted, text) && tmpInSize == old(tmpInSize)
      ensures cStage == 1 && cap >= CompressBoundInternal(n, prefs, old(tmpInSize)) ==>
        && result.Size? && result.size + FrameEndSize(prefs.info) <= CompressBoundInternal(n, prefs, old(tmpInSize))
        && Encoding(emitted + dst[d0..d0 + result.size], text + src[s0..s0 + n])
        && (prefs.info.linked ==> stream.dictionary in {old(stream.dictionary), tmpBuff} + if stableSrc then {src} else {})
        && tmpInSize == Left(old(tmpInSize) + n, prefs)
    {
      hide Left, Stands, StreamOk, Counted, CompressBoundInternal, BlockSize;
      if cStage == 1 { LeftLast(tmpInSize + n, prefs); }
      if cStage != 1 { return Err(Generic); }
      if cap < CompressBoundInternal(n, prefs, tmpInSize) { return Err(DstMaxSizeTooSmall); }
      var m := 0;
      if 0 < tmpInSize && maxBlockSize - tmpInSize > n {
        BufferMore(src, s0, n, emitted, text);
        assert emitted + dst[d0..d0] == emitted;
      } else {
        m := CompressBlocks(dst, d0, cap, src, s0, n, stableSrc, emitted, text);
      }
      Count(src[s0..s0 + n], emitted + dst[d0..d0 + m], text);
      return Size(m);
    }

    /** LZ4F_flush: what is buffered becomes a block. */
    method Flush(dst: array<byte>, d0: nat, cap: nat, ghost emitted: seq<byte>, ghost text: seq<byte>) returns (result: Result)
      requires d0 + cap <= dst.Length && Clear(dst)
      requires cStage == 1 ==> Encoding(emitted, text)
      modifies `tmpIn, `tmpInSize, stream, stream.hashTable, tmpBuff, dst
      ensures forall i :: 0 <= i < dst.Length && !(d0 <= i < d0 + cap) ==> dst[i] == old(dst[i])
      ensures old(tmpInSize) == 0 ==> result == Size(0)
      ensures old(tmpInSize) > 0 && cStage != 1 ==> result == Err(Generic)
      ensures cStage == 1 && 0 < old(tmpInSize) && cap < old(tmpInSize) + BHSize + BFSize ==>
        result == Err(DstMaxSizeTooSmall) && Encoding(emitted, text) && tmpInSize == old(tmpInSize)
      ensures cStage == 1 && (old(tmpInSize) == 0 || cap >= old(tmpInSize) + BHSize + BFSize) ==>
        && result.Size? && tmpInSize == 0 && result.size <= FlushRoom(old(tmpInSize))
        && d0 + result.size <= dst.Length && Encoding(emitted + dst[d0..d0 + result.size], text)
        && (stream.dictionary == old(stream.dictionary) || stream.dictionary == tmpBuff || !prefs.info.linked)
    {
      hide StreamOk, Stands, RoomOk, Counted, BlockSize;
      if tmpInSize == 0 {
        assert emitted + dst[d0..d0] == emitted;
        return Size(0);
      }
      if cStage != 1 { return Err(Generic); }
      if cap < tmpInSize + BHSize + BFSize { return Err(DstMaxSizeTooSmall); }
      var size := FlushBlock(dst, d0, emitted, text);
      return Size(size);
    }

    /** What is buffered becomes a block. */
    method FlushBlock(dst: array<byte>, d0: nat, ghost emitted: seq<byte>, ghost text: seq<byte>) returns (size: nat)
      requires Holding(emitted, text) && Clear(dst) && tmpInSize > 0 && d0 + tmpInSize + BHSize + BFSize <= dst.Length
      modifies `tmpIn, `tmpInSize, stream, stream.hashTable, tmpBuff, dst
      ensures forall i :: 0 <= i < dst.Length && !(d0 <= i < d0 + old(tmpInSize) + BHSize + BFSize) ==> dst[i] == old(dst[i])
      ensures tmpInSize == 0 && size <= FlushRoom(old(tmpInSize)) && d0 + size <= dst.Length
      ensures Holding(emitted + dst[d0..d0 + size], text)
      ensures stream.dictionary == old(stream.dictionary) || stream.dictionary == tmpBuff || !prefs.info.linked
    {
      hide Stands, BlockSize, StreamReady;
      ghost var done := text[..|text| - tmpInSize];
      assert emitted + dst[d0..d0] == emitted;
      var n := tmpInSize;
      SliceIs(tmpBuff, tmpIn, n);
      assert done + tmpBuff[tmpIn..tmpIn + n] == text;
      size := EmitTmp(n, dst, d0, d0, emitted, done);
      Limit(dst, text);
      assert text[..|text| - 0] == text && text[|text| - 0..] == [] == Slice(tmpBuff, tmpIn, 0);
    }

    /** What flushing n bytes takes at most. */
    function FlushRoom(n: nat): nat
      reads `prefs
    {
      if n == 0 then 0 else BHSize + n + CrcSize(prefs.info)
    }

    /** The end mark and the content checksum, if there is room for them. */
    method PutEnd(dst: array<byte>, d: nat, room: nat, ghost text: seq<byte>) returns (result: Result)
      requires Counted(text) && d + room <= dst.Length && dst != xxh.mem32
      modifies dst
      ensures forall i :: 0 <= i < dst.Length && !(d <= i < d + room) ==> dst[i] == old(dst[i])
      ensures if room < FrameEndSize(prefs.info) then result == Err(DstMaxSizeTooSmall)
              else result == Size(FrameEndSize(prefs.info)) && dst[d..d + result.size] == EndBytes(prefs.info, text)
    {
      hide XxHash32.State.Holds, XxHash32.Hash, LE32Bytes;
      if room < 4 { return Err(DstMaxSizeTooSmall); }
      WriteLE32(dst, d, 0);
      assert dst[d..d + 4] == LE32Bytes(0) + [];
      if prefs.info.contentChecksum {
        var digest := xxh.Digest(0, hashed);
        if room < 8 { return Err(DstMaxSizeTooSmall); }
        AppendLE32(dst, d, d + 4, digest);
        return Size(8);
      }
      return Size(4);
    }

    /** When nothing is buffered, everything has been written. */
    lemma AllWritten(emitted: seq<byte>, text: seq<byte>)
      requires Holding(emitted, text) && tmpInSize == 0
      ensures Started() && stream.TableValid() && Stands(emitted, prefs.info, text)
    {
      hide Stands, EndsWith, Stream.TableValid;
      assert text[..|text| - tmpInSize] == text;
    }

    /** LZ4F_compressBound(0) covers a flush and the end of the frame. */
    lemma EndFits(emitted: seq<byte>, text: seq<byte>)
      requires Holding(emitted, text)
      ensures FlushRoom(tmpInSize) + FrameEndSize(prefs.info) <= LZ4F_compressBound(0, prefs)
      ensures tmpInSize > 0 ==> tmpInSize + BHSize + BFSize <= LZ4F_compressBound(0, prefs)
    {
      hide Stands, StreamOk;
      if !prefs.autoFlush { RoomLast(BlockSize(prefs.info.blockSizeID) - 1, prefs.info, true); }
    }

    /**
      LZ4F_compressEnd: everything emitted is a frame, and its text is all that was taken in. Room for
      LZ4F_compressBound(0) is enough; a declared content size must have been met.
     */
    method CompressEnd(dst: array<byte>, d0: nat, cap: nat, ghost emitted: seq<byte>, ghost text: seq<byte>) returns (result: Result)
      requires d0 + cap <= dst.Length && Clear(dst) && cStage == 1 && Encoding(emitted, text)
      modifies `tmpIn, `tmpInSize, `cStage, `maxBufferSize, stream, stream.hashTable, tmpBuff, dst
      ensures forall i :: 0 <= i < dst.Length && !(d0 <= i < d0 + cap) ==> dst[i] == old(dst[i])
      ensures result.Size? ==> result.size <= cap && DecodeFrame(emitted + dst[d0..d0 + result.size]) == Decoded(text)
      ensures result == Err(DstMaxSizeTooSmall) ==> cap < old(LZ4F_compressBound(0, prefs))
      ensures result != Err(DstMaxSizeTooSmall) ==>
        && Usable() && cStage == 0 && tmpInSize == 0
        && (result.Size? <==> prefs.info.contentSize == 0 || prefs.info.contentSize == |text|)
        && (result.Err? ==> result == Err(FrameSizeWrong))
    {
      hide Stands, Holding, BlockSize, StreamReady, XxHash32.State.Holds, DecodeFrame, EndBytes, LZ4F_compressBound;
      EndFits(emitted, text);
      var flushed := Flush(dst, d0, cap, emitted, text);
      if flushed.Err? { return flushed; }
      var d, flushSize := d0 + flushed.size, flushed.size;
      ghost var blocks := emitted + dst[d0..d];
      AllWritten(blocks, text);
      var tail := PutEnd(dst, d, cap - flushSize, text);
      if tail.Err? { return tail; }
      cStage := 0;
      maxBufferSize := 0;
      if prefs.info.contentSize > 0 && prefs.info.contentSize != totalInSize { return Err(FrameSizeWrong); }
      assert emitted + dst[d0..d + tail.size] == blocks + dst[d..d + tail.size];
      FrameEnds(blocks, prefs.info, text);
      return Size(flushSize + tail.size);
    }
  }

  // ---------- LZ4F_compressFrame ----------

  /** LZ4F_optimalBSID: the smallest block size that takes all of the source in one block, if it is not larger than requested. */
  method OptimalBSID(requestedBSID: nat, srcSize: nat) returns (id: nat)
    requires requestedBSID == 0 || ValidBlockSizeID(requestedBSID)
    ensures if requestedBSID == 0 then id == 0 else
      && 4 <= id <= requestedBSID
      && (id < requestedBSID ==> srcSize <= BlockSize(id)) && (id > 4 ==> srcSize > BlockSize(id - 1))
  {
    var proposedBSID, maxBlockSize := 4, 0x1_0000;
    while requestedBSID > proposedBSID
      invariant 4 <= proposedBSID <= 7 && maxBlockSize == BlockSize(proposedBSID)
      invariant requestedBSID != 0 ==> proposedBSID <= requestedBSID
      invariant proposedBSID > 4 ==> srcSize > BlockSize(proposedBSID - 1)
    {
      if srcSize <= maxBlockSize { return proposedBSID; }
      proposedBSID := proposedBSID + 1;
      maxBlockSize := maxBlockSize * 4;
    }
    return requestedBSID;
  }

  /** LZ4F_compressFrameBound. */
  function LZ4F_compressFrameBound(srcSize: nat, prefs: Preferences): nat
    requires ValidBlockSizeID(prefs.info.blockSizeID)
  {
    maxFHSize + CompressBoundInternal(srcSize, prefs.(autoFlush := true), 0)
  }

  lemma OneBlockRoom(r: nat, info: FrameInfo)
    requires ValidBlockSizeID(info.blockSizeID) && 0 < r <= BlockSize(info.blockSizeID)
    ensures BlocksRoom(r, info, true) == BHSize + r + CrcSize(info)
  {
    hide BlocksRoom;
    if r == BlockSize(info.blockSizeID) {
      RoomStep(r, info, true);
      RoomLast(0, info, true);
    } else {
      RoomLast(r, info, true);
    }
  }

  /** The preferences LZ4F_compressFrame_usingCDict works with, given the block size it has chosen. */
  function FramePreferences(preferences: Preferences, id: nat, srcSize: nat): (r: Preferences)
    requires id == 0 || ValidBlockSizeID(id)
  {
    var i := preferences.info;
    var linked := i.linked && srcSize > BlockSize(if id == 0 then 4 else id);
    preferences.(autoFlush := true,
                 info := FrameInfo(linked, i.blockChecksum, i.contentChecksum, id, if i.contentSize > 0 then srcSize else 0))
  }

  /** A source that fits one block of the smaller size needs one block of either size. */
  lemma OneBlockBound(preferences: Preferences, id: nat, srcSize: nat)
    requires ValidBlockSizeID(preferences.info.blockSizeID) && srcSize > 0
    requires 4 <= id < preferences.info.blockSizeID && srcSize <= BlockSize(id)
    ensures LZ4F_compressFrameBound(srcSize, Defaulted(FramePreferences(preferences, id, srcSize)))
            == LZ4F_compressFrameBound(srcSize, Defaulted(preferences))
  {
    hide BlocksRoom;
    OneBlockRoom(srcSize, Defaulted(preferences).info);
    OneBlockRoom(srcSize, FramePreferences(preferences, id, srcSize).info);
  }

  /** The room that the caller computes from his own preferences is the room that is needed. */
  lemma FrameBoundKept(preferences: Preferences, id: nat, srcSize: nat)
    requires preferences.info.blockSizeID == 0 || ValidBlockSizeID(preferences.info.blockSizeID)
    requires id == preferences.info.blockSizeID ||
      (4 <= id < preferences.info.blockSizeID && srcSize <= BlockSize(id))
    ensures LZ4F_compressFrameBound(srcSize, Defaulted(FramePreferences(preferences, id, srcSize)))
            == LZ4F_compressFrameBound(srcSize, Defaulted(preferences))
  {
    if id != preferences.info.blockSizeID && srcSize > 0 { OneBlockBound(preferences, id, srcSize); }
  }

  lemma BoundOfEnd(prefs: Preferences)
    requires ValidBlockSizeID(prefs.info.blockSizeID) && prefs.autoFlush
    ensures LZ4F_compressBound(0, prefs) == FrameEndSize(prefs.info)
  {
    RoomLast(0, prefs.info, true);
  }

  /** LZ4F_compressFrame_usingCDict without a dictionary: a whole frame at once. */
  method CompressFrame(ctx: CCtx, dst: array<byte>, d0: nat, cap: nat, src: array<byte>, s0: nat, n: nat, preferences: Preferences)
    returns (result: Result)
    requires ctx.Usable() && dst !in ctx.Repr() && src !in ctx.Repr() && dst != src
    requires d0 + cap <= dst.Length && s0 + n <= src.Length && n < 0x1_0000_0000_0000_0000
    requires ValidPreferences(Defaulted(preferences))
    modifies ctx.Repr(), dst
    ensures fresh(ctx.Repr() - old(ctx.Repr())) && ctx.Usable()
    ensures forall i :: 0 <= i < dst.Length && !(d0 <= i < d0 + cap) ==> dst[i] == old(dst[i])
    ensures if cap < LZ4F_compressFrameBound(n, Defaulted(preferences)) then result == Err(DstMaxSizeTooSmall)
            else result.Size? && result.size <= cap && DecodeFrame(dst[d0..d0 + result.size]) == Decoded(src[s0..s0 + n])
  {
    hide CCtx.Encoding, CCtx.Usable, CompressBoundInternal, DecodeFrame, BlockSize, LZ4F_compressBound, HeaderBytes, Left;
    var id := OptimalBSID(preferences.info.blockSizeID, n);
    var prefs := FramePreferences(preferences, id, n);
    FrameBoundKept(preferences, id, n);
    if cap < LZ4F_compressFrameBound(n, Defaulted(prefs)) { return Err(DstMaxSizeTooSmall); }
    var head := ctx.CompressBegin(dst, d0, cap, prefs);
    ctx.InFrame(dst[d0..d0 + head.size], []);
    result := FillFrame(ctx, dst, d0, d0 + head.size, cap - head.size, src, s0, n);
  }

  /** The content and the end of a frame whose header is there. */
  method FillFrame(ctx: CCtx, dst: array<byte>, d0: nat, d1: nat, cap: nat, src: array<byte>, s0: nat, n: nat)
    returns (result: Result)
    requires d0 <= d1 && d1 + cap <= dst.Length && s0 + n <= src.Length && ctx.Apart(dst, src)
    requires ctx.Encoding(dst[d0..d1], []) && ctx.prefs.autoFlush && (ctx.prefs.info.contentSize in {0, n})
    requires cap >= CompressBoundInternal(n, ctx.prefs, 0)
    modifies ctx.Repr(), dst
    ensures fresh(ctx.Repr() - old(ctx.Repr())) && ctx.Usable()
    ensures forall i :: 0 <= i < dst.Length && !(d1 <= i < d1 + cap) ==> dst[i] == old(dst[i])
    ensures result.Size? && d0 + result.size <= d1 + cap
    ensures DecodeFrame(dst[d0..d0 + result.size]) == Decoded(src[s0..s0 + n])
  {
    hide CCtx.Encoding, CCtx.Usable, CompressBoundInternal, DecodeFrame, BlockSize, LZ4F_compressBound, Left;
    ghost var text, frame := src[s0..s0 + n], dst[d0..d1];
    ctx.InFrame(frame, []);
    var body := ctx.CompressUpdate(dst, d1, cap, src, s0, n, true, frame, []);
    assert [] + text == text;
    var d := d1 + body.size;
    frame := frame + dst[d1..d];
    assert frame == dst[d0..d];
    ctx.InFrame(frame, text);
    BoundOfEnd(ctx.prefs);
    var tail := ctx.CompressEnd(dst, d, cap - body.size, frame, text);
    assert frame + dst[d..d + tail.size] == dst[d0..d + tail.size];
    return Size(d + tail.size - d0);
  }
}
