/** LZ4F_decompress of lz4frame.c: the frame decoder as a state machine over pieces of input and output. */
module FrameDecoder {
  import opened BlockFormat
  import BlockDecoder
  import opened BlockDecompress
  import opened FrameCursor
  import opened FrameFormat
  import opened FrameHistory
  import opened FrameReading
  import opened Memory
  import opened Window
  import XxHash32

  const KB128 := 0x2_0000
  const GB1 := 0x4000_0000

  type u64 = x: int | 0 <= x < 0x1_0000_0000_0000_0000

  datatype Stage =
    | GetFrameHeader | StoreFrameHeader
    | Init
    | GetBlockHeader | StoreBlockHeader
    | CopyDirect | GetBlockChecksum
    | GetCBlock | StoreCBlock
    | FlushOut
    | GetSuffix | StoreSuffix
    | GetSFrameSize | StoreSFrameSize
    | SkipSkippable

  datatype Error =
    | FrameTypeUnknown | ReservedFlagSet | HeaderVersionWrong | HeaderIncomplete | HeaderChecksumInvalid
    | MaxBlockSizeInvalid | BlockChecksumInvalid | Generic | DecompressionFailed
    | FrameSizeWrong | ContentChecksumInvalid

  /** What a stage asks for: another stage, an end of the call with a hint for the next one, or an error. */
  datatype Step = More | Stop(hint: nat) | Fail(error: Error)

  /** What is left of the declared content size, a 64-bit counter, after n more bytes of text. */
  function RemainingAfter(info: FrameInfo, remaining: u64, n: nat): u64 {
    if info.contentSize == 0 then remaining else (remaining - n) % 0x1_0000_0000_0000_0000
  }

  /** What the size counter holds from an earlier frame, if this one does not declare its size. */
  function LeftOf(info: FrameInfo, remaining: u64): nat {
    if info.contentSize == 0 then remaining else 0
  }

  lemma LeftStays(info: FrameInfo, remaining: u64, n: nat)
    ensures LeftOf(info, RemainingAfter(info, remaining, n)) == LeftOf(info, remaining)
  {
  }

  /** The counters match the text decoded so far. */
  predicate TotalsOf(info: FrameInfo, remaining: u64, hashed: seq<byte>, text: seq<byte>) {
    remaining == Missing(info, LeftOf(info, remaining), |text|) && (info.contentChecksum ==> hashed == text)
  }

  lemma TotalsMore(info: FrameInfo, remaining: u64, hashed: seq<byte>, text: seq<byte>, more: seq<byte>)
    requires TotalsOf(info, remaining, hashed, text)
    ensures TotalsOf(info, RemainingAfter(info, remaining, |more|), hashed + (if info.contentChecksum then more else []), text + more)
  {
  }

  /** data is a compressed block behind out that ends at position p of f, and out has been counted. */
  ghost predicate BlockEndsAt(f: Input, info: FrameInfo, p: int, data: seq<byte>, out: seq<byte>, remaining: u64, hashed: seq<byte>) {
    Specified(f) && 0 <= p && BlockAt(f, info, LeftOf(info, remaining), data, p, out) && TotalsOf(info, remaining, hashed, out)
  }

  /** The data of a compressed block, with its checksum, is selectedIn. */
  lemma BlockFetched(f: Input, info: FrameInfo, p: int, target: nat, out: seq<byte>, selectedIn: seq<byte>, remaining: u64, hashed: seq<byte>)
    requires Specified(f) && target <= p <= |f.bytes| && DataAt(f, info, LeftOf(info, remaining), p - target, target, out) && selectedIn == f.bytes[p - target..p]
    requires TotalsOf(info, remaining, hashed, out)
    ensures CrcSize(info) < target
    ensures var n := target - CrcSize(info);
      if info.blockChecksum && LE32(selectedIn, n) != Checksum(selectedIn[..n]) then !MustAccept(f)
      else BlockEndsAt(f, info, p, selectedIn[..n], out, remaining, hashed)
  {
    hide Specified, MustAccept, DataAt, BlockAt, TotalsOf, LE32, Checksum;
    assert CrcSize(info) < target by { DataPlace(f, info, LeftOf(info, remaining), p - target, target, out); }
    DataRead(f, info, LeftOf(info, remaining), p - target, target, out, selectedIn);
  }

  lemma DataPlace(f: Input, info: FrameInfo, left: nat, p: nat, target: nat, out: seq<byte>)
    requires DataAt(f, info, left, p, target, out)
    ensures CrcSize(info) < target && p <= |f.bytes| && ValidBlockSizeID(info.blockSizeID)
  {
    hide ReadData, ReadFrame;
  }

  /** What has been decoded is what the frame says, once it has been counted. */
  lemma BlockCounted(f: Input, info: FrameInfo, p: int, data: seq<byte>, out: seq<byte>, remaining: u64, hashed: seq<byte>, text: seq<byte>)
    requires BlockEndsAt(f, info, p, data, out, remaining, hashed) && IsText(info, data, out, text)
    ensures Specified(f) && 0 <= p <= |f.bytes|
    ensures BlocksAt(f, info, LeftOf(info, RemainingAfter(info, remaining, |text|)), p, out + text)
    ensures TotalsOf(info, RemainingAfter(info, remaining, |text|), hashed + (if info.contentChecksum then text else []), out + text)
  {
    hide ReadFrame, AfterBlock, Decodes, RemainingAfter, LeftOf, TotalsOf, UsesZeroOffset;
    BlockDecoded(f, info, LeftOf(info, remaining), data, p, out);
    TotalsMore(info, remaining, hashed, out, text);
    LeftStays(info, remaining, |text|);
  }

  /** A block is only refused if the format refuses it. */
  lemma BlockRefused(f: Input, info: FrameInfo, p: int, data: seq<byte>, out: seq<byte>, remaining: u64, hashed: seq<byte>)
    requires BlockEndsAt(f, info, p, data, out, remaining, hashed) && !DataOk(info, data, out)
    ensures !MustAccept(f)
  {
    hide ReadFrame, AfterBlock, DataOk, TotalsOf;
    BlockDecoded(f, info, LeftOf(info, remaining), data, p, out);
  }

  /** text is what the block stands for, unless it uses offset 0. */
  ghost predicate IsText(info: FrameInfo, data: seq<byte>, out: seq<byte>, text: seq<byte>) {
    && ValidBlockSizeID(info.blockSizeID)
    && (UsesZeroOffset(data, 0) || (Decodes(info, data, out) && text == DataText(info, data, out)))
  }

  /** What the decoder sees of the history: the dictionary, or its last 64 KB. */
  ghost predicate SeenOf(info: FrameInfo, d: seq<byte>, out: seq<byte>) {
    if info.linked then Remembers(d, out, KB64) && |d| <= |out| else d == []
  }

  lemma SeenIs(info: FrameInfo, dict: seq<byte>, d: seq<byte>, out: seq<byte>)
    requires SeenOf(info, dict, out) && |d| <= |dict| && d == dict[|dict| - |d|..] && (d == dict || |d| == KB64)
    ensures SeenOf(info, d, out)
  {
    hide Remembers;
    if info.linked && d != dict { RemembersTail(dict, out, KB64, KB64); }
  }

  /** A block that is accepted is decoded to its text. */
  lemma AcceptedIsText(info: FrameInfo, data: seq<byte>, out: seq<byte>, d: seq<byte>, bytes: seq<byte>)
    requires ValidBlockSizeID(info.blockSizeID) && |bytes| <= BlockSize(info.blockSizeID) && SeenOf(info, d, out)
    requires UsesZeroOffset(data, 0) || Decode(data, 0, d) == Decoded(d + bytes)
    ensures IsText(info, data, out, bytes)
  {
    hide Decode, Remembers, UsesZeroOffset;
    if !UsesZeroOffset(data, 0) {
      if info.linked { DecodedBehindWindow(data, d, out, bytes); }
      TextIs(data, History(info, out), bytes);
    }
  }

  /** A well-formed block is well-formed for what the decoder sees, too. */
  lemma SeenWellFormed(info: FrameInfo, data: seq<byte>, out: seq<byte>, d: seq<byte>)
    requires ValidBlockSizeID(info.blockSizeID) && DataOk(info, data, out) && SeenOf(info, d, out)
    ensures WellFormed(data, d) && |Text(data, d)| <= BlockSize(info.blockSizeID)
  {
    hide Decode, Conforming, Remembers;
    var text := Text(data, History(info, out));
    if info.linked { RepresentsBehindWindow(data, d, out, text); }
    RepresentsIsWellFormed(data, d, text);
  }

  /**
    Behind any dictionary that remembers the window, a block that is accepted decodes to its text, and a well-formed one
    is accepted.
   */
  lemma DataDecodes(info: FrameInfo, data: seq<byte>, out: seq<byte>, d: seq<byte>, bytes: seq<byte>, r: int)
    requires ValidBlockSizeID(info.blockSizeID) && |data| <= BlockSize(info.blockSizeID) && SeenOf(info, d, out)
    requires BlockDecoder.FieldsFit(data, 0) ==> BlockDecoder.DecodedWell(data, d, bytes, r, BlockSize(info.blockSizeID), false)
    requires r <= BlockSize(info.blockSizeID) && |bytes| == if r >= 0 then r else 0
    ensures DataOk(info, data, out) ==> r >= 0
    ensures r >= 0 ==> IsText(info, data, out, bytes)
  {
    hide Decode, WellFormed, BlockDecoder.FieldsFit, SeenOf, UsesZeroOffset, IsText, DataOk;
    BlockDecoder.ShortBlockFits(data, 0);
    if r >= 0 { AcceptedIsText(info, data, out, d, bytes); }
    if DataOk(info, data, out) { SeenWellFormed(info, data, out, d); }
  }

  lemma TextIs(data: seq<byte>, hist: seq<byte>, text: seq<byte>)
    requires Decode(data, 0, hist) == Decoded(hist + text)
    ensures Text(data, hist) == text
  {
    hide Decode;
    assert (hist + Text(data, hist))[|hist|..] == (hist + text)[|hist|..];
  }

  predicate IsBlockSize(n: nat) {
    n == 0x1_0000 || n == 0x4_0000 || n == 0x10_0000 || n == 0x40_0000
  }

  /** LZ4F_dctx. A pointer into the output, the dictionary, is an array and an offset. */
  class DCtx {
    var info: FrameInfo
    var stage: Stage
    var frameRemainingSize: u64
    var maxBlockSize: nat
    var maxBufferSize: nat
    var tmpIn: array?<byte>
    var tmpInSize: nat
    var tmpInTarget: nat
    var tmpOutBuffer: array?<byte>
    var dict: array?<byte>
    var dictStart: nat
    var dictSize: nat
    var tmpOut: nat
    var tmpOutSize: nat
    var tmpOutStart: nat
    /** Where the data of the current raw block starts in the frame. */
    ghost var rawStart: nat
    /** What the two checksum states have taken in. */
    ghost var hashed: seq<byte>
    ghost var blockHashed: seq<byte>
    const xxh: XxHash32.State
    const blockChecksum: XxHash32.State
    const header: array<byte>

    ghost function Repr(): set<object>
      reads this
    {
      {this, xxh, xxh.mem32, blockChecksum, blockChecksum.mem32, header}
      + (if tmpIn == null then {} else {tmpIn}) + (if tmpOutBuffer == null then {} else {tmpOutBuffer})
    }

    /** The arrays of the context that never hold history. */
    ghost predicate IsScratch(mem: array<byte>)
      reads `tmpIn
    {
      mem == xxh.mem32 || mem == blockChecksum.mem32 || mem == header || mem == tmpIn
    }

    /** The buffers are distinct, and as large as their sizes say. */
    ghost predicate Buffers()
      reads `tmpIn, `tmpOutBuffer, `maxBufferSize
    {
      && header.Length == maxFHSize && xxh.mem32.Length == 16 && blockChecksum.mem32.Length == 16
      && xxh != blockChecksum && xxh.mem32 != blockChecksum.mem32 && header != xxh.mem32 && header != blockChecksum.mem32
      && (tmpIn != null ==> tmpIn != header && tmpIn != xxh.mem32 && tmpIn != blockChecksum.mem32)
      && (tmpOutBuffer != null ==> !IsScratch(tmpOutBuffer))
      && (maxBufferSize > 0 ==>
        && tmpIn != null && tmpOutBuffer != null && tmpOutBuffer.Length == maxBufferSize
        && tmpIn.Length >= BFSize && IsBlockSize(tmpIn.Length - BFSize)
        && (maxBufferSize == tmpIn.Length - BFSize || maxBufferSize == tmpIn.Length - BFSize + KB128))
    }

    /** After dstage_init, the buffers are large enough for the frame. */
    ghost predicate Allocated()
      reads `tmpIn, `tmpOutBuffer, `maxBufferSize, `info, `maxBlockSize, `tmpOut
    {
      && Buffers() && maxBufferSize > 0
      && ValidBlockSizeID(info.blockSizeID) && maxBlockSize == BlockSize(info.blockSizeID)
      && maxBlockSize + BFSize <= tmpIn.Length
      && maxBlockSize + (if info.linked then KB128 else 0) <= maxBufferSize
      && (!info.linked ==> tmpOut == 0)
    }

    predicate InTmp()
      reads `dict, `tmpOutBuffer
    {
      dict != null && dict == tmpOutBuffer
    }

    /** The dictionary is nothing, or at the start of the decoder's own buffer, or in memory of the caller. */
    ghost predicate DictPlace()
      reads `dict, `dictStart, `dictSize, `tmpIn, `tmpOutBuffer
    {
      && Within(dict, dictStart, dictSize)
      && (dict != null ==> !IsScratch(dict))
      && (InTmp() ==> dictStart == 0)
    }

    ghost predicate WindowKept(out: seq<byte>, flushing: bool)
      reads `dict, `dictStart, `dictSize, `tmpOutBuffer, `tmpOut, `tmpOutSize, `tmpOutStart, dict
    {
      HistoryKept(InTmp(), Slice(dict, dictStart, dictSize), out, flushing, tmpOut, tmpOutStart, tmpOutSize)
    }

    /** A decoded block waits in the decoder's buffer, its first bytes delivered at the end of out. */
    ghost predicate BlockWaits(out: seq<byte>)
      reads `tmpOutBuffer, `tmpOut, `tmpOutSize, `tmpOutStart, tmpOutBuffer
    {
      && tmpOutBuffer != null && tmpOut + tmpOutSize <= tmpOutBuffer.Length
      && tmpOutStart <= tmpOutSize && tmpOutStart <= |out|
      && Slice(tmpOutBuffer, tmpOut, tmpOutStart) == out[|out| - tmpOutStart..]
    }

    /** LZ4F_createDecompressionContext. */
    constructor ()
      ensures Valid([]) && fresh(Repr()) && stage.GetFrameHeader? && frameRemainingSize == 0
    {
      info, stage, frameRemainingSize := FrameInfo(false, false, false, 0, 0), GetFrameHeader, 0;
      maxBlockSize, maxBufferSize, tmpIn, tmpInSize, tmpInTarget := 0, 0, null, 0, 0;
      tmpOutBuffer, tmpOut, tmpOutSize, tmpOutStart := null, 0, 0, 0;
      dict, dictStart, dictSize := null, 0, 0;
      rawStart, hashed, blockHashed := 0, [], [];
      xxh := new XxHash32.State();
      blockChecksum := new XxHash32.State();
      header := new byte[maxFHSize](_ => 0);
    }

    /** The rest of the current header or block, and the header of the next block. */
    function SrcSizeHint(): int
      reads `stage, `tmpInTarget, `tmpInSize, `info
    {
      match stage
      case GetFrameHeader => minFHSize
      case StoreFrameHeader => tmpInTarget - tmpInSize + BHSize
      case StoreBlockHeader => BHSize - tmpInSize
      case GetCBlock => tmpInTarget + BHSize
      case StoreCBlock => tmpInTarget - tmpInSize + CrcSize(info) + BHSize
      case CopyDirect => tmpInTarget + CrcSize(info) + BHSize
      case GetBlockChecksum => 1
      case StoreSuffix => BFSize - tmpInSize
      case StoreSFrameSize => tmpInTarget - tmpInSize
      case SkipSkippable => tmpInTarget
      case _ => BHSize
    }

    // ---------- The window ----------

    /** The dictionary is now the first n bytes of the decoder's buffer. */
    method UseTmp(n: nat)
      requires tmpOutBuffer != null
      modifies `dict, `dictStart, `dictSize
      ensures dict == tmpOutBuffer && dictStart == 0 && dictSize == n
    {
      dict, dictStart, dictSize := tmpOutBuffer, 0, n;
    }

    /** memcpy of the dictionary bytes that precede the waiting block. */
    method CopyDictInFront(copySize: nat)
      requires dict != null && tmpOutBuffer != null && dict != tmpOutBuffer && Within(dict, dictStart, dictSize)
      requires copySize <= tmpOut && tmpOutStart <= tmpOutSize && tmpOut + tmpOutSize <= tmpOutBuffer.Length
      requires tmpOutStart + copySize <= dictSize
      modifies tmpOutBuffer
      ensures Slice(tmpOutBuffer, tmpOut, tmpOutSize) == old(Slice(tmpOutBuffer, tmpOut, tmpOutSize))
      ensures Slice(tmpOutBuffer, tmpOut - copySize, copySize)
           == Slice(dict, dictStart + dictSize - (tmpOutStart + copySize), copySize)
    {
      hide Slice;
      var buffer := tmpOutBuffer;
      MoveSlice(buffer, tmpOut - copySize, dict, dictStart + dictSize - (tmpOutStart + copySize), copySize, tmpOut, tmpOutSize);
    }

    /** As many dictionary bytes as belong in front of the waiting block are put there. */
    method FillInFront()
      requires tmpOutBuffer != null && dict != tmpOutBuffer && Within(dict, dictStart, dictSize)
      requires tmpOutStart <= tmpOutSize && tmpOut + tmpOutSize <= tmpOutBuffer.Length
      requires CopySize(tmpOut, tmpOutSize) > 0 ==> tmpOutStart + CopySize(tmpOut, tmpOutSize) <= dictSize && dict != null
      modifies tmpOutBuffer
      ensures Slice(tmpOutBuffer, tmpOut, tmpOutSize) == old(Slice(tmpOutBuffer, tmpOut, tmpOutSize))
      ensures Slice(tmpOutBuffer, tmpOut, tmpOutStart) == old(Slice(tmpOutBuffer, tmpOut, tmpOutStart))
      ensures var c := CopySize(tmpOut, tmpOutSize); c > 0 ==>
        Slice(tmpOutBuffer, tmpOut - c, c) == Slice(dict, dictStart + dictSize - (tmpOutStart + c), c)
    {
      hide Slice;
      var copySize, buffer := CopySize(tmpOut, tmpOutSize), tmpOutBuffer;
      SubSlice(buffer, tmpOut, tmpOutSize, 0, tmpOutStart);
      if copySize > 0 {
        CopyDictInFront(copySize);
      }
      SubSlice(buffer, tmpOut, tmpOutSize, 0, tmpOutStart);
    }

    /** The decoder's buffer, up to the delivered part of the waiting block, as FillInFront leaves it. */
    lemma FilledInFront(d: seq<byte>)
      requires tmpOutBuffer != null && Within(dict, dictStart, dictSize) && d == Slice(dict, dictStart, dictSize)
      requires tmpOutStart <= tmpOutSize && tmpOut + tmpOutSize <= tmpOutBuffer.Length
      requires var c := CopySize(tmpOut, tmpOutSize); c > 0 ==>
        && tmpOutStart + c <= dictSize && dict != null
        && Slice(tmpOutBuffer, tmpOut - c, c) == Slice(dict, dictStart + dictSize - (tmpOutStart + c), c)
      ensures var tmp, c := Slice(tmpOutBuffer, 0, tmpOut + tmpOutStart), CopySize(tmpOut, tmpOutSize);
        && |tmp| == tmpOut + tmpOutStart && tmp[tmpOut..] == Slice(tmpOutBuffer, tmpOut, tmpOutStart)
        && (c > 0 ==> tmp[tmpOut - c..tmpOut] == d[|d| - (tmpOutStart + c)..|d| - tmpOutStart])
    {
      hide Slice;
      var c := CopySize(tmpOut, tmpOutSize);
      if c > 0 {
        SubSlice(tmpOutBuffer, 0, tmpOut + tmpOutStart, tmpOut - c, c);
        SubSlice(dict, dictStart, dictSize, dictSize - (tmpOutStart + c), c);
      }
      SubSlice(tmpOutBuffer, 0, tmpOut + tmpOutStart, tmpOut, tmpOutStart);
      TakeRest(Slice(tmpOutBuffer, 0, tmpOut + tmpOutStart), tmpOut, tmpOutStart);
    }

    static lemma TakeRest(s: seq<byte>, i: nat, n: nat)
      requires |s| == i + n
      ensures s[i..] == s[i..i + n]
    {
    }

    /** memcpy of the end of the dictionary in front of the block that waits in the decoder's buffer. */
    method CopyInFront(ghost out: seq<byte>)
      requires Allocated() && info.linked && DictPlace() && !InTmp() && WindowKept(out, true) && BlockWaits(out)
      modifies `dict, `dictStart, `dictSize, tmpOutBuffer
      ensures DictPlace() && InTmp() && WindowKept(out, true) && BlockWaits(out)
      ensures Slice(tmpOutBuffer, tmpOut, tmpOutSize) == old(Slice(tmpOutBuffer, tmpOut, tmpOutSize))
    {
      hide Slice, HistoryKept;
      ghost var d := Slice(dict, dictStart, dictSize);
      CopyReaches(d, out, tmpOut, tmpOutStart, tmpOutSize);
      FillInFront();
      FilledInFront(d);
      KeptMoved(d, out, tmpOut, tmpOutStart, tmpOutSize, Slice(tmpOutBuffer, 0, tmpOut + tmpOutStart));
      UseTmp(tmpOut + tmpOutStart);
    }

    /** Where the dictionary is after LZ4F_updateDict: in the decoder's buffer, or in dst, ending at end. */
    ghost predicate DictAt(dst: array<byte>, end: nat)
      reads `dict, `dictStart, `dictSize, `tmpOutBuffer
    {
      InTmp() || (dict == dst && dictStart + dictSize == end)
    }

    /** The next bytes of the waiting block become part of the dictionary in front of them. */
    method ExtendInTmp(n: nat, ghost out: seq<byte>, ghost more: seq<byte>)
      requires Allocated() && info.linked && DictPlace() && InTmp() && WindowKept(out, true) && BlockWaits(out)
      requires tmpOutStart + n <= tmpOutSize && Slice(tmpOutBuffer, tmpOut + tmpOutStart, n) == more
      modifies `dictSize
      ensures DictPlace() && InTmp()
      ensures HistoryKept(true, Slice(dict, dictStart, dictSize), out + more, true, tmpOut, tmpOutStart + n, tmpOutSize)
    {
      hide Slice, HistoryKept;
      ghost var d := Slice(dict, dictStart, dictSize);
      KeptInTmpSize(d, out, tmpOut, tmpOutStart, tmpOutSize);
      KeptInTmp(d, out, tmpOut, tmpOutStart, tmpOutSize, more);
      JoinSlices(tmpOutBuffer, 0, dictSize, n);
      dictSize := dictSize + n;
    }

    /** The new bytes are put behind a dictionary in the decoder's buffer, which is shortened first if it must be. */
    method AppendInTmp(dst: array<byte>, dp: nat, n: nat, ghost out: seq<byte>)
      requires Allocated() && info.linked && DictPlace() && InTmp() && WindowKept(out, false)
      requires dp + n <= dst.Length && dst != tmpOutBuffer && n < KB64
      modifies `dictSize, tmpOutBuffer
      ensures DictPlace() && InTmp() && WindowKept(out + old(Slice(dst, dp, n)), false)
    {
      hide Slice, HistoryKept;
      ghost var d, more := Slice(dict, dictStart, dictSize), Slice(dst, dp, n);
      var k := dictSize;
      SubSlice(dict, 0, dictSize, 0, dictSize);
      if dictSize + n > maxBufferSize {
        k := KB64 - n;
        SubSlice(dict, 0, dictSize, dictSize - k, k);
        CopyToFront(tmpOutBuffer, dictSize - k, k);
      }
      MoveSlice(tmpOutBuffer, k, dst, dp, n, 0, k);
      JoinSlices(tmpOutBuffer, 0, k, n);
      KeptAppended(true, d, out, tmpOut, tmpOutStart, tmpOutSize, k, more);
      dictSize := k + n;
    }

    /** The last k bytes of the dictionary, then the new ones, at the beginning of the decoder's buffer. */
    method FillTmp(k: nat, dst: array<byte>, dp: nat, n: nat)
      requires tmpOutBuffer != null && dict != tmpOutBuffer && Within(dict, dictStart, dictSize) && k <= dictSize
      requires dp + n <= dst.Length && dst != tmpOutBuffer && k + n <= tmpOutBuffer.Length
      modifies tmpOutBuffer
      ensures Slice(tmpOutBuffer, 0, k + n) == old(Slice(dict, dictStart, dictSize))[dictSize - k..] + old(Slice(dst, dp, n))
    {
      hide Slice;
      SliceEnd(dict, dictStart, dictSize, k);
      MoveSlice(tmpOutBuffer, 0, dict, dictStart + dictSize - k, k, 0, 0);
      MoveSlice(tmpOutBuffer, k, dst, dp, n, 0, k);
      JoinSlices(tmpOutBuffer, 0, k, n);
    }

    /** join dict and dest into tmp */
    method JoinInTmp(dst: array<byte>, dp: nat, n: nat, ghost out: seq<byte>)
      requires Allocated() && info.linked && DictPlace() && !InTmp() && WindowKept(out, false) && dictSize > 0
      requires dp + n <= dst.Length && dst != tmpOutBuffer && n < KB64
      modifies `dict, `dictStart, `dictSize, tmpOutBuffer
      ensures DictPlace() && InTmp() && WindowKept(out + old(Slice(dst, dp, n)), false)
    {
      hide Slice, HistoryKept;
      var preserveSize := Min(KB64 - n, dictSize);
      KeptAppended(false, Slice(dict, dictStart, dictSize), out, tmpOut, tmpOutStart, tmpOutSize, preserveSize, Slice(dst, dp, n));
      FillTmp(preserveSize, dst, dp, n);
      UseTmp(preserveSize + n);
    }

    /** The destination buffer does not contain the whole useful history, so that is kept in the decoder's buffer. */
    method KeepInTmp(dst: array<byte>, dp: nat, n: nat, withinTmp: bool, ghost out: seq<byte>)
      requires Allocated() && info.linked && DictPlace() && WindowKept(out, withinTmp)
      requires dst != tmpOutBuffer && dp + n <= dst.Length && n < KB64 && dictSize > 0
      requires withinTmp ==> BlockWaits(out) && tmpOutStart + n <= tmpOutSize
      requires withinTmp ==> Slice(tmpOutBuffer, tmpOut + tmpOutStart, n) == Slice(dst, dp, n)
      modifies `dict, `dictStart, `dictSize, tmpOutBuffer
      ensures DictPlace() && InTmp()
      ensures HistoryKept(InTmp(), Slice(dict, dictStart, dictSize), out + old(Slice(dst, dp, n)), withinTmp,
                          tmpOut, tmpOutStart + n, tmpOutSize)
      ensures withinTmp ==> Slice(tmpOutBuffer, tmpOut, tmpOutSize) == old(Slice(tmpOutBuffer, tmpOut, tmpOutSize))
    {
      hide Slice, HistoryKept;
      ghost var more := Slice(dst, dp, n);
      if withinTmp && InTmp() {
        ExtendInTmp(n, out, more);
        return;
      }
      if withinTmp {
        SubSlice(tmpOutBuffer, tmpOut, tmpOutSize, tmpOutStart, n);
        CopyInFront(out);
        SubSlice(tmpOutBuffer, tmpOut, tmpOutSize, tmpOutStart, n);
        ExtendInTmp(n, out, more);
        return;
      }
      if InTmp() {
        AppendInTmp(dst, dp, n, out);
      } else {
        JoinInTmp(dst, dp, n, out);
      }
      KeptIdle(InTmp(), Slice(dict, dictStart, dictSize), out + more, tmpOut, tmpOutStart, tmpOutSize, tmpOutStart + n);
    }

    /**
      LZ4F_updateDict: n bytes have just been delivered at dst[dp..], behind the output out; what this call delivered
      before them starts at d0. withinTmp tells that they are the next bytes of the block that waits.
     */
    method UpdateDict(dst: array<byte>, d0: nat, dp: nat, n: nat, withinTmp: bool, ghost out: seq<byte>)
      requires Allocated() && info.linked && DictPlace() && WindowKept(out, withinTmp)
      requires !IsScratch(dst) && dst != tmpOutBuffer && d0 <= dp && dp + n <= dst.Length
      requires EndsWith(out, Slice(dst, d0, dp - d0))
      requires dict == dst ==> dictStart + dictSize <= dp || dp + n <= dictStart
      requires withinTmp ==> BlockWaits(out) && tmpOutStart + n <= tmpOutSize
      requires withinTmp ==> Slice(tmpOutBuffer, tmpOut + tmpOutStart, n) == Slice(dst, dp, n)
      modifies `dict, `dictStart, `dictSize, tmpOutBuffer
      ensures DictPlace() && DictAt(dst, dp + n)
      ensures HistoryKept(InTmp(), Slice(dict, dictStart, dictSize), out + old(Slice(dst, dp, n)), withinTmp,
                          tmpOut, tmpOutStart + n, tmpOutSize)
      ensures withinTmp ==> Slice(tmpOutBuffer, tmpOut, tmpOutSize) == old(Slice(tmpOutBuffer, tmpOut, tmpOutSize))
    {
      hide Slice, HistoryKept, EndsWith;
      ghost var d, more := Slice(dict, dictStart, dictSize), Slice(dst, dp, n);
      if dictSize == 0 {
        // priority to prefix mode
        KeptEmpty(InTmp(), out, withinTmp, tmpOut, tmpOutStart, tmpOutSize);
        EmptySlice(dict, dictStart);
        assert [] + more == more;
        KeptPrefix([], out, withinTmp, tmpOut, tmpOutStart, tmpOutSize, more);
        dict, dictStart, dictSize := dst, dp, n;
        return;
      }
      if dict == dst && dictStart + dictSize == dp {
        KeptPrefix(d, out, withinTmp, tmpOut, tmpOutStart, tmpOutSize, more);
        JoinSlices(dst, dictStart, dictSize, n);
        dictSize := dictSize + n;
        return;
      }
      if dp - d0 + n >= KB64 {
        KeptInDst(InTmp(), d, out, withinTmp, tmpOut, tmpOutStart, tmpOutSize, Slice(dst, d0, dp - d0), more);
        JoinSlices(dst, d0, dp - d0, n);
        dict, dictStart, dictSize := dst, d0, dp - d0 + n;
        return;
      }
      KeepInTmp(dst, dp, n, withinTmp, out);
    }

    // ---------- The state between two steps ----------

    /** Sizes that each stage relies on. */
    ghost predicate StageOk()
      reads this, header
    {
      match stage
      case GetFrameHeader => true
      case StoreFrameHeader =>
        && tmpInSize < tmpInTarget && minFHSize <= tmpInTarget <= maxFHSize
        && (tmpInTarget > minFHSize ==> tmpInSize >= 4 && header.Length == maxFHSize && !SkippableMagic(header[..4]))
      case Init => ValidBlockSizeID(info.blockSizeID) && maxBlockSize == BlockSize(info.blockSizeID) && dict == null
      case GetBlockHeader => Allocated()
      case StoreBlockHeader => Allocated() && tmpInSize < BHSize
      case CopyDirect => Allocated()
      case GetBlockChecksum => Allocated() && tmpInSize < BFSize
      case GetCBlock => Allocated() && CrcSize(info) < tmpInTarget <= maxBlockSize + CrcSize(info)
      case StoreCBlock => Allocated() && CrcSize(info) < tmpInTarget <= maxBlockSize + CrcSize(info) && tmpInSize < tmpInTarget
      case FlushOut => Allocated() && tmpOut + tmpOutSize <= maxBufferSize && tmpOutStart <= tmpOutSize <= maxBlockSize
      case GetSuffix => Allocated()
      case StoreSuffix => Allocated() && tmpInSize < BFSize && info.contentChecksum
      case GetSFrameSize => true
      case StoreSFrameSize => 4 <= tmpInSize < tmpInTarget && tmpInTarget == 8
      case SkipSkippable => true
    }

    /** The frame's parameters are known and its end has not been reached. */
    predicate InFrame()
      reads `stage
    {
      !stage.GetFrameHeader? && !stage.StoreFrameHeader? && !stage.GetSFrameSize? && !stage.StoreSFrameSize? && !stage.SkipSkippable?
    }

    /** The history is where it should be for the text out of the current frame. */
    ghost predicate HistoryOk(out: seq<byte>, flushing: bool)
      reads `info, `dict, `dictStart, `dictSize, `tmpIn, `tmpOutBuffer, `tmpOut, `tmpOutSize, `tmpOutStart, dict, tmpOutBuffer
    {
      && DictPlace()
      && (if info.linked then WindowKept(out, flushing) && (flushing ==> BlockWaits(out)) else dict == null)
    }

    /** The last block is over: history is not needed any more. */
    predicate InSuffix()
      reads `stage
    {
      stage.GetSuffix? || stage.StoreSuffix?
    }

    /**
      What holds between two steps, whatever the input was: every buffer is large enough for what the stage does next,
      and in a frame with linked blocks the window of out, the text delivered since the frame began, is kept.
     */
    ghost predicate Valid(out: seq<byte>)
      reads this, header, if InSuffix() then {} else {dict}, tmpOutBuffer, xxh, xxh.mem32, blockChecksum, blockChecksum.mem32
    {
      && Hashes() && Buffers() && StageOk()
      && (if !InFrame() then DictPlace() && dict == null && out == []
          else if InSuffix() then DictPlace()
          else HistoryOk(out, stage.FlushOut?))
    }

    /** The bytes from lo to n of a buffer are those of f, counted from position p on. */
    static ghost predicate Stored(buffer: array?<byte>, lo: nat, n: nat, f: seq<byte>, p: int)
      reads buffer
    {
      buffer != null && lo <= n <= buffer.Length && 0 <= p && p + n <= |f| && buffer[lo..n] == f[p + lo..p + n]
    }

    ghost predicate Hashes()
      reads `hashed, `blockHashed, xxh, xxh.mem32, blockChecksum, blockChecksum.mem32
    {
      xxh.Holds(0, hashed) && blockChecksum.Holds(0, blockHashed)
    }

    /** What an earlier frame has left in the size counter, as far as it matters. */
    ghost function LeftOver(): nat
      reads `info, `frameRemainingSize
    {
      LeftOf(info, frameRemainingSize)
    }

    /** Enough for LZ4F_resetDecompressionContext, even after an error. */
    ghost predicate Resettable()
      reads this, xxh, xxh.mem32, blockChecksum, blockChecksum.mem32
    {
      Hashes() && Buffers()
    }

    /** Counters over the text decoded so far, delivered or not. */
    ghost predicate Totals(text: seq<byte>)
      reads `frameRemainingSize, `info, `hashed
    {
      TotalsOf(info, frameRemainingSize, hashed, text)
    }

    /** The rest of the block that waits. */
    ghost function Pending(): seq<byte>
      reads `tmpOutBuffer, `tmpOut, `tmpOutSize, `tmpOutStart, tmpOutBuffer
    {
      Slice(tmpOutBuffer, tmpOut + tmpOutStart, tmpOutSize - tmpOutStart)
    }

    /** The blocks of the frame have begun, and its parameters are known. */
    ghost predicate Begun(f: Input)
      reads `info
    {
      Specified(f) && HeaderOk(f.bytes) && info == InfoOf(f.bytes)
    }

    /** The state of a raw block of f, of which rem bytes are still to come. */
    ghost predicate RawTracked(f: Input, pos: int, rem: int, out: seq<byte>)
      reads `info, `rawStart, `blockHashed, `frameRemainingSize, `hashed
    {
      && Begun(f) && 0 <= pos <= |f.bytes|
      && 0 <= rem && RawAt(f, info, LeftOver(), rawStart, pos, rem, out) && Totals(out)
      && (info.blockChecksum ==> blockHashed == f.bytes[rawStart..pos])
    }

    /** Of the frame that f starts with, pos bytes have been read, and out is what has been delivered. */
    ghost predicate Tracks(f: Input, pos: int, out: seq<byte>)
      reads this, header, tmpIn, tmpOutBuffer
    {
      && Specified(f) && 0 <= pos <= |f.bytes| && (InFrame() ==> Begun(f))
      && match stage
         case GetFrameHeader => pos == 0 && frameRemainingSize == f.left
         case StoreFrameHeader =>
           && pos == tmpInSize && Stored(header, 0, tmpInSize, f.bytes, 0) && frameRemainingSize == f.left
           && (tmpInTarget == minFHSize || HeaderAwaited(f, tmpInTarget))
         case Init => FrameBegun(f, info, LeftOver(), pos) && out == [] && frameRemainingSize == Missing(info, LeftOver(), 0)
         case GetBlockHeader => BlocksAt(f, info, LeftOver(), pos, out) && Totals(out)
         case StoreBlockHeader =>
           Stored(tmpIn, 0, tmpInSize, f.bytes, pos - tmpInSize) && BlocksAt(f, info, LeftOver(), pos - tmpInSize, out) && Totals(out)
         case CopyDirect => RawTracked(f, pos, tmpInTarget, out)
         case GetBlockChecksum =>
           && pos >= tmpInSize && Stored(header, 0, tmpInSize, f.bytes, pos - tmpInSize) && CrcAt(f, info, LeftOver(), rawStart, pos - tmpInSize, out) && Totals(out)
           && blockHashed == f.bytes[rawStart..pos - tmpInSize]
         case GetCBlock => DataAt(f, info, LeftOver(), pos, tmpInTarget, out) && Totals(out)
         case StoreCBlock =>
           Stored(tmpIn, 0, tmpInSize, f.bytes, pos - tmpInSize) && DataAt(f, info, LeftOver(), pos - tmpInSize, tmpInTarget, out) && Totals(out)
         case FlushOut =>
           BlocksAt(f, info, LeftOver(), pos, out + Pending()) && Totals(out + Pending())
         case GetSuffix => SuffixAt(f, info, LeftOver(), pos, out) && Totals(out)
         case StoreSuffix =>
           && Stored(tmpIn, 0, tmpInSize, f.bytes, pos - tmpInSize) && SuffixAt(f, info, LeftOver(), pos - tmpInSize, out) && Totals(out)
           && info.contentChecksum && Missing(info, LeftOver(), |out|) == 0
         case GetSFrameSize => SkippableStart(f.bytes) && pos == 4 && frameRemainingSize == f.left
         case StoreSFrameSize =>
           SkippableStart(f.bytes) && pos == tmpInSize && frameRemainingSize == f.left && Stored(header, 4, tmpInSize, f.bytes, 0)
         case SkipSkippable =>
           SkippableStart(f.bytes) && |f.bytes| >= 8 && pos + tmpInTarget == 8 + LE32(f.bytes, 4) && frameRemainingSize == f.left
    }

    /** A block header is next. */
    lemma BlocksNext(f: Input, pos: int, out: seq<byte>, known: bool)
      requires stage.GetBlockHeader? && Hashes() && Allocated() && HistoryOk(out, false)
      requires known ==> Begun(f) && 0 <= pos <= |f.bytes| && BlocksAt(f, info, LeftOver(), pos, out) && Totals(out)
      ensures Valid(out) && (known ==> Tracks(f, pos, out))
    {
      hide HistoryOk, BlocksAt, Specified, HeaderOk, InfoOf, TotalsOf, Hashes;
    }

    /** A block waits. */
    lemma FlushNext(f: Input, pos: int, out: seq<byte>, known: bool)
      requires stage.FlushOut? && Hashes() && Allocated() && HistoryOk(out, true)
      requires tmpOut + tmpOutSize <= maxBufferSize && tmpOutStart <= tmpOutSize <= maxBlockSize
      requires known ==> Begun(f) && 0 <= pos <= |f.bytes| && BlocksAt(f, info, LeftOver(), pos, out + Pending()) && Totals(out + Pending())
      ensures Valid(out) && (known ==> Tracks(f, pos, out))
    {
      hide HistoryOk, BlocksAt, Specified, HeaderOk, InfoOf, TotalsOf, Hashes, Pending;
    }

    lemma AtFlush(f: Input, pos: int, out: seq<byte>, known: bool)
      requires stage.FlushOut? && Valid(out) && (known ==> Tracks(f, pos, out))
      ensures Hashes() && Allocated() && HistoryOk(out, true)
      ensures tmpOut + tmpOutSize <= maxBufferSize && tmpOutStart <= tmpOutSize <= maxBlockSize
      ensures known ==> Begun(f) && 0 <= pos <= |f.bytes| && BlocksAt(f, info, LeftOver(), pos, out + Pending()) && Totals(out + Pending())
    {
      hide HistoryOk, BlocksAt, Specified, HeaderOk, InfoOf, TotalsOf, Hashes, Pending;
    }

    /** In a raw block. */
    lemma AtRaw(f: Input, pos: int, out: seq<byte>, known: bool)
      requires stage.CopyDirect? && Valid(out) && (known ==> Tracks(f, pos, out))
      ensures Hashes() && Allocated() && HistoryOk(out, false) && (known ==> RawTracked(f, pos, tmpInTarget, out))
    {
      hide HistoryOk, RawTracked, Specified, Begun, Hashes;
    }

    lemma RawNext(f: Input, pos: int, out: seq<byte>, known: bool)
      requires stage.CopyDirect? && Hashes() && Allocated() && HistoryOk(out, false)
      requires known ==> RawTracked(f, pos, tmpInTarget, out)
      ensures Valid(out) && (known ==> Tracks(f, pos, out))
    {
      hide HistoryOk, RawAt, Specified, HeaderOk, InfoOf, TotalsOf, Hashes;
    }

    lemma RawCrcNext(f: Input, pos: int, out: seq<byte>, known: bool)
      requires stage.GetBlockChecksum? && tmpInSize == 0 && Hashes() && Allocated() && HistoryOk(out, false)
      requires known ==> Begun(f) && 0 <= pos <= |f.bytes| && Totals(out) && Stored(header, 0, 0, f.bytes, pos)
      requires known ==> CrcAt(f, info, LeftOver(), rawStart, pos, out) && rawStart <= pos && blockHashed == f.bytes[rawStart..pos]
      ensures Valid(out) && (known ==> Tracks(f, pos, out))
    {
      hide HistoryOk, CrcAt, Specified, HeaderOk, InfoOf, TotalsOf, Hashes;
    }

    // ---------- One call ----------

    /**
      The buffers of the caller: what this call has delivered stands at dst[d0..dp) and ends out; there is room up to de.
      The dictionary is not where the rest will be delivered.
     */
    ghost predicate CallOk(dst: array?<byte>, d0: nat, dp: nat, de: nat, out: seq<byte>)
      reads `dict, `dictStart, `dictSize, `tmpIn, `tmpOutBuffer, dst
    {
      && d0 <= dp <= de && Within(dst, d0, de - d0)
      && EndsWith(out, Slice(dst, d0, dp - d0))
      && (dst != null ==> !IsScratch(dst) && dst != tmpOutBuffer && (dict == dst ==> dictStart + dictSize <= dp || de <= dictStart))
    }

    method Goto(next: Stage)
      modifies `stage
      ensures stage == next
    {
      stage := next;
    }

    /** Moves on to a stage that expects target bytes, none of which have been read. */
    method Expect(next: Stage, target: nat)
      modifies `stage, `tmpInSize, `tmpInTarget
      ensures stage == next && tmpInSize == 0 && tmpInTarget == target
    {
      stage, tmpInSize, tmpInTarget := next, 0, target;
    }

    /** Updates the checksums and the remaining size for text that has just been produced. */
    method Count(text: seq<byte>, raw: bool)
      requires Hashes() && Buffers()
      modifies xxh, xxh.mem32, blockChecksum, blockChecksum.mem32, `frameRemainingSize, `hashed, `blockHashed
      ensures Hashes()
      ensures blockHashed == old(blockHashed) + (if raw then text else [])
      ensures hashed == old(hashed) + (if info.contentChecksum then text else [])
      ensures frameRemainingSize == RemainingAfter(info, old(frameRemainingSize), |text|)
    {
      hide XxHash32.State.Holds;
      if raw {
        blockChecksum.Update(text, 0, blockHashed);
        blockHashed := blockHashed + text;
      }
      if info.contentChecksum {
        xxh.Update(text, 0, hashed);
        hashed := hashed + text;
      }
      if info.contentSize != 0 {
        frameRemainingSize := (frameRemainingSize - |text|) % 0x1_0000_0000_0000_0000;
      }
    }

    /** What this call has delivered grows by n bytes. */
    lemma CallGrows(dst: array<byte>, d0: nat, dp: nat, n: nat, de: nat, out: seq<byte>)
      requires d0 <= dp && dp + n <= de && de <= dst.Length && EndsWith(out, Slice(dst, d0, dp - d0))
      ensures EndsWith(out + Slice(dst, dp, n), Slice(dst, d0, dp + n - d0))
    {
      hide Slice, EndsWith;
      JoinSlices(dst, d0, dp - d0, n);
      EndsWithMore(out, Slice(dst, d0, dp - d0), Slice(dst, dp, n));
    }

    /** Dictionary management for n bytes that have just been delivered, in frames with linked blocks only. */
    method Remember(dst: array<byte>, d0: nat, dp: nat, n: nat, ghost de: nat, withinTmp: bool, ghost out: seq<byte>)
      requires Allocated() && HistoryOk(out, withinTmp) && CallOk(dst, d0, dp, de, out) && dp + n <= de
      requires withinTmp ==> tmpOutStart + n <= tmpOutSize && tmpOut + tmpOutSize <= maxBufferSize
      requires withinTmp ==> Slice(tmpOutBuffer, tmpOut + tmpOutStart, n) == Slice(dst, dp, n)
      modifies `dict, `dictStart, `dictSize, tmpOutBuffer
      ensures DictPlace() && CallOk(dst, d0, dp + n, de, out + Slice(dst, dp, n))
      ensures !withinTmp ==> HistoryOk(out + Slice(dst, dp, n), false)
      ensures withinTmp ==>
        if info.linked then
          HistoryKept(InTmp(), Slice(dict, dictStart, dictSize), out + Slice(dst, dp, n), true, tmpOut, tmpOutStart + n, tmpOutSize)
        else dict == null
      ensures withinTmp ==> Slice(tmpOutBuffer, tmpOut, tmpOutSize) == old(Slice(tmpOutBuffer, tmpOut, tmpOutSize))
    {
      hide Slice, HistoryKept, EndsWith;
      CallGrows(dst, d0, dp, n, de, out);
      if !info.linked { return; }
      UpdateDict(dst, d0, dp, n, withinTmp, out);
      if !withinTmp {
        KeptIdle(InTmp(), Slice(dict, dictStart, dictSize), out + Slice(dst, dp, n), tmpOut, tmpOutStart + n, tmpOutSize, tmpOutStart);
      }
    }

    method DeliverRaw(dst: array<byte>, ghost d0: nat, dp: nat, ghost de: nat, src: seq<byte>, sp: nat, n: nat, ghost out: seq<byte>)
      requires Hashes() && Allocated() && HistoryOk(out, false) && CallOk(dst, d0, dp, de, out)
      requires sp + n <= |src| && dp + n <= de
      modifies xxh, xxh.mem32, blockChecksum, blockChecksum.mem32, `frameRemainingSize, `hashed, `blockHashed, dst
      ensures Hashes() && HistoryOk(out, false) && CallOk(dst, d0, dp, de, out)
      ensures Slice(dst, dp, n) == src[sp..sp + n]
      ensures forall i :: 0 <= i < dst.Length && !(dp <= i < de) ==> dst[i] == old(dst[i])
      ensures blockHashed == old(blockHashed) + (if info.blockChecksum then src[sp..sp + n] else [])
      ensures hashed == old(hashed) + (if info.contentChecksum then src[sp..sp + n] else [])
      ensures frameRemainingSize == RemainingAfter(info, old(frameRemainingSize), n)
    {
      hide Slice, HistoryKept, EndsWith, RemainingAfter;
      Deliver(dst, d0, dp, src, sp, n, dict, dictStart, dictSize);
      Count(src[sp..sp + n], info.blockChecksum);
    }

    /** Bytes of a raw block go straight to the output. */
    method CopyRaw(dst: array<byte>, d0: nat, dp: nat, ghost de: nat, src: seq<byte>, sp: nat, n: nat, ghost out: seq<byte>)
      requires Hashes() && Allocated() && HistoryOk(out, false) && CallOk(dst, d0, dp, de, out)
      requires sp + n <= |src| && dp + n <= de
      modifies xxh, xxh.mem32, blockChecksum, blockChecksum.mem32, `frameRemainingSize, `hashed, `blockHashed,
               `dict, `dictStart, `dictSize, tmpOutBuffer, dst
      ensures Hashes() && HistoryOk(out + src[sp..sp + n], false) && CallOk(dst, d0, dp + n, de, out + src[sp..sp + n])
      ensures Slice(dst, dp, n) == src[sp..sp + n]
      ensures forall i :: 0 <= i < dst.Length && !(dp <= i < de) ==> dst[i] == old(dst[i])
      ensures blockHashed == old(blockHashed) + (if info.blockChecksum then src[sp..sp + n] else [])
      ensures hashed == old(hashed) + (if info.contentChecksum then src[sp..sp + n] else [])
      ensures frameRemainingSize == RemainingAfter(info, old(frameRemainingSize), n)
    {
      hide Slice, HistoryKept, EndsWith, WindowKept, RemainingAfter;
      DeliverRaw(dst, d0, dp, de, src, sp, n, out);
      Remember(dst, d0, dp, n, de, false, out);
    }

    lemma NullCall(dst: array?<byte>, d0: nat, dp: nat, de: nat, out: seq<byte>)
      requires CallOk(dst, d0, dp, de, out) && dst == null
      ensures d0 == dp == de == 0 && Slice(dst, dp, 0) == []
    {
    }

    /** Copies as much of the raw block as there is input and room for. */
    method CopySomeRaw(dst: array?<byte>, d0: nat, dp: nat, de: nat, src: seq<byte>, sp: nat,
                       ghost f: Input, ghost pos: nat, ghost out: seq<byte>, ghost known: bool)
      returns (n: nat)
      requires Hashes() && Allocated() && HistoryOk(out, false) && CallOk(dst, d0, dp, de, out) && sp <= |src| && dp <= de
      requires known ==> RawTracked(f, pos, tmpInTarget, out) && Fed(src, sp, f.bytes, pos)
      modifies xxh, xxh.mem32, blockChecksum, blockChecksum.mem32, `frameRemainingSize, `hashed, `blockHashed,
               `dict, `dictStart, `dictSize, tmpOutBuffer, dst
      ensures n == if dst == null then 0 else Min(tmpInTarget, Min(|src| - sp, de - dp))
      ensures dst != null ==> forall i :: 0 <= i < dst.Length && !(dp <= i < de) ==> dst[i] == old(dst[i])
      ensures dp + n <= de && sp + n <= |src| && n <= tmpInTarget
      ensures Slice(dst, dp, n) == src[sp..sp + n]
      ensures Hashes() && HistoryOk(out + src[sp..sp + n], false) && CallOk(dst, d0, dp + n, de, out + src[sp..sp + n])
      ensures known ==> RawTracked(f, pos + n, tmpInTarget - n, out + src[sp..sp + n]) && pos + n <= |f.bytes|
    {
      hide Slice, HistoryOk, CallOk, RawAt, Specified, Begun, RemainingAfter, Allocated, Hashes;
      if dst == null {
        NullCall(dst, d0, dp, de, out);
        assert out + src[sp..sp] == out;
        return 0;
      }
      n := Min(tmpInTarget, Min(|src| - sp, de - dp));
      if known { RawHeld(f, pos, tmpInTarget, out, src, sp, n); }
      CopyRaw(dst, d0, dp, de, src, sp, n, out);
    }

    /** What the next n bytes do to the checksums and counters is what they do to the frame. */
    lemma RawHeld(f: Input, pos: nat, rem: nat, out: seq<byte>, src: seq<byte>, sp: nat, n: nat)
      requires RawTracked(f, pos, rem, out) && Fed(src, sp, f.bytes, pos) && sp + n <= |src| && n <= rem
      ensures pos + n <= |f.bytes|
      ensures RawAt(f, info, LeftOf(info, RemainingAfter(info, frameRemainingSize, n)), rawStart, pos + n, rem - n, out + src[sp..sp + n])
      ensures info.blockChecksum ==> blockHashed + src[sp..sp + n] == f.bytes[rawStart..pos + n]
      ensures info.contentChecksum ==> hashed + src[sp..sp + n] == out + src[sp..sp + n]
      ensures var remaining := RemainingAfter(info, frameRemainingSize, n);
        remaining == Missing(info, LeftOf(info, remaining), |out + src[sp..sp + n]|)
    {
      hide Specified, Begun, RawAt;
      FedSlice(src, sp, f.bytes, pos, n);
      RawTaken(f, info, LeftOver(), rawStart, pos, rem, out, n, src[sp..sp + n]);
    }

    /** What comes after the last byte of a raw block. */
    lemma RawFinished(f: Input, pos: int, out: seq<byte>)
      requires RawTracked(f, pos, 0, out)
      ensures 0 <= pos <= |f.bytes| && Totals(out) && Stored(header, 0, 0, f.bytes, pos) && Begun(f)
      ensures
        if info.blockChecksum then CrcAt(f, info, LeftOver(), rawStart, pos, out) && rawStart <= pos && blockHashed == f.bytes[rawStart..pos]
        else BlocksAt(f, info, LeftOver(), pos, out)
    {
      hide Specified, Begun, RawAt, BlocksAt, ReadCrc, ReadFrame;
      RawDone(f, info, LeftOver(), rawStart, pos, out);
    }

    /** dstage_copyDirect: as much of an uncompressed block as there is input and room for. */
    method DoCopyDirect(dst: array?<byte>, d0: nat, dp0: nat, de: nat, src: seq<byte>, sp0: nat,
                        ghost f: Input, ghost pos: nat, ghost out0: seq<byte>, ghost known: bool)
      returns (step: Step, dp: nat, sp: nat, ghost out: seq<byte>)
      requires stage.CopyDirect? && Valid(out0) && CallOk(dst, d0, dp0, de, out0) && sp0 <= |src| && dp0 <= de
      requires known ==> Tracks(f, pos, out0) && Fed(src, sp0, f.bytes, pos)
      modifies xxh, xxh.mem32, blockChecksum, blockChecksum.mem32, `frameRemainingSize, `hashed, `blockHashed,
               `dict, `dictStart, `dictSize, tmpOutBuffer, `tmpInSize, `tmpInTarget, `stage, dst
      ensures dp0 <= dp <= de && sp0 <= sp <= |src|
      ensures dst != null ==> forall i :: 0 <= i < dst.Length && !(dp0 <= i < de) ==> dst[i] == old(dst[i])
      ensures out == out0 + Slice(dst, dp0, dp - dp0)
      ensures !step.Fail? && Valid(out) && CallOk(dst, d0, dp, de, out) && (known ==> Tracks(f, pos + (sp - sp0), out))
      ensures step.More? ==> stage.GetBlockHeader? || stage.GetBlockChecksum?
      ensures step.Stop? ==> step.hint == SrcSizeHint() > 0 && (sp == |src| || dp == de) && stage.CopyDirect?
    {
      hide Slice, HistoryOk, CallOk, RawTracked, RawAt, CrcAt, BlocksAt, Specified, Begun, Allocated, Hashes, Buffers, Totals, Stored,
           Valid, Tracks;
      AtRaw(f, pos, out0, known);
      CallApart(dst, d0, dp0, de, out0);
      var n := CopySomeRaw(dst, d0, dp0, de, src, sp0, f, pos, out0, known);
      sp, dp, out := sp0 + n, dp0 + n, out0 + src[sp0..sp0 + n];
      tmpInTarget := tmpInTarget - n;
      if tmpInTarget > 0 {
        // need to copy more
        RawNext(f, pos + n, out, known);
        return Stop(tmpInTarget + CrcSize(info) + BHSize), dp, sp, out;
      }
      if known { RawFinished(f, pos + n, out); }
      if info.blockChecksum {
        Expect(GetBlockChecksum, 0);
        RawCrcNext(f, pos + n, out, known);
      } else {
        Expect(GetBlockHeader, 0);
        BlocksNext(f, pos + n, out, known);
      }
      return More, dp, sp, out;
    }

    lemma HistoryPlaced(out: seq<byte>, flushing: bool)
      requires HistoryOk(out, flushing)
      ensures DictPlace()
    {
    }

    /** History never lies in the context's other buffers. */
    lemma HistoryApart(out: seq<byte>, flushing: bool)
      requires HistoryOk(out, flushing) && Buffers()
      ensures dict != null ==> !IsScratch(dict)
      ensures tmpOutBuffer != null ==> !IsScratch(tmpOutBuffer)
    {
    }

    /** memcpy of the next input bytes behind those already collected, up to target. */
    method Collect(buffer: array<byte>, ghost lo: nat, target: nat, src: seq<byte>, sp: nat,
                   ghost f: Input, ghost p: int, ghost known: bool)
      returns (n: nat)
      requires lo <= tmpInSize <= target <= buffer.Length && sp <= |src|
      requires known ==> Stored(buffer, lo, tmpInSize, f.bytes, p) && Fed(src, sp, f.bytes, p + tmpInSize)
      modifies buffer, `tmpInSize
      ensures n == Min(target - old(tmpInSize), |src| - sp) && tmpInSize == old(tmpInSize) + n
      ensures buffer[lo..tmpInSize] == old(buffer[lo..tmpInSize]) + src[sp..sp + n]
      ensures known ==> Stored(buffer, lo, tmpInSize, f.bytes, p)
    {
      n := Min(target - tmpInSize, |src| - sp);
      Append(buffer, lo, tmpInSize, src, sp, n);
      if known {
        FedSlice(src, sp, f.bytes, p + tmpInSize, n);
        assert f.bytes[p + lo..p + tmpInSize + n] == f.bytes[p + lo..p + tmpInSize] + f.bytes[p + tmpInSize..p + tmpInSize + n];
      }
      tmpInSize := tmpInSize + n;
    }

    /**
      The next target bytes that a stage needs, which start at position p of the frame: straight from the input if a new
      stage finds all of them there, and otherwise through a buffer that keeps them over several calls.
     */
    method Fetch(direct: bool, buffer: array<byte>, target: nat, src: seq<byte>, sp0: nat,
                 ghost f: Input, ghost p: int, ghost known: bool)
      returns (ready: bool, selectedIn: seq<byte>, sp: nat)
      requires target <= buffer.Length && sp0 <= |src| && (!direct ==> tmpInSize <= target)
      requires known ==> Stored(buffer, 0, if direct then 0 else tmpInSize, f.bytes, p)
      requires known ==> Fed(src, sp0, f.bytes, p + (if direct then 0 else tmpInSize))
      modifies buffer, `tmpInSize
      ensures sp0 <= sp <= |src|
      ensures ready ==> |selectedIn| == target && sp == sp0 + target - (if direct then 0 else old(tmpInSize))
      ensures ready && known ==> p + target <= |f.bytes| && selectedIn == f.bytes[p..p + target]
      ensures !ready ==> sp == |src| && tmpInSize < target && tmpInSize == (if direct then 0 else old(tmpInSize)) + (sp - sp0)
      ensures !ready && known ==> Stored(buffer, 0, tmpInSize, f.bytes, p)
    {
      if direct && |src| - sp0 >= target {
        if known { FedSlice(src, sp0, f.bytes, p, target); }
        return true, src[sp0..sp0 + target], sp0 + target;
      }
      if direct { tmpInSize := 0; }
      var n := Collect(buffer, 0, target, src, sp0, f, p, known);
      sp := sp0 + n;
      return tmpInSize == target, buffer[0..tmpInSize], sp;
    }

    lemma AtRawCrc(f: Input, pos: int, out: seq<byte>, known: bool)
      requires stage.GetBlockChecksum? && Valid(out) && (known ==> Tracks(f, pos, out))
      ensures Hashes() && Allocated() && HistoryOk(out, false) && tmpInSize < BFSize
      ensures known ==> Begun(f) && tmpInSize <= pos <= |f.bytes| && Stored(header, 0, tmpInSize, f.bytes, pos - tmpInSize)
      ensures known ==> Totals(out) && CrcAt(f, info, LeftOver(), rawStart, pos - tmpInSize, out)
      ensures known ==> rawStart <= pos - tmpInSize && blockHashed == f.bytes[rawStart..pos - tmpInSize]
    {
      hide HistoryOk, ReadCrc, ReadFrame, HeaderOk, InfoOf, TotalsOf, Hashes;
    }

    lemma RawCrcKept(f: Input, pos: int, out: seq<byte>, known: bool)
      requires stage.GetBlockChecksum? && tmpInSize < BFSize && Hashes() && Allocated() && HistoryOk(out, false)
      requires known ==> Begun(f) && tmpInSize <= pos <= |f.bytes| && Stored(header, 0, tmpInSize, f.bytes, pos - tmpInSize)
      requires known ==> Totals(out) && CrcAt(f, info, LeftOver(), rawStart, pos - tmpInSize, out)
      requires known ==> rawStart <= pos - tmpInSize && blockHashed == f.bytes[rawStart..pos - tmpInSize]
      ensures Valid(out) && (known ==> Tracks(f, pos, out))
    {
      hide HistoryOk, CrcAt, HeaderOk, InfoOf, TotalsOf, Hashes;
    }

    /** The header buffer is none of the others. */
    lemma HeaderApart(out: seq<byte>)
      requires Allocated() && HistoryOk(out, false)
      ensures Buffers() && header.Length == maxFHSize
      ensures header != xxh.mem32 && header != blockChecksum.mem32 && header != dict && header != tmpOutBuffer && header != tmpIn
    {
      hide HistoryKept;
    }

    /** dstage_getBlockChecksum: the checksum of the raw block that has just been delivered. */
    method DoBlockChecksum(src: seq<byte>, sp0: nat, ghost f: Input, ghost pos: nat, ghost out: seq<byte>, ghost known: bool)
      returns (step: Step, sp: nat)
      requires stage.GetBlockChecksum? && Valid(out) && sp0 <= |src|
      requires known ==> Tracks(f, pos, out) && Fed(src, sp0, f.bytes, pos)
      modifies header, `tmpInSize, `stage
      ensures Resettable()
      ensures sp0 <= sp <= |src|
      ensures !step.Fail? ==> Valid(out) && (known ==> Tracks(f, pos + (sp - sp0), out))
      ensures known && step.Fail? ==> !MustAccept(f)
      ensures step.More? ==> stage.GetBlockHeader? && sp0 < sp
      ensures step.Stop? ==> step.hint == SrcSizeHint() > 0 && sp == |src| && stage.GetBlockChecksum?
    {
      hide Valid, Tracks, HistoryOk, CrcAt, BlocksAt, Begun, MustAccept, TotalsOf, Hashes, Allocated, Buffers, LeftOf, Checksum,
           XxHash32.LE32;
      AtRawCrc(f, pos, out, known);
      HeaderApart(out);
      ghost var p := pos - tmpInSize;
      var ready, crcSrc;
      ready, crcSrc, sp := Fetch(tmpInSize == 0, header, BFSize, src, sp0, f, p, known);
      if !ready {
        RawCrcKept(f, pos + (sp - sp0), out, known);
        return Stop(1), sp;
      }
      if known {
        LE32Same(crcSrc, 0, f.bytes, p);
        CrcRead(f, info, LeftOver(), rawStart, p, out);
      }
      var readCRC := LE32(crcSrc, 0);
      var calcCRC := BlockDigest();
      if readCRC != calcCRC { return Fail(BlockChecksumInvalid), sp; }
      Goto(GetBlockHeader);
      BlocksNext(f, pos + (sp - sp0), out, known);
      return More, sp;
    }

    method BlockDigest() returns (crc: nat)
      requires Hashes()
      ensures crc == Checksum(blockHashed)
    {
      hide XxHash32.Hash, XxHash32.State.Holds;
      crc := blockChecksum.Digest(0, blockHashed);
    }

    /** Internal buffers allocation. */
    method Allocate()
      requires Buffers() && ValidBlockSizeID(info.blockSizeID) && maxBlockSize == BlockSize(info.blockSizeID)
      modifies `maxBufferSize, `tmpIn, `tmpOutBuffer, `tmpOut
      ensures Allocated() && Buffers()
      ensures (tmpIn == old(tmpIn) && tmpOutBuffer == old(tmpOutBuffer)) || (fresh(tmpIn) && fresh(tmpOutBuffer))
    {
      var bufferNeeded := maxBlockSize + (if info.linked then KB128 else 0);
      if bufferNeeded > maxBufferSize {
        tmpIn := new byte[maxBlockSize + BFSize](_ => 0);
        tmpOutBuffer := new byte[bufferNeeded](_ => 0);
        maxBufferSize := bufferNeeded;
      }
      tmpOut := 0;
    }

    /** Without a dictionary, history does not depend on the buffers. */
    twostate lemma NoDictKept(out: seq<byte>)
      requires old(HistoryOk(out, false)) && old(dict) == null && dict == null && old(dictStart) == dictStart && old(dictSize) == dictSize
      requires info == old(info)
      ensures HistoryOk(out, false)
    {
    }

    method StartHash()
      requires Hashes() && Buffers()
      modifies xxh, `hashed
      ensures Hashes() && hashed == if info.contentChecksum then [] else old(hashed)
    {
      if info.contentChecksum {
        xxh.Reset(0);
        hashed := [];
      }
    }

    method BeginBlocks()
      modifies `tmpInSize, `tmpInTarget, `tmpOutStart, `tmpOutSize, `stage
      ensures stage.GetBlockHeader?
    {
      tmpInSize, tmpInTarget, tmpOutStart, tmpOutSize := 0, 0, 0, 0;
      stage := GetBlockHeader;
    }

    /** dstage_init: buffers for the parameters of the frame. */
    method DoInit(ghost f: Input, ghost pos: nat, ghost out: seq<byte>, ghost known: bool)
      requires stage.Init? && Valid(out) && (known ==> Tracks(f, pos, out))
      modifies xxh, `hashed, `maxBufferSize, `tmpIn, `tmpOutBuffer, `tmpInSize, `tmpInTarget, `tmpOut, `tmpOutStart, `tmpOutSize, `stage
      ensures stage.GetBlockHeader? && Valid(out) && (known ==> Tracks(f, pos, out))
      ensures (tmpIn == old(tmpIn) && tmpOutBuffer == old(tmpOutBuffer)) || (fresh(tmpIn) && fresh(tmpOutBuffer))
    {
      hide HistoryOk, BlocksAt, Specified, Begun, Hashes, Allocated, Buffers, IsScratch, InfoOf, HeaderOk;
      StartHash();
      Allocate();
      BeginBlocks();
      NoDictKept(out);
    }

    /** An uncompressed block of n bytes is next. */
    method StartRawBlock(n: nat, ghost p: nat)
      requires Hashes() && Buffers()
      modifies blockChecksum, `blockHashed, `rawStart, `stage, `tmpInSize, `tmpInTarget
      ensures Hashes() && stage.CopyDirect? && tmpInTarget == n && rawStart == p
      ensures info.blockChecksum ==> blockHashed == []
    {
      hide XxHash32.State.Holds;
      if info.blockChecksum {
        blockChecksum.Reset(0);
        blockHashed := [];
      }
      rawStart := p;
      Expect(CopyDirect, n);
    }

    /** What follows a block header: another stage, whose input starts at position p. */
    method Announce(blockHeader: nat, outOfBuffers: bool, ghost f: Input, ghost p: int, ghost out: seq<byte>, ghost known: bool)
      returns (step: Step)
      requires Hashes() && Allocated() && HistoryOk(out, false)
      requires known ==>
        && Begun(f) && BHSize <= p <= |f.bytes| && Totals(out)
        && BlocksAt(f, info, LeftOver(), p - BHSize, out) && blockHeader == LE32(f.bytes, p - BHSize)
      modifies blockChecksum, `blockHashed, `rawStart, `tmpInSize, `tmpInTarget, `stage
      ensures Resettable()
      ensures !step.Fail? ==> Valid(out) && (known ==> Tracks(f, p, out))
      ensures known && step.Fail? ==> !MustAccept(f)
      ensures step.Stop? ==> step.hint == SrcSizeHint() > 0 && stage.GetCBlock? && outOfBuffers
    {
      hide HistoryOk, RawAt, DataAt, SuffixAt, BlocksAt, Specified, HeaderOk, InfoOf, MustAccept, TotalsOf, XxHash32.LE32, XxHash32.State.Holds;
      HistoryPlaced(out, false);
      if known { BlockHeader(f, info, LeftOver(), p - BHSize, out); }
      var nextCBlockSize := DataSize(blockHeader);
      if blockHeader == 0 {
        Goto(GetSuffix);
        return More;
      }
      if nextCBlockSize > maxBlockSize { return Fail(MaxBlockSizeInvalid); }
      if blockHeader >= LZ4F_BLOCKUNCOMPRESSED_FLAG {
        StartRawBlock(nextCBlockSize, if p >= 0 then p else 0);
        return More;
      }
      Expect(GetCBlock, nextCBlockSize + CrcSize(info));
      return if outOfBuffers then Stop(BHSize + nextCBlockSize + CrcSize(info)) else More;
    }

    /** tmpIn takes what a stage needs, and is none of the other buffers. */
    lemma TmpInApart(target: nat)
      requires Allocated() && DictPlace() && target <= maxBlockSize + BFSize
      ensures Buffers() && tmpIn != null && target <= tmpIn.Length
      ensures tmpIn != xxh.mem32 && tmpIn != blockChecksum.mem32 && tmpIn != dict && tmpIn != tmpOutBuffer
    {
    }

    /** How many bytes of what a stage needs are in its buffer already, if it has one. */
    function Kept(): (n: nat)
      reads `stage, `tmpInSize
    {
      if stage.StoreBlockHeader? || stage.StoreCBlock? || stage.StoreSuffix? then tmpInSize else 0
    }

    /** What a stage that waits for a block header knows. */
    lemma AtBlockHeader(f: Input, pos: int, out: seq<byte>, known: bool)
      requires (stage.GetBlockHeader? || stage.StoreBlockHeader?) && Valid(out) && (known ==> Tracks(f, pos, out))
      ensures Hashes() && Allocated() && HistoryOk(out, false) && Kept() < BHSize
      ensures known ==> Begun(f) && Kept() <= pos <= |f.bytes| && Stored(tmpIn, 0, Kept(), f.bytes, pos - Kept())
      ensures known ==> Totals(out) && BlocksAt(f, info, LeftOver(), pos - Kept(), out)
    {
      hide HistoryOk, BlocksAt, Specified, HeaderOk, InfoOf, TotalsOf, Hashes;
    }

    lemma BlockHeaderKept(f: Input, pos: int, out: seq<byte>, known: bool)
      requires stage.StoreBlockHeader? && Hashes() && Allocated() && HistoryOk(out, false) && tmpInSize < BHSize
      requires known ==> Begun(f) && tmpInSize <= pos <= |f.bytes| && Stored(tmpIn, 0, tmpInSize, f.bytes, pos - tmpInSize)
      requires known ==> Totals(out) && BlocksAt(f, info, LeftOver(), pos - tmpInSize, out)
      ensures Valid(out) && (known ==> Tracks(f, pos, out))
    {
      hide HistoryOk, BlocksAt, Specified, HeaderOk, InfoOf, TotalsOf, Hashes;
    }

    /** dstage_getBlockHeader and dstage_storeBlockHeader: the four bytes that announce a block or the end of the frame. */
    method DoBlockHeader(src: seq<byte>, sp0: nat, dstFull: bool, ghost f: Input, ghost pos: nat, ghost out: seq<byte>, ghost known: bool)
      returns (step: Step, sp: nat)
      requires (stage.GetBlockHeader? || stage.StoreBlockHeader?) && Valid(out) && sp0 <= |src|
      requires known ==> Tracks(f, pos, out) && Fed(src, sp0, f.bytes, pos)
      modifies blockChecksum, `blockHashed, `rawStart, tmpIn, `tmpInSize, `tmpInTarget, `stage
      ensures Resettable()
      ensures sp0 <= sp <= |src|
      ensures !step.Fail? ==> Valid(out) && (known ==> Tracks(f, pos + (sp - sp0), out))
      ensures known && step.Fail? ==> !MustAccept(f)
      ensures step.More? ==> sp0 < sp
      ensures step.Stop? ==> step.hint == SrcSizeHint() > 0 && (dstFull || sp == |src|) && (stage.StoreBlockHeader? || stage.GetCBlock?)
    {
      hide Valid, Tracks, HistoryOk, BlocksAt, Specified, Begun, MustAccept, TotalsOf, XxHash32.LE32, Hashes, Allocated, Buffers, DictPlace;
      AtBlockHeader(f, pos, out, known);
      HistoryPlaced(out, false);
      TmpInApart(BHSize);
      ghost var p0 := pos - Kept();
      var ready, selectedIn;
      ready, selectedIn, sp := Fetch(stage.GetBlockHeader?, tmpIn, BHSize, src, sp0, f, p0, known);
      if !ready {
        Goto(StoreBlockHeader);
        BlockHeaderKept(f, pos + (sp - sp0), out, known);
        return Stop(BHSize - tmpInSize), sp;
      }
      if known { LE32Same(selectedIn, 0, f.bytes, p0); }
      step := Announce(LE32(selectedIn, 0), dstFull || sp == |src|, f, pos + (sp - sp0), out, known);
    }

    // ---------- Compressed blocks ----------

    /** LZ4_decompress_safe_usingDict, without harm to the dictionary or to mem[m0..at). */
    static method DecodeKeeping(mem: array<byte>, ghost m0: nat, at: nat, cap: nat, data: seq<byte>,
                                dict: array?<byte>, start: nat, size: nat, ghost dictStart: nat, ghost dictSize: nat)
      returns (r: int)
      requires m0 <= at && at + cap <= mem.Length && Within(dict, dictStart, dictSize)
      requires Within(dict, start, size) && size <= dictSize && start + size == dictStart + dictSize
      requires dict == mem ==> dictStart + dictSize <= at || at + cap <= dictStart
      modifies mem
      ensures r <= cap
      ensures forall i :: 0 <= i < mem.Length && !(at <= i < at + cap) ==> mem[i] == old(mem[i])
      ensures Slice(mem, m0, at - m0) == old(Slice(mem, m0, at - m0))
      ensures Slice(dict, dictStart, dictSize) == old(Slice(dict, dictStart, dictSize))
      ensures BlockDecoder.FieldsFit(data, 0) ==>
        BlockDecoder.DecodedWell(data, old(Slice(dict, dictStart, dictSize))[dictSize - size..],
                                 if r >= 0 then Slice(mem, at, r) else [], r, cap, false)
    {
      hide BlockDecoder.DecodedWell;
      ghost var d, before := Slice(dict, dictStart, dictSize), Slice(mem, m0, at - m0);
      assert Slice(dict, start, size) == d[dictSize - size..];
      r := DecompressSafeUsingDict(data, mem, at, cap, dict, start, size);
      assert Slice(mem, m0, at - m0) == before;
      assert Slice(dict, dictStart, dictSize) == d;
      if r >= 0 { assert Slice(mem, at, r) == mem[at..at + r]; }
    }

    /** Decodes data behind the dictionary into mem[at..]; nothing else changes, in particular not mem[m0..at). */
    method DecodeData(mem: array<byte>, ghost m0: nat, at: nat, data: seq<byte>, ghost out: seq<byte>) returns (r: int)
      requires Allocated() && HistoryOk(out, false) && |data| <= maxBlockSize
      requires m0 <= at && at + maxBlockSize <= mem.Length
      requires dict == mem ==> dictStart + dictSize <= at || at + maxBlockSize <= dictStart
      modifies mem
      ensures r <= maxBlockSize
      ensures forall i :: 0 <= i < mem.Length && !(at <= i < at + maxBlockSize) ==> mem[i] == old(mem[i])
      ensures Slice(mem, m0, at - m0) == old(Slice(mem, m0, at - m0))
      ensures Slice(dict, dictStart, dictSize) == old(Slice(dict, dictStart, dictSize))
      ensures DataOk(info, data, out) ==> r >= 0
      ensures r >= 0 ==> IsText(info, data, out, Slice(mem, at, r))
    {
      hide BlockDecoder.DecodedWell, DataOk, IsText, HistoryKept, Slice;
      ghost var d := Slice(dict, dictStart, dictSize);
      var start, size := dictStart, dictSize;
      if dict != null && size > GB1 {
        // the dictSize parameter is an int: avoid truncation and sign issues
        start, size := start + size - KB64, KB64;
      }
      r := DecodeKeeping(mem, m0, at, maxBlockSize, data, dict, start, size, dictStart, dictSize);
      if info.linked { KeptRemembers(InTmp(), d, out, tmpOut, tmpOutStart, tmpOutSize); }
      if r >= 0 { SliceIs(mem, at, r); }
      SeenIs(info, d, d[|d| - size..], out);
      DataDecodes(info, data, out, d[|d| - size..], if r >= 0 then Slice(mem, at, r) else [], r);
    }

    /** The counters have taken in text. */
    ghost predicate Counted(hashed0: seq<byte>, remaining0: u64, text: seq<byte>)
      reads `hashed, `frameRemainingSize, `info
    {
      && hashed == hashed0 + (if info.contentChecksum then text else [])
      && frameRemainingSize == RemainingAfter(info, remaining0, |text|)
    }

    /** Decodes and counts; nothing is delivered yet. */
    method DecodeCounted(mem: array<byte>, ghost m0: nat, at: nat, data: seq<byte>, ghost out: seq<byte>)
      returns (ok: bool, n: nat)
      requires Hashes() && Allocated() && HistoryOk(out, false) && |data| <= maxBlockSize && !IsScratch(mem)
      requires m0 <= at && at + maxBlockSize <= mem.Length
      requires dict == mem ==> dictStart + dictSize <= at || at + maxBlockSize <= dictStart
      modifies xxh, xxh.mem32, blockChecksum, blockChecksum.mem32, `frameRemainingSize, `hashed, `blockHashed, mem
      ensures forall i :: 0 <= i < mem.Length && !(at <= i < at + maxBlockSize) ==> mem[i] == old(mem[i])
      ensures Slice(mem, m0, at - m0) == old(Slice(mem, m0, at - m0))
      ensures Slice(dict, dictStart, dictSize) == old(Slice(dict, dictStart, dictSize))
      ensures DataOk(info, data, out) ==> ok
      ensures ok ==> IsText(info, data, out, Slice(mem, at, n))
      ensures Hashes()
      ensures ok ==> n <= maxBlockSize && Counted(old(hashed), old(frameRemainingSize), Slice(mem, at, n))
    {
      hide Slice, HistoryKept, EndsWith, DataOk, IsText, RemainingAfter, XxHash32.State.Holds;
      var r := DecodeData(mem, m0, at, data, out);
      if r < 0 { return false, 0; }
      ok, n := true, r;
      SliceIs(mem, at, n);
      Count(mem[at..at + n], false);
    }

    /** There is enough capacity in dst to decompress directly there. */
    method DecodeToDst(dst: array<byte>, d0: nat, dp: nat, ghost de: nat, data: seq<byte>, ghost out: seq<byte>)
      returns (ok: bool, n: nat)
      requires Hashes() && Allocated() && HistoryOk(out, false) && CallOk(dst, d0, dp, de, out)
      requires dp + maxBlockSize <= de && |data| <= maxBlockSize
      modifies xxh, xxh.mem32, blockChecksum, blockChecksum.mem32, `frameRemainingSize, `hashed, `blockHashed,
               `dict, `dictStart, `dictSize, tmpOutBuffer, dst
      ensures forall i :: 0 <= i < dst.Length && !(dp <= i < de) ==> dst[i] == old(dst[i])
      ensures Hashes()
      ensures DataOk(info, data, out) ==> ok
      ensures ok ==> IsText(info, data, out, Slice(dst, dp, n))
      ensures ok ==>
        && dp + n <= de && HistoryOk(out + Slice(dst, dp, n), false)
        && CallOk(dst, d0, dp + n, de, out + Slice(dst, dp, n))
        && Counted(old(hashed), old(frameRemainingSize), Slice(dst, dp, n))
    {
      hide Slice, HistoryKept, EndsWith, DataOk, IsText, RemainingAfter, XxHash32.State.Holds;
      ok, n := DecodeCounted(dst, d0, dp, data, out);
      if ok { Remember(dst, d0, dp, n, de, false, out); }
    }

    lemma CallApart(dst: array?<byte>, d0: nat, dp: nat, de: nat, out: seq<byte>)
      requires CallOk(dst, d0, dp, de, out)
      ensures dst != null ==> !IsScratch(dst) && dst != tmpOutBuffer && de <= dst.Length
      ensures dst == null ==> d0 == dp == de == 0
      ensures d0 <= dp <= de
    {
    }
    /** Ensures enough place for a block in the decoder's own buffer. */
    method PlaceTmpOut(ghost dst: array?<byte>, ghost d0: nat, ghost dp: nat, ghost de: nat, ghost out: seq<byte>)
      requires Allocated() && HistoryOk(out, false) && CallOk(dst, d0, dp, de, out)
      modifies `dictSize, `tmpOut, tmpOutBuffer
      ensures Allocated() && HistoryOk(out, false) && tmpOut + maxBlockSize <= maxBufferSize && CallOk(dst, d0, dp, de, out)
      ensures info.linked ==> tmpOut == if InTmp() then dictSize else Min(dictSize, KB64)
    {
      hide HistoryKept, Slice;
      if !info.linked { return; }
      if InTmp() {
        if dictSize > KB128 {
          ghost var d := Slice(dict, dictStart, dictSize);
          SliceEnd(dict, dictStart, dictSize, KB64);
          CopyToFront(tmpOutBuffer, dictSize - KB64, KB64);
          KeptCut(d, out, tmpOut, tmpOutStart, tmpOutSize);
          dictSize := KB64;
        }
        KeptMovedTmp(InTmp(), Slice(dict, dictStart, dictSize), out, tmpOut, tmpOutStart, tmpOutSize, dictSize);
        tmpOut := dictSize;
      } else {
        KeptMovedTmp(InTmp(), Slice(dict, dictStart, dictSize), out, tmpOut, tmpOutStart, tmpOutSize, Min(dictSize, KB64));
        tmpOut := Min(dictSize, KB64);
      }
    }

    /** A block of n bytes is waiting at tmpOut from now on. */
    method Wait(n: nat, ghost out: seq<byte>)
      requires Allocated() && HistoryOk(out, false) && tmpOut + n <= maxBufferSize
      requires info.linked ==> tmpOut == if InTmp() then dictSize else Min(dictSize, KB64)
      modifies `tmpOutSize, `tmpOutStart
      ensures HistoryOk(out, true) && tmpOutStart == 0 && tmpOutSize == n && Pending() == Slice(tmpOutBuffer, tmpOut, n)
    {
      hide Slice, HistoryKept;
      if info.linked { KeptWaiting(InTmp(), Slice(dict, dictStart, dictSize), out, tmpOut, tmpOutStart, tmpOutSize, tmpOut, n); }
      EmptySlice(tmpOutBuffer, tmpOut);
      tmpOutSize, tmpOutStart := n, 0;
    }

    /** There is not enough room in dst: decode into the decoder's own buffer, from where the block is delivered later. */
    method DecodeToTmp(data: seq<byte>, ghost out: seq<byte>) returns (ok: bool)
      requires Hashes() && Allocated() && HistoryOk(out, false) && |data| <= maxBlockSize
      requires tmpOut + maxBlockSize <= maxBufferSize && (info.linked ==> tmpOut == if InTmp() then dictSize else Min(dictSize, KB64))
      modifies xxh, xxh.mem32, blockChecksum, blockChecksum.mem32, `frameRemainingSize, `hashed, `blockHashed,
               `tmpOutSize, `tmpOutStart, tmpOutBuffer
      ensures Hashes()
      ensures ok ==>
        && Allocated() && HistoryOk(out, true)
        && tmpOut + tmpOutSize <= maxBufferSize && tmpOutStart == 0 && tmpOutSize <= maxBlockSize
        && Counted(old(hashed), old(frameRemainingSize), Pending())
      ensures DataOk(info, data, out) ==> ok
      ensures ok ==> IsText(info, data, out, Pending())
    {
      hide Slice, HistoryKept, DataOk, IsText, RemainingAfter, XxHash32.State.Holds, Pending, Counted;
      var n;
      ok, n := DecodeCounted(tmpOutBuffer, tmpOut, tmpOut, data, out);
      if ok { Wait(n, out); }
    }

    /** Checks and removes the checksum of a compressed block. */
    method CheckCBlock(selectedIn: seq<byte>) returns (ok: bool)
      requires CrcSize(info) < tmpInTarget == |selectedIn|
      modifies `tmpInTarget
      ensures tmpInTarget == |selectedIn| - CrcSize(info)
      ensures ok <==> (info.blockChecksum ==> LE32(selectedIn, tmpInTarget) == Checksum(selectedIn[..tmpInTarget]))
    {
      hide XxHash32.LE32, XxHash32.Hash;
      ok := true;
      if info.blockChecksum {
        tmpInTarget := tmpInTarget - 4;
        var readBlockCrc := LE32(selectedIn, tmpInTarget);
        var calcBlockCrc := XxHash32.OneShot(selectedIn[..tmpInTarget], 0);
        ok := readBlockCrc == calcBlockCrc;
      }
    }

    /** A block that fits the output: decoded there, and over. */
    method FinishInDst(dst: array<byte>, d0: nat, dp: nat, ghost de: nat, data: seq<byte>,
                       ghost f: Input, ghost p: int, ghost out: seq<byte>, ghost known: bool)
      returns (ok: bool, n: nat)
      requires Hashes() && Allocated() && HistoryOk(out, false) && CallOk(dst, d0, dp, de, out)
      requires dp + maxBlockSize <= de && |data| <= maxBlockSize
      requires known ==> Begun(f) && BlockEndsAt(f, info, p, data, out, frameRemainingSize, hashed)
      modifies xxh, xxh.mem32, blockChecksum, blockChecksum.mem32, `frameRemainingSize, `hashed, `blockHashed,
               `dict, `dictStart, `dictSize, tmpOutBuffer, `stage, dst
      ensures Resettable()
      ensures forall i :: 0 <= i < dst.Length && !(dp <= i < de) ==> dst[i] == old(dst[i])
      ensures known && !ok ==> !MustAccept(f)
      ensures ok ==> dp + n <= de && stage.GetBlockHeader?
      ensures ok ==> Valid(out + Slice(dst, dp, n)) && CallOk(dst, d0, dp + n, de, out + Slice(dst, dp, n))
      ensures ok && known ==> Tracks(f, p, out + Slice(dst, dp, n))
    {
      hide Slice, HistoryOk, CallOk, BlocksAt, BlockAt, Specified, Begun, MustAccept, DataOk, IsText, Hashes, TotalsOf, Buffers, RemainingAfter, Valid, Tracks;
      ghost var remaining0, hashed0 := frameRemainingSize, hashed;
      ok, n := DecodeToDst(dst, d0, dp, de, data, out);
      if ok {
        if known { BlockCounted(f, info, p, data, out, remaining0, hashed0, Slice(dst, dp, n)); }
        Goto(GetBlockHeader);
        BlocksNext(f, p, out + Slice(dst, dp, n), known);
      } else if known {
        BlockRefused(f, info, p, data, out, remaining0, hashed0);
      }
    }

    /** A block that does not fit the output: decoded into the decoder's buffer, from where it is still to be delivered. */
    method FinishInTmp(data: seq<byte>, ghost dst: array?<byte>, ghost d0: nat, ghost dp: nat, ghost de: nat,
                       ghost f: Input, ghost p: int, ghost out: seq<byte>, ghost known: bool)
      returns (ok: bool)
      requires Hashes() && Allocated() && HistoryOk(out, false) && |data| <= maxBlockSize && CallOk(dst, d0, dp, de, out)
      requires known ==> Begun(f) && BlockEndsAt(f, info, p, data, out, frameRemainingSize, hashed)
      modifies xxh, xxh.mem32, blockChecksum, blockChecksum.mem32, `frameRemainingSize, `hashed, `blockHashed,
               `dictSize, `tmpOut, `tmpOutSize, `tmpOutStart, tmpOutBuffer, `stage
      ensures Resettable()
      ensures known && !ok ==> !MustAccept(f)
      ensures ok ==> stage.FlushOut? && Valid(out) && CallOk(dst, d0, dp, de, out)
      ensures ok && known ==> Tracks(f, p, out)
    {
      hide Slice, HistoryOk, CallOk, BlocksAt, BlockAt, Specified, Begun, MustAccept, DataOk, IsText, Hashes, TotalsOf, Buffers, RemainingAfter, Pending,
           Valid, Tracks;
      CallApart(dst, d0, dp, de, out);
      ghost var remaining0, hashed0 := frameRemainingSize, hashed;
      HistoryApart(out, false);
      PlaceTmpOut(dst, d0, dp, de, out);
      ok := DecodeToTmp(data, out);
      if ok {
        if known { BlockCounted(f, info, p, data, out, remaining0, hashed0, Pending()); }
        Goto(FlushOut);
        FlushNext(f, p, out, known);
      } else if known {
        BlockRefused(f, info, p, data, out, remaining0, hashed0);
      }
    }

    lemma NothingMore(dst: array?<byte>, dp: nat, out: seq<byte>)
      ensures out == out + Slice(dst, dp, 0)
    {
    }

    /** The data of a compressed block is there: check it, and decode it where there is room. */
    method FinishCBlock(dst: array?<byte>, d0: nat, dp0: nat, de: nat, selectedIn: seq<byte>,
                        ghost f: Input, ghost p: int, ghost out0: seq<byte>, ghost known: bool)
      returns (step: Step, dp: nat, ghost out: seq<byte>)
      requires Hashes() && Allocated() && HistoryOk(out0, false) && CallOk(dst, d0, dp0, de, out0) && dp0 <= de
      requires CrcSize(info) < tmpInTarget == |selectedIn| <= maxBlockSize + CrcSize(info)
      requires known ==>
        && Begun(f) && tmpInTarget <= p <= |f.bytes| && DataAt(f, info, LeftOver(), p - tmpInTarget, tmpInTarget, out0)
        && selectedIn == f.bytes[p - tmpInTarget..p] && Totals(out0)
      modifies xxh, xxh.mem32, blockChecksum, blockChecksum.mem32, `frameRemainingSize, `hashed, `blockHashed,
               `dict, `dictStart, `dictSize, tmpOutBuffer, `tmpInTarget, `stage, dst,
               `tmpOut, `tmpOutSize, `tmpOutStart
      ensures Resettable()
      ensures dp0 <= dp <= de && !step.Stop?
      ensures dst != null ==> forall i :: 0 <= i < dst.Length && !(dp0 <= i < de) ==> dst[i] == old(dst[i])
      ensures !step.Fail? ==> out == out0 + Slice(dst, dp0, dp - dp0) && Valid(out) && CallOk(dst, d0, dp, de, out)
      ensures known ==> if step.Fail? then !MustAccept(f) else Tracks(f, p, out)
    {
      hide Slice, HistoryOk, CallOk, Specified, HeaderOk, InfoOf, MustAccept, DataAt, BlockEndsAt, Hashes, Buffers, TotalsOf, LE32, Checksum, Valid, Tracks;
      CallApart(dst, d0, dp0, de, out0);
      NothingMore(dst, dp0, out0);
      dp, out := dp0, out0;
      if known { BlockFetched(f, info, p, tmpInTarget, out0, selectedIn, frameRemainingSize, hashed); }
      var ok := CheckCBlock(selectedIn);
      if !ok { return Fail(BlockChecksumInvalid), dp, out; }
      if de - dp >= maxBlockSize {
        var n;
        ok, n := FinishInDst(dst, d0, dp, de, selectedIn[..tmpInTarget], f, p, out0, known);
        if !ok { return Fail(Generic), dp, out; }
        return More, dp0 + n, out0 + Slice(dst, dp0, n);
      }
      ok := FinishInTmp(selectedIn[..tmpInTarget], dst, d0, dp, de, f, p, out0, known);
      return if ok then More else Fail(DecompressionFailed), dp, out;
    }

    lemma AtData(f: Input, pos: int, out: seq<byte>, known: bool)
      requires (stage.GetCBlock? || stage.StoreCBlock?) && Valid(out) && (known ==> Tracks(f, pos, out))
      ensures Hashes() && Allocated() && HistoryOk(out, false) && Kept() < tmpInTarget
      ensures CrcSize(info) < tmpInTarget <= maxBlockSize + CrcSize(info)
      ensures known ==> Begun(f) && Kept() <= pos <= |f.bytes| && Stored(tmpIn, 0, Kept(), f.bytes, pos - Kept())
      ensures known ==> Totals(out) && DataAt(f, info, LeftOver(), pos - Kept(), tmpInTarget, out)
    {
      hide HistoryOk, Specified, HeaderOk, InfoOf, TotalsOf, Hashes, ReadData, ReadFrame;
    }

    lemma DataKept(f: Input, pos: int, out: seq<byte>, known: bool)
      requires stage.StoreCBlock? && Hashes() && Allocated() && HistoryOk(out, false) && tmpInSize < tmpInTarget
      requires CrcSize(info) < tmpInTarget <= maxBlockSize + CrcSize(info)
      requires known ==> Begun(f) && tmpInSize <= pos <= |f.bytes| && Stored(tmpIn, 0, tmpInSize, f.bytes, pos - tmpInSize)
      requires known ==> Totals(out) && DataAt(f, info, LeftOver(), pos - tmpInSize, tmpInTarget, out)
      ensures Valid(out) && (known ==> Tracks(f, pos, out))
    {
      hide HistoryOk, DataAt, Specified, HeaderOk, InfoOf, TotalsOf, Hashes;
    }

    /** The data of a compressed block, with its checksum, or the state that waits for the rest of it. */
    method FetchData(src: seq<byte>, sp0: nat, ghost f: Input, ghost pos: nat, ghost out: seq<byte>, ghost known: bool)
      returns (ready: bool, selectedIn: seq<byte>, sp: nat)
      requires (stage.GetCBlock? || stage.StoreCBlock?) && Valid(out) && sp0 <= |src|
      requires known ==> Tracks(f, pos, out) && Fed(src, sp0, f.bytes, pos)
      modifies `tmpInSize, tmpIn, `stage
      ensures sp0 <= sp <= |src| && Hashes() && Allocated() && HistoryOk(out, false) && CrcSize(info) < tmpInTarget
      ensures ready ==> |selectedIn| == tmpInTarget <= maxBlockSize + CrcSize(info) && sp0 < sp
      ensures ready && known ==>
        && Begun(f) && tmpInTarget <= pos + (sp - sp0) <= |f.bytes| && Totals(out)
        && DataAt(f, info, LeftOver(), pos + (sp - sp0) - tmpInTarget, tmpInTarget, out)
        && selectedIn == f.bytes[pos + (sp - sp0) - tmpInTarget..pos + (sp - sp0)]
      ensures !ready ==> stage.StoreCBlock? && tmpInSize < tmpInTarget && sp == |src| && Valid(out)
      ensures !ready && known ==> Tracks(f, pos + (sp - sp0), out)
    {
      hide Valid, Tracks, HistoryOk, Specified, Begun, DataAt, Hashes, TotalsOf, Allocated, Buffers, DictPlace, LeftOf, BlockSize, Stored, Fed;
      AtData(f, pos, out, known);
      HistoryPlaced(out, false);
      TmpInApart(tmpInTarget);
      ready, selectedIn, sp := Fetch(stage.GetCBlock?, tmpIn, tmpInTarget, src, sp0, f, pos - Kept(), known);
      if !ready {
        Goto(StoreCBlock);
        DataKept(f, pos + (sp - sp0), out, known);
      }
    }

    /** dstage_getCBlock and dstage_storeCBlock: decodes a compressed block once all of its data is there. */
    method DoCBlock(dst: array?<byte>, d0: nat, dp0: nat, de: nat, src: seq<byte>, sp0: nat,
                    ghost f: Input, ghost pos: nat, ghost out0: seq<byte>, ghost known: bool)
      returns (step: Step, dp: nat, sp: nat, ghost out: seq<byte>)
      requires (stage.GetCBlock? || stage.StoreCBlock?) && Valid(out0) && CallOk(dst, d0, dp0, de, out0) && sp0 <= |src| && dp0 <= de
      requires known ==> Tracks(f, pos, out0) && Fed(src, sp0, f.bytes, pos)
      modifies xxh, xxh.mem32, blockChecksum, blockChecksum.mem32, `frameRemainingSize, `hashed, `blockHashed,
               `dict, `dictStart, `dictSize, tmpOutBuffer, `tmpInSize, `tmpInTarget, tmpIn, `stage, dst,
               `tmpOut, `tmpOutSize, `tmpOutStart
      ensures Resettable()
      ensures dp0 <= dp <= de && sp0 <= sp <= |src|
      ensures dst != null ==> forall i :: 0 <= i < dst.Length && !(dp0 <= i < de) ==> dst[i] == old(dst[i])
      ensures !step.Fail? ==> out == out0 + Slice(dst, dp0, dp - dp0) && Valid(out) && CallOk(dst, d0, dp, de, out)
      ensures known ==> if step.Fail? then !MustAccept(f) else Tracks(f, pos + (sp - sp0), out)
      ensures step.More? ==> sp0 < sp
      ensures step.Stop? ==> step.hint == SrcSizeHint() > 0 && sp == |src| && stage.StoreCBlock?
    {
      hide Slice, HistoryOk, CallOk, Specified, Begun, MustAccept, DataAt, Hashes, TotalsOf, Valid, Tracks;
      CallApart(dst, d0, dp0, de, out0);
      var ready, selectedIn;
      ready, selectedIn, sp := FetchData(src, sp0, f, pos, out0, known);
      if !ready {
        NothingMore(dst, dp0, out0);
        return Stop(tmpInTarget - tmpInSize + CrcSize(info) + BHSize), dp0, sp, out0;
      }
      step, dp, out := FinishCBlock(dst, d0, dp0, de, selectedIn, f, pos + (sp - sp0), out0, known);
    }

    // ---------- Delivering a block that waits ----------

    /** n more bytes of the waiting block, more, have been delivered. */
    method Advance(n: nat, ghost out: seq<byte>, ghost more: seq<byte>)
      requires Allocated() && DictPlace() && tmpOut + tmpOutSize <= maxBufferSize && tmpOutStart + n <= tmpOutSize
      requires Slice(tmpOutBuffer, tmpOut + tmpOutStart, n) == more
      requires
        if info.linked then
          && HistoryKept(InTmp(), Slice(dict, dictStart, dictSize), out + more, true, tmpOut, tmpOutStart + n, tmpOutSize)
          && BlockWaits(out)
        else dict == null
      modifies `tmpOutStart
      ensures tmpOutStart == old(tmpOutStart) + n && HistoryOk(out + more, true) && old(Pending()) == more + Pending()
    {
      hide HistoryKept, Slice;
      JoinSlices(tmpOutBuffer, tmpOut, tmpOutStart, n);
      JoinSlices(tmpOutBuffer, tmpOut + tmpOutStart, n, tmpOutSize - tmpOutStart - n);
      if info.linked { assert (out + more)[|out| - tmpOutStart..] == out[|out| - tmpOutStart..] + more; }
      tmpOutStart := tmpOutStart + n;
    }

    /** Dictionary management while a block is being delivered leaves that block alone. */
    method RememberFlushed(dst: array<byte>, d0: nat, dp: nat, ghost de: nat, n: nat, ghost out: seq<byte>)
      requires Allocated() && HistoryOk(out, true) && CallOk(dst, d0, dp, de, out)
      requires tmpOut + tmpOutSize <= maxBufferSize && tmpOutStart + n <= tmpOutSize && dp + n <= de
      requires Slice(tmpOutBuffer, tmpOut + tmpOutStart, n) == Slice(dst, dp, n)
      modifies `dict, `dictStart, `dictSize, tmpOutBuffer
      ensures DictPlace() && CallOk(dst, d0, dp + n, de, out + Slice(dst, dp, n))
      ensures Slice(tmpOutBuffer, tmpOut + tmpOutStart, n) == Slice(dst, dp, n) && Pending() == old(Pending())
      ensures
        if info.linked then
          && HistoryKept(InTmp(), Slice(dict, dictStart, dictSize), out + Slice(dst, dp, n), true, tmpOut, tmpOutStart + n, tmpOutSize)
          && BlockWaits(out)
        else dict == null
    {
      hide Slice, HistoryKept, EndsWith;
      SubSlice(tmpOutBuffer, tmpOut, tmpOutSize, 0, tmpOutStart);
      SubSlice(tmpOutBuffer, tmpOut, tmpOutSize, tmpOutStart, n);
      SubSlice(tmpOutBuffer, tmpOut, tmpOutSize, tmpOutStart, tmpOutSize - tmpOutStart);
      Remember(dst, d0, dp, n, de, true, out);
      SubSlice(tmpOutBuffer, tmpOut, tmpOutSize, 0, tmpOutStart);
      SubSlice(tmpOutBuffer, tmpOut, tmpOutSize, tmpOutStart, n);
      SubSlice(tmpOutBuffer, tmpOut, tmpOutSize, tmpOutStart, tmpOutSize - tmpOutStart);
    }

    /** The next n bytes of the waiting block are delivered and stay part of the history. */
    method DeliverPending(dst: array<byte>, d0: nat, dp: nat, ghost de: nat, n: nat, ghost out: seq<byte>)
      requires Allocated() && HistoryOk(out, true) && CallOk(dst, d0, dp, de, out)
      requires tmpOut + tmpOutSize <= maxBufferSize && tmpOutStart + n <= tmpOutSize && dp + n <= de
      modifies `dict, `dictStart, `dictSize, `tmpOutStart, tmpOutBuffer, dst
      ensures forall i :: 0 <= i < dst.Length && !(dp <= i < de) ==> dst[i] == old(dst[i])
      ensures tmpOutStart == old(tmpOutStart) + n
      ensures HistoryOk(out + Slice(dst, dp, n), true) && CallOk(dst, d0, dp + n, de, out + Slice(dst, dp, n))
      ensures old(Pending()) == Slice(dst, dp, n) + Pending()
    {
      hide Slice, HistoryKept, EndsWith;
      SubSlice(tmpOutBuffer, tmpOut, tmpOutSize, tmpOutStart, n);
      SliceIs(tmpOutBuffer, tmpOut + tmpOutStart, n);
      Deliver(dst, d0, dp, tmpOutBuffer[..], tmpOut + tmpOutStart, n, dict, dictStart, dictSize);
      RememberFlushed(dst, d0, dp, de, n, out);
      Advance(n, out, Slice(dst, dp, n));
    }

    /** dstage_flushOut: as much of the waiting block as there is room for. */
    method DoFlush(dst: array?<byte>, d0: nat, dp0: nat, de: nat, ghost f: Input, ghost pos: nat, ghost out0: seq<byte>, ghost known: bool)
      returns (step: Step, dp: nat, ghost out: seq<byte>)
      requires stage.FlushOut? && Valid(out0) && CallOk(dst, d0, dp0, de, out0) && dp0 <= de
      requires known ==> Tracks(f, pos, out0)
      modifies `dict, `dictStart, `dictSize, `tmpOutStart, tmpOutBuffer, `stage, dst
      ensures dp0 <= dp <= de
      ensures dst != null ==> forall i :: 0 <= i < dst.Length && !(dp0 <= i < de) ==> dst[i] == old(dst[i])
      ensures !step.Fail? && out == out0 + Slice(dst, dp0, dp - dp0) && Valid(out) && CallOk(dst, d0, dp, de, out)
      ensures known ==> Tracks(f, pos, out)
      ensures step.More? ==> stage.GetBlockHeader?
      ensures step.Stop? ==> step.hint == SrcSizeHint() > 0 && dp == de
      ensures step.Stop? ==> stage.FlushOut?
    {
      hide Slice, HistoryOk, CallOk, BlocksAt, Specified, Begun, Hashes, TotalsOf, Pending, Valid, Tracks;
      AtFlush(f, pos, out0, known);
      CallApart(dst, d0, dp0, de, out0);
      HistoryApart(out0, true);
      NothingMore(dst, dp0, out0);
      dp, out := dp0, out0;
      if dst != null {
        var n := Min(tmpOutSize - tmpOutStart, de - dp0);
        DeliverPending(dst, d0, dp0, de, n, out0);
        dp, out := dp0 + n, out0 + Slice(dst, dp0, n);
        if known { Regroup(out0, Slice(dst, dp0, n), Pending()); }
      }
      if tmpOutStart == tmpOutSize {
        Flushed(out);
        Goto(GetBlockHeader);
        BlocksNext(f, pos, out, known);
        return More, dp, out;
      }
      FlushNext(f, pos, out, known);
      return Stop(BHSize), dp, out;
    }

    lemma Flushed(out: seq<byte>)
      requires HistoryOk(out, true) && tmpOutStart == tmpOutSize
      ensures HistoryOk(out, false) && out + Pending() == out
    {
      hide HistoryKept;
      if info.linked { KeptFlushed(InTmp(), Slice(dict, dictStart, dictSize), out, tmpOut, tmpOutSize); }
      assert Pending() == [];
    }

    static lemma Regroup(a: seq<byte>, b: seq<byte>, c: seq<byte>)
      ensures a + (b + c) == a + b + c
    {
    }

    // ---------- The end of a frame ----------

    /** LZ4F_resetDecompressionContext. */
    method Reset()
      requires Hashes() && Buffers()
      modifies `stage, `dict, `dictStart, `dictSize
      ensures stage.GetFrameHeader? && Valid([])
    {
      hide Hashes, Buffers;
      stage, dict, dictStart, dictSize := GetFrameHeader, null, 0, 0;
    }

    /** The checksum of the content has been read; with it, the frame is over. */
    method CheckSuffix(selectedIn: seq<byte>, ghost f: Input, ghost p: int, ghost out: seq<byte>, ghost known: bool)
      returns (step: Step)
      requires Hashes() && Buffers() && |selectedIn| == BFSize && info.contentChecksum
      requires known ==> 0 <= p && p + BFSize <= |f.bytes| && selectedIn == f.bytes[p..p + BFSize]
      requires known ==> SuffixAt(f, info, LeftOver(), p, out) && hashed == out && Missing(info, LeftOver(), |out|) == 0
      modifies `stage, `dict, `dictStart, `dictSize
      ensures Resettable()
      ensures step == Stop(0) || step.Fail?
      ensures step.Stop? ==> stage.GetFrameHeader? && Valid([])
      ensures known ==> if step.Fail? then !MustAccept(f) else EndsAt(f, p + BFSize, out)
    {
      hide SuffixAt, Specified, Begun, MustAccept, EndsAt, Missing, XxHash32.State.Holds, XxHash32.LE32, XxHash32.Hash;
      if known {
        SuffixRead(f, info, LeftOver(), p, out);
        LE32Same(selectedIn, 0, f.bytes, p);
      }
      var readCRC := LE32(selectedIn, 0);
      var resultCRC := xxh.Digest(0, hashed);
      if readCRC != resultCRC { return Fail(ContentChecksumInvalid); }
      Reset();
      return Stop(0);
    }

    lemma AtSuffix(f: Input, pos: int, out: seq<byte>, known: bool)
      requires InSuffix() && Valid(out) && (known ==> Tracks(f, pos, out))
      ensures Hashes() && Allocated() && DictPlace() && Kept() < BFSize && (stage.StoreSuffix? ==> info.contentChecksum)
      ensures known ==> Begun(f) && Kept() <= pos <= |f.bytes| && Stored(tmpIn, 0, Kept(), f.bytes, pos - Kept())
      ensures known ==> Totals(out) && SuffixAt(f, info, LeftOver(), pos - Kept(), out) && (stage.StoreSuffix? ==> Missing(info, LeftOver(), |out|) == 0)
    {
      hide SuffixAt, Specified, HeaderOk, InfoOf, TotalsOf, Hashes, Missing;
    }

    lemma SuffixKept(f: Input, pos: int, out: seq<byte>, known: bool)
      requires stage.StoreSuffix? && Hashes() && Allocated() && DictPlace() && tmpInSize < BFSize && info.contentChecksum
      requires known ==> Begun(f) && tmpInSize <= pos <= |f.bytes| && Stored(tmpIn, 0, tmpInSize, f.bytes, pos - tmpInSize)
      requires known ==> Totals(out) && SuffixAt(f, info, LeftOver(), pos - tmpInSize, out) && Missing(info, LeftOver(), |out|) == 0
      ensures Valid(out) && (known ==> Tracks(f, pos, out))
    {
      hide SuffixAt, Specified, HeaderOk, InfoOf, TotalsOf, Hashes, Missing;
    }

    /** dstage_storeSuffix: fetches the checksum of the content, and checks it once it is there. */
    method FinishSuffix(src: seq<byte>, sp0: nat, ghost f: Input, ghost pos: nat, ghost out: seq<byte>, ghost known: bool)
      returns (step: Step, sp: nat)
      requires InSuffix() && info.contentChecksum && Valid(out) && sp0 <= |src|
      requires known ==> Tracks(f, pos, out) && Fed(src, sp0, f.bytes, pos) && Missing(info, LeftOver(), |out|) == 0
      modifies tmpIn, `tmpInSize, `stage, `dict, `dictStart, `dictSize
      ensures Resettable()
      ensures sp0 <= sp <= |src| && !step.More?
      ensures step == Stop(0) ==> stage.GetFrameHeader? && Valid([])
      ensures step == Stop(0) && known ==> EndsAt(f, pos + (sp - sp0), out)
      ensures step.Stop? && step.hint > 0 ==>
        step.hint == SrcSizeHint() && stage.StoreSuffix? && Valid(out) && (known ==> Tracks(f, pos + (sp - sp0), out)) && sp == |src|
      ensures known && step.Fail? ==> !MustAccept(f)
    {
      hide Valid, Tracks, SuffixAt, Specified, Begun, MustAccept, EndsAt, Missing, Hashes, Allocated, Buffers, DictPlace, LeftOf;
      AtSuffix(f, pos, out, known);
      TmpInApart(BFSize);
      ghost var p := pos - Kept();
      var ready, selectedIn;
      ready, selectedIn, sp := Fetch(stage.GetSuffix?, tmpIn, BFSize, src, sp0, f, p, known);
      if ready {
        step := CheckSuffix(selectedIn, f, p, out, known);
      } else {
        Goto(StoreSuffix);
        SuffixKept(f, pos + (sp - sp0), out, known);
        step := Stop(BFSize - tmpInSize);
      }
    }

    /** dstage_getSuffix and dstage_storeSuffix: the end of the frame; the context is ready for the next one. */
    method DoSuffix(src: seq<byte>, sp0: nat, ghost f: Input, ghost pos: nat, ghost out: seq<byte>, ghost known: bool)
      returns (step: Step, sp: nat)
      requires (stage.GetSuffix? || stage.StoreSuffix?) && Valid(out) && sp0 <= |src|
      requires known ==> Tracks(f, pos, out) && Fed(src, sp0, f.bytes, pos)
      modifies tmpIn, `tmpInSize, `tmpInTarget, `stage, `dict, `dictStart, `dictSize
      ensures Resettable()
      ensures sp0 <= sp <= |src| && !step.More?
      ensures step == Stop(0) ==> stage.GetFrameHeader? && Valid([])
      ensures step == Stop(0) && known ==> EndsAt(f, pos + (sp - sp0), out) && frameRemainingSize == 0
      ensures step.Stop? && step.hint > 0 ==>
        step.hint == SrcSizeHint() && stage.StoreSuffix? && Valid(out) && (known ==> Tracks(f, pos + (sp - sp0), out)) && sp == |src|
      ensures known && step.Fail? ==> !MustAccept(f)
    {
      hide Valid, Tracks, SuffixAt, Specified, Begun, MustAccept, EndsAt, Missing, Hashes, Allocated, Buffers, DictPlace;
      AtSuffix(f, pos, out, known);
      TmpInApart(BFSize);
      sp := sp0;
      if known { SuffixRead(f, info, LeftOver(), pos - Kept(), out); }
      if stage.GetSuffix? {
        if frameRemainingSize != 0 { return Fail(FrameSizeWrong), sp; }
        if !info.contentChecksum {
          Reset();
          return Stop(0), sp;
        }
      }
      step, sp := FinishSuffix(src, sp0, f, pos, out, known);
    }

    // ---------- The beginning of a frame ----------

    /** Saves the parameters of the frame, whose header src starts with. */
    method SaveHeader(src: seq<byte>)
      requires |src| >= minFHSize && |src| >= HeaderLength(src[4]) && BdOk(src[5])
      modifies `info, `maxBlockSize, `frameRemainingSize, `stage
      ensures info == InfoOf(src) && maxBlockSize == BlockSize(info.blockSizeID) && stage.Init?
      ensures frameRemainingSize == if Flag(src[4], 3) then info.contentSize else old(frameRemainingSize)
    {
      hide XxHash32.LE32;
      info := InfoOf(src);
      maxBlockSize := BlockSize(info.blockSizeID);
      if Flag(src[4], 3) { frameRemainingSize := info.contentSize; }
      stage := Init;
    }

    /** Not enough input to decode the header as a whole, which has target bytes. */
    method KeepHeader(src: seq<byte>, fromHeader: bool, target: nat)
      requires header.Length == maxFHSize && |src| <= maxFHSize && (fromHeader ==> src == header[..|src|])
      modifies header, `tmpInSize, `tmpInTarget, `stage
      ensures stage.StoreFrameHeader? && tmpInSize == |src| && tmpInTarget == target && header[..|src|] == src
    {
      if !fromHeader { CopyIn(header, 0, src, 0, |src|); }
      stage, tmpInSize, tmpInTarget := StoreFrameHeader, |src|, target;
    }

    /** The rest of LZ4F_decodeHeader, for a header that is there as a whole. */
    method DecodeDescriptor(src: seq<byte>, ghost f: Input, ghost known: bool) returns (step: Step)
      requires Hashes() && Buffers() && DictPlace() && dict == null
      requires |src| >= minFHSize && FlgOk(src[4]) && |src| >= HeaderLength(src[4])
      requires known ==> Specified(f) && frameRemainingSize == f.left && HeaderLength(src[4]) <= |f.bytes|
      requires known ==>
        if BdOk(src[5]) && src[HeaderLength(src[4]) - 1] == HeaderChecksum(src[4..HeaderLength(src[4]) - 1])
        then FrameBegun(f, InfoOf(src), if Flag(src[4], 3) then 0 else f.left, HeaderLength(src[4]))
        else !MustAccept(f)
      modifies `info, `maxBlockSize, `frameRemainingSize, `stage
      ensures Resettable() && !step.Stop? && (step.More? ==> stage.Init? && Valid([]))
      ensures known ==> if step.Fail? then !MustAccept(f) else Tracks(f, HeaderLength(src[4]), [])
    {
      hide Hashes, Specified, MustAccept, BlocksAt, HeaderOk, Checksum, XxHash32.LE32;
      if src[5] >= 128 { return Fail(ReservedFlagSet); }
      if src[5] as int / 16 < 4 { return Fail(MaxBlockSizeInvalid); }
      if src[5] as int % 16 != 0 { return Fail(ReservedFlagSet); }
      if src[HeaderLength(src[4]) - 1] != HeaderChecksum(src[4..HeaderLength(src[4]) - 1]) { return Fail(HeaderChecksumInvalid); }
      SaveHeader(src);
      return More;
    }

    /** LZ4F_decodeHeader: src starts at the beginning of the frame, in the input or in the context's header. */
    method DecodeHeader(src: seq<byte>, fromHeader: bool, ghost f: Input, ghost known: bool)
      returns (step: Step, hSize: nat)
      requires Hashes() && Buffers() && DictPlace() && dict == null
      requires if fromHeader then |src| <= maxFHSize && src == header[..|src|] else |src| >= maxFHSize
      requires |src| >= minFHSize && (|src| == minFHSize || !fromHeader || !SkippableMagic(src[..4]))
      requires known ==> Specified(f) && frameRemainingSize == f.left && |src| <= |f.bytes| && src == f.bytes[..|src|]
      requires known && fromHeader ==> |src| == minFHSize || HeaderAwaited(f, |src|)
      modifies header, `info, `maxBlockSize, `frameRemainingSize, `stage, `tmpInSize, `tmpInTarget
      ensures Resettable()
      ensures !step.Stop? && hSize <= |src| && (step.More? ==> 4 <= hSize && Valid([]))
      ensures known ==> if step.Fail? then !MustAccept(f) else Tracks(f, if fromHeader then |src| else hSize, [])
      ensures step.More? ==> stage.Init? || stage.GetSFrameSize? || stage.StoreSFrameSize? || (stage.StoreFrameHeader? && tmpInTarget > |src|)
    {
      hide Hashes, Specified, MustAccept, FrameBegun, HeaderOk, Checksum, XxHash32.LE32, InfoOf, BdOk;
      MagicFirst(src);
      if known { HeaderRead(src, f); }
      if SkippableMagic(src) {
        if fromHeader {
          stage, tmpInSize, tmpInTarget := StoreSFrameSize, |src|, 8;
          return More, |src|;
        }
        stage := GetSFrameSize;
        return More, 4;
      }
      if LE32(src, 0) != LZ4F_MAGICNUMBER { return Fail(FrameTypeUnknown), 0; }
      if Flag(src[4], 1) { return Fail(ReservedFlagSet), 0; }
      if src[4] as int / 64 != 1 { return Fail(HeaderVersionWrong), 0; }
      var frameHeaderSize := HeaderLength(src[4]);
      if |src| < frameHeaderSize {
        KeepHeader(src, fromHeader, frameHeaderSize);
        assert header[..4] == src[..4];
        return More, |src|;
      }
      step := DecodeDescriptor(src, f, known);
      hSize := frameHeaderSize;
    }

    static lemma SameFour(bytes: seq<byte>, kept: seq<byte>, more: seq<byte>)
      requires |kept| >= 4 && |kept| + |more| <= |bytes| && bytes[0..|kept| + |more|] == kept + more
      ensures bytes[..4] == kept[..4]
    {
      assert bytes[..4] == bytes[0..|kept| + |more|][..4];
    }

    /** dstage_storeFrameHeader: completes a header of which some bytes have been kept. */
    method DoStoreFrameHeader(src: seq<byte>, sp0: nat, ghost f: Input, ghost pos: nat, ghost known: bool)
      returns (step: Step, sp: nat)
      requires stage.StoreFrameHeader? && Valid([]) && sp0 <= |src|
      requires known ==> Tracks(f, pos, []) && Fed(src, sp0, f.bytes, pos)
      modifies header, `info, `maxBlockSize, `frameRemainingSize, `stage, `tmpInSize, `tmpInTarget
      ensures Resettable()
      ensures sp0 <= sp <= |src| && (!step.Fail? ==> Valid([]))
      ensures known ==> if step.Fail? then !MustAccept(f) else Tracks(f, pos + (sp - sp0), [])
      ensures step.More? ==> sp0 < sp
      ensures step.Stop? ==> step.hint == SrcSizeHint() > 0 && sp == |src| && stage.StoreFrameHeader?
    {
      hide Hashes, Specified, Begun, MustAccept, HeaderAwaited, FrameBegun;
      ghost var kept := header[0..tmpInSize];
      var n := Collect(header, 0, tmpInTarget, src, sp0, f, 0, known);
      sp := sp0 + n;
      if |kept| >= 4 { SameFour(header[..], kept, src[sp0..sp]); }
      if tmpInSize < tmpInTarget { return Stop(tmpInTarget - tmpInSize + BHSize), sp; }
      var hSize;
      step, hSize := DecodeHeader(header[..tmpInTarget], true, f, known);
    }

    /** dstage_getFrameHeader, which falls through to the next stage when the header may be incomplete. */
    method DoGetFrameHeader(src: seq<byte>, sp0: nat, ghost f: Input, ghost known: bool)
      returns (step: Step, sp: nat)
      requires stage.GetFrameHeader? && Valid([]) && sp0 <= |src|
      requires known ==> Tracks(f, 0, []) && Fed(src, sp0, f.bytes, 0)
      modifies header, `info, `maxBlockSize, `frameRemainingSize, `stage, `tmpInSize, `tmpInTarget
      ensures Resettable()
      ensures sp0 <= sp <= |src| && (!step.Fail? ==> Valid([]))
      ensures known ==> if step.Fail? then !MustAccept(f) else Tracks(f, sp - sp0, [])
      ensures step.More? ==> sp0 < sp
      ensures step.Stop? ==> step.hint == SrcSizeHint() > 0 && sp == |src| && (stage.StoreFrameHeader? || stage.GetFrameHeader?)
    {
      hide Hashes, Buffers, Specified, Begun, MustAccept, HeaderAwaited, FrameBegun;
      if |src| - sp0 >= maxFHSize {
        var hSize;
        step, hSize := DecodeHeader(src[sp0..], false, f, known);
        return step, sp0 + hSize;
      }
      if |src| == sp0 { return Stop(minFHSize), sp0; }
      Expect(StoreFrameHeader, minFHSize);
      if known { StoredNone(header, f.bytes); }
      step, sp := DoStoreFrameHeader(src, sp0, f, 0, known);
    }

    lemma StoredNone(buffer: array<byte>, f: seq<byte>)
      ensures Stored(buffer, 0, 0, f, 0)
    {
    }

    /** dstage_storeSFrameSize: completes the size of a skippable frame, of which some bytes have been kept. */
    method DoStoreSFrameSize(src: seq<byte>, sp0: nat, ghost f: Input, ghost pos: nat, ghost known: bool)
      returns (step: Step, sp: nat)
      requires stage.StoreSFrameSize? && Valid([]) && sp0 <= |src|
      requires known ==> Tracks(f, pos, []) && Fed(src, sp0, f.bytes, pos)
      modifies header, `info, `stage, `tmpInSize, `tmpInTarget
      ensures sp0 <= sp <= |src| && !step.Fail? && Valid([])
      ensures known ==> Tracks(f, pos + (sp - sp0), [])
      ensures step.More? ==> sp0 < sp && stage.SkipSkippable?
      ensures step.Stop? ==> step.hint == SrcSizeHint() > 0 && sp == |src| && stage.StoreSFrameSize?
    {
      hide Hashes, Specified, Begun, XxHash32.LE32;
      var n := Collect(header, 4, tmpInTarget, src, sp0, f, 0, known);
      sp := sp0 + n;
      if tmpInSize < tmpInTarget { return Stop(tmpInTarget - tmpInSize), sp; }
      if known { assert header[4..8] == f.bytes[4..8]; LE32Same(header[..], 4, f.bytes, 4); }
      SkipNext(LE32(header[..], 4));
      return More, sp;
    }

    /** dstage_getSFrameSize, which falls through to the next stage when the size is not there as a whole. */
    method DoSFrameSize(src: seq<byte>, sp0: nat, ghost f: Input, ghost pos: nat, ghost known: bool)
      returns (step: Step, sp: nat)
      requires (stage.GetSFrameSize? || stage.StoreSFrameSize?) && Valid([]) && sp0 <= |src|
      requires known ==> Tracks(f, pos, []) && Fed(src, sp0, f.bytes, pos)
      modifies header, `info, `stage, `tmpInSize, `tmpInTarget
      ensures sp0 <= sp <= |src| && !step.Fail? && Valid([])
      ensures known ==> Tracks(f, pos + (sp - sp0), [])
      ensures step.More? ==> sp0 < sp && stage.SkipSkippable?
      ensures step.Stop? ==> step.hint == SrcSizeHint() > 0 && sp == |src| && stage.StoreSFrameSize?
    {
      hide Hashes, Specified, Begun, XxHash32.LE32;
      if stage.GetSFrameSize? && |src| - sp0 >= 4 {
        if known { FedSlice(src, sp0, f.bytes, pos, 4); LE32Same(src, sp0, f.bytes, 4); }
        SkipNext(LE32(src, sp0));
        return More, sp0 + 4;
      }
      if stage.GetSFrameSize? {
        Expect(StoreSFrameSize, 8);
        tmpInSize := 4;
      }
      step, sp := DoStoreSFrameSize(src, sp0, f, pos, known);
    }

    method SkipNext(n: nat)
      modifies `info, `stage, `tmpInTarget
      ensures stage.SkipSkippable? && tmpInTarget == n
    {
      info := info.(contentSize := n);
      tmpInTarget := n;
      stage := SkipSkippable;
    }

    /** dstage_skipSkippable. */
    method DoSkip(src: seq<byte>, sp0: nat, ghost f: Input, ghost pos: nat, ghost known: bool)
      returns (step: Step, sp: nat)
      requires stage.SkipSkippable? && Valid([]) && sp0 <= |src|
      requires known ==> Tracks(f, pos, []) && Fed(src, sp0, f.bytes, pos)
      modifies `stage, `tmpInTarget, `dict, `dictStart, `dictSize
      ensures sp0 <= sp <= |src| && step.Stop? && Valid([])
      ensures step == Stop(0) ==> stage.GetFrameHeader?
      ensures step == Stop(0) && known ==> EndsAt(f, pos + (sp - sp0), []) && SkippableStart(f.bytes) && frameRemainingSize == f.left
      ensures step.hint > 0 ==> step.hint == SrcSizeHint() && stage.SkipSkippable? && tmpInTarget > 0 && sp == |src| && (known ==> Tracks(f, pos + (sp - sp0), []))
      ensures step.hint > 0 ==> dict == old(dict) && dictStart == old(dictStart) && dictSize == old(dictSize)
    {
      hide Hashes, Buffers, XxHash32.LE32, ReadBlocks;
      var skipSize := Min(tmpInTarget, |src| - sp0);
      sp := sp0 + skipSize;
      tmpInTarget := tmpInTarget - skipSize;
      if tmpInTarget > 0 { return Stop(tmpInTarget), sp; }
      Reset();
      return Stop(0), sp;
    }

    // ---------- The state machine ----------

    /** The caller's buffer for the output of this call, and what has been put there so far. */
    ghost predicate OutputOk(dst: array?<byte>, d0: nat, dp: nat, de: nat)
      reads `tmpIn, `tmpOutBuffer
    {
      d0 <= dp <= de && Within(dst, d0, de - d0) && (dst != null ==> !IsScratch(dst) && dst != tmpOutBuffer)
    }

    /** CallOk while it matters, that is until the last block is over. */
    ghost predicate CallReady(dst: array?<byte>, d0: nat, dp: nat, de: nat, out: seq<byte>)
      reads `stage, `dict, `dictStart, `dictSize, `tmpIn, `tmpOutBuffer, dst
    {
      OutputOk(dst, d0, dp, de) && (InSuffix() || CallOk(dst, d0, dp, de, out))
    }

    lemma CallIsReady(dst: array?<byte>, d0: nat, dp: nat, de: nat, out: seq<byte>)
      requires CallOk(dst, d0, dp, de, out)
      ensures CallReady(dst, d0, dp, de, out)
    {
    }

    /** What one stage does to the output, and where it leaves the context. */
    ghost predicate StepDone(step: Step, dst: array?<byte>, d0: nat, dp: nat, de: nat, src: seq<byte>, sp: nat,
                             f: Input, pos: int, out: seq<byte>, known: bool)
      reads this, header, if InSuffix() then {} else {dict}, tmpOutBuffer, tmpIn, xxh, xxh.mem32, blockChecksum, blockChecksum.mem32, dst
    {
      && (known && step.Fail? ==> !MustAccept(f))
      && (step.More? || (step.Stop? && step.hint > 0) ==>
        Valid(out) && CallReady(dst, d0, dp, de, out) && (known ==> Tracks(f, pos, out)))
      && (step.Stop? && step.hint > 0 ==>
        (sp == |src| || dp == de) && (stage.FlushOut? ==> dp == de) && Waiting() && step.hint == SrcSizeHint())
      && (step == Stop(0) ==>
        && stage.GetFrameHeader? && Valid([])
        && (known ==> EndsAt(f, pos, out) && CounterAfter(f)))
    }

    /** What is in the size counter after a frame. */
    ghost predicate CounterAfter(f: Input)
      reads `frameRemainingSize
    {
      frameRemainingSize == 0 || (SkippableStart(f.bytes) && frameRemainingSize == f.left)
    }

    /** A state in which a call may end: more input is needed. */
    predicate Waiting()
      reads `stage, `tmpInTarget
    {
      !stage.GetSuffix? && (stage.SkipSkippable? ==> tmpInTarget > 0)
    }

    /**
      What has been delivered is a beginning of the frame's text. The end of the frame is not reached before it is
      reported; and if f ends here, it is a frame cut short, all of whose text has been delivered or waits to be.
     */
    lemma OnTheWay(f: Input, pos: int, out: seq<byte>)
      requires Valid(out) && Tracks(f, pos, out)
      ensures out <= ReadFrame(f).text
      ensures Waiting() && ReadFrame(f).ending.Ended? ==> pos < ReadFrame(f).ending.pos <= |f.bytes|
      ensures Waiting() && pos == |f.bytes| ==> ReadFrame(f).ending.CutShort?
      ensures Waiting() && pos == |f.bytes| && !stage.FlushOut? ==> out == ReadFrame(f).text
    {
      hide Hashes, HistoryOk, Buffers, ReadFrame, RawAt, CrcAt, DataAt, BlocksAt, SuffixAt, TotalsOf, Slice, Missing, Specified, Begun,
           FrameBegun, LeftOf, Allocated, DictPlace;
      match stage {
        case GetBlockHeader => BlocksAhead(f, info, LeftOver(), pos, out);
        case StoreBlockHeader => BlocksAhead(f, info, LeftOver(), pos - tmpInSize, out);
        case CopyDirect => RawAhead(f, info, LeftOver(), rawStart, pos, tmpInTarget, out);
        case GetBlockChecksum => CrcAhead(f, info, LeftOver(), rawStart, pos - tmpInSize, out);
        case GetCBlock => DataAhead(f, info, LeftOver(), pos, tmpInTarget, out);
        case StoreCBlock => DataAhead(f, info, LeftOver(), pos - tmpInSize, tmpInTarget, out);
        case FlushOut => BlocksAhead(f, info, LeftOver(), pos, out + Pending());
        case GetSuffix => SuffixAhead(f, info, LeftOver(), pos, out);
        case StoreSuffix => SuffixAhead(f, info, LeftOver(), pos - tmpInSize, out);
        case Init => BegunAhead(f, info, LeftOver(), pos);
        case _ => HeaderAhead(f);
      }
    }

    /** A part of a compressed block with a checksum waits, and behind the block there is only the end mark. */
    predicate LastBlockWaits(f: Input, pos: int)
      reads `stage, `info, `tmpInSize, `tmpInTarget
    {
      && stage.StoreCBlock? && info.blockChecksum && !info.contentChecksum
      && (var p := pos - tmpInSize + tmpInTarget; 0 <= p && p + BHSize <= |f.bytes| && LE32(f.bytes, p) == 0)
    }

    lemma HintInBlock(f: Input, pos: int, out: seq<byte>)
      requires stage.StoreCBlock? && tmpInSize <= pos && DataAt(f, info, LeftOver(), pos - tmpInSize, tmpInTarget, out)
      requires ReadFrame(f).ending.Ended?
      ensures var end := ReadFrame(f).ending.pos;
        if LastBlockWaits(f, pos) then pos + SrcSizeHint() == end + 4 else pos + SrcSizeHint() <= end
    {
      hide ReadFrame, DataAt, LE32, LeftOf;
      DataAhead(f, info, LeftOver(), pos - tmpInSize, tmpInTarget, out);
      if LastBlockWaits(f, pos) {
        EndBehindData(f, info, LeftOver(), pos - tmpInSize, tmpInTarget, out);
      } else if info.blockChecksum {
        MoreBehindData(f, info, LeftOver(), pos - tmpInSize, tmpInTarget, out);
      }
    }

    /**
      Where the next call is to read, if it is given what the last one hinted at: not beyond the end of the frame, except
      that the checksum of a last block is counted twice, and that a header of at least seven bytes is expected even of a
      skippable frame.
     */
    lemma HintStaysInside(f: Input, pos: int, out: seq<byte>)
      requires Valid(out) && Tracks(f, pos, out) && Waiting() && ReadFrame(f).ending.Ended?
      ensures !(stage.StoreFrameHeader? && SkippableStart(f.bytes)) ==>
        (pos + SrcSizeHint() <= ReadFrame(f).ending.pos <==> !LastBlockWaits(f, pos))
      ensures pos + SrcSizeHint() <= ReadFrame(f).ending.pos + 4
    {
      hide Hashes, HistoryOk, Buffers, ReadFrame, RawAt, CrcAt, DataAt, BlocksAt, SuffixAt, TotalsOf, Slice, Missing, Specified, Begun,
           FrameBegun, LeftOf, Allocated, DictPlace, LE32;
      match stage {
        case GetBlockHeader => BlocksAhead(f, info, LeftOver(), pos, out);
        case StoreBlockHeader => BlocksAhead(f, info, LeftOver(), pos - tmpInSize, out);
        case CopyDirect => RawAhead(f, info, LeftOver(), rawStart, pos, tmpInTarget, out);
        case GetBlockChecksum => CrcAhead(f, info, LeftOver(), rawStart, pos - tmpInSize, out);
        case GetCBlock => DataAhead(f, info, LeftOver(), pos, tmpInTarget, out);
        case StoreCBlock => HintInBlock(f, pos, out);
        case FlushOut => BlocksAhead(f, info, LeftOver(), pos, out + Pending());
        case StoreSuffix => SuffixAhead(f, info, LeftOver(), pos - tmpInSize, out);
        case Init => BegunAhead(f, info, LeftOver(), pos);
        case _ => HeaderAhead(f);
      }
    }

    /** Right behind the header, with nothing delivered, the parameters are those of the header, and the counter holds the declared size. */
    lemma CounterAtStart(f: Input, out: seq<byte>)
      requires Valid(out) && Tracks(f, |f.bytes|, out) && Waiting() && !stage.FlushOut? && out == []
      requires HeaderOk(f.bytes) && !SkippableStart(f.bytes) && |f.bytes| == HeaderLength(f.bytes[4])
      ensures info == InfoOf(f.bytes)
      ensures InfoOf(f.bytes).contentSize > 0 ==> frameRemainingSize == Missing(InfoOf(f.bytes), 0, 0)
    {
      hide Hashes, HistoryOk, Buffers, ReadFrame, RawAt, CrcAt, DataAt, BlocksAt, SuffixAt, Slice, HeaderOk, InfoOf;
    }

    static function Rank(stage: Stage): nat {
      match stage
      case Init => 3
      case CopyDirect => 2
      case FlushOut => 2
      case GetBlockChecksum => 1
      case _ => 0
    }

    /** dstage_init within a call. */
    method RunInit(ghost dst: array?<byte>, ghost d0: nat, ghost dp: nat, ghost de: nat,
                   ghost f: Input, ghost pos: nat, ghost out: seq<byte>, ghost known: bool)
      requires stage.Init? && Valid(out) && CallOk(dst, d0, dp, de, out) && (known ==> Tracks(f, pos, out))
      modifies xxh, `hashed, `maxBufferSize, `tmpIn, `tmpOutBuffer, `tmpInSize, `tmpInTarget, `tmpOut, `tmpOutStart, `tmpOutSize, `stage
      ensures stage.GetBlockHeader? && Valid(out) && CallOk(dst, d0, dp, de, out) && (known ==> Tracks(f, pos, out))
      ensures (tmpIn == old(tmpIn) && tmpOutBuffer == old(tmpOutBuffer)) || (fresh(tmpIn) && fresh(tmpOutBuffer))
    {
      hide EndsWith, Slice, Valid, Tracks;
      ghost var dict0 := dict;
      DoInit(f, pos, out, known);
    }

    /** Before a frame is known, nothing has been delivered. */
    lemma NothingYet(f: Input, pos: int, out: seq<byte>, known: bool)
      requires Valid(out) && !InFrame() && (known ==> Tracks(f, pos, out))
      ensures out == [] && (stage.GetFrameHeader? && known ==> pos == 0)
    {
      hide Hashes, Buffers, Specified, Begun, BlocksAt;
    }

    lemma ValidResets(out: seq<byte>)
      requires Valid(out)
      ensures Resettable()
    {
      hide Hashes, HistoryOk, Buffers;
    }

    /** The stages in front of the blocks, and those of a skippable frame. */
    method RunHeaderStage(ghost dst: array?<byte>, ghost d0: nat, ghost dp: nat, ghost de: nat, src: seq<byte>, sp0: nat,
                          ghost f: Input, ghost pos: nat, ghost out: seq<byte>, ghost known: bool)
      returns (step: Step, sp: nat)
      requires !InFrame() && Valid(out) && CallReady(dst, d0, dp, de, out) && sp0 <= |src|
      requires known ==> Tracks(f, pos, out) && Fed(src, sp0, f.bytes, pos)
      modifies header, `info, `maxBlockSize, `frameRemainingSize, `stage, `tmpInSize, `tmpInTarget, `dict, `dictStart, `dictSize
      ensures Resettable()
      ensures sp0 <= sp <= |src|
      ensures StepDone(step, dst, d0, dp, de, src, sp, f, pos + (sp - sp0), out, known)
      ensures step.More? ==> sp0 < sp
    {
      hide Slice, Valid, Tracks, MustAccept, EndsAt, EndsWith, Resettable;
      NothingYet(f, pos, out, known);
      if stage.GetFrameHeader? {
        step, sp := DoGetFrameHeader(src, sp0, f, known);
      } else if stage.StoreFrameHeader? {
        step, sp := DoStoreFrameHeader(src, sp0, f, pos, known);
      } else if stage.SkipSkippable? {
        step, sp := DoSkip(src, sp0, f, pos, known);
        ValidResets([]);
      } else {
        step, sp := DoSFrameSize(src, sp0, f, pos, known);
        ValidResets([]);
      }
    }

    /** The stages of the blocks. */
    method RunBlockStage(dst: array?<byte>, d0: nat, dp0: nat, de: nat, src: seq<byte>, sp0: nat,
                         ghost f: Input, ghost pos: nat, ghost out0: seq<byte>, ghost known: bool)
      returns (step: Step, dp: nat, sp: nat, ghost out: seq<byte>)
      requires InFrame() && !InSuffix() && Valid(out0) && CallOk(dst, d0, dp0, de, out0) && sp0 <= |src| && dp0 <= de
      requires known ==> Tracks(f, pos, out0) && Fed(src, sp0, f.bytes, pos)
      modifies Repr(), dst
      ensures Resettable()
      ensures dp0 <= dp <= de && sp0 <= sp <= |src|
      ensures dst != null ==> forall i :: 0 <= i < dst.Length && !(dp0 <= i < de) ==> dst[i] == old(dst[i])
      ensures (tmpIn == old(tmpIn) && tmpOutBuffer == old(tmpOutBuffer)) || (fresh(tmpIn) && fresh(tmpOutBuffer))
      ensures !step.Fail? ==> out == out0 + Slice(dst, dp0, dp - dp0)
      ensures !step.Fail? ==> Valid(out) && CallOk(dst, d0, dp, de, out)
      ensures known ==> if step.Fail? then !MustAccept(f) else Tracks(f, pos + (sp - sp0), out)
      ensures step.Stop? ==> step.hint == SrcSizeHint() > 0 && (sp == |src| || dp == de) && !stage.GetSuffix? && !stage.SkipSkippable?
      ensures step.Stop? && stage.FlushOut? ==> dp == de
      ensures step.More? ==> sp0 < sp || Rank(stage) < Rank(old(stage))
    {
      hide Slice, Valid, Tracks, CallOk, MustAccept, EndsAt, Resettable;
      CallApart(dst, d0, dp0, de, out0);
      NothingMore(dst, dp0, out0);
      dp, sp, out := dp0, sp0, out0;
      if stage.Init? {
        RunInit(dst, d0, dp0, de, f, pos, out0, known);
        step := More;
        ValidResets(out);
      } else if stage.CopyDirect? {
        step, dp, sp, out := DoCopyDirect(dst, d0, dp0, de, src, sp0, f, pos, out0, known);
        ValidResets(out);
      } else if stage.GetBlockChecksum? {
        step, sp := DoBlockChecksum(src, sp0, f, pos, out0, known);
      } else if stage.FlushOut? {
        step, dp, out := DoFlush(dst, d0, dp0, de, f, pos, out0, known);
        ValidResets(out);
      } else if stage.GetCBlock? || stage.StoreCBlock? {
        step, dp, sp, out := DoCBlock(dst, d0, dp0, de, src, sp0, f, pos, out0, known);
      } else {
        step, sp := DoBlockHeader(src, sp0, dp0 == de, f, pos, out0, known);
      }
    }

    /** The switch of LZ4F_decompress: runs the stage the context is in. */
    method RunStage(dst: array?<byte>, d0: nat, dp0: nat, de: nat, src: seq<byte>, sp0: nat,
                    ghost f: Input, ghost pos: nat, ghost out0: seq<byte>, ghost known: bool)
      returns (step: Step, dp: nat, sp: nat, ghost out: seq<byte>)
      requires Valid(out0) && CallReady(dst, d0, dp0, de, out0) && sp0 <= |src| && d0 <= dp0 <= de
      requires known ==> Tracks(f, pos, out0) && Fed(src, sp0, f.bytes, pos)
      modifies Repr(), dst
      ensures Resettable()
      ensures dp0 <= dp <= de && sp0 <= sp <= |src|
      ensures dst != null ==> forall i :: 0 <= i < dst.Length && !(dp0 <= i < de) ==> dst[i] == old(dst[i])
      ensures (tmpIn == old(tmpIn) && tmpOutBuffer == old(tmpOutBuffer)) || (fresh(tmpIn) && fresh(tmpOutBuffer))
      ensures !step.Fail? ==> out == out0 + Slice(dst, dp0, dp - dp0)
      ensures StepDone(step, dst, d0, dp, de, src, sp, f, pos + (sp - sp0), out, known)
      ensures step.More? ==> sp0 < sp || Rank(stage) < Rank(old(stage))
    {
      hide Slice, Valid, Tracks, CallOk, MustAccept, EndsAt, Resettable;
      if InFrame() && !InSuffix() {
        step, dp, sp, out := RunBlockStage(dst, d0, dp0, de, src, sp0, f, pos, out0, known);
        if !step.Fail? { CallIsReady(dst, d0, dp, de, out); }
        return;
      }
      dp, out := dp0, out0;
      NothingMore(dst, dp0, out0);
      if InSuffix() {
        step, sp := DoSuffix(src, sp0, f, pos, out0, known);
      } else {
        step, sp := RunHeaderStage(dst, d0, dp0, de, src, sp0, f, pos, out0, known);
      }
    }

    /** Preserves history in the decoder's buffer whenever the output cannot be relied on to stay where it is. */
    method Preserve(stableDst: bool, ghost f: Input, ghost pos: int, ghost out: seq<byte>, ghost known: bool)
      requires Valid(out) && (known ==> Tracks(f, pos, out))
      modifies `dict, `dictStart, `dictSize, `tmpOut, tmpOutBuffer
      ensures Valid(out) && (known ==> Tracks(f, pos, out))
      ensures !stableDst ==> dict == null || InTmp() || InSuffix()
      ensures stage == old(stage) && tmpInTarget == old(tmpInTarget) && (dict == old(dict) || InTmp())
    {
      hide Slice, HistoryKept, Hashes, Specified, Begun, BlocksAt, RawAt, DataAt, CrcAt, FrameBegun, TotalsOf;
      if InFrame() && !InSuffix() && info.linked && !InTmp() && dict != null && !stableDst {
        if stage.FlushOut? {
          SubSlice(tmpOutBuffer, tmpOut, tmpOutSize, tmpOutStart, tmpOutSize - tmpOutStart);
          CopyInFront(out);
          SubSlice(tmpOutBuffer, tmpOut, tmpOutSize, tmpOutStart, tmpOutSize - tmpOutStart);
        } else {
          SaveWindow(out);
        }
      }
    }

    /** The last 64 KB of the dictionary move to the beginning of the decoder's buffer. */
    method SaveWindow(ghost out: seq<byte>)
      requires Allocated() && HistoryOk(out, false) && info.linked && !InTmp() && dict != null
      modifies `dict, `dictStart, `dictSize, `tmpOut, tmpOutBuffer
      ensures HistoryOk(out, false) && InTmp()
    {
      hide Slice, HistoryKept;
      var newDictSize, buffer := Min(dictSize, KB64), tmpOutBuffer;
      KeptSaved(Slice(dict, dictStart, dictSize), out, tmpOut, tmpOutStart, tmpOutSize, newDictSize, newDictSize);
      SliceEnd(dict, dictStart, dictSize, newDictSize);
      MoveSlice(buffer, 0, dict, dictStart + dictSize - newDictSize, newDictSize, 0, 0);
      WindowIn(newDictSize);
    }

    /** The dictionary, and nothing else, is now the first n bytes of the decoder's buffer. */
    method WindowIn(n: nat)
      requires tmpOutBuffer != null
      modifies `dict, `dictStart, `dictSize, `tmpOut
      ensures dict == tmpOutBuffer && dictStart == 0 && dictSize == n == tmpOut
    {
      UseTmp(n);
      tmpOut := n;
    }

    /** The context is between frames. */
    ghost predicate Idle()
      reads this, header, tmpOutBuffer, dict, xxh, xxh.mem32, blockChecksum, blockChecksum.mem32
    {
      stage.GetFrameHeader? && Valid([])
    }

    /** LZ4F_resetDecompressionContext, as callers use it. */
    method ResetContext()
      requires Resettable()
      modifies `stage, `dict, `dictStart, `dictSize
      ensures Idle()
    {
      hide Valid;
      Reset();
    }

    /** Between frames, the context can start on anything. */
    lemma ReadyFor(f: Input)
      requires Idle() && Specified(f) && f.left == frameRemainingSize
      ensures Valid([]) && Tracks(f, 0, []) && dict == null && Waiting()
    {
    }

    /** What the caller has to know before a call: buffers of its own, and history left alone. */
    ghost predicate Callable(dst: array?<byte>, d0: nat, cap: nat)
      reads `stage, `dict, `dictStart, `dictSize, `tmpIn, `tmpOutBuffer
    {
      && OutputOk(dst, d0, d0, d0 + cap)
      && (InSuffix() || dst == null || dict != dst || dictStart + dictSize <= d0 || d0 + cap <= dictStart)
    }

    lemma CallStarts(dst: array?<byte>, d0: nat, cap: nat, out: seq<byte>)
      requires Callable(dst, d0, cap)
      ensures CallReady(dst, d0, d0, d0 + cap, out) && out == out + Slice(dst, d0, 0)
    {
      EmptySlice(dst, d0);
    }

    /**
      LZ4F_decompress. dst[d0..d0 + cap) is the room for the output of this call, src its input. f is everything from the
      beginning of the frame on, of which pos bytes have been read before this call and out has been delivered; known tells
      that the frame has been followed from its beginning.
     */
    method Decompress(dst: array?<byte>, d0: nat, cap: nat, src: seq<byte>, stableDst: bool,
                      ghost f: Input, ghost pos: nat, ghost out: seq<byte>, ghost known: bool)
      returns (result: Step, consumed: nat, produced: nat)
      requires Valid(out) && Callable(dst, d0, cap)
      requires known ==> Tracks(f, pos, out) && Fed(src, 0, f.bytes, pos)
      modifies Repr(), dst
      ensures Resettable()
      ensures !result.More? && consumed <= |src| && produced <= cap
      ensures dst != null ==> forall i :: 0 <= i < dst.Length && !(d0 <= i < d0 + cap) ==> dst[i] == old(dst[i])
      ensures fresh(Repr() - old(Repr()))
      // in the middle of a frame, the state is fit for the next call
      ensures result.Stop? && result.hint > 0 ==> Valid(out + Slice(dst, d0, produced)) && Waiting()
      ensures result.Stop? && result.hint > 0 && !stableDst ==> dict == null || InTmp() || InSuffix()
      // a call ends early only for lack of input or of room
      ensures result.Stop? && result.hint > 0 ==> consumed == |src| || produced == cap
      ensures result.Stop? && result.hint > 0 && stage.FlushOut? ==> produced == cap
      // what the next call is expected to be given
      ensures result.Stop? && result.hint > 0 ==> result.hint == SrcSizeHint()
      // the end of a frame is reported exactly there, once its text has been delivered; nothing valid is refused
      ensures known && result == Stop(0) ==> EndsAt(f, pos + consumed, out + Slice(dst, d0, produced)) && Idle() && CounterAfter(f)
      ensures known && result.Stop? && result.hint > 0 ==> Tracks(f, pos + consumed, out + Slice(dst, d0, produced))
      ensures known && result.Fail? ==> !MustAccept(f)
      ensures result == Stop(0) ==> stage.GetFrameHeader? && Valid([])
    {
      hide Slice, Valid, Tracks, CallOk, MustAccept, EndsAt, Resettable, SrcSizeHint, Waiting, CounterAfter;
      var sp, dp, step := 0, d0, More;
      ghost var text := out;
      ValidResets(out);
      CallStarts(dst, d0, cap, out);
      while step.More?
        invariant d0 <= dp <= d0 + cap && sp <= |src|
        invariant dst != null ==> forall i :: 0 <= i < dst.Length && !(d0 <= i < d0 + cap) ==> dst[i] == old(dst[i])
        invariant fresh(Repr() - old(Repr()))
        invariant Resettable()
        invariant !step.Fail? ==> text == out + Slice(dst, d0, dp - d0)
        invariant StepDone(step, dst, d0, dp, d0 + cap, src, sp, f, pos + sp, text, known)
        invariant known ==> Fed(src, sp, f.bytes, pos + sp)
        decreases |src| - sp, step.More?, Rank(stage)
      {
        ghost var text0, before, sp0 := text, Slice(dst, d0, dp - d0), sp;
        step, dp, sp, text := NextStage(dst, d0, dp, d0 + cap, src, sp, f, pos + sp, text, known, before);
        if known { FedMore(src, sp0, f.bytes, pos + sp0, sp - sp0); }
        if !step.Fail? { Regroup(out, before, Slice(dst, d0, dp - d0)[|before|..]); }
      }
      result, consumed, produced := step, sp, dp - d0;
      if step.Stop? && step.hint > 0 {
        Preserve(stableDst, f, pos + sp, text, known);
        ValidResets(text);
      }
    }

    /** One stage; what this call has delivered before it stays where it is. */
    method NextStage(dst: array?<byte>, d0: nat, dp0: nat, de: nat, src: seq<byte>, sp0: nat,
                     ghost f: Input, ghost pos: nat, ghost out0: seq<byte>, ghost known: bool, ghost before: seq<byte>)
      returns (step: Step, dp: nat, sp: nat, ghost out: seq<byte>)
      requires Valid(out0) && CallReady(dst, d0, dp0, de, out0) && sp0 <= |src| && d0 <= dp0 <= de
      requires known ==> Tracks(f, pos, out0) && Fed(src, sp0, f.bytes, pos)
      requires before == Slice(dst, d0, dp0 - d0)
      modifies Repr(), dst
      ensures Resettable()
      ensures dp0 <= dp <= de && sp0 <= sp <= |src|
      ensures dst != null ==> forall i :: 0 <= i < dst.Length && !(dp0 <= i < de) ==> dst[i] == old(dst[i])
      ensures (tmpIn == old(tmpIn) && tmpOutBuffer == old(tmpOutBuffer)) || (fresh(tmpIn) && fresh(tmpOutBuffer))
      ensures !step.Fail? ==> |before| <= |Slice(dst, d0, dp - d0)| && Slice(dst, d0, dp - d0) == before + Slice(dst, d0, dp - d0)[|before|..]
      ensures !step.Fail? ==> out == out0 + Slice(dst, d0, dp - d0)[|before|..]
      ensures StepDone(step, dst, d0, dp, de, src, sp, f, pos + (sp - sp0), out, known)
      ensures step.More? ==> sp0 < sp || Rank(stage) < Rank(old(stage))
    {
      hide Valid, Tracks, CallOk, StepDone, Resettable;
      step, dp, sp, out := RunStage(dst, d0, dp0, de, src, sp0, f, pos, out0, known);
    }
  }

  lemma PieceFed(f: seq<byte>, pos: nat, n: nat)
    requires pos + n <= |f|
    ensures Fed(f[pos..pos + n], 0, f, pos)
  {
  }

  /** One call with a new buffer. */
  method FeedPiece(ctx: DCtx, src: seq<byte>, cap: nat, ghost f: Input, ghost used: nat, ghost text: seq<byte>)
    returns (result: Step, consumed: nat, bytes: seq<byte>)
    requires ctx.Valid(text) && ctx.Tracks(f, used, text) && Fed(src, 0, f.bytes, used)
    requires ctx.dict == null || ctx.InTmp() || ctx.InSuffix()
    modifies ctx.Repr()
    ensures fresh(ctx.Repr() - old(ctx.Repr())) && ctx.Resettable() && !result.More? && consumed <= |src| && |bytes| <= cap
    ensures result == Stop(0) ==> EndsAt(f, used + consumed, text + bytes) && ctx.Idle() && ctx.CounterAfter(f)
    ensures result.Stop? && result.hint > 0 ==>
      && ctx.Valid(text + bytes) && ctx.Tracks(f, used + consumed, text + bytes) && ctx.Waiting()
      && (ctx.dict == null || ctx.InTmp() || ctx.InSuffix())
      && (consumed == |src| || |bytes| == cap) && (ctx.stage.FlushOut? ==> |bytes| == cap) && result.hint == ctx.SrcSizeHint()
    ensures result.Fail? ==> !MustAccept(f)
  {
    hide DCtx.Valid, DCtx.Tracks, DCtx.Resettable, EndsAt, MustAccept, Slice;
    var dst := new byte[cap](_ => 0);
    var produced;
    result, consumed, produced := ctx.Decompress(dst, 0, cap, src, false, f, used, text, true);
    SliceIs(dst, 0, produced);
    bytes := dst[0..produced];
  }

  /**
    Feeds f to the context in pieces of any sizes, with room for output of any sizes, new each time. The pieces may go on
    behind the end of the frame.
   */
  method DecodeInPieces(ctx: DCtx, f: seq<byte>, ins: nat -> nat, outs: nat -> nat)
    returns (result: Step, text: seq<byte>, used: nat)
    requires ctx.Idle() && Specified(Input(f, ctx.frameRemainingSize))
    requires forall i: nat :: ins(i) > 0 && outs(i) > 0
    modifies ctx.Repr()
    ensures fresh(ctx.Repr() - old(ctx.Repr())) && ctx.Resettable() && !result.More?
    ensures var input := Input(f, old(ctx.frameRemainingSize));
      && text <= ReadFrame(input).text
      && (result == Stop(0) ==> EndsAt(input, used, text) && ctx.Idle() && ctx.CounterAfter(input))
      && (result.Stop? && result.hint > 0 ==> ReadFrame(input).ending.CutShort? && text == ReadFrame(input).text)
      && (result.Fail? ==> !MustAccept(input))
  {
    hide DCtx.Valid, DCtx.Tracks, DCtx.Resettable, DCtx.CounterAfter, ReadFrame;
    ghost var input := Input(f, ctx.frameRemainingSize);
    ctx.ReadyFor(input);
    ctx.ValidResets([]);
    text, used, result := [], 0, Stop(minFHSize);
    var i, room := 0, true;
    ctx.OnTheWay(input, used, text);
    while used < |f| || !room
      invariant result.Stop? && result.hint > 0 && used <= |f|
      invariant ctx.Valid(text) && ctx.Tracks(input, used, text) && ctx.Waiting() && text <= ReadFrame(input).text
      invariant room ==> !ctx.stage.FlushOut?
      invariant ctx.dict == null || ctx.InTmp() || ctx.InSuffix()
      invariant fresh(ctx.Repr() - old(ctx.Repr())) && ctx.Resettable()
      decreases |f| - used, |ReadFrame(input).text| - |text|, !room
    {
      var cap, n := outs(i), Min(ins(i), |f| - used);
      var consumed, bytes;
      PieceFed(f, used, n);
      result, consumed, bytes := FeedPiece(ctx, f[used..used + n], cap, input, used, text);
      if result.Fail? { return; }
      text, used, i, room := text + bytes, used + consumed, i + 1, |bytes| < cap;
      if result.hint == 0 { return; }
      ctx.OnTheWay(input, used, text);
    }
    ctx.OnTheWay(input, used, text);
  }

  /** Decodes the valid frame f, which the stream goes on with. */
  method DecodeNext(ctx: DCtx, stream: seq<byte>, ghost f: seq<byte>, ghost tail: seq<byte>, ins: nat -> nat, outs: nat -> nat)
    returns (text: seq<byte>, used: nat)
    requires ctx.Idle() && ctx.frameRemainingSize == 0 && DecodeFrame(f).Decoded? && stream == f + tail
    requires forall i: nat :: ins(i) > 0 && outs(i) > 0
    modifies ctx.Repr()
    ensures fresh(ctx.Repr() - old(ctx.Repr())) && ctx.Idle() && ctx.frameRemainingSize == 0
    ensures DecodeFrame(f) == Decoded(text) && used == |f|
  {
    hide DCtx.Valid, DCtx.Resettable, DCtx.Repr, DecodeFrame, ReadFrame;
    FrameRead(f, tail, 0);
    var result;
    result, text, used := DecodeInPieces(ctx, stream, ins, outs);
  }

  /** All bytes of the frames, one after the other. */
  function Concat(fs: seq<seq<byte>>): seq<byte> {
    if fs == [] then [] else fs[0] + Concat(fs[1..])
  }

  /** One context decodes any number of frames from one stream, however that is cut. */
  method DecodeAll(fs: seq<seq<byte>>, stream: seq<byte>, ins: nat -> nat, outs: nat -> nat) returns (texts: seq<seq<byte>>)
    requires forall k :: 0 <= k < |fs| ==> DecodeFrame(fs[k]).Decoded?
    requires stream == Concat(fs)
    requires forall i: nat :: ins(i) > 0 && outs(i) > 0
    ensures |texts| == |fs| && forall k :: 0 <= k < |fs| ==> DecodeFrame(fs[k]) == Decoded(texts[k])
  {
    hide DCtx.Valid, DecodeFrame;
    var ctx := new DCtx();
    texts := [];
    var rest := stream;
    while |texts| < |fs|
      invariant |texts| <= |fs| && forall k :: 0 <= k < |texts| ==> DecodeFrame(fs[k]) == Decoded(texts[k])
      invariant rest == Concat(fs[|texts|..])
      invariant ctx.Idle() && ctx.frameRemainingSize == 0 && fresh(ctx.Repr())
      decreases |fs| - |texts|
    {
      ghost var f, tail := fs[|texts|], Concat(fs[|texts| + 1..]);
      assert rest == f + tail by { assert fs[|texts|..][0] == f && fs[|texts|..][1..] == fs[|texts| + 1..]; }
      var text, used := DecodeNext(ctx, rest, f, tail, ins, outs);
      assert rest[used..] == tail;
      rest := rest[used..];
      texts := texts + [text];
    }
  }

  // ---------- After an error, or in the middle of a frame ----------

  /**
    LZ4F_resetDecompressionContext is meant to return to a clean state, from which a new frame can be decoded. It does so if
    and only if the size counter happens to be 0, or does not matter for the frame: otherwise every frame that does not
    declare its size is refused, because the counter is kept.
   */
  method DecodeAfterReset(ctx: DCtx, f: seq<byte>, ins: nat -> nat, outs: nat -> nat) returns (result: Step, text: seq<byte>)
    requires ctx.Resettable() && DecodeFrame(f).Decoded?
    requires forall i: nat :: ins(i) > 0 && outs(i) > 0
    modifies ctx.Repr()
    ensures fresh(ctx.Repr() - old(ctx.Repr())) && ctx.Resettable()
    ensures if Clean(f, old(ctx.frameRemainingSize)) then result == Stop(0) && DecodeFrame(f) == Decoded(text) else result.Fail?
  {
    hide DCtx.Valid, DCtx.Resettable, DCtx.CounterAfter, DecodeFrame, ReadFrame, Clean;
    ctx.ResetContext();
    ReadIffClean(f, [], ctx.frameRemainingSize);
    assert f + [] == f;
    var used;
    result, text, used := DecodeInPieces(ctx, f, ins, outs);
  }

  /** A descriptor with the magic number and its checksum. */
  function HeaderFor(descriptor: seq<byte>): seq<byte> {
    [0x04, 0x22, 0x4D, 0x18] + descriptor + [HeaderChecksum(descriptor)]
  }

  /** A frame that declares one byte, and an empty frame that declares nothing. */
  function FrameOfOne(): seq<byte> {
    HeaderFor([0x68, 0x40, 1, 0, 0, 0, 0, 0, 0, 0])
  }

  function EmptyFrame(): seq<byte> {
    HeaderFor([0x60, 0x40]) + [0, 0, 0, 0]
  }

  lemma FrameOfOneBegins()
    ensures var f := FrameOfOne(); HeaderOk(f) && InfoOf(f).contentSize == 1 && HeaderLength(f[4]) == |f| && !SkippableStart(f)
  {
    hide Checksum;
    var f := FrameOfOne();
    assert f[4..14] == [0x68, 0x40, 1, 0, 0, 0, 0, 0, 0, 0];
  }

  lemma EmptyFrameDecodes()
    ensures DecodeFrame(EmptyFrame()) == Decoded([]) && !Clean(EmptyFrame(), 1)
  {
    hide Checksum;
    var f := EmptyFrame();
    assert f[4..6] == [0x60, 0x40];
  }

  /** Any header, alone, is accepted by a new context, which then knows the parameters and waits for more. */
  method FeedHeader(h: seq<byte>) returns (ctx: DCtx, step: Step)
    requires HeaderOk(h) && !SkippableStart(h) && |h| == HeaderLength(h[4])
    ensures fresh(ctx.Repr()) && ctx.Resettable() && step.Stop? && step.hint > 0 && ctx.info == InfoOf(h)
    ensures InfoOf(h).contentSize > 0 ==> ctx.frameRemainingSize == Missing(InfoOf(h), 0, 0)
  {
    hide DCtx.Valid, DCtx.Tracks, DCtx.Resettable, HeaderOk, InfoOf, MustAccept, EndsAt, Missing;
    ctx := new DCtx();
    ghost var f := Input(h, 0);
    OnlyHeader(f);
    ctx.ReadyFor(f);
    ctx.ValidResets([]);
    PieceFed(h, 0, |h|);
    assert h[0..0 + |h|] == h;
    var consumed, bytes;
    step, consumed, bytes := FeedPiece(ctx, h, 1, f, 0, []);
    assert [] + bytes == bytes;
    HeaderMustStop(f, consumed, bytes);
    ctx.OnTheWay(f, consumed, bytes);
    ctx.CounterAtStart(f, bytes);
  }

  /** A header alone neither ends the frame nor may be refused. */
  lemma HeaderMustStop(f: Input, pos: nat, text: seq<byte>)
    requires ReadFrame(f) == Reading(CutShort, [], true)
    ensures MustAccept(f) && !EndsAt(f, pos, text)
  {
  }

  /** The beginning of a frame is given up, and the context reset: the next frame, although valid, is refused. */
  method ResetKeepsCounter(ins: nat -> nat, outs: nat -> nat) returns (result: Step)
    requires forall i: nat :: ins(i) > 0 && outs(i) > 0
    ensures DecodeFrame(EmptyFrame()) == Decoded([]) && result.Fail?
  {
    hide DCtx.Valid, DCtx.Tracks, DCtx.Resettable, DecodeFrame, FrameOfOne, EmptyFrame, Clean, HeaderOk, InfoOf;
    EmptyFrameDecodes();
    FrameOfOneBegins();
    var ctx, step := FeedHeader(FrameOfOne());
    var text;
    result, text := DecodeAfterReset(ctx, EmptyFrame(), ins, outs);
  }

  /** A header alone is a frame cut short. */
  lemma OnlyHeader(f: Input)
    requires HeaderOk(f.bytes) && !SkippableStart(f.bytes) && |f.bytes| == HeaderLength(f.bytes[4])
    ensures ReadFrame(f) == Reading(CutShort, [], true)
  {
    hide XxHash32.LE32, Checksum;
  }
}
