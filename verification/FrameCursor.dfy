/** Where a decoder can stand inside a frame, and what each step there leads to. */
module FrameCursor {
  import opened BlockFormat
  import opened FrameFormat
  import opened FrameReading
  import XxHash32

  /** At p, a block header or the end mark, behind the text out. */
  ghost predicate BlocksAt(f: Input, info: FrameInfo, left: nat, p: nat, out: seq<byte>) {
    ValidBlockSizeID(info.blockSizeID) && p <= |f.bytes| && Leads(ReadBlocks(f.bytes, info, left, p, out), ReadFrame(f))
  }

  /** In a raw block whose data starts at q: rem bytes of data are still to come at p. */
  ghost predicate RawAt(f: Input, info: FrameInfo, left: nat, q: nat, p: nat, rem: nat, out: seq<byte>) {
    ValidBlockSizeID(info.blockSizeID) && q <= p <= |f.bytes| && Leads(ReadRaw(f.bytes, info, left, q, p, rem, out), ReadFrame(f))
  }

  /** At p, the checksum of the raw block whose data starts at q. */
  ghost predicate CrcAt(f: Input, info: FrameInfo, left: nat, q: nat, p: nat, out: seq<byte>) {
    ValidBlockSizeID(info.blockSizeID) && q <= p <= |f.bytes| && Leads(ReadCrc(f.bytes, info, left, q, p, out), ReadFrame(f))
  }

  /** At p, the data of a compressed block, target bytes with its checksum. */
  ghost predicate DataAt(f: Input, info: FrameInfo, left: nat, p: nat, target: nat, out: seq<byte>) {
    && ValidBlockSizeID(info.blockSizeID) && CrcSize(info) < target && p <= |f.bytes|
    && Leads(ReadData(f.bytes, info, left, p, target, out), ReadFrame(f))
  }

  /** A compressed block has been read up to p; what remains is to decode it. */
  ghost predicate BlockAt(f: Input, info: FrameInfo, left: nat, data: seq<byte>, p: nat, out: seq<byte>) {
    ValidBlockSizeID(info.blockSizeID) && p <= |f.bytes| && Leads(AfterBlock(f.bytes, info, left, data, p, out), ReadFrame(f))
  }

  /** Behind the end mark. */
  ghost predicate SuffixAt(f: Input, info: FrameInfo, left: nat, p: nat, out: seq<byte>) {
    p <= |f.bytes| && Leads(ReadEnd(f.bytes, info, left, p, out), ReadFrame(f))
  }

  // ---------- Steps ----------

  /** What a block header announces. */
  lemma BlockHeader(f: Input, info: FrameInfo, left: nat, p: nat, out: seq<byte>)
    requires BlocksAt(f, info, left, p, out) && p + BHSize <= |f.bytes|
    ensures LE32(f.bytes, p) == 0 ==> SuffixAt(f, info, left, p + BHSize, out)
    ensures LE32(f.bytes, p) != 0 && DataSize(LE32(f.bytes, p)) > BlockSize(info.blockSizeID) ==> !MustAccept(f)
    ensures DataSize(LE32(f.bytes, p)) <= BlockSize(info.blockSizeID) && LE32(f.bytes, p) >= LZ4F_BLOCKUNCOMPRESSED_FLAG ==>
      RawAt(f, info, left, p + BHSize, p + BHSize, DataSize(LE32(f.bytes, p)), out)
    ensures DataSize(LE32(f.bytes, p)) <= BlockSize(info.blockSizeID) && 0 < LE32(f.bytes, p) < LZ4F_BLOCKUNCOMPRESSED_FLAG ==>
      DataAt(f, info, left, p + BHSize, DataSize(LE32(f.bytes, p)) + CrcSize(info), out)
  {
    hide ReadFrame, LE32, ReadRaw, ReadData, ReadEnd, BlockSize, Checksum;
  }

  /** One more piece of raw data. */
  lemma RawTaken(f: Input, info: FrameInfo, left: nat, q: nat, p: nat, rem: nat, out: seq<byte>, c: nat, more: seq<byte>)
    requires RawAt(f, info, left, q, p, rem, out) && c <= rem && p + c <= |f.bytes| && more == f.bytes[p..p + c]
    ensures RawAt(f, info, left, q, p + c, rem - c, out + more)
    ensures f.bytes[q..p] + more == f.bytes[q..p + c]
  {
    hide ReadFrame, ReadBlocks, ReadCrc;
    if p + rem > |f.bytes| {
      assert out + more + f.bytes[p + c..] == out + f.bytes[p..];
    } else {
      assert out + more + f.bytes[p + c..p + rem] == out + f.bytes[p..p + rem];
    }
  }

  lemma RawDone(f: Input, info: FrameInfo, left: nat, q: nat, p: nat, out: seq<byte>)
    requires RawAt(f, info, left, q, p, 0, out)
    ensures if info.blockChecksum then CrcAt(f, info, left, q, p, out) else BlocksAt(f, info, left, p, out)
  {
    hide ReadFrame, ReadBlocks, ReadCrc;
    assert out + f.bytes[p..p] == out;
  }

  lemma CrcRead(f: Input, info: FrameInfo, left: nat, q: nat, p: nat, out: seq<byte>)
    requires CrcAt(f, info, left, q, p, out) && p + BFSize <= |f.bytes|
    ensures if LE32(f.bytes, p) == Checksum(f.bytes[q..p]) then BlocksAt(f, info, left, p + BFSize, out) else !MustAccept(f)
  {
    hide ReadFrame, ReadBlocks, LE32, Checksum;
  }

  /** The data of a compressed block is there. */
  lemma DataRead(f: Input, info: FrameInfo, left: nat, p: nat, target: nat, out: seq<byte>, selectedIn: seq<byte>)
    requires DataAt(f, info, left, p, target, out) && p + target <= |f.bytes| && selectedIn == f.bytes[p..p + target]
    ensures ValidBlockSizeID(info.blockSizeID) && CrcSize(info) < target
    ensures
      var n := target - CrcSize(info);
      if info.blockChecksum && LE32(selectedIn, n) != Checksum(selectedIn[..n]) then !MustAccept(f)
      else BlockAt(f, info, left, selectedIn[..n], p + target, out)
  {
    hide ReadFrame, AfterBlock, XxHash32.LE32, Checksum;
    var n := target - CrcSize(info);
    assert selectedIn[..n] == f.bytes[p..p + n];
    if info.blockChecksum { CrcBehind(f.bytes, p, n, target, selectedIn); }
  }

  lemma CrcBehind(f: seq<byte>, p: nat, n: nat, target: nat, selectedIn: seq<byte>)
    requires n + 4 == target && p + target <= |f| && selectedIn == f[p..p + target]
    ensures LE32(selectedIn, n) == LE32(f, p + n)
  {
    assert selectedIn[n..n + 4] == f[p + n..p + n + 4];
    LE32Same(selectedIn, n, f, p + n);
  }

  /** A decoder may refuse the block only if the format does, and need not care about offset 0. */
  lemma BlockDecoded(f: Input, info: FrameInfo, left: nat, data: seq<byte>, p: nat, out: seq<byte>)
    requires BlockAt(f, info, left, data, p, out) && Specified(f)
    ensures !UsesZeroOffset(data, 0)
    ensures Decodes(info, data, out) ==> BlocksAt(f, info, left, p, out + DataText(info, data, out))
    ensures !DataOk(info, data, out) ==> !MustAccept(f)
  {
    hide ReadFrame, ReadBlocks, UsesZeroOffset, Decode, Conforming;
  }

  /** Behind the end mark, all that may be missing is four bytes. */
  lemma SuffixRead(f: Input, info: FrameInfo, left: nat, p: nat, out: seq<byte>)
    requires SuffixAt(f, info, left, p, out)
    ensures p <= |f.bytes|
    ensures Missing(info, left, |out|) != 0 ==> !MustAccept(f)
    ensures Missing(info, left, |out|) == 0 && !info.contentChecksum ==> EndsAt(f, p, out)
    ensures Missing(info, left, |out|) == 0 && info.contentChecksum && p + BFSize <= |f.bytes| ==>
      if LE32(f.bytes, p) == Checksum(out) then EndsAt(f, p + BFSize, out) else !MustAccept(f)
  {
    hide ReadFrame, LE32, Checksum, Missing;
  }

  // ---------- Positions ----------

  /** From p on, with out delivered, f goes on for at least n bytes before its end; if it stops sooner, it is cut short. */
  ghost predicate Ahead(f: Input, p: int, n: int, out: seq<byte>) {
    && out <= ReadFrame(f).text
    && (ReadFrame(f).ending.Ended? ==> p + n <= ReadFrame(f).ending.pos <= |f.bytes|)
    && (p + n > |f.bytes| ==> ReadFrame(f).ending.CutShort?)
  }

  lemma BlocksAhead(f: Input, info: FrameInfo, left: nat, p: nat, out: seq<byte>)
    requires BlocksAt(f, info, left, p, out)
    ensures Ahead(f, p, BHSize, out)
    ensures p + BHSize > |f.bytes| ==> ReadFrame(f).text == out
  {
    hide ReadFrame, LE32, ReadRaw, ReadData, ReadEnd, BlockSize;
    BlocksGrow(f.bytes, info, left, p, out);
  }

  lemma RawAhead(f: Input, info: FrameInfo, left: nat, q: nat, p: nat, rem: nat, out: seq<byte>)
    requires RawAt(f, info, left, q, p, rem, out)
    ensures Ahead(f, p, rem + 1, out) && (p == |f.bytes| ==> ReadFrame(f).text == out)
    ensures ReadFrame(f).ending.Ended? ==> p + rem + CrcSize(info) + BHSize <= ReadFrame(f).ending.pos
  {
    hide ReadFrame, LE32, Checksum;
    RawGrows(f.bytes, info, left, q, p, rem, out);
  }

  lemma CrcAhead(f: Input, info: FrameInfo, left: nat, q: nat, p: nat, out: seq<byte>)
    requires CrcAt(f, info, left, q, p, out)
    ensures Ahead(f, p, BFSize, out)
    ensures p + BFSize > |f.bytes| ==> ReadFrame(f).text == out
    ensures ReadFrame(f).ending.Ended? ==> p + BFSize + BHSize <= ReadFrame(f).ending.pos
  {
    hide ReadFrame, ReadBlocks, LE32, Checksum;
    CrcGrows(f.bytes, info, left, q, p, out);
  }

  lemma DataAhead(f: Input, info: FrameInfo, left: nat, p: nat, target: nat, out: seq<byte>)
    requires DataAt(f, info, left, p, target, out)
    ensures Ahead(f, p, target, out)
    ensures p + target > |f.bytes| ==> ReadFrame(f).text == out
    ensures ReadFrame(f).ending.Ended? ==> p + target + BHSize <= ReadFrame(f).ending.pos
  {
    hide ReadFrame, AfterBlock, LE32, Checksum;
    DataGrows(f.bytes, info, left, p, target, out);
  }

  /** A compressed block with only the end mark behind it. */
  lemma EndBehindData(f: Input, info: FrameInfo, left: nat, p: nat, target: nat, out: seq<byte>)
    requires DataAt(f, info, left, p, target, out) && ReadFrame(f).ending.Ended? && !info.contentChecksum
    requires p + target + BHSize <= |f.bytes| && LE32(f.bytes, p + target) == 0
    ensures ReadFrame(f).ending.pos == p + target + BHSize
  {
    hide ReadFrame, ReadRaw, LE32, Checksum, Decodes, UsesZeroOffset, WellFormed, DataText;
    var b, data := f.bytes, f.bytes[p..p + target - CrcSize(info)];
    assert ReadData(b, info, left, p, target, out).ending == AfterBlock(b, info, left, data, p + target, out).ending;
    EndedBehindBlock(b, info, left, data, p + target, out);
    EndMarkRead(b, info, left, p + target, out + DataText(info, data, out));
  }

  lemma EndedBehindBlock(f: seq<byte>, info: FrameInfo, left: nat, data: seq<byte>, p: nat, out: seq<byte>)
    requires p <= |f| && ValidBlockSizeID(info.blockSizeID) && AfterBlock(f, info, left, data, p, out).ending.Ended?
    ensures Decodes(info, data, out)
    ensures AfterBlock(f, info, left, data, p, out).ending == ReadBlocks(f, info, left, p, out + DataText(info, data, out)).ending
  {
    hide ReadBlocks, Decodes, UsesZeroOffset, WellFormed, DataText;
  }

  /** A compressed block with more than the end mark behind it. */
  lemma MoreBehindData(f: Input, info: FrameInfo, left: nat, p: nat, target: nat, out: seq<byte>)
    requires DataAt(f, info, left, p, target, out) && ReadFrame(f).ending.Ended?
    requires p + target + BHSize <= |f.bytes| && (info.contentChecksum || LE32(f.bytes, p + target) != 0)
    ensures p + target + BHSize + BFSize <= ReadFrame(f).ending.pos
  {
    hide ReadFrame, ReadRaw, LE32, Checksum, Decodes, UsesZeroOffset, WellFormed, DataText;
    var b, data := f.bytes, f.bytes[p..p + target - CrcSize(info)];
    assert ReadData(b, info, left, p, target, out).ending == AfterBlock(b, info, left, data, p + target, out).ending;
    EndedBehindBlock(b, info, left, data, p + target, out);
    var text := out + DataText(info, data, out);
    if LE32(b, p + target) == 0 {
      EndMarkRead(b, info, left, p + target, text);
    } else {
      BlockBehindHeader(b, info, left, p + target, text);
    }
  }

  /** A block header other than the end mark is followed by another one. */
  lemma BlockBehindHeader(f: seq<byte>, info: FrameInfo, left: nat, p: nat, out: seq<byte>)
    requires p + BHSize <= |f| && ValidBlockSizeID(info.blockSizeID) && LE32(f, p) != 0 && ReadBlocks(f, info, left, p, out).ending.Ended?
    ensures p + BHSize + BHSize <= ReadBlocks(f, info, left, p, out).ending.pos
  {
    hide LE32, ReadRaw, ReadData, ReadBlocks, Checksum;
    BlocksUnfold(f, info, left, p, out);
    if LE32(f, p) >= LZ4F_BLOCKUNCOMPRESSED_FLAG {
      RawGrows(f, info, left, p + BHSize, p + BHSize, DataSize(LE32(f, p)), out);
    } else {
      DataGrows(f, info, left, p + BHSize, DataSize(LE32(f, p)) + CrcSize(info), out);
    }
  }

  lemma EndMarkRead(f: seq<byte>, info: FrameInfo, left: nat, p: nat, out: seq<byte>)
    requires p + BHSize <= |f| && ValidBlockSizeID(info.blockSizeID) && LE32(f, p) == 0
    ensures ReadBlocks(f, info, left, p, out) == ReadEnd(f, info, left, p + BHSize, out)
  {
    hide LE32, ReadEnd, ReadRaw, ReadData;
  }

  lemma SuffixAhead(f: Input, info: FrameInfo, left: nat, p: nat, out: seq<byte>)
    requires SuffixAt(f, info, left, p, out)
    ensures Ahead(f, p, 0, out)
    ensures info.contentChecksum && Missing(info, left, |out|) == 0 ==>
      Ahead(f, p, BFSize, out) && (p + BFSize > |f.bytes| ==> ReadFrame(f).text == out)
  {
    hide ReadFrame, LE32, Checksum, Missing;
  }

  lemma BegunAhead(f: Input, info: FrameInfo, left: nat, p: int)
    requires FrameBegun(f, info, left, p)
    ensures Ahead(f, p, BHSize, []) && (p + BHSize > |f.bytes| ==> ReadFrame(f).text == [])
  {
    hide ReadFrame, BlocksAt, HeaderOk;
    BlocksAhead(f, info, left, p, []);
  }

  /** Before the blocks, nothing has been delivered, and a header that is not complete is cut short. */
  lemma HeaderAhead(f: Input)
    ensures [] <= ReadFrame(f).text
    ensures ReadFrame(f).ending.Ended? ==> minFHSize <= ReadFrame(f).ending.pos <= |f.bytes|
    ensures |f.bytes| < minFHSize ==> ReadFrame(f) == Reading(CutShort, [], true)
    ensures SkippableStart(f.bytes) && (|f.bytes| < 8 || |f.bytes| < 8 + LE32(f.bytes, 4)) ==>
      ReadFrame(f) == Reading(CutShort, [], true)
    ensures SkippableStart(f.bytes) && ReadFrame(f).ending.Ended? ==>
      |f.bytes| >= 8 && ReadFrame(f).ending.pos == 8 + LE32(f.bytes, 4)
    ensures forall n: nat :: HeaderAwaited(f, n) ==>
      && (|f.bytes| < n ==> ReadFrame(f) == Reading(CutShort, [], true))
      && (ReadFrame(f).ending.Ended? ==> n + BHSize <= ReadFrame(f).ending.pos)
    ensures ReadFrame(f).ending.Ended? && !SkippableStart(f.bytes) ==> minFHSize + BHSize <= ReadFrame(f).ending.pos
  {
    hide ReadBlocks, XxHash32.LE32, Checksum;
    var b := f.bytes;
    if HeaderOk(b) && !SkippableStart(b) { BlocksGrow(b, InfoOf(b), LeftFor(b, f.left), HeaderLength(b[4]), []); }
  }

  // ---------- Pieces of input ----------

  /** The input from sp on is what f has from position pos on. */
  predicate Fed(src: seq<byte>, sp: nat, f: seq<byte>, pos: nat) {
    sp <= |src| && pos + (|src| - sp) <= |f| && src[sp..] == f[pos..pos + (|src| - sp)]
  }

  lemma FedSlice(src: seq<byte>, sp: nat, f: seq<byte>, pos: nat, n: nat)
    requires Fed(src, sp, f, pos) && sp + n <= |src|
    ensures pos + n <= |f| && src[sp..sp + n] == f[pos..pos + n]
  {
    assert src[sp..sp + n] == src[sp..][..n] == f[pos..pos + (|src| - sp)][..n];
  }

  lemma FedMore(src: seq<byte>, sp: nat, f: seq<byte>, pos: nat, n: nat)
    requires Fed(src, sp, f, pos) && sp + n <= |src|
    ensures Fed(src, sp + n, f, pos + n)
  {
    assert src[sp + n..] == src[sp..][n..] == f[pos..pos + (|src| - sp)][n..];
  }

  lemma LE32Same(s: seq<byte>, i: nat, f: seq<byte>, p: nat)
    requires i + 4 <= |s| && p + 4 <= |f| && s[i..i + 4] == f[p..p + 4]
    ensures LE32(s, i) == LE32(f, p)
  {
    assert s[i..i + 4][0] == f[p..p + 4][0] && s[i..i + 4][1] == f[p..p + 4][1];
    assert s[i..i + 4][2] == f[p..p + 4][2] && s[i..i + 4][3] == f[p..p + 4][3];
  }

  // ---------- Headers ----------

  predicate SkippableMagic(s: seq<byte>) {
    |s| >= 4 && LE32(s, 0) / 16 == LZ4F_MAGIC_SKIPPABLE_START / 16
  }

  lemma MagicFirst(s: seq<byte>)
    requires |s| >= 4
    ensures SkippableMagic(s) <==> SkippableMagic(s[..4])
  {
    hide XxHash32.LE32;
    LE32Same(s, 0, s[..4], 0);
  }

  /** Past the magic number and the FLG byte, n bytes of header are still to be seen. */
  ghost predicate HeaderAwaited(f: Input, n: nat) {
    && |f.bytes| >= minFHSize && LE32(f.bytes, 0) == LZ4F_MAGICNUMBER && FlgOk(f.bytes[4]) && n == HeaderLength(f.bytes[4])
  }

  /** A frame has begun whose blocks start at p. */
  ghost predicate FrameBegun(f: Input, info: FrameInfo, left: nat, p: int) {
    && HeaderOk(f.bytes) && !SkippableStart(f.bytes) && info == InfoOf(f.bytes) && p == HeaderLength(f.bytes[4])
    && BlocksAt(f, info, left, p, [])
  }

  /** The first bytes of the input tell what it is. */
  lemma HeaderRead(s: seq<byte>, f: Input)
    requires minFHSize <= |s| <= |f.bytes| && s == f.bytes[..|s|]
    ensures s[4] == f.bytes[4] && LE32(s, 0) == LE32(f.bytes, 0) && (SkippableMagic(s) <==> SkippableStart(f.bytes))
    ensures !SkippableMagic(s) && (LE32(s, 0) != LZ4F_MAGICNUMBER || !FlgOk(s[4])) ==> !MustAccept(f)
    ensures !SkippableMagic(s) && LE32(s, 0) == LZ4F_MAGICNUMBER && FlgOk(s[4]) ==> HeaderAwaited(f, HeaderLength(s[4]))
    ensures HeaderAwaited(f, HeaderLength(s[4])) && |s| >= HeaderLength(s[4]) ==>
      if BdOk(s[5]) && s[HeaderLength(s[4]) - 1] == HeaderChecksum(s[4..HeaderLength(s[4]) - 1])
      then FrameBegun(f, InfoOf(s), if Flag(s[4], 3) then 0 else f.left, HeaderLength(s[4]))
      else !MustAccept(f)
  {
    hide ReadBlocks, Checksum, XxHash32.LE32;
    var b, n := f.bytes, HeaderLength(s[4]);
    assert s[..4] == b[..4];
    LE32Same(s, 0, b, 0);
    if |s| >= n {
      assert s[4..n - 1] == b[4..n - 1];
      if Flag(s[4], 3) {
        assert s[6..10] == b[6..10] && s[10..14] == b[10..14];
        LE32Same(s, 6, b, 6);
        LE32Same(s, 10, b, 10);
      }
    }
  }
}
