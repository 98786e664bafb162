/** The decoding functions that lz4.c instantiates from LZ4_decompress_generic. */
module BlockDecompress {
  import opened BlockFormat
  import opened BlockDecoder
  import opened Memory

  /**
    A block that represents text decodes to exactly text, in a buffer of exactly its size or more, for all sizes that the
    interface can express.
   */
  lemma DecodesExactly(block: seq<byte>, hist: seq<byte>, text: seq<byte>, out: seq<byte>, r: int, cap: nat)
    requires Represents(block, hist, text) && |text| <= cap && 0 < cap && |block| <= INT_MAX && |text| <= INT_MAX
    requires FieldsFit(block, 0) ==> DecodedWell(block, hist, out, r, cap, false)
    ensures r == |text| && out == text
  {
    hide Decode, Conforming, UsesZeroOffset, FieldsFit;
    RepresentsIsWellFormed(block, hist, text);
    DecodableFits(block, 0, hist);
  }

  /**
    An accepted block, without zero offsets, means what it has been decoded to exactly if no length field of it wraps
    around in 32 bits.
   */
  lemma SoundIffFieldsFit(src: seq<byte>, hist: seq<byte>, out: seq<byte>, r: int, cap: nat)
    requires 0 <= r == |out| <= INT_MAX && 0 < cap && |src| <= INT_MAX && !UsesZeroOffset(src, 0)
    requires FieldsFit(src, 0) ==> DecodedWell(src, hist, out, r, cap, false)
    ensures Decode(src, 0, hist) == Decoded(hist + out) <==> FieldsFit(src, 0)
  {
    hide Decode, UsesZeroOffset, FieldsFit;
    if Decode(src, 0, hist) == Decoded(hist + out) { DecodableFits(src, 0, hist); }
  }

  /** A literal length that has wrapped around is one that the block cannot hold. */
  lemma WrappedIsTruncated(src: seq<byte>, run: nat, hist: seq<byte>)
    requires LastAfterRun(src, 0, run) && run >= MAXRUN && |src| <= INT_MAX
    ensures Decode(src, 0, hist) == Malformed && !FieldsFit(src, 0)
  {
    hide ReadExt;
    LongRun(src, 1, run);
    assert !RunFits(src, 1);
  }

  /** 16843009 length bytes of 255 and a 2 are a length of 1 in 32 bits. */
  ghost function WrappedBlock(): seq<byte> {
    [240] + seq(16843009, _ => 255) + [2] + seq(16, _ => 0)
  }

  /** The decoder accepts that block, as 16 literals; the format calls it truncated. */
  method DecompressWrapped(dst: array<byte>, src: seq<byte>) returns (r: int)
    requires dst.Length >= 16 && src == WrappedBlock()
    modifies dst
    ensures r == 16 && Decode(src, 0, []) == Malformed && !FieldsFit(src, 0)
  {
    hide Decode, FieldsFit, DecodedWell, UsesZeroOffset, WellFormed;
    assert LastAfterRun(src, 0, 16843009);
    WrappedIsTruncated(src, 16843009, []);
    r := DecompressSafe(src, dst, 0, dst.Length);
  }

  /** LZ4_decompress_safe. */
  method DecompressSafe(src: seq<byte>, dst: array<byte>, d0: nat, cap: nat) returns (r: int)
    requires d0 + cap <= dst.Length
    modifies dst
    ensures r <= cap
    ensures forall i :: 0 <= i < dst.Length && !(d0 <= i < d0 + cap) ==> dst[i] == old(dst[i])
    ensures FieldsFit(src, 0) ==> DecodedWell(src, [], if r >= 0 then dst[d0..d0 + r] else [], r, cap, false)
    ensures WellFormed(src, []) && 0 < cap && |src| <= INT_MAX && |Text(src, [])| <= cap <= INT_MAX ==>
      r == |Text(src, [])| && dst[d0..d0 + r] == Text(src, [])
    ensures cap > 0 ==> TakesRun(src, 0, cap, false, r >= 0, if r >= 0 then dst[d0..d0 + r] else [])
    ensures cap == 0 ==> (r >= 0 <==> src == [0])
  {
    hide Conforming, Decode, FieldsFit, UsesZeroOffset, TakesRun;
    assert [] + dst[d0..d0] == [];
    r := DecompressGeneric(src, dst, d0, cap, false, NoDict, d0, d0, []);
    if WellFormed(src, []) && |src| <= INT_MAX && |Text(src, [])| <= INT_MAX { DecodableFits(src, 0, []); }
  }

  /**
    LZ4_decompress_safe_partial: for a block given with its exact size, the beginning of the text, as much of it as
    was asked for and fits.
   */
  method DecompressSafePartial(src: seq<byte>, dst: array<byte>, d0: nat, targetOutputSize: nat, dstCapacity: nat)
    returns (r: int)
    requires d0 + dstCapacity <= dst.Length
    modifies dst
    ensures r <= targetOutputSize && r <= dstCapacity
    ensures forall i :: 0 <= i < dst.Length && !(d0 <= i < d0 + dstCapacity && i < d0 + targetOutputSize) ==> dst[i] == old(dst[i])
    ensures FieldsFit(src, 0) && WellFormed(src, []) ==>
      var text := Text(src, []);
      && r == (if targetOutputSize < dstCapacity then
                 (if |text| < targetOutputSize then |text| else targetOutputSize)
               else (if |text| < dstCapacity then |text| else dstCapacity))
      && dst[d0..d0 + r] == text[..r]
  {
    hide Decode, Conforming, UsesZeroOffset, FieldsFit, TakesRun;
    var cap := if targetOutputSize < dstCapacity then targetOutputSize else dstCapacity;
    assert [] + dst[d0..d0] == [];
    r := DecompressGeneric(src, dst, d0, cap, true, NoDict, d0, d0, []);
  }

  /** LZ4_decompress_safe_usingDict: the dictionary may stand right before the output, or anywhere else. */
  method DecompressSafeUsingDict(src: seq<byte>, dst: array<byte>, d0: nat, cap: nat,
                                 dict: array?<byte>, dictStart: nat, dictSize: nat)
    returns (r: int)
    requires d0 + cap <= dst.Length && Within(dict, dictStart, dictSize)
    requires dict == dst ==> dictStart + dictSize <= d0 || d0 + cap <= dictStart
    modifies dst
    ensures r <= cap
    ensures forall i :: 0 <= i < dst.Length && !(d0 <= i < d0 + cap) ==> dst[i] == old(dst[i])
    ensures FieldsFit(src, 0) ==>
      DecodedWell(src, old(Slice(dict, dictStart, dictSize)), if r >= 0 then dst[d0..d0 + r] else [], r, cap, false)
  {
    hide DecodedWell, TakesRun, FieldsFit;
    if dictSize == 0 {
      r := DecompressSafe(src, dst, d0, cap);
    } else if dict == dst && dictStart + dictSize == d0 {
      assert Slice(dict, dictStart, dictSize) == [] + dst[dictStart..d0];
      if dictSize >= KB64 - 1 {
        r := DecompressGeneric(src, dst, d0, cap, false, WithPrefix64k, dictStart, d0 - KB64, []);
      } else {
        r := DecompressGeneric(src, dst, d0, cap, false, NoDict, dictStart, d0 - dictSize, []);
      }
    } else {
      assert Slice(dict, dictStart, dictSize) == dict[dictStart..dictStart + dictSize] + dst[d0..d0];
      r := DecompressGeneric(src, dst, d0, cap, false, UsingExtDict, d0, d0, dict[dictStart..dictStart + dictSize]);
    }
  }
}
