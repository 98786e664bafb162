/** LZ4_decompress_generic of lz4.c, in the form built for a 32-bit target (no fast loop). */
module BlockDecoder {
  import opened BlockFormat
  import opened Memory

  const RUN_MASK := 15
  const ML_MASK := 15
  const MATCH_SAFEGUARD_DISTANCE := 12

  /** So many bytes of 255 in a row bring a length to 2^32, the width of the C variables that hold it. */
  const MAXRUN := 0x1010100

  /** A 32-bit size. */
  function Size32(n: nat): nat { n % 0x1_0000_0000 }

  /** The length bytes from ip on, if they are read, do not bring a 32-bit length to wrap around. */
  ghost predicate RunFits(src: seq<byte>, ip: nat) {
    ip + MAXRUN <= |src| ==> exists k :: ip <= k < ip + MAXRUN && src[k] != 255
  }

  /** The match of the sequence at ip has its length bytes from p on. */
  ghost predicate MatchFits(src: seq<byte>, ip: nat, p: nat)
    requires ip < |src|
  {
    src[ip] as int % 16 == 15 ==> RunFits(src, p)
  }

  /** The literal length of the sequence at ip does not wrap around. */
  ghost predicate LiteralFits(src: seq<byte>, ip: nat)
    requires ip < |src|
  {
    src[ip] as int / 16 == 15 ==> RunFits(src, ip + 1)
  }

  /** Neither length field of the sequence at ip wraps around. */
  ghost predicate SequenceFits(src: seq<byte>, ip: nat)
    requires ip < |src|
  {
    && LiteralFits(src, ip)
    && (var lits := ReadLength(src, ip + 1, src[ip] / 16);
        lits.Length? ==> MatchFits(src, ip, lits.next + lits.value + 2))
  }

  /** No length field from ip on wraps around. */
  ghost predicate FieldsFit(src: seq<byte>, ip: nat)
    requires ip <= |src|
    decreases |src| - ip
  {
    ip == |src| || (SequenceFits(src, ip) && (Parse(src, ip).Match? ==> FieldsFit(src, Parse(src, ip).next)))
  }

  /** The largest size the interface can express. */
  const INT_MAX := 0x7FFF_FFFF

  lemma {:induction false} LongRun(src: seq<byte>, ip: nat, n: nat)
    requires ip + n <= |src| && forall k :: ip <= k < ip + n ==> src[k] == 255
    ensures ReadExt(src, ip).Length? ==> ReadExt(src, ip).value >= 255 * n
    decreases n
  {
    if n > 0 { LongRun(src, ip + 1, n - 1); }
  }

  /** A length that the interface can express does not wrap around. */
  lemma SmallLengthFits(src: seq<byte>, ip: nat)
    requires ReadExt(src, ip).Length? && ReadExt(src, ip).value <= INT_MAX
    ensures RunFits(src, ip)
  {
    if !RunFits(src, ip) { LongRun(src, ip, MAXRUN); }
  }

  lemma SequenceOfSizes(src: seq<byte>, ip: nat)
    requires ip < |src| <= INT_MAX && !Parse(src, ip).Cut? && (Parse(src, ip).Match? ==> Parse(src, ip).len <= INT_MAX)
    ensures SequenceFits(src, ip)
  {
    hide ReadExt;
    var s := Parse(src, ip);
    if src[ip] as int / 16 == 15 { SmallLengthFits(src, ip + 1); }
    if s.Match? && src[ip] as int % 16 == 15 { SmallLengthFits(src, s.start + s.ll + 2); }
  }

  /** So no length of a block that decodes does, if block and text have sizes that the interface can express. */
  lemma {:induction false} DecodableFits(src: seq<byte>, ip: nat, out: seq<byte>)
    requires ip <= |src| <= INT_MAX && Decode(src, ip, out).Decoded? && |Decode(src, ip, out).out| <= |out| + INT_MAX
    ensures FieldsFit(src, ip)
    decreases |src| - ip
  {
    hide SequenceFits, Parse, Decode, CopyMatch;
    if ip < |src| {
      var s := Parse(src, ip);
      DecodableHasNext(src, ip, out);
      if s.Match? {
        var lits := src[s.start..s.start + s.ll];
        DecodeStep(src, ip, out, lits);
        var out' := CopyMatch(out + lits, s.offset, s.len);
        DecodeExtends(src, s.next, out');
        DecodableFits(src, s.next, out');
      }
      SequenceOfSizes(src, ip);
    }
  }

  /** Blocks of up to 16 MB are too short for a length to wrap around. */
  lemma {:induction false} ShortBlockFits(src: seq<byte>, ip: nat)
    requires ip <= |src| <= MAXRUN
    ensures FieldsFit(src, ip)
    decreases |src| - ip
  {
    hide Parse, ReadLength;
    if ip < |src| && Parse(src, ip).Match? { ShortBlockFits(src, Parse(src, ip).next); }
  }

  datatype LengthError = NoError | InitialError | LoopError

  /** What ReadVariableLength found, against the format's own reading of the same bytes. */
  ghost predicate LengthRead(src: seq<byte>, ip: nat, len: nat, next: nat, cut: bool)
  {
    var full := ReadExt(src, ip);
    || full == Length(len, next)
    || (cut && len >= 255 && (full.Length? ==> full.value >= len && full.next > next))
  }

  lemma {:induction false} ReadExtStep(src: seq<byte>, ip: nat, len: nat, next: nat)
    requires ip <= next < |src| && src[next] == 255
    requires forall k :: ip <= k < next ==> src[k] == 255
    requires len == 255 * (next - ip)
    ensures ReadExt(src, ip) == (match ReadExt(src, next + 1)
                                 case Truncated => Truncated
                                 case Length(n, p) => Length(len + 255 + n, p))
    decreases next - ip
  {
    if ip < next {
      ReadExtStep(src, ip + 1, len - 255, next);
    }
  }

  lemma {:induction false} ReadExtDone(src: seq<byte>, ip: nat, next: nat)
    requires ip <= next < |src| && src[next] != 255
    requires forall k :: ip <= k < next ==> src[k] == 255
    ensures ReadExt(src, ip) == Length(255 * (next - ip) + src[next], next + 1)
    decreases next - ip
  {
    if ip < next {
      ReadExtDone(src, ip + 1, next);
    }
  }

  /** read_variable_length, always with its loop check; the sum is a 32-bit word. */
  method ReadVariableLength(src: seq<byte>, ip0: nat, lencheck: int, initialCheck: bool)
    returns (length: nat, ip: nat, error: LengthError)
    requires lencheck <= |src| && (initialCheck || ip0 < |src|) && ip0 <= |src|
    ensures ip0 <= ip <= |src|
    ensures error.InitialError? <==> initialCheck && ip0 >= lencheck
    ensures error.InitialError? ==> length == 0 && ip == ip0
    ensures error.NoError? ==> ip0 < ip < lencheck
    ensures error.LoopError? ==> ip0 < ip && ip >= lencheck
    ensures !error.InitialError? ==> forall k :: ip0 <= k < ip - 1 ==> src[k] == 255
    ensures error.NoError? ==> src[ip - 1] != 255 && length == Size32(255 * (ip - 1 - ip0) + src[ip - 1])
    ensures !error.InitialError? && RunFits(src, ip0) ==> length < 0xFFFF_FF00 && LengthRead(src, ip0, length, ip, error.LoopError?)
  {
    hide Size32, RunFits, LengthRead, ReadExt;
    length, ip, error := 0, ip0, NoError;
    if initialCheck && ip >= lencheck {
      return 0, ip, InitialError;
    }
    var s := 255;
    SmallSize(0);
    while s == 255
      invariant ip0 <= ip <= |src| && (s == 255 ==> ip < |src|) && (s != 255 ==> ip0 < ip < lencheck)
      invariant ip > ip0 ==> s == src[ip - 1]
      invariant forall k :: ip0 <= k < ip - 1 ==> src[k] == 255
      invariant 255 * (ip - 1 - ip0) + s >= 0 && length == Size32(255 * (ip - 1 - ip0) + s)
      decreases s == 255, |src| - ip
    {
      SizeStep(255 * (ip - ip0), src[ip]);
      s := src[ip];
      ip := ip + 1;
      length := Size32(length + s);
      if ip >= lencheck {
        if RunFits(src, ip0) { RunRead(src, ip0, ip, length, true); }
        return length, ip, LoopError;
      }
    }
    if RunFits(src, ip0) { RunRead(src, ip0, ip, length, false); }
  }

  lemma SmallSize(n: nat)
    requires n < 0x1_0000_0000
    ensures Size32(n) == n
  {
  }

  lemma SizeStep(n: nat, s: nat)
    ensures Size32(Size32(n) + s) == Size32(n + s)
  {
    var r := Size32(n) + s;
    Remainder(n + s, n / 0x1_0000_0000 + r / 0x1_0000_0000, Size32(r));
  }

  lemma Remainder(x: nat, q: nat, r: nat)
    requires x == 0x1_0000_0000 * q + r && r < 0x1_0000_0000
    ensures Size32(x) == r
  {
  }

  /** Without wrapping around, the bytes add up to what the format reads. */
  lemma RunRead(src: seq<byte>, ip0: nat, ip: nat, length: nat, cut: bool)
    requires ip0 < ip <= |src| && RunFits(src, ip0) && (src[ip - 1] == 255 ==> cut)
    requires forall k :: ip0 <= k < ip - 1 ==> src[k] == 255
    requires length == Size32(255 * (ip - 1 - ip0) + src[ip - 1])
    ensures length < 0xFFFF_FF00 && LengthRead(src, ip0, length, ip, cut)
  {
    hide Size32;
    var run := if src[ip - 1] == 255 then ip - ip0 else ip - 1 - ip0;
    assert run < MAXRUN;
    SmallSize(255 * (ip - 1 - ip0) + src[ip - 1]);
    if src[ip - 1] == 255 { ReadExtStep(src, ip0, length - 255, ip - 1); } else { ReadExtDone(src, ip0, ip - 1); }
  }

  /**
    What 32 bits hold of the literal length at p, 15 and run bytes of 255 and one more, is just the rest of the block.
   */
  ghost predicate RunIsLast(src: seq<byte>, p: nat, run: nat) {
    && p + run + 1 + RUN_MASK < |src|
    && (forall k :: p <= k < p + run ==> src[k] == 255) && src[p + run] != 255
    && Size32(15 + Size32(255 * run + src[p + run])) == |src| - (p + run + 1)
  }

  ghost predicate LastAfterRun(src: seq<byte>, ip: nat, run: nat) {
    ip < |src| && src[ip] as int / 16 == 15 && RunIsLast(src, ip + 1, run)
  }

  /** If such a length starts the sequence at ip and there is room, the block ends here, with its last bytes as literals. */
  ghost predicate TakesRun(src: seq<byte>, ip: nat, room: int, partial: bool, finished: bool, out: seq<byte>) {
    forall run: nat :: LastAfterRun(src, ip, run) && !partial && |src| - (ip + run + 2) <= room ==>
      finished && out == src[ip + run + 2..]
  }

  lemma EmptyBlock(src: seq<byte>, room: int, partial: bool)
    requires src == []
    ensures TakesRun(src, 0, room, partial, false, [])
  {
  }

  lemma NoRun(src: seq<byte>, ip: nat, room: int, partial: bool, out: seq<byte>, finished': bool, out': seq<byte>)
    requires TakesRun(src, ip, room, partial, false, out)
    ensures TakesRun(src, ip, room, partial, finished', out')
  {
  }

  // ---------- Over-writing copies ----------

  /** mem, from lo, holds the bytes of text. */
  ghost predicate Holds(mem: array<byte>, lo: nat, hi: nat, text: seq<byte>)
    reads mem
  {
    lo <= hi <= mem.Length && hi - lo <= |text| &&
    forall i :: lo <= i < hi ==> mem[i] == text[i - lo]
  }

  lemma HoldsSlice(mem: array<byte>, lo: nat, hi: nat, text: seq<byte>)
    requires Holds(mem, lo, hi, text)
    ensures mem[lo..hi] == text[..hi - lo]
  {
  }

  /** text repeats with period d from index k on. */
  ghost predicate Repeats(text: seq<byte>, k: nat, d: nat) {
    d <= k && forall i :: k <= i < |text| ==> text[i] == text[i - d]
  }

  /** LZ4_wildCopy8 of a match d >= 8 bytes back. */
  method WildCopyMatch(mem: array<byte>, ghost lo: nat, op0: nat, m0: nat, e: nat, oend: nat, ghost text: seq<byte>)
    requires lo <= m0 && m0 + 8 <= op0 && op0 < e && e + 7 <= oend <= mem.Length
    requires Holds(mem, lo, op0, text) && Repeats(text, op0 - lo, op0 - m0) && |text| == oend - lo
    modifies mem
    ensures Holds(mem, lo, e, text)
    ensures forall i :: 0 <= i < mem.Length && !(op0 <= i < oend) ==> mem[i] == old(mem[i])
  {
    ghost var dist := op0 - m0;
    Copy(mem, op0, m0, 8);
    var d, s := op0 + 8, m0 + 8;
    while d < e
      invariant op0 + 8 <= d < e + 8
      invariant d - s == dist
      invariant Holds(mem, lo, d, text)
      invariant forall i :: 0 <= i < mem.Length && !(op0 <= i < oend) ==> mem[i] == old(mem[i])
    {
      Copy(mem, d, s, 8);
      d, s := d + 8, s + 8;
    }
  }

  const inc32table: seq<nat> := [0, 1, 2, 1, 0, 4, 4, 4]
  const dec64table: seq<int> := [0, 0, 0, -1, -4, 1, 2, 3]

  /** For offsets 1 to 7 the tables leave the source pointer a multiple of the offset behind, and at least 8. */
  function Multiple(offset: nat): (c: nat)
    requires 1 <= offset <= 7
    ensures 8 <= c * offset <= 7 + offset
    ensures c * offset == 8 + offset - (inc32table[offset] - dec64table[offset])
  {
    [0, 8, 4, 3, 2, 2, 2, 2][offset]
  }

  lemma RepeatsMultiple(out: seq<byte>, offset: nat, len: nat, c: nat, k: nat)
    requires 1 <= offset <= |out| && 1 <= c
    requires |out| + c * offset - offset <= k
    ensures Repeats(CopyMatch(out, offset, len), k, c * offset)
  {
    var r := CopyMatch(out, offset, len);
    assert c * offset <= k by { assert |out| + c * offset - offset <= k; }
    forall i | k <= i < |r| ensures r[i] == r[i - c * offset] {
      CopyMatchMultiple(out, offset, len, i, c);
    }
  }

  /**
    What the decoder leaves after a match: CopyMatch, except that offset 0, which the format forbids
    and the decoder does not reject, yields zero bytes.
   */
  ghost function Filled(out: seq<byte>, offset: nat, len: nat): (r: seq<byte>)
    requires offset <= |out|
    ensures |r| == |out| + len
  {
    if offset == 0 then out + seq(len, _ => 0) else CopyMatch(out, offset, len)
  }

  lemma FilledPrefix(out: seq<byte>, offset: nat, len: nat, len': nat)
    requires offset <= |out| && len <= len'
    ensures Filled(out, offset, len')[..|out| + len] == Filled(out, offset, len)
    ensures Filled(out, offset, len')[..|out|] == out
  {
    if offset > 0 {
      CopyMatchPrefix(out, offset, len, len');
      CopyMatchAt(out, offset, len');
    }
  }

  lemma FilledAt(out: seq<byte>, offset: nat, len: nat)
    requires offset <= |out|
    ensures var r := Filled(out, offset, len);
      && r[..|out|] == out
      && forall k :: |out| <= k < |r| ==> r[k] == if offset == 0 then 0 else r[k - offset]
  {
    if offset > 0 { CopyMatchAt(out, offset, len); }
  }

  /** Number of offsets by which the two four-byte halves of the first eight bytes are apart. */
  function HalfMultiple(offset: nat): (c: nat)
    requires 1 <= offset <= 7
    ensures c * offset == 4 + offset - inc32table[offset] <= 4 + offset
  {
    [0, 4, 2, 2, 2, 1, 1, 1][offset]
  }

  /** The first four bytes of a match at a small offset, one byte at a time. */
  method CopyFirstFour(mem: array<byte>, ghost lo: nat, op: nat, oend: nat, offset: nat, ghost text: seq<byte>)
    requires lo <= op && offset <= op - lo && op + 8 <= oend <= mem.Length && |text| == oend - lo
    requires Holds(mem, lo, op, text)
    requires forall k :: op - lo <= k < |text| ==> text[k] == if offset == 0 then 0 else text[k - offset]
    modifies mem
    ensures Holds(mem, lo, op + 4, text)
    ensures forall i :: 0 <= i < mem.Length && !(op <= i < op + 4) ==> mem[i] == old(mem[i])
  {
    var m := op - offset;
    mem[op], mem[op + 1], mem[op + 2], mem[op + 3] := 0, 0, 0, 0;
    for j := 0 to 4
      invariant Holds(mem, lo, op + j, text)
      invariant offset == 0 ==> forall i :: op <= i < op + 4 ==> mem[i] == 0
      invariant forall i :: 0 <= i < mem.Length && !(op <= i < op + 4) ==> mem[i] == old(mem[i])
    {
      assert text[op + j - lo] == if offset == 0 then 0 else text[op + j - lo - offset];
      mem[op + j] := mem[m + j];
    }
  }

  /** The first eight bytes of a match at an offset below 8. */
  method CopySmallOffset(mem: array<byte>, ghost lo: nat, op: nat, oend: nat, offset: nat, ghost out: seq<byte>, ghost text: seq<byte>)
    returns (m: nat)
    requires lo <= op && offset <= op - lo && offset < 8 && op + 8 <= oend <= mem.Length
    requires |out| == op - lo && text == Filled(out, offset, oend - op) && Holds(mem, lo, op, text)
    modifies mem
    ensures Holds(mem, lo, op + 8, text)
    ensures lo <= m && m + 8 <= op + 8 && Repeats(text, op + 8 - lo, op + 8 - m)
    ensures forall i :: 0 <= i < mem.Length && !(op <= i < op + 8) ==> mem[i] == old(mem[i])
  {
    hide Filled;
    FilledAt(out, offset, oend - op);
    CopyFirstFour(mem, lo, op, oend, offset, text);
    var half := op - offset + inc32table[offset];
    m := half - dec64table[offset];
    SmallRepeats(out, offset, oend - op, op - lo);
    Copy(mem, op + 4, half, 4);
  }

  /** What the two tables are for: from where the second half, and then all eight bytes, repeat. */
  lemma SmallRepeats(out: seq<byte>, offset: nat, len: nat, n: nat)
    requires n == |out| && offset <= |out| && offset < 8 && 8 <= len
    ensures var half := 4 + offset - inc32table[offset]; half >= 4 && Repeats(Filled(out, offset, len), n + 4, half)
    ensures var whole := 8 + offset - inc32table[offset] + dec64table[offset];
      8 <= whole <= n + 8 && Repeats(Filled(out, offset, len), n + 8, whole)
  {
    if offset > 0 {
      RepeatsMultiple(out, offset, len, HalfMultiple(offset), n + 4);
      RepeatsMultiple(out, offset, len, Multiple(offset), n + 8);
    }
  }

  /** Copies the first eight bytes of a match; returns where the rest is to be read from. */
  method CopyFirstEight(mem: array<byte>, ghost lo: nat, op: nat, oend: nat, offset: nat, ghost text: seq<byte>)
    returns (m: nat)
    requires lo <= op && offset <= op - lo && op + 8 <= oend <= mem.Length
    requires text == Filled(mem[lo..op], offset, oend - op)
    modifies mem
    ensures Holds(mem, lo, op + 8, text)
    ensures lo <= m && m + 8 <= op + 8 && Repeats(text, op + 8 - lo, op + 8 - m)
    ensures forall i :: 0 <= i < mem.Length && !(op <= i < op + 8) ==> mem[i] == old(mem[i])
  {
    hide Filled;
    ghost var out := mem[lo..op];
    FilledAt(out, offset, oend - op);
    assert Holds(mem, lo, op, text) by {
      forall i | lo <= i < op ensures mem[i] == text[i - lo] { assert out[i - lo] == text[..|out|][i - lo]; }
    }
    if offset < 8 {
      m := CopySmallOffset(mem, lo, op, oend, offset, out, text);
    } else {
      Copy(mem, op, op - offset, 8);
      m := op - offset + 8;
    }
  }

  /** The end of a match, close to the end of the buffer: eight bytes at a time, then one at a time. */
  method CopyTail(mem: array<byte>, ghost lo: nat, op0: nat, m0: nat, cpy: nat, oend: nat, ghost text: seq<byte>)
    requires lo <= m0 && m0 + 8 <= op0 && lo <= cpy && cpy + LASTLITERALS <= oend <= mem.Length
    requires Holds(mem, lo, op0, text) && Repeats(text, op0 - lo, op0 - m0) && |text| == oend - lo
    modifies mem
    ensures Holds(mem, lo, cpy, text)
    ensures forall i :: 0 <= i < mem.Length && !(op0 <= i < oend) ==> mem[i] == old(mem[i])
  {
    var op, match_ := op0, m0;
    var oCopyLimit := oend - (WILDCOPYLENGTH - 1);
    if op < oCopyLimit {
      WildCopyMatch(mem, lo, op, match_, oCopyLimit, oend, text);
      match_ := match_ + (oCopyLimit - op);
      op := oCopyLimit;
    }
    while op < cpy
      invariant op0 <= op <= oend && op - match_ == op0 - m0
      invariant Holds(mem, lo, op, text)
      invariant forall i :: 0 <= i < mem.Length && !(op0 <= i < oend) ==> mem[i] == old(mem[i])
    {
      mem[op] := mem[match_];
      op, match_ := op + 1, match_ + 1;
    }
  }

  /** The match copy of the main loop when the whole match lies in the block or its prefix. */
  method CopyMatchInBlock(mem: array<byte>, ghost lo: nat, op0: nat, oend: nat, offset: nat, length: nat)
    returns (ok: bool)
    requires lo <= op0 && offset <= op0 - lo && op0 + MFLIMIT <= oend <= mem.Length && length >= MINMATCH
    modifies mem
    ensures ok <==> op0 + length + LASTLITERALS <= oend
    ensures ok ==> mem[lo..op0 + length] == Filled(old(mem[lo..op0]), offset, length)
    ensures forall i :: 0 <= i < mem.Length && !(op0 <= i < oend) ==> mem[i] == old(mem[i])
  {
    hide CopyMatch, Filled;
    ghost var out := mem[lo..op0];
    ghost var text := Filled(out, offset, oend - op0);
    var cpy := op0 + length;
    var match_ := CopyFirstEight(mem, lo, op0, oend, offset, text);
    var op := op0 + 8;
    if cpy > oend - MATCH_SAFEGUARD_DISTANCE {
      if cpy > oend - LASTLITERALS { return false; }
      CopyTail(mem, lo, op, match_, cpy, oend, text);
    } else {
      Copy(mem, op, match_, 8);
      if length > 16 {
        WildCopyMatch(mem, lo, op + 8, match_ + 8, cpy, oend, text);
      }
    }
    FilledPrefix(out, offset, length, oend - op0);
    HoldsSlice(mem, lo, cpy, text);
    return true;
  }

  /** The part of a match that has left the external dictionary and goes on at the start of the buffer, lo. */
  method CopyRest(mem: array<byte>, lo: nat, op0: nat, restSize: nat)
    requires lo < op0 && op0 + restSize <= mem.Length
    modifies mem
    ensures forall i :: op0 <= i < op0 + restSize ==> mem[i] == mem[i - (op0 - lo)]
    ensures forall i :: 0 <= i < mem.Length && !(op0 <= i < op0 + restSize) ==> mem[i] == old(mem[i])
  {
    if restSize > op0 - lo {
      var op, copyFrom := op0, lo;
      while op < op0 + restSize
        invariant op0 <= op <= op0 + restSize && op - copyFrom == op0 - lo
        invariant forall i :: op0 <= i < op ==> mem[i] == mem[i - (op0 - lo)]
        invariant forall i :: 0 <= i < mem.Length && !(op0 <= i < op) ==> mem[i] == old(mem[i])
      {
        mem[op] := mem[copyFrom];
        op, copyFrom := op + 1, copyFrom + 1;
      }
    } else {
      Copy(mem, op0, lo, restSize);
    }
  }

  /** The two parts of a match that starts back bytes before the end of the external dictionary. */
  method CopyBothParts(mem: array<byte>, lo: nat, op0: nat, dict: seq<byte>, back: nat, length: nat)
    requires lo <= op0 && op0 + length <= mem.Length && 1 <= back <= |dict|
    modifies mem
    ensures forall i :: op0 <= i < op0 + length && i < op0 + back ==> mem[i] == dict[|dict| - back + (i - op0)]
    ensures forall i :: op0 + back <= i < op0 + length ==> mem[i] == mem[i - (op0 - lo + back)]
    ensures forall i :: 0 <= i < mem.Length && !(op0 <= i < op0 + length) ==> mem[i] == old(mem[i])
  {
    var copySize := if length <= back then length else back;
    CopyIn(mem, op0, dict, |dict| - back, copySize);
    if length > back {
      CopyRest(mem, lo, op0 + copySize, length - copySize);
    }
  }

  /** front is what precedes the match in the output, both what follows front there. */
  lemma IsDictCopy(dict: seq<byte>, front: seq<byte>, both: seq<byte>, back: nat, length: nat)
    requires 1 <= back <= |dict| && |both| == |front| + length && both[..|front|] == front
    requires forall i :: |front| <= i < |both| && i < |front| + back ==> both[i] == dict[|dict| - back + (i - |front|)]
    requires forall i :: |front| + back <= i < |both| ==> both[i] == both[i - (|front| + back)]
    ensures dict + both == CopyMatch(dict + front, |front| + back, length)
  {
    var out, r, offset := dict + front, dict + both, |front| + back;
    assert r[..|out|] == out;
    forall k | |out| <= k < |r| ensures r[k] == r[k - offset] {
      var i := k - |dict|;
      assert r[k] == both[i];
    }
    CopyMatchUnique(out, offset, length, r);
  }

  /** A match that starts in the external dictionary and may run on into the output buffer. */
  method CopyMatchFromDict(mem: array<byte>, lo: nat, op0: nat, oend: nat, dict: seq<byte>, offset: nat, length: nat)
    returns (ok: bool)
    requires lo <= op0 <= oend <= mem.Length && op0 - lo < offset <= op0 - lo + |dict| && length >= MINMATCH
    modifies mem
    ensures ok <==> op0 + length + LASTLITERALS <= oend
    ensures ok ==> dict + mem[lo..op0 + length] == CopyMatch(dict + old(mem[lo..op0]), offset, length)
    ensures forall i :: 0 <= i < mem.Length && !(op0 <= i < oend) ==> mem[i] == old(mem[i])
  {
    hide CopyMatch;
    if op0 + length > oend - LASTLITERALS { return false; }
    ghost var front := mem[lo..op0];
    CopyBothParts(mem, lo, op0, dict, offset - (op0 - lo), length);
    IsDictCopy(dict, front, mem[lo..op0 + length], offset - (op0 - lo), length);
    return true;
  }

  datatype Status = Continue | Finished | Error

  /** A literal length that the block cannot hold. */
  predicate Overlong(src: seq<byte>, lits: Length) {
    lits.Truncated? || lits.next + lits.value > |src|
  }

  /**
    Literal length. The caller of read_variable_length ignores its loop error here; that is harmless because
    whatever length comes back then already runs past the end of the block.
   */
  method ReadLiteralLength(src: seq<byte>, ip0: nat, nibble: nat) returns (ok: bool, length: nat, ip: nat)
    requires 0 < ip0 <= |src| && nibble <= RUN_MASK
    ensures ip0 <= ip <= |src|
    ensures (nibble == 15 ==> RunFits(src, ip0)) ==>
      var lits := ReadLength(src, ip0, nibble);
      if Overlong(src, lits) then ok ==> ip + length > |src| else ok && lits == Length(length, ip)
    ensures forall run: nat :: nibble == 15 && RunIsLast(src, ip0, run) ==> ok && ip == ip0 + run + 1 && ip + length == |src|
  {
    ok, length, ip := true, nibble, ip0;
    if nibble == RUN_MASK {
      var more, error;
      more, ip, error := ReadVariableLength(src, ip, |src| - RUN_MASK, true);
      ok := !error.InitialError?;
      length := Size32(length + more);
    }
  }

  /** The literals of one sequence, of known length, outside the shortcut. */
  method CopyLiterals(src: seq<byte>, mem: array<byte>, ip0: nat, op0: nat, oend: nat, length0: nat, partial: bool)
    returns (status: Status, ip: nat, op: nat)
    requires 0 < ip0 <= |src| && op0 <= oend <= mem.Length
    modifies mem
    ensures ip0 <= ip <= |src| && op0 <= op <= oend
    ensures forall i :: 0 <= i < mem.Length && !(op0 <= i < oend) ==> mem[i] == old(mem[i])
    ensures op - op0 <= ip - ip0 && op - op0 <= length0
    ensures !status.Error? ==> mem[op0..op] == src[ip0..ip0 + (op - op0)]
    ensures status.Error? <==> !partial && (if ip0 + length0 == |src| then op0 + length0 > oend
                                            else op0 + length0 + MFLIMIT > oend || ip0 + length0 + 8 > |src|)
    ensures status.Continue? ==>
      && ip == ip0 + length0 && op == op0 + length0 && ip + 2 < |src|
      && (if partial then op < oend else op + MFLIMIT <= oend)
    ensures status.Finished? && !partial ==> ip0 + length0 == ip == |src| && op == op0 + length0
    ensures status.Finished? && partial ==> op == oend || (ip >= |src| - 2 && ip == ip0 + (op - op0)
                                            && (op == op0 + length0 || ip == |src| < ip0 + length0))
  {
    var iend := |src|;
    var length := length0;
    ip, op := ip0, op0;
    var cpy := op + length;
    if cpy > oend - MFLIMIT || ip + length > iend - (2 + 1 + LASTLITERALS) {
      if partial {
        if ip + length > iend {
          length := iend - ip;
          cpy := op + length;
        }
        if cpy > oend {
          cpy := oend;
          length := oend - op;
        }
      } else if ip + length != iend || cpy > oend {
        return Error, ip, op;
      }
      CopyIn(mem, op, src, ip, length);
      assert mem[op0..op0 + length] == src[ip0..ip0 + length];
      ip := ip + length;
      op := op + length;
      if !partial || cpy == oend || ip >= iend - 2 { status := Finished; } else { status := Continue; }
    } else {
      WildCopy(mem, op, src, ip, cpy);
      ip := ip + length;
      op := cpy;
      status := Continue;
    }
  }

  lemma IsCopyMatch(out: seq<byte>, offset: nat, len: nat, bytes: seq<byte>, lo: nat, op: nat)
    requires 1 <= offset <= op - lo && lo <= op && op + len <= |bytes| && |out| == op - lo
    requires forall i :: lo <= i < op ==> bytes[i] == out[i - lo]
    requires forall i :: op <= i < op + len ==> bytes[i] == bytes[i - offset]
    ensures bytes[lo..op + len] == CopyMatch(out, offset, len)
  {
    var r := bytes[lo..op + len];
    assert r[..|out|] == out;
    CopyMatchUnique(out, offset, len, r);
  }

  /** The bounded match copy used by partial decoding close to the end of the output. */
  method CopyMatchPartial(mem: array<byte>, ghost lo: nat, op0: nat, oend: nat, offset: nat, mlen: nat)
    requires lo <= op0 && offset <= op0 - lo && op0 + mlen <= oend <= mem.Length
    modifies mem
    ensures offset > 0 ==> mem[lo..op0 + mlen] == CopyMatch(old(mem[lo..op0]), offset, mlen)
    ensures forall i :: 0 <= i < mem.Length && !(op0 <= i < oend) ==> mem[i] == old(mem[i])
  {
    hide CopyMatch;
    ghost var out := mem[lo..op0];
    var match_ := op0 - offset;
    if match_ + mlen > op0 {
      var op := op0;
      while op < op0 + mlen
        invariant op0 <= op <= op0 + mlen && match_ == op - offset
        invariant forall i :: op0 <= i < op ==> mem[i] == mem[i - offset]
        invariant forall i :: 0 <= i < mem.Length && !(op0 <= i < oend) ==> mem[i] == old(mem[i])
      {
        mem[op] := mem[match_];
        op, match_ := op + 1, match_ + 1;
      }
    } else {
      Copy(mem, op0, match_, mlen);
      assert forall i :: op0 <= i < op0 + mlen ==> mem[i] == mem[i - offset];
    }
    if offset > 0 {
      IsCopyMatch(out, offset, mlen, mem[..], lo, op0);
    }
  }

  datatype DictMode = NoDict | WithPrefix64k | UsingExtDict

  /** How the decoder's view of its history (lowPrefix, dict) matches the bytes that are really there. */
  ghost predicate HistoryView(mode: DictMode, d0: nat, lo: nat, lowPrefix: int, dict: seq<byte>) {
    && lo <= d0
    && (mode.WithPrefix64k? ==> lowPrefix == d0 - KB64 && d0 - lo >= KB64 - 1)
    && (!mode.WithPrefix64k? ==> lowPrefix == lo)
    && (!mode.UsingExtDict? ==> dict == [])
  }

  /** What a match copy leaves: the copied bytes, unless the offset was the forbidden 0. */
  ghost predicate Copied(mem: array<byte>, cur: seq<byte>, dict: seq<byte>, lo: nat, op: nat, offset: nat, len: nat)
    requires offset <= |cur|
    reads mem
  {
    && lo <= op <= mem.Length
    && |dict| + op - lo == |cur| + len
    && (offset > 0 ==> dict + mem[lo..op] == CopyMatch(cur, offset, len))
  }

  lemma CopiedBehind(mem: array<byte>, out: seq<byte>, dict: seq<byte>, lo: nat, op: nat, offset: nat, len: nat)
    requires lo <= op <= mem.Length && offset <= |out|
    requires op - lo == |out| + len
    requires offset > 0 ==> mem[lo..op] == CopyMatch(out, offset, len)
    ensures Copied(mem, dict + out, dict, lo, op, offset, len)
  {
    if offset > 0 { CopyMatchDrop(dict, out, offset, len); }
  }

  /** The copy of a match that starts in the output buffer or in the prefix before it. */
  method CopyNearMatch(mem: array<byte>, ghost lo: nat, op0: nat, oend: nat, offset: nat, length: nat, partial: bool)
    returns (status: Status, op: nat)
    requires lo <= op0 <= oend <= mem.Length && offset <= op0 - lo && length >= MINMATCH
    requires !partial ==> op0 + MFLIMIT <= oend
    modifies mem
    ensures op0 <= op <= oend
    ensures forall i :: 0 <= i < mem.Length && !(op0 <= i < oend) ==> mem[i] == old(mem[i])
    ensures status.Error? ==> !partial && op0 + length + LASTLITERALS > oend
    ensures !status.Error? && offset > 0 ==> mem[lo..op] == CopyMatch(old(mem[lo..op0]), offset, op - op0)
    ensures status.Continue? ==> op == op0 + length
    ensures status.Finished? ==> partial && op == oend <= op0 + length
  {
    hide CopyMatch;
    if partial && op0 + length > oend - MATCH_SAFEGUARD_DISTANCE {
      var mlen := if length <= oend - op0 then length else oend - op0;
      CopyMatchPartial(mem, lo, op0, oend, offset, mlen);
      op := op0 + mlen;
      return if op == oend then Finished else Continue, op;
    }
    var ok := CopyMatchInBlock(mem, lo, op0, oend, offset, length);
    return if ok then Continue else Error, if ok then op0 + length else op0;
  }

  /** The copy of a match of known length, wherever it starts. */
  method CopyAnyMatch(mem: array<byte>, mode: DictMode, ghost d0: nat, ghost lo: nat, lowPrefix: int, dict: seq<byte>,
                      op0: nat, oend: nat, offset: nat, length: nat, partial: bool)
    returns (status: Status, op: nat)
    requires HistoryView(mode, d0, lo, lowPrefix, dict) && (partial ==> mode.NoDict?)
    requires d0 <= op0 <= oend <= mem.Length && offset <= MAXDISTANCE && length >= MINMATCH
    requires !partial ==> op0 + MFLIMIT <= oend
    modifies mem
    ensures op0 <= op <= oend
    ensures forall i :: 0 <= i < mem.Length && !(op0 <= i < oend) ==> mem[i] == old(mem[i])
    ensures status.Error? ==> offset > |dict| + op0 - lo || (!partial && op0 + length + LASTLITERALS > oend)
    ensures !status.Error? ==>
      offset <= |dict| + op0 - lo && Copied(mem, dict + old(mem[lo..op0]), dict, lo, op, offset, op - op0)
    ensures status.Continue? ==> op == op0 + length
    ensures status.Finished? ==> partial && op == oend <= op0 + length
  {
    hide CopyMatch;
    var match_ := op0 - offset;
    if |dict| < KB64 && match_ + |dict| < lowPrefix { return Error, op0; }
    if mode.UsingExtDict? && match_ < lowPrefix {
      var ok := CopyMatchFromDict(mem, lowPrefix, op0, oend, dict, offset, length);
      return if ok then Continue else Error, if ok then op0 + length else op0;
    }
    ghost var out := mem[lo..op0];
    status, op := CopyNearMatch(mem, lo, op0, oend, offset, length, partial);
    if !status.Error? { CopiedBehind(mem, out, dict, lo, op, offset, op - op0); }
  }

  /** The length of a match, without the 4 bytes that every match has: refused if it has not ended 5 bytes before the end. */
  method ReadMatchLength(src: seq<byte>, ip0: nat, nibble: nat) returns (ok: bool, length: nat, ip: nat)
    requires 0 < ip0 < |src| && nibble <= ML_MASK
    ensures ip0 <= ip <= |src| && (ok ==> ip < |src|)
    ensures (nibble == 15 ==> RunFits(src, ip0)) ==>
      var ml := ReadLength(src, ip0, nibble);
      if ok then ml == Length(length, ip) else ml.Truncated? || ml.next + LASTLITERALS > |src|
  {
    hide RunFits;
    ok, length, ip := true, nibble, ip0;
    if length == ML_MASK {
      var more, error;
      more, ip, error := ReadVariableLength(src, ip, |src| - LASTLITERALS + 1, false);
      ok, length := error.NoError?, Size32(length + more);
    }
  }

  /** The match of one sequence, from the length bytes on: ip0 is just after the two offset bytes. */
  method DecodeMatch(src: seq<byte>, mem: array<byte>, mode: DictMode, ghost d0: nat, ghost lo: nat, lowPrefix: int,
                     dict: seq<byte>, ip0: nat, op0: nat, oend: nat, nibble: nat, offset: nat, partial: bool)
    returns (status: Status, ip: nat, op: nat)
    requires HistoryView(mode, d0, lo, lowPrefix, dict) && (partial ==> mode.NoDict?)
    requires 0 < ip0 < |src| && d0 <= op0 <= oend <= mem.Length && nibble <= ML_MASK && offset <= MAXDISTANCE
    requires !partial ==> op0 + MFLIMIT <= oend
    modifies mem
    ensures ip0 <= ip <= |src| && op0 <= op <= oend
    ensures forall i :: 0 <= i < mem.Length && !(op0 <= i < oend) ==> mem[i] == old(mem[i])
    ensures status.Continue? ==> ip < |src|
    ensures !status.Error? ==>
      offset <= |dict| + op0 - lo && Copied(mem, dict + old(mem[lo..op0]), dict, lo, op, offset, op - op0)
    ensures status.Finished? ==> partial && op == oend
    ensures (nibble == 15 ==> RunFits(src, ip0)) ==>
      var ml := ReadLength(src, ip0, nibble);
      && (status.Error? ==> ml.Truncated? || ml.next + LASTLITERALS > |src| || offset > |dict| + op0 - lo
                            || (!partial && op0 + ml.value + MINMATCH + LASTLITERALS > oend))
      && (!status.Error? ==> ml.Length?)
      && (status.Continue? ==> ip == ml.next && op == op0 + ml.value + MINMATCH)
      && (status.Finished? ==> op <= op0 + ml.value + MINMATCH)
  {
    hide HistoryView, Copied, ReadLength, RunFits;
    var ok, length;
    ok, length, ip := ReadMatchLength(src, ip0, nibble);
    if !ok { return Error, ip, op0; }
    // the pointer test before this addition refuses lengths so large that it could wrap around
    length := length + MINMATCH;
    status, op := CopyAnyMatch(mem, mode, d0, lo, lowPrefix, dict, op0, oend, offset, length, partial);
  }

  /** The 18-byte match copy of the shortcut. */
  method ShortcutMatch(mem: array<byte>, ghost lo: nat, op: nat, offset: nat, len: nat)
    requires 8 <= offset <= op - lo && op + 18 <= mem.Length && len <= 18 && lo <= op
    modifies mem
    ensures mem[lo..op + len] == CopyMatch(old(mem[lo..op]), offset, len)
    ensures forall i :: 0 <= i < mem.Length && !(op <= i < op + 18) ==> mem[i] == old(mem[i])
  {
    hide CopyMatch;
    ghost var out := mem[lo..op];
    var match_ := op - offset;
    Copy(mem, op, match_, 8);
    Copy(mem, op + 8, match_ + 8, 8);
    Copy(mem, op + 16, match_ + 16, 2);
    assert forall i :: op <= i < op + len ==> mem[i] == mem[i - offset];
    IsCopyMatch(out, offset, len, mem[..], lo, op);
  }

  /** History and output after the parsed sequence s. */
  ghost function After(src: seq<byte>, s: Parsed, cur: seq<byte>): seq<byte>
    requires s.Last? ==> s.start <= |src|
    requires s.Match? ==> s.start + s.ll <= |src| && 1 <= s.offset <= |cur| + s.ll
  {
    match s
    case Cut => cur
    case Last(start, ll) => cur + src[start..]
    case Match(start, ll, offset, len, next) => CopyMatch(cur + src[start..start + ll], offset, len)
  }

  /** Why the decoder may refuse the sequence s, met when n bytes of history and output are known. */
  predicate Refusable(src: seq<byte>, s: Parsed, n: nat, op: nat, oend: nat, partial: bool) {
    match s
    case Cut => true
    case Last(_, ll) => !partial && op + ll > oend
    case Match(_, ll, offset, len, next) =>
      || offset > n + ll
      || next + 1 + LASTLITERALS > |src|
      || (!partial && (op + ll + MFLIMIT > oend || op + ll + len + LASTLITERALS > oend))
  }

  /** What one round of the main loop achieves on the sequence s that starts it. */
  ghost predicate RoundDone(src: seq<byte>, s: Parsed, cur: seq<byte>, got: seq<byte>, op0: nat, ip: nat, op: nat, oend: nat,
                            status: Status, partial: bool)
    requires s.Last? ==> s.start <= |src|
    requires s.Match? ==> s.start + s.ll <= |src|
  {
    match status
    case Error => Refusable(src, s, |cur|, op0, oend, partial)
    case Continue =>
      && s.Match? && ip == s.next && op == op0 + s.ll + s.len && s.offset <= |cur| + s.ll
      && (s.offset > 0 ==> got == After(src, s, cur))
    case Finished =>
      if partial then
        Refusable(src, s, |cur|, op0, oend, partial)
        || (s.Match? && s.offset == 0)
        || (got <= After(src, s, cur) && (op == oend || (s.Last? && got == After(src, s, cur))))
      else s.Last? && op == op0 + s.ll && got == After(src, s, cur)
  }

  lemma PrefixAfterLiterals(src: seq<byte>, ip: nat, cur: seq<byte>)
    requires ip <= |src|
    ensures var s := Parse(src, ip); s.Match? && 1 <= s.offset <= |cur| + s.ll ==>
      cur + src[s.start..s.start + s.ll] <= After(src, s, cur)
  {
    var s := Parse(src, ip);
    if s.Match? && 1 <= s.offset <= |cur| + s.ll {
      CopyMatchAt(cur + src[s.start..s.start + s.ll], s.offset, s.len);
    }
  }

  /** The literals announced by the token at ip0 have been copied and end at ip. */
  ghost predicate LiteralsDone(src: seq<byte>, ip0: nat, ll: nat, ip: nat, cur: seq<byte>, cur1: seq<byte>)
    requires ip0 < |src| && ll <= ip <= |src|
  {
    ReadLength(src, ip0 + 1, src[ip0] / 16) == Length(ll, ip - ll) && cur1 == cur + src[ip - ll..ip]
  }

  lemma RoundEndsInLiterals(src: seq<byte>, ip0: nat, cur: seq<byte>, got: seq<byte>, ip1: nat, length: nat,
                            op0: nat, ip: nat, op: nat, oend: nat, status: Status, partial: bool)
    requires ip0 < |src| && op0 <= op && ip1 + (op - op0) <= |src|
    requires
      var lits := ReadLength(src, ip0 + 1, src[ip0] / 16);
      if Overlong(src, lits) then ip1 + length > |src| else lits == Length(length, ip1)
    requires status.Error? ==> !partial && (if ip1 + length == |src| then op0 + length > oend
                                            else op0 + length + MFLIMIT > oend || ip1 + length + 8 > |src|)
    requires status.Finished? ==> got == cur + src[ip1..ip1 + (op - op0)]
    requires status.Finished? && !partial ==> ip1 + length == ip == |src| && op == op0 + length
    requires status.Finished? && partial ==> op == oend || (ip >= |src| - 2 && ip == ip1 + (op - op0)
                                             && (op == op0 + length || ip == |src| < ip1 + length))
    requires status.Finished? && partial ==> op <= op0 + length
    requires !status.Continue?
    ensures RoundDone(src, Parse(src, ip0), cur, got, op0, ip, op, oend, status, partial)
  {
    PrefixAfterLiterals(src, ip0, cur);
  }

  lemma Joined(a: seq<byte>, b: seq<byte>, c: seq<byte>)
    ensures a + (b + c) == a + b + c
  {
  }

  /** Literals of one round when the shortcut does not apply. */
  method GeneralLiterals(src: seq<byte>, dst: array<byte>, ghost lo: nat, ghost dict: seq<byte>,
                         ip0: nat, op0: nat, oend: nat, partial: bool)
    returns (status: Status, ip: nat, op: nat)
    requires ip0 < |src| && lo <= op0 <= oend <= dst.Length
    modifies dst
    ensures op0 <= op <= oend
    ensures forall i :: 0 <= i < dst.Length && !(op0 <= i < oend) ==> dst[i] == old(dst[i])
    ensures status.Continue? ==> ip0 < ip && op - op0 <= ip && ip + 2 < |src| && (!partial ==> op + MFLIMIT <= oend)
    ensures status.Continue? && LiteralFits(src, ip0) ==>
      LiteralsDone(src, ip0, op - op0, ip, dict + old(dst[lo..op0]), dict + dst[lo..op])
    ensures !status.Continue? && LiteralFits(src, ip0) ==>
      RoundDone(src, Parse(src, ip0), dict + old(dst[lo..op0]), dict + dst[lo..op], op0, ip, op, oend, status, partial)
    ensures TakesRun(src, ip0, oend - op0, partial, status.Finished?, dst[op0..op])
  {
    ghost var front, cur := dst[lo..op0], dict + dst[lo..op0];
    var ok, length;
    ok, length, ip := ReadLiteralLength(src, ip0 + 1, src[ip0] as int / 16);
    if !ok { return Error, ip, op0; }
    ghost var ip1 := ip;
    status, ip, op := CopyLiterals(src, dst, ip, op0, oend, length, partial);
    ghost var got := dict + dst[lo..op];
    if !status.Error? {
      assert dst[lo..op] == front + dst[op0..op];
      Joined(dict, front, dst[op0..op]);
    }
    if !status.Continue? && LiteralFits(src, ip0) {
      RoundEndsInLiterals(src, ip0, cur, got, ip1, length, op0, ip, op, oend, status, partial);
    }
  }

  /** The sixteen bytes the shortcut copies on behalf of at most fourteen literals. */
  method ShortcutLiterals(src: seq<byte>, dst: array<byte>, ghost lo: nat, ghost dict: seq<byte>, ip0: nat, op0: nat, length: nat)
    requires ip0 + 1 + 16 <= |src| && length == src[ip0] as int / 16 && length < RUN_MASK
    requires lo <= op0 && op0 + 16 <= dst.Length
    modifies dst
    ensures LiteralsDone(src, ip0, length, ip0 + 1 + length, dict + old(dst[lo..op0]), dict + dst[lo..op0 + length])
    ensures forall i :: 0 <= i < dst.Length && !(op0 <= i < op0 + 16) ==> dst[i] == old(dst[i])
  {
    CopyIn(dst, op0, src, ip0 + 1, 16);
    assert dst[lo..op0 + length] == old(dst[lo..op0]) + src[ip0 + 1..ip0 + 1 + length];
  }

  /** Literals of one round: the shortcut when there is room for it, the general case otherwise. */
  method LiteralPhase(src: seq<byte>, dst: array<byte>, ghost lo: nat, ghost dict: seq<byte>,
                      ip0: nat, op0: nat, oend: nat, partial: bool)
    returns (status: Status, ip: nat, op: nat, short: bool)
    requires ip0 < |src| && lo <= op0 <= oend <= dst.Length
    modifies dst
    ensures op0 <= op <= oend
    ensures forall i :: 0 <= i < dst.Length && !(op0 <= i < oend) ==> dst[i] == old(dst[i])
    ensures short ==> status.Continue? && op + 18 <= oend
    ensures status.Continue? ==> ip0 < ip && op - op0 <= ip && ip + 2 < |src| && (!partial ==> op + MFLIMIT <= oend)
    ensures status.Continue? && LiteralFits(src, ip0) ==>
      LiteralsDone(src, ip0, op - op0, ip, dict + old(dst[lo..op0]), dict + dst[lo..op])
    ensures !status.Continue? && LiteralFits(src, ip0) ==>
      RoundDone(src, Parse(src, ip0), dict + old(dst[lo..op0]), dict + dst[lo..op], op0, ip, op, oend, status, partial)
    ensures TakesRun(src, ip0, oend - op0, partial, status.Finished?, dst[op0..op])
  {
    hide CopyMatch, Parse, RoundDone, LiteralsDone, ReadLength;
    var shortiend := |src| - 14 - 2;
    var shortoend := oend - 14 - 18;
    var length: nat := src[ip0] as int / 16;
    short := length != RUN_MASK && ip0 + 1 < shortiend && op0 <= shortoend;
    if short {
      ShortcutLiterals(src, dst, lo, dict, ip0, op0, length);
      ip, op, status := ip0 + 1 + length, op0 + length, Continue;
    } else {
      status, ip, op := GeneralLiterals(src, dst, lo, dict, ip0, op0, oend, partial);
    }
  }

  lemma ParseAfterLiterals(src: seq<byte>, ip0: nat, ll: nat, ip: nat, cur: seq<byte>, cur1: seq<byte>)
    requires ip0 < |src| && ll <= ip && ip + 2 <= |src| && LiteralsDone(src, ip0, ll, ip, cur, cur1)
    ensures Parse(src, ip0) == match ReadLength(src, ip + 2, src[ip0] % 16)
                               case Truncated => Cut
                               case Length(n, next) => Match(ip - ll, ll, ReadLE16(src, ip), n + MINMATCH, next)
  {
  }

  /** The match of one round: the shortcut when it applies, the general case otherwise. */
  method MatchPhase(src: seq<byte>, mem: array<byte>, mode: DictMode, ghost d0: nat, ghost lo: nat, lowPrefix: int,
                    dict: seq<byte>, ip0: nat, op0: nat, oend: nat, nibble: nat, short: bool, partial: bool)
    returns (status: Status, ip: nat, op: nat)
    requires HistoryView(mode, d0, lo, lowPrefix, dict) && (partial ==> mode.NoDict?)
    requires ip0 + 2 < |src| && d0 <= op0 <= oend <= mem.Length && nibble <= ML_MASK
    requires !partial ==> op0 + MFLIMIT <= oend
    requires short ==> op0 + 18 <= oend
    modifies mem
    ensures ip0 + 2 <= ip <= |src| && op0 <= op <= oend
    ensures forall i :: 0 <= i < mem.Length && !(op0 <= i < oend) ==> mem[i] == old(mem[i])
    ensures status.Continue? ==> ip < |src|
    ensures !status.Error? ==>
      && ReadLE16(src, ip0) <= |dict| + op0 - lo
      && Copied(mem, dict + old(mem[lo..op0]), dict, lo, op, ReadLE16(src, ip0), op - op0)
    ensures status.Finished? ==> partial && op == oend
    ensures (nibble == 15 ==> RunFits(src, ip0 + 2)) ==>
      var ml := ReadLength(src, ip0 + 2, nibble);
      && (status.Error? ==> ml.Truncated? || ml.next + LASTLITERALS > |src| || ReadLE16(src, ip0) > |dict| + op0 - lo
                            || (!partial && op0 + ml.value + MINMATCH + LASTLITERALS > oend))
      && (!status.Error? ==> ml.Length?)
      && (status.Continue? ==> ip == ml.next && op == op0 + ml.value + MINMATCH)
      && (status.Finished? ==> op <= op0 + ml.value + MINMATCH)
  {
    hide CopyMatch, Copied;
    var offset := ReadLE16(src, ip0);
    ip, op := ip0 + 2, op0;
    if short && nibble != ML_MASK && offset >= 8 && (mode.WithPrefix64k? || op - offset >= lowPrefix) {
      ghost var out := mem[lo..op];
      ShortcutMatch(mem, lo, op, offset, nibble + MINMATCH);
      op := op + nibble + MINMATCH;
      CopiedBehind(mem, out, dict, lo, op, offset, nibble + MINMATCH);
      status := Continue;
    } else {
      status, ip, op := DecodeMatch(src, mem, mode, d0, lo, lowPrefix, dict, ip, op, oend, nibble, offset, partial);
    }
  }

  lemma RoundEndsInMatch(src: seq<byte>, s: Parsed, cur: seq<byte>, cur1: seq<byte>, got: seq<byte>, len: nat,
                         op0: nat, ip: nat, op: nat, oend: nat, status: Status, partial: bool)
    requires !s.Last?
    requires s.Match? ==> s.start + s.ll <= |src| && cur1 == cur + src[s.start..s.start + s.ll] && op == op0 + s.ll + len
    requires status.Error? ==> s.Cut? || s.next + LASTLITERALS > |src| || s.offset > |cur1|
                               || (!partial && op0 + s.ll + s.len + LASTLITERALS > oend)
    requires !status.Error? ==> s.Match? && s.offset <= |cur1| && (s.offset > 0 ==> got == CopyMatch(cur1, s.offset, len))
    requires status.Continue? ==> ip == s.next && len == s.len
    requires status.Finished? ==> partial && op == oend && len <= s.len
    ensures RoundDone(src, s, cur, got, op0, ip, op, oend, status, partial)
  {
    if status.Finished? && s.offset > 0 {
      CopyMatchPrefix(cur1, s.offset, len, s.len);
      assert got <= After(src, s, cur);
    }
  }

  /** One round of the main loop: one token, its literals and, unless the block ends there, its match. */
  method DecodeSequence(src: seq<byte>, dst: array<byte>, mode: DictMode, ghost d0: nat, ghost lo: nat, lowPrefix: int,
                        dict: seq<byte>, ip0: nat, op0: nat, oend: nat, partial: bool)
    returns (status: Status, ip: nat, op: nat)
    requires HistoryView(mode, d0, lo, lowPrefix, dict) && (partial ==> mode.NoDict?)
    requires ip0 < |src| && d0 <= op0 <= oend <= dst.Length
    modifies dst
    ensures op0 <= op <= oend && (status.Continue? ==> ip0 < ip < |src|)
    ensures forall i :: 0 <= i < dst.Length && !(op0 <= i < oend) ==> dst[i] == old(dst[i])
    ensures SequenceFits(src, ip0) ==>
      RoundDone(src, Parse(src, ip0), dict + old(dst[lo..op0]), dict + dst[lo..op], op0, ip, op, oend, status, partial)
    ensures TakesRun(src, ip0, oend - op0, partial, status.Finished?, dst[op0..op])
  {
    hide CopyMatch, RoundDone, Parse, ReadLength;
    ghost var cur := dict + dst[lo..op0];
    var short;
    status, ip, op, short := LiteralPhase(src, dst, lo, dict, ip0, op0, oend, partial);
    if !status.Continue? { return; }
    ghost var cur1, ll, p := dict + dst[lo..op], op - op0, ip;
    var nibble: nat := src[ip0] as int % 16;
    status, ip, op := MatchPhase(src, dst, mode, d0, lo, lowPrefix, dict, ip, op, oend, nibble, short, partial);
    if SequenceFits(src, ip0) {
      ParseAfterLiterals(src, ip0, ll, p, cur, cur1);
      RoundEndsInMatch(src, Parse(src, ip0), cur, cur1, dict + dst[lo..op], op - op0 - ll, op0, ip, op, oend, status, partial);
    }
  }

  /** The rest of the block, read from ip after cur, decides the meaning of the whole block. */
  ghost predicate Tracks(src: seq<byte>, hist: seq<byte>, ip: nat, cur: seq<byte>, zero: bool)
    requires ip <= |src|
  {
    && (UsesZeroOffset(src, ip) ==> UsesZeroOffset(src, 0))
    && (if zero then UsesZeroOffset(src, 0) else Decode(src, 0, hist) == Decode(src, ip, cur))
  }

  /** One sequence with a match takes Tracks from its token to the next one. */
  lemma TracksMatch(src: seq<byte>, hist: seq<byte>, ip: nat, cur: seq<byte>, zero: bool, out1: seq<byte>, cur': seq<byte>)
    requires ip <= |src| && Tracks(src, hist, ip, cur, zero)
    requires Parse(src, ip).Match?
    requires
      var s := Parse(src, ip);
      && out1 == cur + src[s.start..s.start + s.ll]
      && s.offset <= |out1|
      && (s.offset > 0 ==> cur' == CopyMatch(out1, s.offset, s.len))
    ensures var s := Parse(src, ip); Tracks(src, hist, s.next, cur', zero || s.offset == 0)
  {
  }

  /** A run over a well-formed block is where the end-of-block restrictions say it can be. */
  ghost predicate OnCourse(src: seq<byte>, hist: seq<byte>, ip: nat, at: nat, zero: bool)
    requires ip <= |src|
  {
    WellFormed(src, hist) ==> !zero && Conforming(src, ip, at, |Text(src, hist)|)
  }

  /** A well-formed block whose text fits gives the decoder no reason to refuse a sequence. */
  lemma NotRefusable(src: seq<byte>, hist: seq<byte>, ip: nat, cur: seq<byte>, d0: nat, op: nat, oend: nat, partial: bool)
    requires ip <= |src| && d0 <= op && Tracks(src, hist, ip, cur, false)
    requires WellFormed(src, hist) && Conforming(src, ip, op - d0, |Text(src, hist)|)
    requires partial || d0 + |Text(src, hist)| <= oend
    ensures !Refusable(src, Parse(src, ip), |cur|, op, oend, partial)
    ensures var s := Parse(src, ip); s.Match? ==> s.offset != 0
  {
    hide Parse, CopyMatch;
    var s := Parse(src, ip);
    if s.Match? {
      ConformingRoom(src, s.next, op - d0 + s.ll + s.len, |Text(src, hist)|);
    }
  }

  /** What DecompressGeneric promises about its result r and output out, for the history hist. */
  ghost predicate DecodedWell(src: seq<byte>, hist: seq<byte>, out: seq<byte>, r: int, cap: nat, partial: bool) {
    // sound: what is accepted is what the format says
    && (r >= 0 && cap > 0 && !partial ==> UsesZeroOffset(src, 0) || Decode(src, 0, hist) == Decoded(hist + out))
    // complete: well-formed blocks that fit are accepted
    && (WellFormed(src, hist) && cap > 0 && |Text(src, hist)| <= cap ==> r == |Text(src, hist)| && out == Text(src, hist))
    // partial decoding yields the beginning of the text
    && (WellFormed(src, hist) && cap > 0 && partial ==>
          r == (if |Text(src, hist)| <= cap then |Text(src, hist)| else cap) && out <= Text(src, hist))
  }

  /** The text up to and including the sequence at ip is a beginning of the whole text. */
  lemma AfterIsPrefix(src: seq<byte>, hist: seq<byte>, ip: nat, cur: seq<byte>)
    requires ip <= |src| && Tracks(src, hist, ip, cur, false) && WellFormed(src, hist)
    requires var s := Parse(src, ip); s.Match? ==> 1 <= s.offset <= |cur| + s.ll
    ensures !Parse(src, ip).Cut?
    ensures After(src, Parse(src, ip), cur) <= hist + Text(src, hist)
    ensures Parse(src, ip).Last? ==> After(src, Parse(src, ip), cur) == hist + Text(src, hist)
  {
    hide CopyMatch, Conforming;
    var s := Parse(src, ip);
    if s.Match? {
      DecodeExtends(src, s.next, After(src, s, cur));
    }
  }

  lemma DropPrefix(hist: seq<byte>, out: seq<byte>, text: seq<byte>)
    requires hist + out <= hist + text
    ensures out <= text && (|out| == |text| ==> out == text)
  {
    assert out == (hist + out)[|hist|..];
    assert text == (hist + text)[|hist|..];
  }

  lemma RoundFinishes(src: seq<byte>, hist: seq<byte>, ip0: nat, cur: seq<byte>, zero: bool, got: seq<byte>, out: seq<byte>,
                      d0: nat, op0: nat, ip: nat, op: nat, oend: nat, status: Status, partial: bool)
    requires ip0 < |src| && d0 <= op0 <= op <= oend && d0 < oend && |cur| == |hist| + op0 - d0
    requires Tracks(src, hist, ip0, cur, zero) && OnCourse(src, hist, ip0, op0 - d0, zero)
    requires RoundDone(src, Parse(src, ip0), cur, got, op0, ip, op, oend, status, partial) && !status.Continue?
    requires got == hist + out && |out| == op - d0
    ensures status.Finished? ==> DecodedWell(src, hist, out, op - d0, oend - d0, partial)
    ensures status.Error? ==> DecodedWell(src, hist, [], -1, oend - d0, partial)
  {
    hide CopyMatch, Conforming, UsesZeroOffset, Refusable, After;
    if WellFormed(src, hist) && (partial || |Text(src, hist)| <= oend - d0) {
      NotRefusable(src, hist, ip0, cur, d0, op0, oend, partial);
      AcceptedOffset(src, ip0, cur, op0, oend, partial);
      AfterIsPrefix(src, hist, ip0, cur);
      if status.Finished? { DropPrefix(hist, out, Text(src, hist)); }
    }
    FinishedSound(src, hist, ip0, cur, zero, got, op0, ip, op, oend, status, partial);
  }

  lemma AcceptedOffset(src: seq<byte>, ip: nat, cur: seq<byte>, op: nat, oend: nat, partial: bool)
    requires ip <= |src| && !Refusable(src, Parse(src, ip), |cur|, op, oend, partial)
    ensures var s := Parse(src, ip); s.Match? ==> s.offset <= |cur| + s.ll
  {
  }

  lemma FinishedSound(src: seq<byte>, hist: seq<byte>, ip0: nat, cur: seq<byte>, zero: bool, got: seq<byte>,
                      op0: nat, ip: nat, op: nat, oend: nat, status: Status, partial: bool)
    requires ip0 < |src| && Tracks(src, hist, ip0, cur, zero)
    requires RoundDone(src, Parse(src, ip0), cur, got, op0, ip, op, oend, status, partial)
    ensures status.Finished? && !partial ==> UsesZeroOffset(src, 0) || Decode(src, 0, hist) == Decoded(got)
  {
    hide CopyMatch;
  }

  lemma RoundAdvances(src: seq<byte>, hist: seq<byte>, ip0: nat, cur: seq<byte>, zero: bool, got: seq<byte>,
                      d0: nat, op0: nat, ip: nat, op: nat, oend: nat, partial: bool) returns (zero': bool)
    requires ip0 < |src| && d0 <= op0 <= op <= oend
    requires Tracks(src, hist, ip0, cur, zero) && OnCourse(src, hist, ip0, op0 - d0, zero)
    requires RoundDone(src, Parse(src, ip0), cur, got, op0, ip, op, oend, Continue, partial)
    ensures ip <= |src| && (FieldsFit(src, ip0) ==> FieldsFit(src, ip))
    ensures Tracks(src, hist, ip, got, zero') && OnCourse(src, hist, ip, op - d0, zero')
  {
    hide CopyMatch, FieldsFit, Tracks, OnCourse;
    var s := Parse(src, ip0);
    if FieldsFit(src, ip0) { FieldsAdvance(src, ip0); }
    zero' := zero || s.offset == 0;
    CourseAdvances(src, hist, ip0, cur, zero, d0, op0);
    TracksMatch(src, hist, ip0, cur, zero, cur + src[s.start..s.start + s.ll], got);
  }

  lemma FieldsAdvance(src: seq<byte>, ip: nat)
    requires ip <= |src| && FieldsFit(src, ip) && Parse(src, ip).Match?
    ensures FieldsFit(src, Parse(src, ip).next)
  {
    hide SequenceFits;
  }

  lemma CourseAdvances(src: seq<byte>, hist: seq<byte>, ip0: nat, cur: seq<byte>, zero: bool, d0: nat, op0: nat)
    requires ip0 < |src| && d0 <= op0 && Parse(src, ip0).Match?
    requires Tracks(src, hist, ip0, cur, zero) && OnCourse(src, hist, ip0, op0 - d0, zero)
    ensures var s := Parse(src, ip0); OnCourse(src, hist, s.next, op0 - d0 + s.ll + s.len, zero || s.offset == 0)
  {
  }

  lemma RunStarts(src: seq<byte>, hist: seq<byte>)
    ensures Tracks(src, hist, 0, hist, false) && OnCourse(src, hist, 0, 0, false)
    ensures src == [] ==> !WellFormed(src, hist)
  {
  }

  /**
    LZ4_decompress_generic with endOnInputSize. The output buffer is dst[d0..d0 + outputSize); the history is
    dict (external) followed by dst[lo..d0) (prefix).
   */
  method DecompressGeneric(src: seq<byte>, dst: array<byte>, d0: nat, outputSize: nat, partial: bool,
                           mode: DictMode, ghost lo: nat, lowPrefix: int, dict: seq<byte>)
    returns (r: int)
    requires HistoryView(mode, d0, lo, lowPrefix, dict) && (partial ==> mode.NoDict?)
    requires d0 + outputSize <= dst.Length
    modifies dst
    ensures r <= outputSize
    ensures forall i :: 0 <= i < dst.Length && !(d0 <= i < d0 + outputSize) ==> dst[i] == old(dst[i])
    ensures FieldsFit(src, 0) ==>
      DecodedWell(src, dict + old(dst[lo..d0]), if r >= 0 then dst[d0..d0 + r] else [], r, outputSize, partial)
    ensures outputSize == 0 ==> (r >= 0 <==> partial || src == [0])
    // a length that wraps around is taken for what 32 bits hold of it
    ensures outputSize > 0 ==> TakesRun(src, 0, outputSize, partial, r >= 0, if r >= 0 then dst[d0..d0 + r] else [])
  {
    hide CopyMatch, Parse, Conforming, Decode, UsesZeroOffset, RoundDone, Tracks, OnCourse, WellFormed, SequenceFits, TakesRun;
    ghost var prefix := dst[lo..d0];
    ghost var hist := dict + prefix;
    if outputSize == 0 {
      if partial { return 0; }
      return if |src| == 1 && src[0] == 0 then 0 else -1;
    }
    RunStarts(src, hist);
    if |src| == 0 {
      assert TakesRun(src, 0, outputSize, partial, false, []) by { EmptyBlock(src, outputSize, partial); }
      return -1;
    }
    var oend := d0 + outputSize;
    var ip, op := 0, d0;
    ghost var zero := false;
    while true
      invariant 0 <= ip < |src| && d0 <= op <= oend && dst[lo..d0] == prefix
      invariant forall i :: 0 <= i < dst.Length && !(d0 <= i < oend) ==> dst[i] == old(dst[i])
      invariant FieldsFit(src, 0) ==> FieldsFit(src, ip)
      invariant if ip == 0 then op == d0 else TakesRun(src, 0, outputSize, partial, false, [])
      invariant FieldsFit(src, 0) ==>
        Tracks(src, hist, ip, dict + dst[lo..op], zero) && OnCourse(src, hist, ip, op - d0, zero)
      decreases |src| - ip
    {
      ghost var ip0, op0, cur := ip, op, dict + dst[lo..op];
      var status;
      status, ip, op := DecodeSequence(src, dst, mode, d0, lo, lowPrefix, dict, ip, op, oend, partial);
      ghost var got := dict + dst[lo..op];
      assert dst[lo..d0] == prefix;
      assert dst[lo..op] == prefix + dst[d0..op];
      assert got == hist + dst[d0..op];
      if !status.Continue? {
        if FieldsFit(src, 0) {
          RoundFinishes(src, hist, ip0, cur, zero, got, dst[d0..op], d0, op0, ip, op, oend, status, partial);
        }
        if ip0 > 0 {
          NoRun(src, 0, outputSize, partial, [], status.Finished?, if status.Finished? then dst[d0..op] else []);
        } else if status.Error? {
          NoRun(src, 0, outputSize, partial, dst[op0..op], false, []);
        }
        return if status.Finished? then op - d0 else -ip - 1;
      }
      if ip0 == 0 { NoRun(src, 0, outputSize, partial, dst[op0..op], false, []); }
      if FieldsFit(src, 0) {
        zero := RoundAdvances(src, hist, ip0, cur, zero, got, d0, op0, ip, op, oend, partial);
      }
    }
  }
}
