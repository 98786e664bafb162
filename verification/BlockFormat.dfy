/** The LZ4 block format: what a block means, independently of how lz4.c reads or writes it. */
module BlockFormat {

  type byte = x: int | 0 <= x < 256

  const MINMATCH := 4
  const LASTLITERALS := 5
  const MFLIMIT := 12
  const MAXDISTANCE := 65535
  const KB64 := 65536

  // ---------- Reading a block ----------

  /** A length read from a block, with the position just after it; Truncated when the block ends first. */
  datatype Length = Truncated | Length(value: nat, next: nat)

  /** Sum of the bytes from ip up to and including the first one that is not 255. */
  function ReadExt(src: seq<byte>, ip: nat): (r: Length)
    ensures r.Length? ==> ip < r.next <= |src|
    decreases |src| - ip
  {
    if ip >= |src| then Truncated
    else if src[ip] != 255 then Length(src[ip], ip + 1)
    else match ReadExt(src, ip + 1)
      case Truncated => Truncated
      case Length(n, next) => Length(255 + n, next)
  }

  /** A length whose first four bits came from the token. */
  function ReadLength(src: seq<byte>, ip: nat, nibble: nat): (r: Length)
    requires ip <= |src|
    ensures r.Length? ==> ip <= r.next <= |src|
  {
    if nibble < 15 then Length(nibble, ip)
    else match ReadExt(src, ip)
      case Truncated => Truncated
      case Length(n, next) => Length(15 + n, next)
  }

  function ReadLE16(src: seq<byte>, ip: nat): nat
    requires ip + 2 <= |src|
  {
    src[ip] as int + 256 * (src[ip + 1] as int)
  }

  /** Byte-by-byte LZ77 copy: every new byte is the one offset positions before it. */
  function CopyMatch(out: seq<byte>, offset: nat, len: nat): (r: seq<byte>)
    requires 1 <= offset <= |out|
    ensures |r| == |out| + len
    decreases len
  {
    if len == 0 then out
    else CopyMatch(out + [out[|out| - offset]], offset, len - 1)
  }

  /**
    One sequence read at ip: literals only (Last, then the block must end), literals and a match (Match), or
    neither because the block ends too early (Cut). start and ll give the literals' place in the block.
   */
  datatype Parsed =
    | Cut
    | Last(start: nat, ll: nat)
    | Match(start: nat, ll: nat, offset: nat, len: nat, next: nat)

  function Parse(src: seq<byte>, ip: nat): (r: Parsed)
    requires ip <= |src|
    ensures r.Last? ==> ip < r.start && r.start + r.ll == |src|
    ensures r.Match? ==> ip < r.start && r.start + r.ll + 2 <= r.next <= |src| && r.len >= MINMATCH
  {
    if ip == |src| then Cut
    else
      var lits := ReadLength(src, ip + 1, src[ip] / 16);
      if lits.Truncated? || lits.next + lits.value > |src| then Cut
      else
        var p := lits.next + lits.value;
        if p == |src| then Last(lits.next, lits.value)
        else if p + 2 > |src| then Cut
        else
          var ml := ReadLength(src, p + 2, src[ip] % 16);
          if ml.Truncated? then Cut
          else Match(lits.next, lits.value, ReadLE16(src, p), ml.value + MINMATCH, ml.next)
  }

  datatype Decoded = Malformed | Decoded(out: seq<byte>)

  /**
    Meaning of the block src from position ip on, with out (history, then what the block has produced
    so far) already known.
   */
  function Decode(src: seq<byte>, ip: nat, out: seq<byte>): Decoded
    requires ip <= |src|
    decreases |src| - ip
  {
    match Parse(src, ip)
    case Cut => Malformed
    case Last(start, ll) => Decoded(out + src[start..])
    case Match(start, ll, offset, len, next) =>
      var out1 := out + src[start..start + ll];
      if offset == 0 || offset > |out1| then Malformed
      else Decode(src, next, CopyMatch(out1, offset, len))
  }

  /** Some match read from ip on has offset 0, which the format forbids. */
  predicate UsesZeroOffset(src: seq<byte>, ip: nat)
    requires ip <= |src|
    decreases |src| - ip
  {
    var s := Parse(src, ip);
    s.Match? && (s.offset == 0 || UsesZeroOffset(src, s.next))
  }

  /**
    The end-of-block restrictions of the format: with `at` bytes produced before position ip and `total`
    bytes in the whole block, no match starts in the last 12 bytes or touches the last 5.
   */
  predicate Conforming(src: seq<byte>, ip: nat, at: nat, total: nat)
    requires ip <= |src|
    decreases |src| - ip
  {
    match Parse(src, ip)
    case Cut => false
    case Last(start, ll) => at + ll == total
    case Match(start, ll, offset, len, next) =>
      && at + ll + MFLIMIT <= total
      && at + ll + len + LASTLITERALS <= total
      && Conforming(src, next, at + ll + len, total)
  }

  // ---------- Facts about CopyMatch ----------

  lemma {:induction false} CopyMatchAt(out: seq<byte>, offset: nat, len: nat)
    requires 1 <= offset <= |out|
    ensures CopyMatch(out, offset, len)[..|out|] == out
    ensures forall k :: |out| <= k < |out| + len ==>
      CopyMatch(out, offset, len)[k] == CopyMatch(out, offset, len)[k - offset]
    decreases len
  {
    if len > 0 {
      var next := out + [out[|out| - offset]];
      CopyMatchAt(next, offset, len - 1);
      var r := CopyMatch(out, offset, len);
      assert r[..|next|] == next;
      assert r[..|out|] == r[..|next|][..|out|] == out;
      assert r[|out|] == next[|out|];
      assert r[|out| - offset] == next[|out| - offset];
    }
  }

  /** CopyMatch is the only extension of out with period offset. */
  lemma {:induction false} CopyMatchUnique(out: seq<byte>, offset: nat, len: nat, s: seq<byte>)
    requires 1 <= offset <= |out|
    requires |s| == |out| + len && s[..|out|] == out
    requires forall k :: |out| <= k < |s| ==> s[k] == s[k - offset]
    ensures s == CopyMatch(out, offset, len)
    decreases len
  {
    if len == 0 {
      assert s == s[..|out|];
    } else {
      var next := out + [out[|out| - offset]];
      assert s[|out|] == s[|out| - offset] == s[..|out|][|out| - offset];
      assert s[..|next|] == next;
      CopyMatchUnique(next, offset, len - 1, s);
    }
  }

  lemma CopyMatchPrefix(out: seq<byte>, offset: nat, len: nat, len': nat)
    requires 1 <= offset <= |out| && len <= len'
    ensures CopyMatch(out, offset, len')[..|out| + len] == CopyMatch(out, offset, len)
  {
    CopyMatchAt(out, offset, len');
    var r := CopyMatch(out, offset, len')[..|out| + len];
    assert r[..|out|] == CopyMatch(out, offset, len')[..|out|];
    CopyMatchUnique(out, offset, len, r);
  }

  /** What lies further back than the offset does not matter. */
  lemma CopyMatchDrop(back: seq<byte>, out: seq<byte>, offset: nat, len: nat)
    requires 1 <= offset <= |out|
    ensures CopyMatch(back + out, offset, len) == back + CopyMatch(out, offset, len)
  {
    CopyMatchAt(out, offset, len);
    var s := CopyMatch(out, offset, len);
    var r := back + s;
    assert r[..|back + out|] == back + s[..|out|];
    forall k | |back + out| <= k < |r| ensures r[k] == r[k - offset] {
      assert s[k - |back|] == s[k - |back| - offset];
    }
    CopyMatchUnique(back + out, offset, len, r);
  }

  /** Beyond the first bytes of the copy, every multiple of the offset is a period too. */
  lemma {:induction false} CopyMatchMultiple(out: seq<byte>, offset: nat, len: nat, k: nat, c: nat)
    requires 1 <= offset <= |out| && 1 <= c
    requires |out| + c * offset - offset <= k < |out| + len
    ensures 0 <= k - c * offset
    ensures CopyMatch(out, offset, len)[k] == CopyMatch(out, offset, len)[k - c * offset]
    decreases c
  {
    CopyMatchAt(out, offset, len);
    if c > 1 {
      assert (c - 1) * offset == c * offset - offset;
      CopyMatchMultiple(out, offset, len, k - offset, c - 1);
    }
  }

  // ---------- Facts about Decode ----------

  lemma DecodeStep(block: seq<byte>, ip: nat, out: seq<byte>, lits: seq<byte>)
    requires ip <= |block| && Parse(block, ip).Match?
    requires var s := Parse(block, ip);
      lits == block[s.start..s.start + s.ll] && 1 <= s.offset <= |out| + |lits|
    ensures var s := Parse(block, ip); Decode(block, ip, out) == Decode(block, s.next, CopyMatch(out + lits, s.offset, s.len))
  {
  }

  lemma DecodeEnd(block: seq<byte>, ip: nat, out: seq<byte>, lits: seq<byte>)
    requires ip <= |block| && Parse(block, ip).Last? && lits == block[Parse(block, ip).start..]
    ensures Decode(block, ip, out) == Decoded(out + lits)
  {
  }

  lemma DecodableHasNext(src: seq<byte>, ip: nat, out: seq<byte>)
    requires ip <= |src| && Decode(src, ip, out).Decoded?
    ensures var s := Parse(src, ip);
      s.Last? || (s.Match? && 1 <= s.offset <= |out| + s.ll
      && Decode(src, s.next, CopyMatch(out + src[s.start..s.start + s.ll], s.offset, s.len)).Decoded?)
  {
  }

  /** Decoding only ever appends. */
  lemma {:induction false} DecodeExtends(src: seq<byte>, ip: nat, out: seq<byte>)
    requires ip <= |src|
    ensures var d := Decode(src, ip, out); d.Decoded? ==> out <= d.out
    decreases |src| - ip
  {
    hide Decode, Parse, CopyMatch;
    var s := Parse(src, ip);
    if Decode(src, ip, out).Decoded? {
      DecodableHasNext(src, ip, out);
      if s.Match? {
        var lits := src[s.start..s.start + s.ll];
        CopyMatchAt(out + lits, s.offset, s.len);
        DecodeStep(src, ip, out, lits);
        DecodeExtends(src, s.next, CopyMatch(out + lits, s.offset, s.len));
      } else {
        DecodeEnd(src, ip, out, src[s.start..]);
      }
    }
  }

  /** A conforming rest that produces at least 5 bytes is at least 6 bytes long. */
  lemma {:induction false} ConformingRoom(src: seq<byte>, ip: nat, at: nat, total: nat)
    requires ip <= |src| && Conforming(src, ip, at, total) && at + LASTLITERALS <= total
    ensures ip + 1 + LASTLITERALS <= |src|
    decreases |src| - ip
  {
    var s := Parse(src, ip);
    if s.Match? {
      ConformingRoom(src, s.next, at + s.ll + s.len, total);
    }
  }

  /** What a block adds to its history. */
  ghost function Text(src: seq<byte>, hist: seq<byte>): (r: seq<byte>)
    requires Decode(src, 0, hist).Decoded?
    ensures Decode(src, 0, hist) == Decoded(hist + r)
  {
    DecodeExtends(src, 0, hist);
    Decode(src, 0, hist).out[|hist|..]
  }

  /** A block that decodes and respects the end-of-block restrictions. */
  ghost predicate WellFormed(src: seq<byte>, hist: seq<byte>) {
    Decode(src, 0, hist).Decoded? && Conforming(src, 0, 0, |Text(src, hist)|)
  }

  // ---------- History ----------

  /** A longer history changes nothing for a block that decodes without it. */
  lemma {:induction false} DecodeDrop(src: seq<byte>, ip: nat, back: seq<byte>, out: seq<byte>)
    requires ip <= |src| && Decode(src, ip, out).Decoded?
    ensures Decode(src, ip, back + out) == Decoded(back + Decode(src, ip, out).out)
    decreases |src| - ip
  {
    hide Decode, Parse, CopyMatch;
    var s := Parse(src, ip);
    DecodableHasNext(src, ip, out);
    if s.Match? {
      var lits := src[s.start..s.start + s.ll];
      var out' := CopyMatch(out + lits, s.offset, s.len);
      assert back + out + lits == back + (out + lits);
      CopyMatchDrop(back, out + lits, s.offset, s.len);
      DecodeStep(src, ip, out, lits);
      DecodeStep(src, ip, back + out, lits);
      DecodeDrop(src, s.next, back, out');
    } else {
      var lits := src[s.start..];
      assert back + out + lits == back + (out + lits);
      DecodeEnd(src, ip, out, lits);
      DecodeEnd(src, ip, back + out, lits);
    }
  }

  /** The block decodes to text after hist, and meets the end-of-block restrictions. */
  ghost predicate Represents(block: seq<byte>, hist: seq<byte>, text: seq<byte>) {
    Decode(block, 0, hist) == Decoded(hist + text) && Conforming(block, 0, 0, |text|)
  }

  lemma RepresentsBehind(block: seq<byte>, back: seq<byte>, hist: seq<byte>, text: seq<byte>)
    requires Represents(block, hist, text)
    ensures Represents(block, back + hist, text)
  {
    hide Conforming;
    DecodeDrop(block, 0, back, hist);
    assert back + (hist + text) == back + hist + text;
  }

  lemma RepresentsIsWellFormed(block: seq<byte>, hist: seq<byte>, text: seq<byte>)
    requires Represents(block, hist, text)
    ensures WellFormed(block, hist) && Text(block, hist) == text
  {
    assert hist + Text(block, hist) == hist + text;
    assert (hist + Text(block, hist))[|hist|..] == (hist + text)[|hist|..];
  }
}
