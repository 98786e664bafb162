/** What the bytes of a block mean, with every number written out. */
module KnownBlocks {
  import BlockDecoder
  import opened BlockDecompress
  import opened BlockEncoder
  import opened BlockFormat
  import opened BlockSequences
  import opened BlockStream
  import opened GreedyParse

  /** out is start, then n bytes each equal to the one o places before it, then end. */
  ghost predicate Copies(out: seq<byte>, start: seq<byte>, o: nat, n: nat, end: seq<byte>) {
    && |out| == |start| + n + |end| && 1 <= o <= |start|
    && out[..|start|] == start && out[|start| + n..] == end
    && forall k :: |start| <= k < |start| + n ==> out[k] == out[k - o]
  }

  /** A length: four bits in the token, and, if they are 15, k bytes of 255 and a byte x below 255. */
  datatype Field = Field(bits: nat, k: nat, x: byte) {
    predicate Ok() { bits <= 15 && x < 255 }

    function Value(): nat { if bits < 15 then bits else 15 + 255 * k + x }

    function Bytes(): seq<byte> { if bits < 15 then [] else seq(k, _ => 255) + [x] }
  }

  /** A token, literals, an offset in two bytes, low byte first, a match, and up to 14 last literals. */
  function OneMatch(ll: Field, l: seq<byte>, o: nat, ml: Field, t: seq<byte>): seq<byte>
    requires ll.Ok() && ml.Ok() && o < 65536 && |t| < 15
  {
    [(16 * ll.bits + ml.bits) as byte] + ll.Bytes() + l + [(o % 256) as byte, (o / 256) as byte] + ml.Bytes()
    + [(16 * |t|) as byte] + t
  }

  lemma {:induction false} RunIs(src: seq<byte>, ip: nat, k: nat, x: byte)
    requires x < 255 && ip + k + 1 <= |src| && src[ip + k] == x && forall i :: ip <= i < ip + k ==> src[i] == 255
    ensures ReadExt(src, ip) == Length(255 * k + x, ip + k + 1)
    decreases k
  {
    if k > 0 { RunIs(src, ip + 1, k - 1, x); }
  }

  lemma FieldRead(src: seq<byte>, ip: nat, f: Field)
    requires f.Ok() && ip + |f.Bytes()| <= |src| && src[ip..ip + |f.Bytes()|] == f.Bytes()
    ensures ReadLength(src, ip, f.bits) == Length(f.Value(), ip + |f.Bytes()|)
  {
    if f.bits == 15 {
      assert src[ip + f.k] == src[ip..ip + |f.Bytes()|][f.k];
      forall i | ip <= i < ip + f.k ensures src[i] == 255 { assert src[i] == src[ip..ip + |f.Bytes()|][i - ip]; }
      RunIs(src, ip, f.k, f.x);
    }
  }

  /** The parts of a block, and where they stand. */
  lemma Parts(a: seq<byte>, b: seq<byte>, c: seq<byte>, d: seq<byte>, e: seq<byte>, f: seq<byte>, g: seq<byte>)
    ensures var s, p, q, r := a + b + c + d + e + f + g, |a| + |b|, |a| + |b| + |c| + |d|, |a| + |b| + |c| + |d| + |e| + |f|;
      && s[..|a|] == a && s[|a|..p] == b && s[p..p + |c|] == c && s[p + |c|..q] == d && s[q..q + |e|] == e
      && s[q + |e|..r] == f && s[r..] == g
  {
  }

  lemma ParseMatch(b: seq<byte>, n: nat, p: nat, o: nat, len: nat, q: nat)
    requires |b| > 0 && ReadLength(b, 1, b[0] / 16) == Length(n, p) && p + n + 2 <= |b|
    requires o < 65536 && b[p + n] as int == o % 256 && b[p + n + 1] as int == o / 256
    requires ReadLength(b, p + n + 2, b[0] % 16) == Length(len, q)
    ensures Parse(b, 0) == Match(p, n, o, len + 4, q)
  {
    hide ReadLength;
  }

  lemma ParseLast(b: seq<byte>, q: nat, n: nat)
    requires q < |b| && b[q] as int == 16 * n && n < 15 && q + 1 + n == |b|
    ensures Parse(b, q) == Last(q + 1, n)
  {
  }

  /** Where the parts of such a block are. */
  lemma OneMatchPlaces(ll: Field, l: seq<byte>, o: nat, ml: Field, t: seq<byte>)
    requires ll.Ok() && ml.Ok() && o < 65536 && |t| < 15
    ensures var b, p, q := OneMatch(ll, l, o, ml, t), 1 + |ll.Bytes()|, 3 + |ll.Bytes()| + |l| + |ml.Bytes()|;
      && |b| == q + 1 + |t| && b[0] as int == 16 * ll.bits + ml.bits && b[q] as int == 16 * |t|
      && b[1..p] == ll.Bytes() && b[p..p + |l|] == l && b[p + |l| + 2..q] == ml.Bytes() && b[q + 1..] == t
      && b[p + |l|] as int == o % 256 && b[p + |l| + 1] as int == o / 256
  {
    hide Field.Bytes;
    var b, p, q := OneMatch(ll, l, o, ml, t), 1 + |ll.Bytes()|, 3 + |ll.Bytes()| + |l| + |ml.Bytes()|;
    Parts([(16 * ll.bits + ml.bits) as byte], ll.Bytes(), l, [(o % 256) as byte, (o / 256) as byte], ml.Bytes(), [(16 * |t|) as byte], t);
    assert b[0] == b[..1][0] && b[q] == b[q..q + 1][0];
    assert b[p + |l|] == b[p + |l|..p + |l| + 2][0] && b[p + |l| + 1] == b[p + |l|..p + |l| + 2][1];
  }

  lemma OneMatchParses(ll: Field, l: seq<byte>, o: nat, ml: Field, t: seq<byte>)
    requires ll.Ok() && ml.Ok() && o < 65536 && |t| < 15 && |l| == ll.Value()
    ensures var b, p, q := OneMatch(ll, l, o, ml, t), 1 + |ll.Bytes()|, 3 + |ll.Bytes()| + |l| + |ml.Bytes()|;
      && q < |b| && b[p..p + |l|] == l && b[q + 1..] == t && |b| == q + 1 + |t|
      && Parse(b, 0) == Match(p, |l|, o, ml.Value() + 4, q) && Parse(b, q) == Last(q + 1, |t|)
  {
    hide Field.Bytes, Field.Value, ReadLength, Parse, OneMatch;
    var b, p, q := OneMatch(ll, l, o, ml, t), 1 + |ll.Bytes()|, 3 + |ll.Bytes()| + |l| + |ml.Bytes()|;
    OneMatchPlaces(ll, l, o, ml, t);
    FieldRead(b, 1, ll);
    FieldRead(b, p + |l| + 2, ml);
    ParseMatch(b, |l|, p, o, ml.Value(), q);
    ParseLast(b, q, |t|);
  }

  /**
    The meaning of a block of one match: behind the history hist, the literals, the match, the last literals. It respects
    the end-of-block restrictions if and only if 5 bytes follow the match and 12 bytes its beginning.
   */
  lemma OneMatchDecodes(ll: Field, l: seq<byte>, o: nat, ml: Field, t: seq<byte>, hist: seq<byte>)
    requires ll.Ok() && ml.Ok() && |t| < 15 && |l| == ll.Value() && 1 <= o < 65536 && o <= |hist| + |l|
    ensures var b := OneMatch(ll, l, o, ml, t);
      && Decode(b, 0, hist).Decoded? && Copies(Decode(b, 0, hist).out, hist + l, o, ml.Value() + 4, t)
      && (WellFormed(b, hist) <==> |t| >= 5 && ml.Value() + 4 + |t| >= 12)
  {
    hide Parse, OneMatch, Field.Bytes, Field.Value, Copies, Decode, WellFormed;
    OneMatchParses(ll, l, o, ml, t);
    TwoSequences(OneMatch(ll, l, o, ml, t), 1 + |ll.Bytes()|, l, o, ml.Value() + 4, 3 + |ll.Bytes()| + |l| + |ml.Bytes()|, t, hist);
  }

  lemma TwoSequences(b: seq<byte>, p: nat, l: seq<byte>, o: nat, len: nat, q: nat, t: seq<byte>, hist: seq<byte>)
    requires p + |l| <= |b| && q + 1 + |t| == |b| && b[p..p + |l|] == l && b[q + 1..] == t && len >= 4
    requires 1 <= o <= |hist| + |l| && Parse(b, 0) == Match(p, |l|, o, len, q) && Parse(b, q) == Last(q + 1, |t|)
    ensures Decode(b, 0, hist).Decoded? && Copies(Decode(b, 0, hist).out, hist + l, o, len, t)
    ensures WellFormed(b, hist) <==> |t| >= 5 && len + |t| >= 12
  {
    hide Parse, CopyMatch, Copies, Decode, Conforming;
    var copied := CopyMatch(hist + l, o, len);
    DecodeStep(b, 0, hist, l);
    DecodeEnd(b, q, copied, t);
    CopyMatchAt(hist + l, o, len);
    Ended(copied, hist + l, o, len, t);
    assert |hist + Text(b, hist)| == |copied + t|;
    ConformsIf(b, p, |l|, o, len, q, |t|, |Text(b, hist)|);
  }

  lemma ConformsIf(b: seq<byte>, p: nat, n: nat, o: nat, len: nat, q: nat, k: nat, total: nat)
    requires q <= |b| && Parse(b, 0) == Match(p, n, o, len, q) && Parse(b, q) == Last(q + 1, k) && total == n + len + k
    ensures Conforming(b, 0, 0, total) <==> k >= 5 && len + k >= 12
  {
    hide Parse;
  }

  lemma Ended(copied: seq<byte>, start: seq<byte>, o: nat, n: nat, end: seq<byte>)
    requires 1 <= o <= |start| && |copied| == |start| + n && copied[..|start|] == start
    requires forall k :: |start| <= k < |start| + n ==> copied[k] == copied[k - o]
    ensures Copies(copied + end, start, o, n, end)
  {
    var out := copied + end;
    assert out[..|start|] == copied[..|start|];
    forall k | |start| <= k < |start| + n ensures out[k] == out[k - o] { assert copied[k] == copied[k - o]; }
  }

  /** LZ4_decompress_safe on such a block, with room for exactly what it stands for. */
  method DecompressOneMatch(src: seq<byte>, dst: array<byte>, ghost ll: Field, ghost l: seq<byte>, ghost o: nat,
                            ghost ml: Field, ghost t: seq<byte>)
    returns (r: int)
    requires ll.Ok() && ml.Ok() && 5 <= |t| < 15 && |l| == ll.Value() && 1 <= o < 65536 && o <= |l|
    requires src == OneMatch(ll, l, o, ml, t) && ml.Value() + 4 + |t| >= 12
    requires dst.Length == |l| + ml.Value() + 4 + |t| <= 0x7FFF_FFFF && |src| <= 0x7FFF_FFFF
    modifies dst
    ensures r == dst.Length && Copies(dst[..], l, o, ml.Value() + 4, t)
  {
    hide OneMatch, Field.Value, Copies, BlockDecoder.TakesRun, BlockDecoder.DecodedWell, BlockDecoder.FieldsFit, WellFormed, Decode;
    OneMatchText(ll, l, o, ml, t);
    r := DecompressSafe(src, dst, 0, dst.Length);
    assert dst[0..r] == dst[..];
  }

  lemma OneMatchText(ll: Field, l: seq<byte>, o: nat, ml: Field, t: seq<byte>)
    requires ll.Ok() && ml.Ok() && 5 <= |t| < 15 && |l| == ll.Value() && 1 <= o < 65536 && o <= |l| && ml.Value() + 4 + |t| >= 12
    ensures var b := OneMatch(ll, l, o, ml, t);
      && WellFormed(b, []) && |Text(b, [])| == |l| + ml.Value() + 4 + |t| && Copies(Text(b, []), l, o, ml.Value() + 4, t)
  {
    hide OneMatch, Field.Value, WellFormed, Decode;
    OneMatchDecodes(ll, l, o, ml, t, []);
    assert [] + l == l;
    TextOf(OneMatch(ll, l, o, ml, t), l, o, ml.Value() + 4, t);
  }

  lemma TextOf(b: seq<byte>, l: seq<byte>, o: nat, n: nat, t: seq<byte>)
    requires Decode(b, 0, []).Decoded? && Copies(Decode(b, 0, []).out, l, o, n, t)
    ensures Copies(Text(b, []), l, o, n, t)
  {
    hide Decode;
    assert [] + Text(b, []) == Text(b, []);
  }

  /** abcd, the same four bytes again twice, and five last literals. */
  lemma AbcdTwice()
    ensures Decode([0x44, 97, 98, 99, 100, 0x04, 0x00, 0x50, 118, 119, 120, 121, 122], 0, [])
         == Decoded([97, 98, 99, 100, 97, 98, 99, 100, 97, 98, 99, 100, 118, 119, 120, 121, 122])
  {
    hide Decode, Copies;
    var l, t := [97, 98, 99, 100], [118, 119, 120, 121, 122];
    var b := OneMatch(Field(4, 0, 0), l, 4, Field(4, 0, 0), t);
    assert b == [0x44, 97, 98, 99, 100, 0x04, 0x00, 0x50, 118, 119, 120, 121, 122];
    OneMatchDecodes(Field(4, 0, 0), l, 4, Field(4, 0, 0), t, []);
    assert [] + l == l;
    AbcdCopies();
    OnlyCopies(Decode(b, 0, []).out, [97, 98, 99, 100, 97, 98, 99, 100, 97, 98, 99, 100, 118, 119, 120, 121, 122], l, 4, 8, t);
  }

  lemma AbcdConforms()
    ensures Conforming([0x44, 97, 98, 99, 100, 0x04, 0x00, 0x50, 118, 119, 120, 121, 122], 0, 0, 17)
  {
    hide Decode, Conforming;
    var l, t := [97, 98, 99, 100], [118, 119, 120, 121, 122];
    var b := OneMatch(Field(4, 0, 0), l, 4, Field(4, 0, 0), t);
    assert b == [0x44, 97, 98, 99, 100, 0x04, 0x00, 0x50, 118, 119, 120, 121, 122];
    OneMatchDecodes(Field(4, 0, 0), l, 4, Field(4, 0, 0), t, []);
    AbcdTwice();
  }

  lemma AbcdCopies()
    ensures Copies([97, 98, 99, 100, 97, 98, 99, 100, 97, 98, 99, 100, 118, 119, 120, 121, 122], [97, 98, 99, 100], 4, 8,
                   [118, 119, 120, 121, 122])
  {
  }

  lemma OnlyCopies(out: seq<byte>, out': seq<byte>, start: seq<byte>, o: nat, n: nat, end: seq<byte>)
    requires Copies(out, start, o, n, end) && Copies(out', start, o, n, end)
    ensures out == out'
  {
    hide Decode;
    SameCopies(out, out', start, o, n, end, |start| + n);
    assert out == out[..|start| + n] + out[|start| + n..];
    assert out' == out'[..|start| + n] + out'[|start| + n..];
  }

  lemma {:induction false} SameCopies(out: seq<byte>, out': seq<byte>, start: seq<byte>, o: nat, n: nat, end: seq<byte>, k: nat)
    requires Copies(out, start, o, n, end) && Copies(out', start, o, n, end) && |start| <= k <= |start| + n
    ensures out[..k] == out'[..k]
    decreases k
  {
    if k > |start| {
      SameCopies(out, out', start, o, n, end, k - 1);
      assert out[k - 1] == out[k - 1 - o] == out[..k - 1][k - 1 - o] == out'[..k - 1][k - 1 - o] == out'[k - 1];
      assert out[..k] == out[..k - 1] + [out[k - 1]] && out'[..k] == out'[..k - 1] + [out'[k - 1]];
    }
  }

  // ---------- The block of n equal bytes ----------

  /** A literal, a match one byte back that ends five bytes before the end, and the last five bytes. */
  function Run(b: byte, n: nat): seq<byte>
    requires n >= 25
  {
    [0x1F, b, 0x01, 0x00] + seq((n - 25) / 255, _ => 255) + [((n - 25) % 255) as byte] + [0x50, b, b, b, b, b]
  }

  lemma RunExt(n: nat)
    requires n >= 25
    ensures Ext(n - 10) == seq((n - 25) / 255, _ => 255) + [((n - 25) % 255) as byte]
  {
    hide Ext255;
    IsExt255(seq((n - 25) / 255, _ => 255) + [((n - 25) % 255) as byte], n - 25);
  }

  lemma RunEmitted(b: byte, n: nat, last: seq<byte>)
    requires n >= 25 && last == [b, b, b, b, b]
    ensures Emit(Sequence([b], 1, n - 6)) + EmitLast(last) == Run(b, n)
  {
    hide Ext;
    RunExt(n);
    assert Emit(Sequence([b], 1, n - 6)) == [0x1F, b, 0x01, 0x00] + Ext(n - 10) by { OneLiteral(); }
    assert EmitLast(last) == [0x50, b, b, b, b, b] by { FiveLiterals(); }
  }

  lemma OneLiteral()
    ensures Ext(1) == []
  {
  }

  lemma FiveLiterals()
    ensures Ext(5) == []
  {
  }

  /** What LZ4_compress_fast makes of n equal bytes. */
  lemma RunPlanned(b: byte, n: nat, acceleration: int)
    requires n >= 25
    ensures FastPlan(seq(n, _ => b), acceleration).Bytes() == Run(b, n)
  {
    hide Emit, EmitLast, PlanFor, Plan.Bytes;
    var text := seq(n, _ => b);
    UniformBlock(FastPlan(text, acceleration).setup, seq(HASHENTRIES, _ => 0));
    assert text[..1] == [b] && text[n - 5..] == [b, b, b, b, b];
    RunEmitted(b, n, [b, b, b, b, b]);
  }

  /** 4096 times A: 26 bytes. */
  lemma FirmwareChunk()
    ensures FastPlan(seq(4096, _ => 65), 1).Bytes()
         == [0x1F, 65, 0x01, 0x00] + seq(15, _ => 255) + [0xF6] + [0x50, 65, 65, 65, 65, 65]
  {
    hide PlanFor, Plan.Bytes;
    RunPlanned(65, 4096, 1);
  }

  /** LZ4_compress_fast on n equal bytes, with any room: the block if there is room for it, nothing otherwise. */
  method CompressRun(b: byte, n: nat, dst: array<byte>, acceleration: int) returns (result: nat)
    requires 25 <= n <= 0x7E00_0000
    modifies dst
    ensures if dst.Length < |Run(b, n)| then result == 0 else result == |Run(b, n)| && dst[0..result] == Run(b, n)
  {
    hide PlanFor, Plan.Bytes, Run;
    var src := new byte[n](_ => b);
    RunPlanned(b, n, acceleration);
    assert src[0..n] == seq(n, _ => b);
    result := CompressFast(src, 0, n, dst, 0, dst.Length, acceleration);
    assert |dst[0..result]| == result;
  }
}
