/** Blocks as lists of sequences: how they are written, and that reading them back gives the text they describe. */
module BlockSequences {
  import opened BlockFormat

  /** Literals followed by a match of len bytes, offset bytes back. */
  datatype Sequence = Sequence(literals: seq<byte>, offset: nat, len: nat)

  predicate Encodable(s: Sequence) {
    1 <= s.offset <= MAXDISTANCE && s.len >= MINMATCH
  }

  // ---------- Writing ----------

  function Nibble(n: nat): nat { if n < 15 then n else 15 }

  function Ext255(n: nat): seq<byte> {
    if n < 255 then [n] else [255] + Ext255(n - 255)
  }

  /** The bytes of a length that do not fit the token. */
  function Ext(n: nat): seq<byte> {
    if n < 15 then [] else Ext255(n - 15)
  }

  function Head(ll: nat, mlNibble: nat): seq<byte>
    requires mlNibble <= 15
  {
    [16 * Nibble(ll) + mlNibble] + Ext(ll)
  }

  function LE16(n: nat): seq<byte>
    requires n <= MAXDISTANCE
  {
    [n % 256, n / 256]
  }

  function Emit(s: Sequence): seq<byte>
    requires Encodable(s)
  {
    Head(|s.literals|, Nibble(s.len - MINMATCH)) + s.literals + LE16(s.offset) + Ext(s.len - MINMATCH)
  }

  function EmitLast(literals: seq<byte>): seq<byte> {
    Head(|literals|, 0) + literals
  }

  function EmitAll(ss: seq<Sequence>): seq<byte>
    requires forall s :: s in ss ==> Encodable(s)
  {
    if ss == [] then [] else EmitAll(ss[..|ss| - 1]) + Emit(ss[|ss| - 1])
  }

  // ---------- Meaning ----------

  function TextLength(ss: seq<Sequence>): nat {
    if ss == [] then 0
    else TextLength(ss[..|ss| - 1]) + |ss[|ss| - 1].literals| + ss[|ss| - 1].len
  }

  /** Every match of ss refers to bytes that exist when it is reached. */
  predicate Applies(hist: seq<byte>, ss: seq<Sequence>) {
    ss == [] ||
    (var front, s := ss[..|ss| - 1], ss[|ss| - 1];
     Applies(hist, front) && Encodable(s) && s.offset <= |hist| + TextLength(front) + |s.literals|)
  }

  /** The history followed by the text that ss describes. */
  function Expand(hist: seq<byte>, ss: seq<Sequence>): (r: seq<byte>)
    requires Applies(hist, ss)
    ensures |r| == |hist| + TextLength(ss)
  {
    if ss == [] then hist
    else
      var front, s := ss[..|ss| - 1], ss[|ss| - 1];
      CopyMatch(Expand(hist, front) + s.literals, s.offset, s.len)
  }

  lemma {:induction false} AppliesEncodable(hist: seq<byte>, ss: seq<Sequence>)
    requires Applies(hist, ss)
    ensures forall s :: s in ss ==> Encodable(s)
  {
    if ss != [] {
      AppliesEncodable(hist, ss[..|ss| - 1]);
      assert ss == ss[..|ss| - 1] + [ss[|ss| - 1]];
    }
  }

  /** The last match obeys the end-of-block restrictions for a text of total bytes; so do then the others. */
  predicate EndsWell(ss: seq<Sequence>, total: nat) {
    ss == [] ||
    (TextLength(ss) - ss[|ss| - 1].len + MFLIMIT <= total && TextLength(ss) + LASTLITERALS <= total)
  }

  // ---------- Reading back ----------

  lemma {:induction false} ReadExtEmitted(pre: seq<byte>, n: nat, post: seq<byte>)
    ensures ReadExt(pre + Ext255(n) + post, |pre|) == Length(n, |pre| + |Ext255(n)|)
    decreases n
  {
    var src := pre + Ext255(n) + post;
    if n < 255 {
      assert src[|pre|] == n;
    } else {
      assert src[|pre|] == 255;
      assert src == (pre + [255]) + Ext255(n - 255) + post;
      ReadExtEmitted(pre + [255], n - 255, post);
    }
  }

  lemma ReadLengthEmitted(pre: seq<byte>, n: nat, post: seq<byte>)
    ensures ReadLength(pre + Ext(n) + post, |pre|, Nibble(n)) == Length(n, |pre| + |Ext(n)|)
  {
    if n >= 15 { ReadExtEmitted(pre, n - 15, post); }
  }

  lemma ParseFrom(block: seq<byte>, ip: nat, p: nat, ll: nat, ml: nat, next: nat)
    requires ip < |block| && ll <= p && p + 2 <= |block|
    requires ReadLength(block, ip + 1, block[ip] / 16) == Length(ll, p - ll)
    requires ReadLength(block, p + 2, block[ip] % 16) == Length(ml, next)
    ensures Parse(block, ip) == Match(p - ll, ll, ReadLE16(block, p), ml + MINMATCH, next)
  {
  }

  /** Reading back one length field, wherever it stands. */
  lemma ReadLengthAt(block: seq<byte>, pre: seq<byte>, n: nat, post: seq<byte>)
    requires block == pre + (Ext(n) + post)
    ensures ReadLength(block, |pre|, Nibble(n)) == Length(n, |pre| + |Ext(n)|)
  {
    assert block == pre + Ext(n) + post;
    ReadLengthEmitted(pre, n, post);
  }

  /** The two ways of splitting an emitted sequence just before one of its length fields. */
  lemma Split(pre: seq<byte>, t: seq<byte>, e1: seq<byte>, lits: seq<byte>, off: seq<byte>, e2: seq<byte>, post: seq<byte>)
    ensures var block := pre + (t + e1 + lits + off + e2) + post;
      && block == (pre + t) + (e1 + (lits + off + e2 + post))
      && block == (pre + t + e1 + lits + off) + (e2 + post)
  {
  }

  lemma Places(pre: seq<byte>, t: seq<byte>, e1: seq<byte>, lits: seq<byte>, off: seq<byte>, rest: seq<byte>)
    requires |t| == 1 && |off| == 2
    ensures var block := (pre + t + e1 + lits + off) + rest; var n := |pre| + 1 + |e1|;
      && block[|pre|] == t[0]
      && block[n..n + |lits|] == lits
      && block[n + |lits|] == off[0] && block[n + |lits| + 1] == off[1]
  {
  }

  lemma ParseEmitted(pre: seq<byte>, s: Sequence, post: seq<byte>)
    requires Encodable(s)
    ensures var block := pre + Emit(s) + post; var n := |pre| + 1 + |Ext(|s.literals|)|;
      && Parse(block, |pre|) == Match(n, |s.literals|, s.offset, s.len, |pre| + |Emit(s)|)
      && block[n..n + |s.literals|] == s.literals
  {
    hide Parse, ReadLength, Ext;
    var ll, ml := |s.literals|, s.len - MINMATCH;
    var t: seq<byte>, off := [16 * Nibble(ll) + Nibble(ml)], LE16(s.offset);
    var e1, e2 := Ext(ll), Ext(ml);
    var block := pre + (t + e1 + s.literals + off + e2) + post;
    assert block == pre + Emit(s) + post;
    Split(pre, t, e1, s.literals, off, e2, post);
    Places(pre, t, e1, s.literals, off, e2 + post);
    ReadLengthAt(block, pre + t, ll, s.literals + off + e2 + post);
    ReadLengthAt(block, pre + t + e1 + s.literals + off, ml, post);
    var p := |pre| + 1 + |e1| + ll;
    ParseFrom(block, |pre|, p, ll, ml, p + 2 + |e2|);
  }

  lemma ParseLastEmitted(pre: seq<byte>, literals: seq<byte>)
    ensures var block := pre + EmitLast(literals); var n := |pre| + 1 + |Ext(|literals|)|;
      Parse(block, |pre|) == Last(n, |literals|) && block[n..] == literals
  {
    var ll := |literals|;
    var block := pre + EmitLast(literals);
    var token := [16 * Nibble(ll)];
    assert block == (pre + token) + Ext(ll) + literals;
    ReadLengthEmitted(pre + token, ll, literals);
    assert block[|pre|] == token[0];
  }

  lemma ConformingStep(block: seq<byte>, ip: nat, at: nat, total: nat)
    requires ip <= |block| && Parse(block, ip).Match?
    requires var s := Parse(block, ip);
      && at + s.ll + MFLIMIT <= total && at + s.ll + s.len + LASTLITERALS <= total
      && Conforming(block, s.next, at + s.ll + s.len, total)
    ensures Conforming(block, ip, at, total)
  {
  }

  lemma ConformingEnd(block: seq<byte>, ip: nat, at: nat, total: nat)
    requires ip <= |block| && Parse(block, ip).Last? && at + Parse(block, ip).ll == total
    ensures Conforming(block, ip, at, total)
  {
  }

  /** A list and its last sequence, taken apart. */
  lemma LastSequence(hist: seq<byte>, ss: seq<Sequence>)
    requires ss != [] && Applies(hist, ss) && forall s :: s in ss ==> Encodable(s)
    ensures var front, s := ss[..|ss| - 1], ss[|ss| - 1];
      && Applies(hist, front) && (forall t :: t in front ==> Encodable(t)) && Encodable(s)
      && s.offset <= |Expand(hist, front)| + |s.literals|
      && Expand(hist, ss) == CopyMatch(Expand(hist, front) + s.literals, s.offset, s.len)
      && EmitAll(ss) == EmitAll(front) + Emit(s)
      && TextLength(ss) == TextLength(front) + |s.literals| + s.len
  {
  }

  lemma Regroup(pre: seq<byte>, middle: seq<byte>, post: seq<byte>)
    ensures pre + middle + post == pre + (middle + post)
    ensures |pre + middle| == |pre| + |middle|
  {
  }

  /** Decoding an emitted block from its start is decoding the part after ss from what ss describes. */
  lemma {:induction false} DecodeEmitted(hist: seq<byte>, ss: seq<Sequence>, post: seq<byte>)
    requires Applies(hist, ss) && forall s :: s in ss ==> Encodable(s)
    ensures Decode(EmitAll(ss) + post, 0, hist) == Decode(EmitAll(ss) + post, |EmitAll(ss)|, Expand(hist, ss))
    decreases |ss|
  {
    if ss != [] {
      DecodeEmittedLast(hist, ss, post);
      DecodeEmitted(hist, ss[..|ss| - 1], Emit(ss[|ss| - 1]) + post);
    }
  }

  lemma DecodeEmittedLast(hist: seq<byte>, ss: seq<Sequence>, post: seq<byte>)
    requires ss != [] && Applies(hist, ss) && forall s :: s in ss ==> Encodable(s)
    ensures var front, s := ss[..|ss| - 1], ss[|ss| - 1];
      && Applies(hist, front) && (forall t :: t in front ==> Encodable(t))
      && EmitAll(ss) + post == EmitAll(front) + (Emit(s) + post)
      && Decode(EmitAll(ss) + post, |EmitAll(front)|, Expand(hist, front))
         == Decode(EmitAll(ss) + post, |EmitAll(ss)|, Expand(hist, ss))
  {
    hide EmitAll, Expand, Applies, TextLength, Emit, Decode, Parse, CopyMatch;
    var front, s := ss[..|ss| - 1], ss[|ss| - 1];
    LastSequence(hist, ss);
    Regroup(EmitAll(front), Emit(s), post);
    ParseEmitted(EmitAll(front), s, post);
    DecodeStep(EmitAll(ss) + post, |EmitAll(front)|, Expand(hist, front), s.literals);
  }

  /** A list of sequences and last literals, written and read back, gives the text they describe. */
  lemma RoundTrip(hist: seq<byte>, ss: seq<Sequence>, last: seq<byte>)
    requires Applies(hist, ss) && forall s :: s in ss ==> Encodable(s)
    ensures Decode(EmitAll(ss) + EmitLast(last), 0, hist) == Decoded(Expand(hist, ss) + last)
  {
    hide EmitAll, Expand, Applies, Decode, EmitLast, Parse;
    DecodeEmitted(hist, ss, EmitLast(last));
    ParseLastEmitted(EmitAll(ss), last);
    DecodeEnd(EmitAll(ss) + EmitLast(last), |EmitAll(ss)|, Expand(hist, ss), last);
  }

  lemma {:induction false} ConformingEmitted(hist: seq<byte>, ss: seq<Sequence>, post: seq<byte>, total: nat)
    requires Applies(hist, ss) && forall s :: s in ss ==> Encodable(s)
    requires EndsWell(ss, total)
    requires Conforming(EmitAll(ss) + post, |EmitAll(ss)|, TextLength(ss), total)
    ensures Conforming(EmitAll(ss) + post, 0, 0, total)
    decreases |ss|
  {
    if ss != [] {
      EndsWellFront(hist, ss, total);
      ConformingEmittedLast(hist, ss, post, total);
      ConformingEmitted(hist, ss[..|ss| - 1], Emit(ss[|ss| - 1]) + post, total);
    }
  }

  lemma EndsWellFront(hist: seq<byte>, ss: seq<Sequence>, total: nat)
    requires ss != [] && Applies(hist, ss) && (forall s :: s in ss ==> Encodable(s)) && EndsWell(ss, total)
    ensures EndsWell(ss[..|ss| - 1], total)
  {
    var front := ss[..|ss| - 1];
    if front != [] { assert front[|front| - 1] in front; }
  }

  lemma ConformingEmittedLast(hist: seq<byte>, ss: seq<Sequence>, post: seq<byte>, total: nat)
    requires ss != [] && Applies(hist, ss) && (forall s :: s in ss ==> Encodable(s)) && EndsWell(ss, total)
    requires Conforming(EmitAll(ss) + post, |EmitAll(ss)|, TextLength(ss), total)
    ensures var front, s := ss[..|ss| - 1], ss[|ss| - 1];
      && Applies(hist, front) && (forall t :: t in front ==> Encodable(t))
      && EmitAll(ss) + post == EmitAll(front) + (Emit(s) + post)
      && Conforming(EmitAll(ss) + post, |EmitAll(front)|, TextLength(front), total)
  {
    hide EmitAll, Expand, Applies, TextLength, Emit, Conforming, Parse, CopyMatch;
    var front, s := ss[..|ss| - 1], ss[|ss| - 1];
    LastSequence(hist, ss);
    ParseEmitted(EmitAll(front), s, post);
    Regroup(EmitAll(front), Emit(s), post);
    var block, ip, at := EmitAll(ss) + post, |EmitAll(front)|, TextLength(front);
    assert Parse(block, ip).next == |EmitAll(ss)|;
    ConformingStep(block, ip, at, total);
  }

  /** With the end-of-block restrictions respected, the written block is well formed. */
  lemma WellFormedEmitted(hist: seq<byte>, ss: seq<Sequence>, last: seq<byte>)
    requires Applies(hist, ss) && forall s :: s in ss ==> Encodable(s)
    requires EndsWell(ss, TextLength(ss) + |last|)
    ensures var block := EmitAll(ss) + EmitLast(last);
      && Decode(block, 0, hist) == Decoded(Expand(hist, ss) + last)
      && Conforming(block, 0, 0, TextLength(ss) + |last|)
  {
    hide EmitAll, Expand, Applies, TextLength, EmitLast, Decode, Conforming, Parse;
    RoundTrip(hist, ss, last);
    ParseLastEmitted(EmitAll(ss), last);
    ConformingEnd(EmitAll(ss) + EmitLast(last), |EmitAll(ss)|, TextLength(ss), TextLength(ss) + |last|);
    ConformingEmitted(hist, ss, EmitLast(last), TextLength(ss) + |last|);
  }

  // ---------- Growing a list ----------

  /** The len bytes of whole at p are a copy of those offset positions earlier. */
  ghost predicate Genuine(whole: seq<byte>, p: nat, offset: nat, len: nat) {
    && 1 <= offset <= p && p + len <= |whole|
    && forall k :: p <= k < p + len ==> whole[k] == whole[k - offset]
  }

  lemma GenuineCopy(whole: seq<byte>, p: nat, offset: nat, len: nat)
    requires Genuine(whole, p, offset, len)
    ensures CopyMatch(whole[..p], offset, len) == whole[..p + len]
  {
    var r := whole[..p + len];
    assert r[..p] == whole[..p];
    CopyMatchUnique(whole[..p], offset, len, r);
  }

  lemma ExpandAppend(hist: seq<byte>, ss: seq<Sequence>, s: Sequence)
    requires Applies(hist, ss) && Encodable(s) && s.offset <= |hist| + TextLength(ss) + |s.literals|
    ensures Applies(hist, ss + [s])
    ensures TextLength(ss + [s]) == TextLength(ss) + |s.literals| + s.len
    ensures Expand(hist, ss + [s]) == CopyMatch(Expand(hist, ss) + s.literals, s.offset, s.len)
  {
    var ss' := ss + [s];
    assert ss'[..|ss'| - 1] == ss && ss'[|ss'| - 1] == s;
  }

  lemma TakeBoth(hist: seq<byte>, text: seq<byte>, i: nat, j: nat)
    requires i <= j <= |text|
    ensures hist + text[..i] + text[i..j] == (hist + text)[..|hist| + j] == hist + text[..j]
  {
  }

  lemma CopyStep(hist: seq<byte>, text: seq<byte>, anchor: nat, start: nat, offset: nat, len: nat)
    requires anchor <= start && start + len <= |text| && Genuine(hist + text, |hist| + start, offset, len)
    ensures CopyMatch(hist + text[..anchor] + text[anchor..start], offset, len) == hist + text[..start + len]
  {
    TakeBoth(hist, text, anchor, start);
    TakeBoth(hist, text, start, start + len);
    GenuineCopy(hist + text, |hist| + start, offset, len);
  }

  /** Appending a genuine match to a list that describes text up to anchor makes it describe text up to the match's end. */
  lemma ExtendList(hist: seq<byte>, ss: seq<Sequence>, text: seq<byte>, anchor: nat, start: nat, offset: nat, len: nat)
    requires Applies(hist, ss) && anchor <= start && start + len <= |text|
    requires Expand(hist, ss) == hist + text[..anchor]
    requires offset <= MAXDISTANCE && len >= MINMATCH && Genuine(hist + text, |hist| + start, offset, len)
    ensures var ss' := ss + [Sequence(text[anchor..start], offset, len)];
      && Applies(hist, ss')
      && Expand(hist, ss') == hist + text[..start + len]
      && TextLength(ss') == start + len
  {
    var s := Sequence(text[anchor..start], offset, len);
    assert |Expand(hist, ss)| == |hist| + TextLength(ss);
    CopyStep(hist, text, anchor, start, offset, len);
    ExpandAppend(hist, ss, s);
  }

  lemma EmitAllAppend(ss: seq<Sequence>, s: Sequence)
    requires (forall t :: t in ss ==> Encodable(t)) && Encodable(s)
    ensures forall t :: t in ss + [s] ==> Encodable(t)
    ensures EmitAll(ss + [s]) == EmitAll(ss) + Emit(s)
  {
    assert (ss + [s])[..|ss + [s]| - 1] == ss;
  }
}
