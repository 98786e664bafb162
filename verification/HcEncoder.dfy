/** Sequences as lz4hc.c writes them, and the matches it works with. */
module HcEncoder {
  import opened BlockFormat
  import opened BlockSequences
  import opened BlockEncoder
  import opened Memory

  /** A match of len bytes at position start of the block, offset bytes back. */
  datatype Hit = Hit(start: nat, len: nat, offset: nat) {
    function End(): nat { start + len }

    /** The same match without its first n bytes. */
    function Later(n: nat): Hit
      requires n <= len
    {
      Hit(start + n, len - n, offset)
    }
  }

  /** h is a match for the block whole[s..] that may be encoded: genuine, in reach, and away from the end of the block. */
  ghost predicate HitOk(whole: seq<byte>, s: nat, h: Hit) {
    && s + h.start + MFLIMIT <= |whole| && s + h.End() + LASTLITERALS <= |whole|
    && h.len >= MINMATCH && 1 <= h.offset <= MAXDISTANCE && Genuine(whole, s + h.start, h.offset, h.len)
  }

  lemma LaterOk(whole: seq<byte>, s: nat, h: Hit, n: nat)
    requires HitOk(whole, s, h) && n + MINMATCH <= h.len && s + h.start + n + MFLIMIT <= |whole|
    ensures HitOk(whole, s, h.Later(n))
  {
  }

  lemma ShorterOk(whole: seq<byte>, s: nat, h: Hit, n: nat)
    requires HitOk(whole, s, h) && MINMATCH <= n <= h.len
    ensures HitOk(whole, s, h.(len := n))
  {
  }

  // ---------- Writing ----------

  /** The sequences ss are written, describe the block whole[s..] up to anchor, and the block may end behind them. */
  ghost predicate Standing(dst: array<byte>, d0: nat, op: nat, room: Room, ss: seq<Sequence>, whole: seq<byte>, s: nat, anchor: nat)
    reads dst
  {
    && d0 <= op <= room.olimit <= dst.Length && s <= |whole| && TextLength(ss) == anchor
    && Describes(dst[d0..op], ss, whole[..s], whole[s..], anchor)
    && EndsWell(ss, |whole| - s) && Compact(d0, op, anchor)
    && (room.limit.NotLimited? ==> d0 + CompressBound(|whole| - s) <= room.olimit)
  }

  /** The match-length writer: two bytes at a time. */
  method WritePairs(dst: array<byte>, op0: nat, len0: nat) returns (op: nat)
    requires op0 + len0 / 255 + 1 <= dst.Length
    modifies dst
    ensures op == op0 + len0 / 255 + 1 && dst[op0..op] == Ext255(len0)
    ensures forall i :: 0 <= i < dst.Length && !(op0 <= i < op) ==> dst[i] == old(dst[i])
  {
    hide Ext255;
    op := op0;
    var length := len0;
    while length >= 510
      invariant op0 <= op && len0 - length == 255 * (op - op0)
      invariant forall i :: op0 <= i < op ==> dst[i] == 255
      invariant forall i :: 0 <= i < dst.Length && !(op0 <= i < op) ==> dst[i] == old(dst[i])
    {
      dst[op], dst[op + 1] := 255, 255;
      op := op + 2;
      length := length - 510;
    }
    if length >= 255 {
      length := length - 255;
      dst[op] := 255;
      op := op + 1;
    }
    dst[op] := length;
    op := op + 1;
    IsExt255(dst[op0..op], len0);
  }

  /** Offset and match length behind the literals. */
  method WriteMatch(dst: array<byte>, token: nat, op0: nat, room: Room, offset: nat, matchLength: nat) returns (ok: bool, op: nat)
    requires token < op0 && op0 + 2 <= room.olimit <= dst.Length && dst[token] as int % 16 == 0
    requires offset <= MAXDISTANCE && matchLength >= MINMATCH && !room.limit.FillOutput?
    requires room.limit.NotLimited? ==> op0 + 2 + (matchLength - MINMATCH) / 255 + (1 + LASTLITERALS) <= room.olimit
    modifies dst
    ensures !ok ==> room.limit.LimitedOutput? && op0 + 2 + (matchLength - MINMATCH) / 255 + (1 + LASTLITERALS) > room.olimit
    ensures ok ==> op <= room.olimit && MatchText(dst, token, old(dst[token]), op0, op, offset, matchLength - MINMATCH)
    ensures forall i :: 0 <= i < dst.Length && i != token && !(op0 <= i < room.olimit) ==> dst[i] == old(dst[i])
  {
    hide Ext255;
    WriteLE16(dst, op0, offset);
    op := op0 + 2;
    var length := matchLength - MINMATCH;
    if !room.limit.NotLimited? && op + length / 255 + (1 + LASTLITERALS) > room.olimit { return false, op; }
    if length >= 15 {
      dst[token] := dst[token] + 15;
      op := WritePairs(dst, op, length - 15);
    } else {
      dst[token] := dst[token] + length;
    }
    assert dst[op0..op] == dst[op0..op0 + 2] + dst[op0 + 2..op];
    ok := true;
  }

  /** Bytes of a sequence of litlen literals and a match of mlen bytes. */
  function SequenceSize(litlen: nat, mlen: nat): nat
    requires mlen >= MINMATCH
  {
    1 + (litlen + 240) / 255 + litlen + 2 + (mlen - MINMATCH + 240) / 255
  }

  /** The sequences ss, and behind them the literals from anchor on and the match h. */
  function WithHit(ss: seq<Sequence>, whole: seq<byte>, s: nat, anchor: nat, h: Hit): seq<Sequence>
    requires anchor <= h.start && s + h.start <= |whole|
  {
    ss + [Sequence(whole[s + anchor..s + h.start], h.offset, h.len)]
  }

  /** LZ4HC_encodeSequence: not ok when the output limit does not allow it. */
  method EncodeSequence(dst: array<byte>, ghost d0: nat, op0: nat, room: Room, whole: seq<byte>, s: nat, anchor: nat, h: Hit,
                        ghost ss: seq<Sequence>)
    returns (ok: bool, op: nat, ghost ss': seq<Sequence>)
    requires Standing(dst, d0, op0, room, ss, whole, s, anchor) && !room.limit.FillOutput?
    requires HitOk(whole, s, h) && anchor <= h.start
    modifies dst
    ensures forall i :: 0 <= i < dst.Length && !(d0 <= i < room.olimit) ==> dst[i] == old(dst[i])
    ensures ok ==> Standing(dst, d0, op, room, ss', whole, s, h.End()) && ss' == WithHit(ss, whole, s, anchor, h)
    ensures !ok ==> room.limit.LimitedOutput? && d0 + CompressBound(|whole| - s) > room.olimit
    ensures if ok then op == op0 + SequenceSize(h.start - anchor, h.len)
            else op0 + SequenceSize(h.start - anchor, h.len) + (1 + LASTLITERALS) > room.olimit
  {
    hide Describes, Genuine, SequenceSize, EndsWell, Head;
    ss' := ss;
    var n, ip, token := |whole| - s, h.start, op0;
    ghost var written := dst[d0..op0];
    BlockText(whole, s, anchor, ip);
    LiteralsRoom(d0, op0, anchor, ip, n);
    SizeOfLiterals(op0, ip - anchor, h.len);
    ok, op := EncodeLiterals(dst, token, room, whole[s..], anchor, ip);
    if !ok { return; }
    OpenedRoom(d0, token, op, anchor, ip, n);
    assert dst[d0..token] == written;
    ok, op, ss' := CloseHit(dst, d0, token, op, room, whole, s, anchor, h, ss);
  }

  /** The match of an opened sequence. */
  method CloseHit(dst: array<byte>, ghost d0: nat, token: nat, op1: nat, room: Room, whole: seq<byte>, s: nat, ghost anchor: nat, h: Hit,
                  ghost ss: seq<Sequence>)
    returns (ok: bool, op: nat, ghost ss': seq<Sequence>)
    requires HitOk(whole, s, h) && anchor <= h.start && Opened(dst, d0, token, op1, ss, whole, s, anchor, h.start)
    requires Compact(d0, token, anchor) && op1 == token + 1 + (h.start - anchor + 240) / 255 + (h.start - anchor)
    requires op1 + 9 + (|whole| - s - h.start) / 255 <= d0 + CompressBound(|whole| - s) && op1 <= room.olimit <= dst.Length
    requires room.limit.NotLimited? ==> d0 + CompressBound(|whole| - s) <= room.olimit
    requires room.limit.LimitedOutput? ==> op1 + 2 <= room.olimit
    requires !room.limit.FillOutput?
    modifies dst
    ensures forall i :: 0 <= i < dst.Length && !(d0 <= i < room.olimit) ==> dst[i] == old(dst[i])
    ensures ok ==> Standing(dst, d0, op, room, ss', whole, s, h.End()) && ss' == WithHit(ss, whole, s, anchor, h)
    ensures !ok ==> room.limit.LimitedOutput? && d0 + CompressBound(|whole| - s) > room.olimit
    ensures if ok then op == token + SequenceSize(h.start - anchor, h.len)
            else token + SequenceSize(h.start - anchor, h.len) + (1 + LASTLITERALS) > room.olimit
  {
    hide Describes, Genuine, SequenceSize, Head, TextLength, MatchText, EndsWell;
    ghost var before := dst[..];
    ss' := ss;
    HeadWithMatch(h.start - anchor, 0, whole[s + anchor..s + h.start], dst[token..op1]);
    SizeOfMatch(token, op1, h.start - anchor, h.len);
    HeadToken(h.start - anchor);
    ok, op := WriteMatch(dst, token, op1, room, h.offset, h.len);
    if !ok { return; }
    ss' := HitClosed(before, dst, d0, token, op1, op, whole, s, anchor, h, ss);
  }

  /** What stands in the output once the match has been written. */
  lemma HitClosed(before: seq<byte>, dst: array<byte>, d0: nat, token: nat, op1: nat, op: nat, whole: seq<byte>, s: nat, anchor: nat,
                  h: Hit, ss: seq<Sequence>)
    returns (ss': seq<Sequence>)
    requires HitOk(whole, s, h) && anchor <= h.start && d0 <= token < op1 && |before| == dst.Length && s <= |whole|
    requires op1 <= |before| && Describes(before[d0..token], ss, whole[..s], whole[s..], anchor)
    requires before[token..op1] == Head(h.start - anchor, 0) + whole[s + anchor..s + h.start]
    requires Compact(d0, token, anchor) && op1 == token + 1 + (h.start - anchor + 240) / 255 + (h.start - anchor)
    requires MatchText(dst, token, before[token], op1, op, h.offset, h.len - MINMATCH)
    requires forall i :: 0 <= i < op1 && i != token ==> dst[i] == before[i]
    ensures op == op1 + 2 + (h.len - MINMATCH + 240) / 255 <= dst.Length
    ensures Describes(dst[d0..op], ss', whole[..s], whole[s..], h.End()) && TextLength(ss') == h.End()
    ensures EndsWell(ss', |whole| - s) && Compact(d0, op, h.End()) && ss' == WithHit(ss, whole, s, anchor, h)
  {
    hide Describes, Genuine, Head, TextLength, Ext;
    ss' := Closing(before, dst[..], d0, token, op1, op, whole, s, anchor, h.start, h.offset, h.End(), ss);
    assert dst[..][d0..op] == dst[d0..op];
    CompactStep(d0, token, op, anchor, h.start, h.End());
  }

  lemma HeadToken(litlen: nat)
    ensures |Head(litlen, 0)| > 0 && Head(litlen, 0)[0] as int % 16 == 0
  {
  }

  lemma SizeOfLiterals(op: nat, litlen: nat, mlen: nat)
    requires mlen >= MINMATCH
    ensures op + 1 + litlen + litlen / 255 + 8 <= op + SequenceSize(litlen, mlen) + (1 + LASTLITERALS)
  {
  }

  lemma SizeOfMatch(op0: nat, op1: nat, litlen: nat, mlen: nat)
    requires mlen >= MINMATCH && op1 == op0 + 1 + (litlen + 240) / 255 + litlen
    ensures op0 + SequenceSize(litlen, mlen) == op1 + 2 + (mlen - MINMATCH + 240) / 255
    ensures (mlen - MINMATCH) / 255 <= (mlen - MINMATCH + 240) / 255
  {
  }

  lemma BlockText(whole: seq<byte>, s: nat, i: nat, j: nat)
    requires i <= j && s + j <= |whole|
    ensures whole[s..][i..j] == whole[s + i..s + j]
  {
  }

  lemma LiteralsRoom(d0: nat, op: nat, anchor: nat, ip: nat, n: nat)
    requires Compact(d0, op, anchor) && d0 <= op && anchor <= ip <= n
    ensures op + 1 + (ip - anchor) + (ip - anchor) / 255 + 8 <= d0 + CompressBound(n)
  {
  }
}
