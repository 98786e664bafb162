/** LZ4_compress_generic of lz4.c: the greedy hash-table parser, for one block. */
module BlockEncoder {
  import opened BlockFormat
  import opened BlockSequences
  import opened GreedyParse
  import opened Memory

  const STEPSIZE := 4

  datatype OutputLimit = NotLimited | LimitedOutput | FillOutput
  function CompressBound(n: nat): nat { n + n / 255 + 16 }

  // ---------- Match length ----------

  /** LZ4_NbCommonBytes of the difference of two different words. */
  function NbCommonBytes(text: seq<byte>, p: nat, q: nat): (r: nat)
    requires q <= p && p + 4 <= |text| && Read32(text, p) != Read32(text, q)
    ensures r < 4 && text[p + r] != text[q + r] && Same(text, p - q, p, p + r)
  {
    if text[p] != text[q] then 0
    else if text[p + 1] != text[q + 1] then 1
    else if text[p + 2] != text[q + 2] then 2
    else 3
  }

  /** The end of LZ4_count, where fewer than four bytes are left. */
  method CountTail(text: seq<byte>, p0: nat, q0: nat, limit: nat) returns (r: nat)
    requires q0 <= p0 <= |text| && limit <= |text| && limit - p0 < STEPSIZE
    ensures if p0 <= limit then CommonRun(text, p0, p0 - q0, limit, r) else r == 0
  {
    r := 0;
    if p0 + r < limit - 1 && text[p0] == text[q0] && text[p0 + 1] == text[q0 + 1] { r := 2; }
    if p0 + r < limit && text[p0 + r] == text[q0 + r] { r := r + 1; }
  }

  /** One word of LZ4_count: 4 when the words at p and q are equal, the number of common bytes otherwise. */
  method CommonInWord(text: seq<byte>, p: nat, q: nat) returns (c: nat)
    requires q <= p && p + 4 <= |text|
    ensures c <= 4 && Same(text, p - q, p, p + c) && (c < 4 ==> text[p + c] != text[q + c])
  {
    Read32Equal(text, p, p - q);
    if Read32(text, p) == Read32(text, q) { return 4; }
    return NbCommonBytes(text, p, q);
  }

  /** LZ4_count: exactly the length of the common run, four bytes at a time, then two, then one; 0 behind the limit. */
  method Count(text: seq<byte>, p0: nat, q0: nat, limit: nat) returns (r: nat)
    requires q0 <= p0 <= |text| && limit <= |text|
    ensures if p0 <= limit then CommonRun(text, p0, p0 - q0, limit, r) else r == 0
  {
    var p, q := p0, q0;
    while p < limit - (STEPSIZE - 1)
      invariant p0 <= p <= |text| && p - p0 == q - q0 && (p0 <= limit ==> p <= limit) && (p0 > limit ==> p == p0)
      invariant Same(text, p0 - q0, p0, p)
    {
      var common := CommonInWord(text, p, q);
      if common < 4 { return p + common - p0; }
      p, q := p + STEPSIZE, q + STEPSIZE;
    }
    r := CountTail(text, p, q, limit);
    r := p - p0 + r;
  }

  // ---------- The hash table ----------

  /**
    An entry of the table during the compression of whole[d..], whose first byte has index startIndex, once
    everything before position next has been looked at. It is empty (0), or left by an earlier block, or names
    a position of this block; it never names a position whose four bytes run past the end of its block.
   */
  ghost predicate EntryOk(e: nat, h: nat, whole: seq<byte>, d: nat, startIndex: nat, tableType: TableType, next: nat) {
    var n := |whole| - d;
    && e < startIndex + next
    && (|| e == 0
        || e + MFLIMIT <= startIndex
        || (startIndex <= e && e + MFLIMIT <= startIndex + n && (e == startIndex || Hash(whole, d + (e - startIndex), tableType) == h)))
  }

  ghost predicate TableOk(table: array<nat>, whole: seq<byte>, d: nat, startIndex: nat, tableType: TableType, next: nat)
    reads table
  {
    && table.Length == HASHENTRIES && d <= |whole|
    && forall h :: 0 <= h < HASHENTRIES ==> EntryOk(table[h], h, whole, d, startIndex, tableType, next)
  }

  /** What the callers of LZ4_compress_generic guarantee about the history and the table's index space. */
  ghost predicate Callable(whole: seq<byte>, d: nat, startIndex: nat, tableType: TableType, dictDirective: DictDirective,
                           dictSmall: bool) {
    && d <= startIndex && d <= |whole| && startIndex + (|whole| - d) < 0x1_0000_0000
    && (!dictSmall ==> d == startIndex || (d >= KB64 && tableType.ByU32?))
    && (tableType.ByU16? ==> d == 0 && startIndex + |whole| < LZ4_64Klimit)
    && (dictDirective.UsingExtDict? ==> d == 0 || d >= 4)
    && (dictDirective.NoDict? ==> d == 0)
    && !tableType.ClearedTable?
  }

  /** m is a place to copy from for a match at whole position p. */
  ghost predicate Candidate(whole: seq<byte>, d: nat, p: nat, m: nat, dictDirective: DictDirective) {
    && m < p && p - m <= MAXDISTANCE && p + 4 <= |whole|
    && (dictDirective.UsingExtDict? && m < d ==> m + 4 <= d)
    && Same(whole, p - m, p, p + 4)
  }

  /** The position named by a table entry that passes the index tests is one the decoder can copy from. */
  lemma AcceptedEntry(e: nat, h: nat, whole: seq<byte>, d: nat, startIndex: nat, tableType: TableType,
                      dictDirective: DictDirective, dictSmall: bool, ip: nat)
    requires Callable(whole, d, startIndex, tableType, dictDirective, dictSmall)
    requires EntryOk(e, h, whole, d, startIndex, tableType, ip) && d + ip + MFLIMIT <= |whole|
    ensures (dictSmall ==> e >= startIndex - d) && (tableType.ByU32? ==> e + MAXDISTANCE >= startIndex + ip) ==>
      && e >= startIndex - d
      && (var m := e - (startIndex - d);
          && m < d + ip && d + ip - m <= MAXDISTANCE
          && (dictDirective.UsingExtDict? && m < d ==> m + 4 <= d))
  {
  }

  /** What a slot of the table keeps of an index: 16 or 32 bits. */
  function SlotValue(idx: nat, tableType: TableType): nat {
    if tableType.ByU16? then idx % 0x1_0000 else idx % 0x1_0000_0000
  }

  /** No index of the current block is truncated by its slot. */
  lemma SlotKeepsIndex(whole: seq<byte>, d: nat, startIndex: nat, tableType: TableType, dictDirective: DictDirective,
                       dictSmall: bool, idx: nat)
    requires Callable(whole, d, startIndex, tableType, dictDirective, dictSmall)
    requires startIndex <= idx && d + (idx - startIndex) + MFLIMIT <= |whole|
    ensures SlotValue(idx, tableType) == idx
  {
  }

  lemma FreshEntryOk(idx: nat, h: nat, whole: seq<byte>, d: nat, startIndex: nat, tableType: TableType, next: nat)
    requires startIndex <= idx < startIndex + next && d + (idx - startIndex) + MFLIMIT <= |whole|
    requires h == Hash(whole, d + (idx - startIndex), tableType)
    ensures EntryOk(idx, h, whole, d, startIndex, tableType, next)
  {
  }

  lemma EntryLater(e: nat, h: nat, whole: seq<byte>, d: nat, startIndex: nat, tableType: TableType, next: nat, next': nat)
    requires d <= |whole| && EntryOk(e, h, whole, d, startIndex, tableType, next) && next <= next'
    ensures EntryOk(e, h, whole, d, startIndex, tableType, next')
  {
  }

  /** LZ4_putIndexOnHash, for a position of the current block. */
  method PutIndexOnHash(table: array<nat>, idx: nat, h: nat, whole: seq<byte>, ghost d: nat, ghost startIndex: nat,
                        tableType: TableType, ghost next: nat, ghost dictDirective: DictDirective, ghost dictSmall: bool)
    requires Callable(whole, d, startIndex, tableType, dictDirective, dictSmall)
    requires TableOk(table, whole, d, startIndex, tableType, next)
    requires startIndex <= idx <= startIndex + next && d + (idx - startIndex) + MFLIMIT <= |whole|
    requires h == Hash(whole, d + (idx - startIndex), tableType)
    modifies table
    ensures TableOk(table, whole, d, startIndex, tableType, if idx < startIndex + next then next else next + 1)
    ensures table[..] == old(table[..])[h := idx]
  {
    hide Hash, EntryOk;
    ghost var before, next' := table[..], if idx < startIndex + next then next else next + 1;
    SlotKeepsIndex(whole, d, startIndex, tableType, dictDirective, dictSmall, idx);
    table[h] := SlotValue(idx, tableType);
    FreshEntryOk(idx, h, whole, d, startIndex, tableType, next');
    forall g | 0 <= g < HASHENTRIES ensures EntryOk(table[g], g, whole, d, startIndex, tableType, next') {
      if g != h {
        assert table[g] == before[g];
        EntryLater(before[g], g, whole, d, startIndex, tableType, next, next');
      }
    }
  }

  /**
    Looks up the entry for position ip, replaces it by ip, and tells whether the old entry starts a match: it
    must lie in the valid area, be close enough, and agree on four bytes.
   */
  method TestPosition(table: array<nat>, whole: seq<byte>, d: nat, startIndex: nat, tableType: TableType,
                      dictDirective: DictDirective, dictSmall: bool, ip: nat, h: nat, ghost j: Setup)
    returns (found: bool, m: nat)
    requires Callable(whole, d, startIndex, tableType, dictDirective, dictSmall)
    requires d + ip + MFLIMIT <= |whole| && h == Hash(whole, d + ip, tableType)
    requires TableOk(table, whole, d, startIndex, tableType, ip)
    requires j == Setup(whole, d, startIndex, tableType, dictDirective, dictSmall, j.acceleration)
    modifies table
    ensures TableOk(table, whole, d, startIndex, tableType, ip + 1)
    ensures found ==> Candidate(whole, d, d + ip, m, dictDirective)
    ensures found <==> Hit(j, old(table[..]), ip)
    ensures found ==> m == PlaceOf(j, old(table[h]))
    ensures table[..] == Put(j, old(table[..]), ip)
  {
    hide Hash, EntryOk, Read32;
    var current := startIndex + ip;
    var matchIndex := table[h];
    AcceptedEntry(matchIndex, h, whole, d, startIndex, tableType, dictDirective, dictSmall, ip);
    PutIndexOnHash(table, current, h, whole, d, startIndex, tableType, ip, dictDirective, dictSmall);
    found, m := false, 0;
    if (dictSmall ==> matchIndex >= startIndex - d) && (tableType.ByU16? || matchIndex + MAXDISTANCE >= current) {
      m := matchIndex - (startIndex - d);
      Read32Equal(whole, d + ip, d + ip - m);
      found := Read32(whole, m) == Read32(whole, d + ip);
    }
  }

  lemma TableLater(table: array<nat>, whole: seq<byte>, d: nat, startIndex: nat, tableType: TableType, next: nat, next': nat)
    requires TableOk(table, whole, d, startIndex, tableType, next) && next <= next'
    ensures TableOk(table, whole, d, startIndex, tableType, next')
  {
  }

  /** The search loop: from ip0 on, with growing steps, for a position whose table entry starts a match. */
  method FindMatch(table: array<nat>, whole: seq<byte>, d: nat, startIndex: nat, tableType: TableType,
                   dictDirective: DictDirective, dictSmall: bool, ip0: nat, forwardH0: nat, acceleration: nat)
    returns (found: bool, ip: nat, m: nat)
    requires Callable(whole, d, startIndex, tableType, dictDirective, dictSmall)
    requires d + ip0 + MFLIMIT - 1 <= |whole| && forwardH0 == Hash(whole, d + ip0, tableType) && acceleration >= 1
    requires TableOk(table, whole, d, startIndex, tableType, ip0)
    modifies table
    ensures TableOk(table, whole, d, startIndex, tableType, ip + 1)
    ensures ip0 <= ip && d + ip + MFLIMIT - 1 <= |whole|
    ensures found ==> d + ip + MFLIMIT <= |whole| && Candidate(whole, d, d + ip, m, dictDirective)
    ensures var j := Setup(whole, d, startIndex, tableType, dictDirective, dictSmall, acceleration);
      Search(j, old(table[..]), ip0, 0) == if found then Found(ip, m, table[..]) else Nothing(table[..])
  {
    hide Hash, EntryOk, Hit, Candidate, Put;
    ghost var j := Setup(whole, d, startIndex, tableType, dictDirective, dictSmall, acceleration);
    ghost var all, k := Search(j, table[..], ip0, 0), 0;
    var mflimitPlusOne := |whole| - d - MFLIMIT + 1;
    var forwardIp, forwardH, step, searchMatchNb := ip0, forwardH0, 1, acceleration * SKIPSTEP;
    while true
      invariant ip0 <= forwardIp <= mflimitPlusOne && forwardH == Hash(whole, d + forwardIp, tableType)
      invariant step == Stride(acceleration, k) && searchMatchNb == acceleration * SKIPSTEP + k
      invariant TableOk(table, whole, d, startIndex, tableType, forwardIp)
      invariant all == Search(j, table[..], forwardIp, k)
      decreases mflimitPlusOne - forwardIp
    {
      var h := forwardH;
      ip := forwardIp;
      forwardIp := forwardIp + step;
      step := searchMatchNb / SKIPSTEP;
      searchMatchNb := searchMatchNb + 1;
      if forwardIp > mflimitPlusOne {
        TableLater(table, whole, d, startIndex, tableType, ip, ip + 1);
        return false, ip, 0;
      }
      forwardH := Hash(whole, d + forwardIp, tableType);
      found, m := TestPosition(table, whole, d, startIndex, tableType, dictDirective, dictSmall, ip, h, j);
      if found { return true, ip, m; }
      TableLater(table, whole, d, startIndex, tableType, ip + 1, forwardIp);
      k := k + 1;
    }
  }

  // ---------- Writing lengths and literals ----------

  lemma {:induction false} Ext255Bytes(n: nat)
    ensures |Ext255(n)| == n / 255 + 1
    ensures forall k :: 0 <= k < n / 255 ==> Ext255(n)[k] == 255
    ensures Ext255(n)[n / 255] == n % 255
    decreases n
  {
    if n >= 255 { Ext255Bytes(n - 255); }
  }

  lemma IsExt255(s: seq<byte>, n: nat)
    requires |s| == n / 255 + 1 && s[n / 255] == n % 255
    requires forall k :: 0 <= k < n / 255 ==> s[k] == 255
    ensures s == Ext255(n)
  {
    Ext255Bytes(n);
  }

  /** The loop that writes 255 as long as it can, then the rest. */
  method WriteRun(dst: array<byte>, op0: nat, len0: nat) returns (op: nat)
    requires op0 + len0 / 255 + 1 <= dst.Length
    modifies dst
    ensures op == op0 + len0 / 255 + 1 && dst[op0..op] == Ext255(len0)
    ensures forall i :: 0 <= i < dst.Length && !(op0 <= i < op) ==> dst[i] == old(dst[i])
  {
    hide Ext255;
    op := op0;
    var len := len0;
    while len >= 255
      invariant op0 <= op && len0 - len == 255 * (op - op0)
      invariant forall i :: op0 <= i < op ==> dst[i] == 255
      invariant forall i :: 0 <= i < dst.Length && !(op0 <= i < op) ==> dst[i] == old(dst[i])
    {
      dst[op] := 255;
      op := op + 1;
      len := len - 255;
    }
    dst[op] := len;
    op := op + 1;
    IsExt255(dst[op0..op], len0);
  }

  method Write32Ones(dst: array<byte>, op: nat)
    requires op + 4 <= dst.Length
    modifies dst
    ensures dst[op] == dst[op + 1] == dst[op + 2] == dst[op + 3] == 255
    ensures forall i :: 0 <= i < dst.Length && !(op <= i < op + 4) ==> dst[i] == old(dst[i])
  {
    dst[op], dst[op + 1], dst[op + 2], dst[op + 3] := 255, 255, 255, 255;
  }

  /** The match-length writer: four 0xFF bytes at a time, stored ahead of op. */
  method WriteMatchRun(dst: array<byte>, op0: nat, matchCode0: nat) returns (op: nat)
    requires op0 + matchCode0 / 255 + 4 <= dst.Length
    modifies dst
    ensures op == op0 + matchCode0 / 255 + 1 && dst[op0..op] == Ext255(matchCode0)
    ensures forall i :: 0 <= i < dst.Length && !(op0 <= i < op + 3) ==> dst[i] == old(dst[i])
  {
    hide Ext255;
    op := op0;
    var matchCode := matchCode0;
    Write32Ones(dst, op);
    while matchCode >= 4 * 255
      invariant op0 <= op && matchCode0 - matchCode == 255 * (op - op0)
      invariant op + 4 <= dst.Length
      invariant forall i :: op0 <= i < op + 4 ==> dst[i] == 255
      invariant forall i :: 0 <= i < dst.Length && !(op0 <= i < op + 4) ==> dst[i] == old(dst[i])
    {
      op := op + 4;
      Write32Ones(dst, op);
      matchCode := matchCode - 4 * 255;
    }
    op := op + matchCode / 255;
    dst[op] := matchCode % 255;
    op := op + 1;
    IsExt255(dst[op0..op], matchCode0);
  }

  // ---------- Encoding a sequence ----------

  /** What the encoder has to respect in the output buffer: up to where it may write, and whether it must check. */
  datatype Room = Room(limit: OutputLimit, olimit: nat)

  /** Token and literal-length bytes. */
  method WriteHead(dst: array<byte>, op0: nat, litLength: nat) returns (op: nat)
    requires op0 + 1 + (litLength + 240) / 255 <= dst.Length
    modifies dst
    ensures op == op0 + 1 + (litLength + 240) / 255
    ensures dst[op0..op] == Head(litLength, 0)
    ensures forall i :: 0 <= i < dst.Length && !(op0 <= i < op) ==> dst[i] == old(dst[i])
  {
    op := op0 + 1;
    if litLength >= 15 {
      dst[op0] := 240;
      op := WriteRun(dst, op, litLength - 15);
      assert dst[op0..op] == [dst[op0]] + dst[op0 + 1..op];
    } else {
      dst[op0] := 16 * litLength;
    }
  }

  /**
    Token and literals. ok is false when the output limit does not allow them; nothing counts as written then.
   */
  method EncodeLiterals(dst: array<byte>, op0: nat, room: Room, src: seq<byte>, anchor: nat, ip: nat)
    returns (ok: bool, op: nat)
    requires anchor <= ip && ip + WILDCOPYLENGTH <= |src|
    requires op0 <= room.olimit <= dst.Length
    requires room.limit.NotLimited? ==> op0 + 1 + (ip - anchor) + (ip - anchor) / 255 + 8 <= room.olimit
    modifies dst
    ensures room.limit.NotLimited? ==> ok
    ensures !ok ==> op == op0
    ensures room.limit.LimitedOutput? && !ok ==> op0 + 1 + (ip - anchor) + (ip - anchor) / 255 + 8 > room.olimit
    ensures room.limit.FillOutput? && !ok ==> op0 + 1 + (ip - anchor + 240) / 255 + (ip - anchor) + 11 > room.olimit
    ensures ok ==> op == op0 + 1 + (ip - anchor + 240) / 255 + (ip - anchor) <= room.olimit
    ensures ok && room.limit.FillOutput? ==> op + 2 + 1 + MFLIMIT - MINMATCH <= room.olimit
    ensures ok && room.limit.LimitedOutput? ==> op + 2 + LASTLITERALS <= room.olimit
    ensures ok ==> dst[op0..op] == Head(ip - anchor, 0) + src[anchor..ip]
    ensures forall i :: 0 <= i < dst.Length && !(op0 <= i < room.olimit) ==> dst[i] == old(dst[i])
  {
    hide Ext255, Ext;
    var litLength := ip - anchor;
    op := op0 + 1;
    if room.limit.LimitedOutput? && op + litLength + (2 + 1 + LASTLITERALS) + litLength / 255 > room.olimit {
      return false, op0;
    }
    if room.limit.FillOutput?
       && op + (litLength + 240) / 255 + litLength + 2 + 1 + MFLIMIT - MINMATCH > room.olimit {
      return false, op0;
    }
    op := WriteHead(dst, op0, litLength);
    ghost var head := dst[op0..op];
    WildCopy(dst, op, src, anchor, op + litLength);
    assert dst[op0..op + litLength] == head + dst[op..op + litLength];
    op := op + litLength;
    ok := true;
  }

  /** A match for position ip0 of the block whose first agree bytes are known to be right. */
  ghost predicate MatchAt(whole: seq<byte>, d: nat, ip0: nat, m: nat, agree: nat, dictDirective: DictDirective) {
    && m < d + ip0 && d + ip0 - m <= MAXDISTANCE
    && agree >= MINMATCH && d + ip0 + agree + LASTLITERALS <= |whole|
    && Same(whole, d + ip0 - m, d + ip0, d + ip0 + agree)
    && (dictDirective.UsingExtDict? && m < d ==> m + agree <= d)
  }

  /** Full length of the match beyond MINMATCH; a match in the external dictionary may run on into the block. */
  method CountMatch(whole: seq<byte>, d: nat, ip0: nat, m: nat, ghost agree: nat, dictDirective: DictDirective)
    returns (matchCode: nat)
    requires d <= |whole| && MatchAt(whole, d, ip0, m, agree, dictDirective)
    ensures MINMATCH + matchCode >= agree
    ensures CommonRun(whole, d + ip0, d + ip0 - m, |whole| - LASTLITERALS, MINMATCH + matchCode)
  {
    var p := d + ip0;
    var matchlimit := |whole| - LASTLITERALS;
    ghost var off := p - m;
    if dictDirective.UsingExtDict? && m < d {
      var limit := p + (d - m);
      if limit > matchlimit { limit := matchlimit; }
      matchCode := Count(whole, p + MINMATCH, m + MINMATCH, limit);
      if p + MINMATCH + matchCode == limit {
        // the dictionary is used up: the match goes on at the start of the block
        var more := Count(whole, limit, d, matchlimit);
        assert limit < matchlimit ==> limit - d == off;
        matchCode := matchCode + more;
      }
    } else {
      matchCode := Count(whole, p + MINMATCH, m + MINMATCH, matchlimit);
    }
  }

  method WriteLE16(dst: array<byte>, op: nat, n: nat)
    requires op + 2 <= dst.Length && n <= MAXDISTANCE
    modifies dst
    ensures dst[op..op + 2] == LE16(n)
    ensures forall i :: 0 <= i < dst.Length && !(op <= i < op + 2) ==> dst[i] == old(dst[i])
  {
    dst[op], dst[op + 1] := n % 256, n / 256;
  }

  /** Match length: the rest of the token and the bytes that follow. */
  method WriteMatchLength(dst: array<byte>, token: nat, op0: nat, matchCode: nat) returns (op: nat)
    requires token < op0 && op0 + (matchCode + 240) / 255 + 3 <= dst.Length && dst[token] as int % 16 == 0
    modifies dst
    ensures op == op0 + (matchCode + 240) / 255
    ensures dst[op0..op] == Ext(matchCode) && dst[token] as int == old(dst[token]) as int + Nibble(matchCode)
    ensures forall i :: 0 <= i < dst.Length && i != token && !(op0 <= i < op + 3) ==> dst[i] == old(dst[i])
  {
    if matchCode >= 15 {
      dst[token] := dst[token] + 15;
      op := WriteMatchRun(dst, op0, matchCode - 15);
    } else {
      dst[token] := dst[token] + matchCode;
      op := op0;
    }
  }

  /** Removes positions ip to filledIp from the table, after a match has been cut short before them. */
  method ClearPositions(table: array<nat>, whole: seq<byte>, d: nat, ghost startIndex: nat, tableType: TableType,
                        ip: nat, filledIp: nat)
    requires 1 <= ip <= filledIp && d + filledIp + MFLIMIT <= |whole|
    requires TableOk(table, whole, d, startIndex, tableType, filledIp + 1)
    modifies table
    ensures TableOk(table, whole, d, startIndex, tableType, ip)
  {
    var ptr := ip;
    while ptr <= filledIp
      invariant ip <= ptr <= filledIp + 1
      invariant TableOk(table, whole, d, startIndex, tableType, filledIp + 1)
      invariant forall h :: 0 <= h < HASHENTRIES ==> !(startIndex + ip <= table[h] < startIndex + ptr)
    {
      ghost var before := table[..];
      var h := Hash(whole, d + ptr, tableType);
      table[h] := 0;
      forall g | 0 <= g < HASHENTRIES
        ensures EntryOk(table[g], g, whole, d, startIndex, tableType, filledIp + 1)
        ensures !(startIndex + ip <= table[g] < startIndex + ptr + 1)
      {
        if g != h {
          assert table[g] == before[g];
          assert EntryOk(before[g], g, whole, d, startIndex, tableType, filledIp + 1);
        }
      }
      ptr := ptr + 1;
    }
  }

  datatype MatchStatus = Encoded | NoRoom | Rewind

  /** Where a match that starts in ip0 may leave the encoder in the output. */
  ghost predicate RoomAfterMatch(room: Room, op: nat, len: nat) {
    && op <= room.olimit
    && (!room.limit.NotLimited? ==> op + 1 + LASTLITERALS <= room.olimit)
    && (room.limit.FillOutput? ==> len >= 19 || op + 1 + 8 <= room.olimit)
  }

  /** A table that has seen positions up to next goes with a match that agrees for at least agree bytes. */
  ghost predicate Searched(table: array<nat>, whole: seq<byte>, d: nat, startIndex: nat, tableType: TableType,
                           ip0: nat, filledIp: nat, agree: nat)
    reads table
  {
    var next := if filledIp > ip0 then filledIp + 1 else ip0 + 1;
    TableOk(table, whole, d, startIndex, tableType, next) && ip0 + agree == next + 3 && d + next - 1 + MFLIMIT <= |whole|
  }

  /** Shortens a match so that its description fills the output, and repairs the table. */
  method CutMatch(table: array<nat>, whole: seq<byte>, d: nat, ghost startIndex: nat, tableType: TableType,
                  op: nat, olimit: nat, ip0: nat, filledIp: nat, ghost agree: nat, matchCode: nat)
    returns (newMatchCode: nat)
    requires Searched(table, whole, d, startIndex, tableType, ip0, filledIp, agree)
    requires MINMATCH + matchCode >= agree && op + 9 <= olimit && op + (1 + LASTLITERALS) + (matchCode + 240) / 255 > olimit
    modifies table
    ensures newMatchCode < matchCode && newMatchCode >= 15
    ensures op + (1 + LASTLITERALS) + (newMatchCode + 240) / 255 == olimit
    ensures TableOk(table, whole, d, startIndex, tableType, ip0 + MINMATCH + newMatchCode)
  {
    newMatchCode := 15 - 1 + (olimit - op - 1 - LASTLITERALS) * 255;
    var ip := ip0 + MINMATCH + newMatchCode;
    if ip <= filledIp {
      ClearPositions(table, whole, d, startIndex, tableType, ip, filledIp);
    } else {
      TableLater(table, whole, d, startIndex, tableType, if filledIp > ip0 then filledIp + 1 else ip0 + 1, ip);
    }
  }

  ghost function FullLength(whole: seq<byte>, d: nat, ip0: nat, m: nat): nat
    requires m <= d + ip0 && d + ip0 + LASTLITERALS <= |whole|
  {
    RunLength(whole, d + ip0, d + ip0 - m, |whole| - LASTLITERALS)
  }

  /** The output, from op on, has room for the rest of a match in its full length and for the five last literals. */
  ghost predicate Uncut(room: Room, whole: seq<byte>, d: nat, op: nat, ip0: nat, m: nat)
    requires m <= d + ip0 && d + ip0 + LASTLITERALS <= |whole|
  {
    room.limit.NotLimited? || op + (FullLength(whole, d, ip0, m) - MINMATCH + 240) / 255 + (1 + LASTLITERALS) <= room.olimit
  }

  /** Length of the match for position ip0, cut or refused if the output after its offset (op) has no room for it. */
  method MeasureMatch(op: nat, room: Room, table: array<nat>, whole: seq<byte>, d: nat, ghost startIndex: nat,
                      tableType: TableType, dictDirective: DictDirective, ip0: nat, m: nat, filledIp: nat, ghost agree: nat)
    returns (ok: bool, matchCode: nat)
    requires d <= |whole| && MatchAt(whole, d, ip0, m, agree, dictDirective)
    requires Searched(table, whole, d, startIndex, tableType, ip0, filledIp, agree)
    requires room.limit.FillOutput? ==> op + 9 <= room.olimit
    modifies table
    ensures if Uncut(room, whole, d, op, ip0, m)
      then ok && matchCode == FullLength(whole, d, ip0, m) - MINMATCH && table[..] == old(table[..])
      else !ok || room.limit.FillOutput?
    ensures !ok ==>
      && room.limit.LimitedOutput? && op + 7 + (|whole| - d - ip0) / 255 > room.olimit
      && TableOk(table, whole, d, startIndex, tableType, |whole| - d)
    ensures ok ==>
      && d + ip0 + MINMATCH + matchCode + LASTLITERALS <= |whole|
      && Same(whole, d + ip0 - m, d + ip0, d + ip0 + MINMATCH + matchCode)
      && TableOk(table, whole, d, startIndex, tableType, ip0 + MINMATCH + matchCode)
      && (!room.limit.NotLimited? ==> op + (1 + LASTLITERALS) + (matchCode + 240) / 255 <= room.olimit)
      && (ip0 + MINMATCH + matchCode > filledIp
          || (room.limit.FillOutput? && op + (1 + LASTLITERALS) + (matchCode + 240) / 255 == room.olimit))
  {
    ghost var next := if filledIp > ip0 then filledIp + 1 else ip0 + 1;
    matchCode := CountMatch(whole, d, ip0, m, agree, dictDirective);
    RunLengthUnique(whole, d + ip0, d + ip0 - m, |whole| - LASTLITERALS, MINMATCH + matchCode);
    ok := true;
    if !room.limit.NotLimited? && op + (1 + LASTLITERALS) + (matchCode + 240) / 255 > room.olimit {
      if room.limit.FillOutput? {
        matchCode := CutMatch(table, whole, d, startIndex, tableType, op, room.olimit, ip0, filledIp, agree, matchCode);
      } else {
        TableLater(table, whole, d, startIndex, tableType, next, |whole| - d);
        ok := false;
      }
    } else {
      TableLater(table, whole, d, startIndex, tableType, next, ip0 + MINMATCH + matchCode);
    }
  }

  /** The bytes of a match description, and the token bits that go with it. */
  ghost predicate MatchText(dst: array<byte>, token: nat, oldToken: byte, op0: nat, op: nat, offset: nat, matchCode: nat)
    reads dst
  {
    && token < op0 <= op <= dst.Length && offset <= MAXDISTANCE
    && op == op0 + 2 + (matchCode + 240) / 255
    && dst[op0..op] == LE16(offset) + Ext(matchCode)
    && dst[token] as int == oldToken as int + Nibble(matchCode)
  }

  /** Match length of a match whose offset stands at op - 2. */
  method FinishMatch(dst: array<byte>, token: nat, op0: nat, offset: nat, matchCode: nat) returns (op: nat)
    requires token + 2 < op0 && op0 + (matchCode + 240) / 255 + 3 <= dst.Length && dst[token] as int % 16 == 0
    requires offset <= MAXDISTANCE && dst[op0 - 2..op0] == LE16(offset)
    modifies dst
    ensures MatchText(dst, token, old(dst[token]), op0 - 2, op, offset, matchCode)
    ensures forall i :: 0 <= i < dst.Length && i != token && !(op0 <= i < op + 3) ==> dst[i] == old(dst[i])
  {
    op := WriteMatchLength(dst, token, op0, matchCode);
    assert dst[op0 - 2..op] == dst[op0 - 2..op0] + dst[op0..op];
  }

  /** A match for ip0 has been encoded up to ip. */
  ghost predicate MatchEncoded(dst: array<byte>, token: nat, oldToken: byte, op0: nat, op: nat, room: Room, table: array<nat>,
                               whole: seq<byte>, d: nat, startIndex: nat, tableType: TableType, ip0: nat, m: nat, ip: nat)
    reads dst, table
  {
    && ip0 + MINMATCH <= ip && d + ip + LASTLITERALS <= |whole| && m <= d + ip0
    && Genuine(whole, d + ip0, d + ip0 - m, ip - ip0)
    && TableOk(table, whole, d, startIndex, tableType, ip)
    && RoomAfterMatch(room, op, ip - ip0)
    && MatchText(dst, token, oldToken, op0, op, d + ip0 - m, ip - ip0 - MINMATCH)
  }

  /** In fillOutput mode, a match is given up when the output after its offset could not hold 8 last literals. */
  predicate WillRewind(room: Room, op: nat) {
    room.limit.FillOutput? && op + 2 + 1 + MFLIMIT - MINMATCH > room.olimit
  }

  /** Offset and match length of a match for position ip0; token is where its token stands. */
  method EncodeMatch(dst: array<byte>, token: nat, op0: nat, room: Room, table: array<nat>, whole: seq<byte>, d: nat,
                     ghost startIndex: nat, tableType: TableType, dictDirective: DictDirective,
                     ip0: nat, m: nat, filledIp: nat, ghost agree: nat)
    returns (status: MatchStatus, op: nat, ip: nat)
    requires token < op0 <= room.olimit <= dst.Length && dst[token] as int % 16 == 0
    requires d <= |whole| && MatchAt(whole, d, ip0, m, agree, dictDirective)
    requires WillRewind(room, op0) || Searched(table, whole, d, startIndex, tableType, ip0, filledIp, agree)
    requires room.limit.NotLimited? ==> op0 + 6 + (|whole| - d - ip0) / 255 <= room.olimit
    requires room.limit.LimitedOutput? ==> op0 + 2 <= room.olimit
    modifies dst, table
    ensures forall i :: 0 <= i < dst.Length && i != token && !(op0 <= i < room.olimit) ==> dst[i] == old(dst[i])
    ensures status.Rewind? <==> WillRewind(room, op0)
    ensures status.Rewind? ==> forall h :: 0 <= h < table.Length ==> table[h] == old(table[h])
    ensures !status.Rewind? ==>
      if Uncut(room, whole, d, op0 + 2, ip0, m)
      then status.Encoded? && ip == ip0 + FullLength(whole, d, ip0, m) && table[..] == old(table[..])
      else status.NoRoom? || room.limit.FillOutput?
    ensures status.NoRoom? ==> room.limit.LimitedOutput? && op0 + 9 + (|whole| - d - ip0) / 255 > room.olimit
    ensures status.NoRoom? ==> TableOk(table, whole, d, startIndex, tableType, |whole| - d)
    ensures status.Encoded? ==> ip > filledIp || (room.limit.FillOutput? && op + 1 + LASTLITERALS == room.olimit)
    ensures status.Encoded? ==>
      MatchEncoded(dst, token, old(dst[token]), op0, op, room, table, whole, d, startIndex, tableType, ip0, m, ip)
  {
    hide Hash, TableOk, Ext255, Ext, Uncut, FullLength;
    op, ip := op0, ip0;
    if WillRewind(room, op) {
      return Rewind, op, ip;
    }
    WriteLE16(dst, op, d + ip0 - m);
    op := op + 2;
    var ok, matchCode := MeasureMatch(op, room, table, whole, d, startIndex, tableType, dictDirective, ip0, m, filledIp, agree);
    if !ok { return NoRoom, op, ip; }
    ip := ip0 + MINMATCH + matchCode;
    op := FinishMatch(dst, token, op, d + ip0 - m, matchCode);
    status := Encoded;
  }

  // ---------- The block as a whole ----------

  /** The block can be ended after ss, whatever remains of it is written as literals. */
  ghost predicate CanFinish(room: Room, d0: nat, op: nat, ss: seq<Sequence>, n: nat) {
    if ss == [] then op == d0 && (!room.limit.NotLimited? ==> op <= room.olimit) && (room.limit.FillOutput? ==> op < room.olimit)
    else
      && RoomAfterMatch(room, op, ss[|ss| - 1].len)
      && EndsWell(ss, n)
  }

  /** Worst-case size after writing the text up to anchor. */
  ghost predicate Compact(d0: nat, op: nat, anchor: nat) {
    op - d0 <= anchor + anchor / 255
  }

  /** The output is the sequences ss, and they describe the block up to anchor. */
  ghost predicate Describes(out: seq<byte>, ss: seq<Sequence>, hist: seq<byte>, src: seq<byte>, anchor: nat) {
    && anchor <= |src|
    && Applies(hist, ss) && (forall s :: s in ss ==> Encodable(s))
    && Expand(hist, ss) == hist + src[..anchor]
    && out == EmitAll(ss)
  }

  lemma SequenceText(literals: seq<byte>, offset: nat, len: nat)
    requires 1 <= offset <= MAXDISTANCE && len >= MINMATCH
    ensures Emit(Sequence(literals, offset, len))
         == Head(|literals|, Nibble(len - MINMATCH)) + literals + (LE16(offset) + Ext(len - MINMATCH))
  {
  }

  lemma DescribesMore(out: seq<byte>, ss: seq<Sequence>, s: Sequence, hist: seq<byte>, src: seq<byte>, anchor: nat, end: nat)
    requires Describes(out, ss, hist, src, anchor)
    requires Encodable(s) && Applies(hist, ss + [s]) && end <= |src| && Expand(hist, ss + [s]) == hist + src[..end]
    ensures Describes(out + Emit(s), ss + [s], hist, src, end)
  {
    EmitAllAppend(ss, s);
  }

  /** After a whole sequence has been written behind ss. */
  lemma SequenceWritten(out: seq<byte>, ss: seq<Sequence>, hist: seq<byte>, src: seq<byte>,
                        anchor: nat, start: nat, offset: nat, end: nat)
    requires Describes(out, ss, hist, src, anchor)
    requires anchor <= start && start + MINMATCH <= end <= |src|
    requires offset <= MAXDISTANCE && Genuine(hist + src, |hist| + start, offset, end - start)
    ensures var s := Sequence(src[anchor..start], offset, end - start);
      && Describes(out + Emit(s), ss + [s], hist, src, end)
      && TextLength(ss + [s]) == end
  {
    ExtendList(hist, ss, src, anchor, start, offset, end - start);
    DescribesMore(out, ss, Sequence(src[anchor..start], offset, end - start), hist, src, anchor, end);
  }

  lemma CompactStep(d0: nat, token: nat, op: nat, anchor: nat, start: nat, end: nat)
    requires Compact(d0, token, anchor) && d0 <= token && anchor <= start && start + MINMATCH <= end
    requires op == token + 1 + (start - anchor + 240) / 255 + (start - anchor) + 2 + (end - start - MINMATCH + 240) / 255
    ensures Compact(d0, op, end)
  {
  }

  /** Catch up: extends a match backwards as far as the anchor and the start of its segment allow. */
  method CatchUp(whole: seq<byte>, d: nat, dictDirective: DictDirective, anchor: nat, ip0: nat, m0: nat, ghost j: Setup)
    returns (ip: nat, m: nat)
    requires j.whole == whole && j.d == d && j.dictDirective == dictDirective
    requires d <= |whole| && anchor <= ip0 && d + ip0 + MFLIMIT <= |whole| && Candidate(whole, d, d + ip0, m0, dictDirective)
    ensures anchor <= ip <= ip0 && m <= m0 && d + ip - m == d + ip0 - m0
    ensures MatchAt(whole, d, ip, m, ip0 - ip + 4, dictDirective)
    ensures ip0 - ip == Back(j, anchor, ip0, m0)
  {
    hide Same;
    ip, m := ip0, m0;
    var lowLimit := if dictDirective.UsingExtDict? && m >= d then d else 0;
    while ip > anchor && m > lowLimit && whole[d + ip - 1] == whole[m - 1]
      invariant anchor <= ip <= ip0 && lowLimit <= m <= m0 && ip0 - ip == m0 - m
      invariant Same(whole, d + ip0 - m0, d + ip, d + ip0 + 4)
      invariant Back(j, anchor, ip0, m0) == ip0 - ip + Back(j, anchor, ip, m)
    {
      SameBefore(whole, d + ip0 - m0, d + ip, d + ip0 + 4);
      ip, m := ip - 1, m - 1;
    }
  }

  lemma SameBefore(text: seq<byte>, off: nat, i: nat, end: nat)
    requires Same(text, off, i, end) && off < i < end && text[i - 1] == text[i - 1 - off]
    ensures Same(text, off, i - 1, end)
  {
  }

  /** Number of literals that fit in x bytes next to their length bytes, as the fillOutput mode computes it. */
  function FitLiterals(x: nat): (r: nat)
    ensures r <= x
    ensures x - 1 <= r + (r + 240) / 255 <= x
    ensures x >= 5 ==> r >= 5
    ensures x >= 8 ==> r >= 8
  {
    x - (x + 241) / 256
  }

  /** Encode last literals. */
  method EncodeLastLiterals(dst: array<byte>, op0: nat, room: Room, src: seq<byte>, anchor: nat)
    returns (ok: bool, op: nat, lastRun: nat)
    requires anchor <= |src| && op0 <= room.olimit <= dst.Length
    requires room.limit.NotLimited? ==> op0 + 1 + (|src| - anchor) + (|src| - anchor + 240) / 255 <= room.olimit
    requires room.limit.FillOutput? ==> op0 < room.olimit
    modifies dst
    ensures forall i :: 0 <= i < dst.Length && !(op0 <= i < room.olimit) ==> dst[i] == old(dst[i])
    ensures !ok ==> room.limit.LimitedOutput? && op0 + 1 + (|src| - anchor) + (|src| - anchor + 240) / 255 > room.olimit
    ensures ok ==>
      && anchor + lastRun <= |src| && op0 < op <= room.olimit
      && op == op0 + 1 + lastRun + (lastRun + 240) / 255
      && dst[op0..op] == EmitLast(src[anchor..anchor + lastRun])
      && (anchor + lastRun == |src|
          || (room.limit.FillOutput? && lastRun == FitLiterals(room.olimit - op0 - 1)
              && op0 + 1 + (|src| - anchor) + (|src| - anchor + 240) / 255 > room.olimit))
  {
    hide Ext255, Ext;
    lastRun := |src| - anchor;
    op := op0;
    if !room.limit.NotLimited? && op + lastRun + 1 + (lastRun + 240) / 255 > room.olimit {
      if room.limit.FillOutput? {
        lastRun := FitLiterals(room.olimit - op - 1);
      } else {
        return false, op, 0;
      }
    }
    op := WriteHead(dst, op, lastRun);
    ghost var headed := dst[..];
    CopyIn(dst, op, src, anchor, lastRun);
    LastWritten(headed, dst[..], op0, op, src, anchor, lastRun);
    op := op + lastRun;
    assert dst[op0..op] == dst[..][op0..op];
    ok := true;
  }

  lemma LastWritten(headed: seq<byte>, now: seq<byte>, op0: nat, op: nat, src: seq<byte>, anchor: nat, n: nat)
    requires op0 <= op && op + n <= |now| == |headed| && anchor + n <= |src|
    requires headed[op0..op] == Head(n, 0)
    requires forall i :: op0 <= i < op ==> now[i] == headed[i]
    requires forall i :: op <= i < op + n ==> now[i] == src[anchor + (i - op)]
    ensures now[op0..op + n] == EmitLast(src[anchor..anchor + n])
  {
    hide Head;
    assert now[op0..op] == headed[op0..op];
    assert now[op..op + n] == src[anchor..anchor + n];
    assert now[op0..op + n] == now[op0..op] + now[op..op + n];
  }

  /** A sequence has been opened at token: its literals, up to ip, are written and its match is still to come. */
  ghost predicate Opened(dst: array<byte>, d0: nat, token: nat, op: nat, ss: seq<Sequence>, whole: seq<byte>, d: nat,
                         anchor: nat, ip: nat)
    reads dst
  {
    && d0 <= token < op <= dst.Length && d <= |whole| && anchor <= ip && d + ip + MFLIMIT <= |whole|
    && Describes(dst[d0..token], ss, whole[..d], whole[d..], anchor)
    && dst[token..op] == Head(ip - anchor, 0) + whole[d + anchor..d + ip]
  }

  /** The sequences ss are written and nothing is open. */
  ghost predicate Closed(dst: array<byte>, d0: nat, op: nat, room: Room, ss: seq<Sequence>, whole: seq<byte>, d: nat, anchor: nat)
    reads dst
  {
    && d0 <= op <= dst.Length && d <= |whole| && TextLength(ss) == anchor
    && Describes(dst[d0..op], ss, whole[..d], whole[d..], anchor)
    && CanFinish(room, d0, op, ss, |whole| - d)
    && Compact(d0, op, anchor)
  }

  lemma HeadWithMatch(ll: nat, nibble: nat, rest: seq<byte>, text: seq<byte>)
    requires nibble <= 15 && Head(ll, 0) + rest == text
    ensures text != [] && text[0] == Head(ll, 0)[0] && text[0] as int + nibble < 256
    ensures [(text[0] as int + nibble) as byte] + text[1..] == Head(ll, nibble) + rest
  {
    assert text[1..] == Ext(ll) + rest;
    assert Head(ll, nibble)[1..] == Ext(ll);
  }

  lemma OpenedHead(dst: seq<byte>, dst': seq<byte>, token: nat, op0: nat, op: nat, ll: nat, lits: seq<byte>, nibble: nat, tail: seq<byte>)
    requires token < op0 <= op <= |dst| == |dst'| && nibble <= 15
    requires dst[token..op0] == Head(ll, 0) + lits
    requires forall i :: token < i < op0 ==> dst'[i] == dst[i]
    requires dst'[token] as int == dst[token] as int + nibble
    requires dst'[op0..op] == tail
    ensures dst'[token..op] == Head(ll, nibble) + lits + tail
  {
    HeadWithMatch(ll, nibble, lits, dst[token..op0]);
    assert dst'[token..op0] == [dst'[token]] + dst[token..op0][1..];
    assert dst'[token..op] == dst'[token..op0] + dst'[op0..op];
  }

  /** Worst case of the output position, relative to what the bound allows, once literals up to ip are written. */
  lemma OpenedRoom(d0: nat, token: nat, op: nat, anchor: nat, ip: nat, n: nat)
    requires Compact(d0, token, anchor) && d0 <= token && anchor <= ip && ip + MFLIMIT <= n
    requires op == token + 1 + (ip - anchor + 240) / 255 + (ip - anchor)
    ensures op + 9 + (n - ip) / 255 <= d0 + CompressBound(n)
  {
  }

  /** The bytes between token and op are one emitted sequence. */
  lemma SequenceBytes(before: seq<byte>, after: seq<byte>, token: nat, op0: nat, op: nat, literals: seq<byte>, off: nat, len: nat)
    requires token < op0 <= op <= |before| == |after|
    requires 1 <= off <= MAXDISTANCE && len >= MINMATCH
    requires before[token..op0] == Head(|literals|, 0) + literals
    requires forall i :: token < i < op0 ==> after[i] == before[i]
    requires after[token] as int == before[token] as int + Nibble(len - MINMATCH)
    requires after[op0..op] == LE16(off) + Ext(len - MINMATCH)
    ensures after[token..op] == Emit(Sequence(literals, off, len))
  {
    OpenedHead(before, after, token, op0, op, |literals|, literals, Nibble(len - MINMATCH), LE16(off) + Ext(len - MINMATCH));
    SequenceText(literals, off, len);
  }

  /** ss and one more sequence: literals up to ip0, and a match from m up to ip. */
  function Appended(ss: seq<Sequence>, whole: seq<byte>, d: nat, anchor: nat, ip0: nat, m: nat, ip: nat): seq<Sequence>
    requires anchor <= ip0 <= ip && d + ip0 <= |whole| && m <= d + ip0
  {
    ss + [Sequence(whole[d + anchor..d + ip0], d + ip0 - m, ip - ip0)]
  }

  lemma Closing(before: seq<byte>, after: seq<byte>, d0: nat, token: nat, op0: nat, op: nat, whole: seq<byte>, d: nat,
                anchor: nat, ip0: nat, off: nat, ip: nat, ss: seq<Sequence>) returns (ss': seq<Sequence>)
    requires d0 <= token < op0 <= op <= |before| == |after| && d <= |whole|
    requires anchor <= ip0 && ip0 + MINMATCH <= ip && d + ip <= |whole|
    requires Describes(before[d0..token], ss, whole[..d], whole[d..], anchor)
    requires before[token..op0] == Head(ip0 - anchor, 0) + whole[d + anchor..d + ip0]
    requires off <= MAXDISTANCE && Genuine(whole, d + ip0, off, ip - ip0)
    requires forall i :: 0 <= i < op0 && i != token ==> after[i] == before[i]
    requires after[token] as int == before[token] as int + Nibble(ip - ip0 - MINMATCH)
    requires after[op0..op] == LE16(off) + Ext(ip - ip0 - MINMATCH)
    ensures TextLength(ss') == ip && ss' != [] && ss'[|ss'| - 1].len == ip - ip0
    ensures ss' == Appended(ss, whole, d, anchor, ip0, d + ip0 - off, ip)
    ensures Describes(after[d0..op], ss', whole[..d], whole[d..], ip)
  {
    hide Emit, Head, Expand, Applies, EmitAll, CopyMatch;
    var hist, src := whole[..d], whole[d..];
    assert hist + src == whole;
    assert src[anchor..ip0] == whole[d + anchor..d + ip0];
    var s := Sequence(src[anchor..ip0], off, ip - ip0);
    SequenceBytes(before, after, token, op0, op, src[anchor..ip0], off, ip - ip0);
    assert after[d0..op] == before[d0..token] + after[token..op];
    SequenceWritten(before[d0..token], ss, hist, src, anchor, ip0, off, ip);
    ss' := ss + [s];
  }

  /** Encodes the match of an opened sequence and closes it. */
  method CloseSequence(dst: array<byte>, ghost d0: nat, token: nat, op0: nat, room: Room, table: array<nat>, whole: seq<byte>,
                       d: nat, ghost startIndex: nat, tableType: TableType, dictDirective: DictDirective,
                       ghost anchor: nat, ip0: nat, m: nat, filledIp: nat, ghost agree: nat, ghost ss: seq<Sequence>)
    returns (status: MatchStatus, op: nat, ip: nat, ghost ss': seq<Sequence>)
    requires Opened(dst, d0, token, op0, ss, whole, d, anchor, ip0) && op0 <= room.olimit <= dst.Length
    requires Compact(d0, token, anchor) && op0 == token + 1 + (ip0 - anchor + 240) / 255 + (ip0 - anchor)
    requires MatchAt(whole, d, ip0, m, agree, dictDirective)
    requires WillRewind(room, op0) || Searched(table, whole, d, startIndex, tableType, ip0, filledIp, agree)
    requires room.limit.NotLimited? ==> d0 + CompressBound(|whole| - d) <= room.olimit
    requires room.limit.LimitedOutput? ==> op0 + 2 <= room.olimit
    modifies dst, table
    ensures forall i :: 0 <= i < dst.Length && !(token <= i < room.olimit) ==> dst[i] == old(dst[i])
    ensures status.Rewind? ==> room.limit.FillOutput? && forall h :: 0 <= h < table.Length ==> table[h] == old(table[h])
    ensures status.Encoded? ==> ip > filledIp || WillRewind(room, op + 1)
    ensures status.NoRoom? ==>
      && room.limit.LimitedOutput? && d0 + CompressBound(|whole| - d) > room.olimit
      && TableOk(table, whole, d, startIndex, tableType, |whole| - d)
    ensures status.Encoded? ==> ip0 <= ip && ss' == Appended(ss, whole, d, anchor, ip0, m, ip)
    ensures !status.Rewind? ==>
      if Uncut(room, whole, d, op0 + 2, ip0, m)
      then status.Encoded? && ip == ip0 + FullLength(whole, d, ip0, m) && table[..] == old(table[..])
      else status.NoRoom? || room.limit.FillOutput?
    ensures status.Rewind? <==> WillRewind(room, op0)
    ensures status.Encoded? ==>
      ip0 + MINMATCH <= ip && Closed(dst, d0, op, room, ss', whole, d, ip) && TableOk(table, whole, d, startIndex, tableType, ip)
      && ss' != [] && d + ip + LASTLITERALS <= |whole|
  {
    hide Hash, Read32, Word, Emit, EmitAll, Expand, Applies, TextLength, CopyMatch, EntryOk, Uncut, FullLength, Appended;
    ghost var before := dst[..];
    OpenedRoom(d0, token, op0, anchor, ip0, |whole| - d);
    HeadWithMatch(ip0 - anchor, 0, whole[d + anchor..d + ip0], dst[token..op0]);
    status, op, ip := EncodeMatch(dst, token, op0, room, table, whole, d, startIndex, tableType, dictDirective, ip0, m, filledIp, agree);
    ss' := ss;
    if status.Encoded? {
      ss' := Closing(before, dst[..], d0, token, op0, op, whole, d, anchor, ip0, d + ip0 - m, ip, ss);
      CompactStep(d0, token, op, anchor, ip0, ip);
    }
  }

  /** End of a match at anchor: records two positions and tests whether another match starts right here. */
  method TestBehind(table: array<nat>, whole: seq<byte>, d: nat, startIndex: nat, tableType: TableType, dictDirective: DictDirective,
                    dictSmall: bool, anchor: nat, ghost j: Setup)
    returns (found: bool, m: nat)
    requires Callable(whole, d, startIndex, tableType, dictDirective, dictSmall)
    requires j == Setup(whole, d, startIndex, tableType, dictDirective, dictSmall, j.acceleration) && j.Ok()
    requires anchor >= 2 && d + anchor + MFLIMIT <= |whole|
    requires TableOk(table, whole, d, startIndex, tableType, anchor)
    modifies table
    ensures TableOk(table, whole, d, startIndex, tableType, anchor + 1)
    ensures found ==> Candidate(whole, d, d + anchor, m, dictDirective)
    ensures NextMatch(j, old(table[..]), anchor) == if found then Found(anchor, m, table[..]) else FirstMatch(j, table[..], anchor)
  {
    hide Hash, EntryOk, Hit, Candidate, FirstMatch, PlaceOf;
    PutIndexOnHash(table, startIndex + anchor - 2, Hash(whole, d + anchor - 2, tableType), whole, d, startIndex, tableType, anchor,
                   dictDirective, dictSmall);
    found, m := TestPosition(table, whole, d, startIndex, tableType, dictDirective, dictSmall, anchor, Hash(whole, d + anchor, tableType), j);
  }

  /** The same, and opens a sequence without literals for the match. */
  method TestNextPosition(dst: array<byte>, ghost d0: nat, op0: nat, ghost room: Room, table: array<nat>, whole: seq<byte>, d: nat,
                          startIndex: nat, tableType: TableType, dictDirective: DictDirective, dictSmall: bool, anchor: nat,
                          ghost ss: seq<Sequence>, ghost j: Setup)
    returns (found: bool, m: nat)
    requires Callable(whole, d, startIndex, tableType, dictDirective, dictSmall)
    requires j == Setup(whole, d, startIndex, tableType, dictDirective, dictSmall, j.acceleration) && j.Ok()
    requires Closed(dst, d0, op0, room, ss, whole, d, anchor) && op0 < dst.Length
    requires anchor >= 2 && d + anchor + MFLIMIT <= |whole|
    requires TableOk(table, whole, d, startIndex, tableType, anchor)
    modifies dst, table
    ensures forall i :: 0 <= i < dst.Length && i != op0 ==> dst[i] == old(dst[i])
    ensures Closed(dst, d0, op0, room, ss, whole, d, anchor)
    ensures TableOk(table, whole, d, startIndex, tableType, anchor + 1)
    ensures found ==> Opened(dst, d0, op0, op0 + 1, ss, whole, d, anchor, anchor)
    ensures found ==> MatchAt(whole, d, anchor, m, 4, dictDirective)
    ensures NextMatch(j, old(table[..]), anchor) == if found then Found(anchor, m, table[..]) else FirstMatch(j, table[..], anchor)
  {
    hide Hash, EntryOk, NextMatch, FirstMatch, Describes, Same;
    found, m := TestBehind(table, whole, d, startIndex, tableType, dictDirective, dictSmall, anchor, j);
    if found {
      ghost var closed := dst[d0..op0];
      dst[op0] := 0;
      assert dst[d0..op0] == closed;
      assert dst[op0..op0 + 1] == Head(0, 0) + whole[d + anchor..d + anchor];
    }
  }

  datatype ChainStatus = Failed | LastLiterals | SearchOn | Another

  // ---------- Following the plan ----------

  ghost predicate PlanOf(plan: Plan, whole: seq<byte>, d: nat, startIndex: nat, tableType: TableType, dictDirective: DictDirective,
                         dictSmall: bool) {
    plan.Ok() && plan.setup == Setup(whole, d, startIndex, tableType, dictDirective, dictSmall, plan.setup.acceleration)
  }

  /** In fillOutput mode, the plan is left when the target is full. */
  ghost predicate Full(plan: Plan, room: Room, size: int, anchor: nat)
    requires plan.Ok()
  {
    room.limit.FillOutput? && Sated(plan, size, anchor)
  }

  /** Right behind a match, with t as the table. */
  ghost predicate Matched(plan: Plan, room: Room, size: int, ss: seq<Sequence>, anchor: nat, t: seq<nat>)
    requires plan.Ok()
  {
    || Full(plan, room, size, anchor)
    || (if plan.setup.d + anchor + MFLIMIT > |plan.setup.whole| then plan.all == ss && plan.left == t
        else anchor >= 2 && |t| == HASHENTRIES && OnPlan(plan, ss, anchor, NextMatch(plan.setup, t, anchor)))
  }

  /** The sequences of the plan up to ss are written, and this is what status says about the rest. */
  ghost predicate Progress(plan: Plan, room: Room, size: int, ss: seq<Sequence>, anchor: nat, ip: nat, m: nat, t: seq<nat>,
                           status: ChainStatus)
    requires plan.Ok()
  {
    match status
    case Failed => |plan.Bytes()| > size
    case LastLiterals => Full(plan, room, size, anchor) || (plan.all == ss && plan.left == t)
    case SearchOn =>
      || Full(plan, room, size, anchor)
      || (plan.setup.d + anchor + MFLIMIT <= |plan.setup.whole| && |t| == HASHENTRIES
          && OnPlan(plan, ss, anchor, FirstMatch(plan.setup, t, anchor)))
    case Another => Full(plan, room, size, anchor) || (|t| == HASHENTRIES && OnPlan(plan, ss, anchor, Found(ip, m, t)))
  }

  /** All sequences of the plan are written, as far as they fit. */
  ghost predicate AllWritten(plan: Plan, room: Room, size: int, ss: seq<Sequence>, anchor: nat)
    requires plan.Ok()
  {
    Full(plan, room, size, anchor) || plan.all == ss
  }

  /** The whole plan fits, in fillOutput mode with three bytes to spare. */
  ghost predicate WholeFits(plan: Plan, room: Room, d0: nat)
    requires plan.Ok()
  {
    match room.limit
    case NotLimited => true
    case LimitedOutput => |plan.Bytes()| <= room.olimit - d0
    case FillOutput => |plan.Bytes()| + 3 <= room.olimit - d0
  }

  lemma LastLiteralsLeft(plan: Plan, room: Room, d0: nat, ss: seq<Sequence>, anchor: nat, t: seq<nat>)
    requires plan.Ok() && Progress(plan, room, room.olimit - d0, ss, anchor, 0, 0, t, LastLiterals)
    ensures AllWritten(plan, room, room.olimit - d0, ss, anchor) && (WholeFits(plan, room, d0) ==> t == plan.left)
  {
    hide Plan.Bytes, Sated;
    if Full(plan, room, room.olimit - d0, anchor) { FullIsFull(plan, room.olimit - d0, anchor); }
  }

  lemma ExtSize(n: nat)
    ensures |Ext(n)| == (n + 240) / 255
  {
    if n >= 15 { Ext255Bytes(n - 15); }
  }

  lemma EmitSize(s: Sequence)
    requires Encodable(s)
    ensures |Emit(s)| == 1 + (|s.literals| + 240) / 255 + |s.literals| + 2 + (s.len - MINMATCH + 240) / 255
  {
    hide Ext;
    ExtSize(|s.literals|);
    ExtSize(s.len - MINMATCH);
  }

  /** The next sequence of the plan, and where it ends in the output. */
  lemma NextSize(plan: Plan, ss: seq<Sequence>, anchor: nat, f: Found)
    requires OnPlan(plan, ss, anchor, f) && f.Found?
    ensures var s := Taken(plan.setup, f, anchor);
      && Encodable(s) && |s.literals| == f.at - anchor && s.offset == plan.setup.d + f.at - f.m && ss + [s] <= plan.all
      && (forall t :: t in ss ==> Encodable(t)) && (forall t :: t in ss + [s] ==> Encodable(t))
      && |EmitAll(ss + [s])| == |EmitAll(ss)| + 1 + (f.at - anchor + 240) / 255 + (f.at - anchor) + 2 + (s.len - MINMATCH + 240) / 255
  {
    hide Taken, NextMatch, FirstMatch, Greedy, EmitAll, Emit, TextLength;
    var s := Taken(plan.setup, f, anchor);
    TakenFits(plan.setup, f, anchor);
    PlanNext(plan, ss, anchor, f);
    forall t | t in ss + [s] ensures Encodable(t) { assert t in plan.all; }
    EmitSize(s);
    EmitAllAppend(ss, s);
  }

  /** Without room for the next sequence and six bytes, the block does not fit. */
  lemma NoRoomForPlan(plan: Plan, ss: seq<Sequence>, anchor: nat, f: Found, size: int)
    requires OnPlan(plan, ss, anchor, f) && f.Found? && forall t :: t in ss ==> Encodable(t)
    requires |EmitAll(ss)| + 1 + (f.at - anchor + 240) / 255 + (f.at - anchor) + 2
             + (Taken(plan.setup, f, anchor).len - MINMATCH + 240) / 255 + 6 > size
    ensures |plan.Bytes()| > size
  {
    hide Taken, Greedy, EmitAll, TextLength, FoundOk;
    NextSize(plan, ss, anchor, f);
    PrefixSizes(ss + [Taken(plan.setup, f, anchor)], plan.all);
  }

  /** At _next_match: a sequence is open, its match is known, and the table has seen no more than it should. */
  ghost predicate Pending(dst: array<byte>, d0: nat, token: nat, op: nat, room: Room, table: array<nat>, whole: seq<byte>,
                          d: nat, startIndex: nat, tableType: TableType, dictDirective: DictDirective,
                          anchor: nat, ip: nat, m: nat, filledIp: nat, agree: nat, next: nat, ss: seq<Sequence>)
    reads dst, table
  {
    && Closed(dst, d0, token, room, ss, whole, d, anchor)
    && Opened(dst, d0, token, op, ss, whole, d, anchor, ip) && op <= room.olimit <= dst.Length
    && op == token + 1 + (ip - anchor + 240) / 255 + (ip - anchor)
    && MatchAt(whole, d, ip, m, agree, dictDirective)
    && TableOk(table, whole, d, startIndex, tableType, next) && d + next <= |whole|
    && (WillRewind(room, op) || Searched(table, whole, d, startIndex, tableType, ip, filledIp, agree))
    && (room.limit.NotLimited? ==> d0 + CompressBound(|whole| - d) <= room.olimit)
    && (room.limit.LimitedOutput? ==> op + 2 <= room.olimit)
  }

  /** What holds when _next_match has been left. */
  ghost predicate ChainLeft(dst: array<byte>, d0: nat, op: nat, room: Room, table: array<nat>, whole: seq<byte>, d: nat,
                            startIndex: nat, tableType: TableType, anchor: nat, ss: seq<Sequence>, status: ChainStatus)
    reads dst, table
  {
    && d <= |whole|
    && (!status.Failed? ==> Closed(dst, d0, op, room, ss, whole, d, anchor))
    && (status.Failed? ==> room.limit.LimitedOutput? && d0 + CompressBound(|whole| - d) > room.olimit)
    && (!status.SearchOn? ==> TableOk(table, whole, d, startIndex, tableType, |whole| - d))
    && (status.SearchOn? ==> d + anchor + MFLIMIT <= |whole| && TableOk(table, whole, d, startIndex, tableType, anchor + 1))
  }

  lemma RoomForToken(d0: nat, op: nat, room: Room, ss: seq<Sequence>, n: nat, anchor: nat)
    requires Compact(d0, op, anchor) && d0 <= op && CanFinish(room, d0, op, ss, n) && ss != [] && anchor + MFLIMIT <= n
    requires room.limit.NotLimited? ==> d0 + CompressBound(n) <= room.olimit
    ensures op + 1 <= room.olimit && (room.limit.LimitedOutput? ==> op + 3 <= room.olimit)
  {
  }

  /** Behind a match: the end of the block is near, or another match starts right here, or the search goes on. */
  method TryNext(dst: array<byte>, ghost d0: nat, op: nat, ghost room: Room, table: array<nat>, whole: seq<byte>,
                 d: nat, startIndex: nat, tableType: TableType, dictDirective: DictDirective, dictSmall: bool,
                 anchor: nat, ghost filledIp: nat, ghost ss: seq<Sequence>, ghost plan: Plan)
    returns (status: ChainStatus, m: nat)
    requires PlanOf(plan, whole, d, startIndex, tableType, dictDirective, dictSmall)
    requires Matched(plan, room, room.olimit - d0, ss, anchor, table[..])
    requires Callable(whole, d, startIndex, tableType, dictDirective, dictSmall)
    requires Closed(dst, d0, op, room, ss, whole, d, anchor) && ss != [] && d + anchor + LASTLITERALS <= |whole|
    requires TableOk(table, whole, d, startIndex, tableType, anchor) && anchor >= 2 && room.olimit <= dst.Length
    requires anchor > filledIp || WillRewind(room, op + 1)
    requires room.limit.NotLimited? ==> d0 + CompressBound(|whole| - d) <= room.olimit
    modifies dst, table
    ensures forall i :: 0 <= i < dst.Length && !(d0 <= i < room.olimit) ==> dst[i] == old(dst[i])
    ensures !status.Failed?
    ensures !status.Another? ==> ChainLeft(dst, d0, op, room, table, whole, d, startIndex, tableType, anchor, ss, status)
    ensures status.Another? ==> Pending(dst, d0, op, op + 1, room, table, whole, d, startIndex, tableType, dictDirective,
                                        anchor, anchor, m, filledIp, 4, anchor + 1, ss)
    ensures Progress(plan, room, room.olimit - d0, ss, anchor, anchor, m, table[..], status)
  {
    hide Hash, Read32, Word, Emit, EmitAll, Expand, Applies, TextLength, CopyMatch, EntryOk, OnPlan, NextMatch, FirstMatch, Sated;
    var n := |whole| - d;
    if anchor >= n - MFLIMIT + 1 {
      TableLater(table, whole, d, startIndex, tableType, anchor, n);
      return LastLiterals, 0;
    }
    RoomForToken(d0, op, room, ss, n, anchor);
    var found;
    found, m := TestNextPosition(dst, d0, op, room, table, whole, d, startIndex, tableType, dictDirective, dictSmall, anchor, ss,
                                 plan.setup);
    status := if found then Another else SearchOn;
  }

  /** The next sequence of the plan has been appended, with its match in full length. */
  lemma PlanMatched(plan: Plan, room: Room, size: int, ss0: seq<Sequence>, anchor0: nat, f: Found, ip: nat, ss: seq<Sequence>)
    requires OnPlan(plan, ss0, anchor0, f) && f.Found?
    requires ip == f.at + FullLength(plan.setup.whole, plan.setup.d, f.at, f.m)
    requires ss == Appended(ss0, plan.setup.whole, plan.setup.d, anchor0, f.at, f.m, ip)
    ensures Matched(plan, room, size, ss, ip, f.table)
  {
    hide NextMatch, FirstMatch, Greedy, Fit, Full, RunLength, Same;
    TakenFits(plan.setup, f, anchor0);
    assert ss == ss0 + [Taken(plan.setup, f, anchor0)];
    PlanNext(plan, ss0, anchor0, f);
  }

  /** What CloseSequence has made of the next sequence of the plan. */
  lemma SequenceClosed(plan: Plan, room: Room, d0: nat, op0: nat, size: int, ss0: seq<Sequence>, anchor0: nat, f: Found, status: MatchStatus, ip: nat,
                       t: seq<nat>, ss: seq<Sequence>)
    requires plan.Ok() && f.Found? && FoundOk(plan.setup, f, anchor0) && TextLength(ss0) == anchor0
    requires Progress(plan, room, size, ss0, anchor0, f.at, f.m, f.table, Another) && (forall t :: t in ss0 ==> Encodable(t))
    requires d0 <= op0 && op0 == d0 + |EmitAll(ss0)| + 1 + (f.at - anchor0 + 240) / 255 + (f.at - anchor0) && size == room.olimit - d0
    requires status.NoRoom? ==> room.limit.LimitedOutput?
    requires status.Rewind? <==> WillRewind(room, op0)
    requires !status.Rewind? ==>
      if Uncut(room, plan.setup.whole, plan.setup.d, op0 + 2, f.at, f.m)
      then status.Encoded? && ip == f.at + FullLength(plan.setup.whole, plan.setup.d, f.at, f.m) && t == f.table
      else status.NoRoom? || room.limit.FillOutput?
    requires status.Encoded? ==> ip >= f.at + MINMATCH
    requires status.Encoded? ==>
      ss == Appended(ss0, plan.setup.whole, plan.setup.d, anchor0, f.at, f.m, ip)
    ensures status.NoRoom? ==> |plan.Bytes()| > size
    ensures status.Rewind? ==> Full(plan, room, size, anchor0)
    ensures status.Encoded? ==> Matched(plan, room, size, ss, ip, t)
  {
    hide NextMatch, FirstMatch, Greedy, EmitAll, TextLength, Plan.Ok, Plan.Bytes, Sated, RunLength, Same;
    if Full(plan, room, size, anchor0) {
      SatedLater(plan, size, anchor0, if status.Encoded? then ip else anchor0);
    } else {
      NextSize(plan, ss0, anchor0, f);
      var s := Taken(plan.setup, f, anchor0);
      if status.NoRoom? {
        NoRoomForPlan(plan, ss0, anchor0, f, size);
      } else if status.Rewind? || (!room.limit.NotLimited? && |EmitAll(ss0 + [s])| + 6 > size) {
        SatedAt(plan, ss0, s, size, if status.Encoded? then ip else anchor0);
      } else {
        PlanMatched(plan, room, size, ss0, anchor0, f, ip, ss);
      }
    }
  }

  lemma SatedLater(plan: Plan, size: int, anchor: nat, anchor': nat)
    requires plan.Ok() && Sated(plan, size, anchor) && anchor <= anchor'
    ensures Sated(plan, size, anchor')
  {
    hide EmitAll, TextLength;
  }

  /** One match of the chain, and the test for the next. */
  method ChainRound(dst: array<byte>, ghost d0: nat, token: nat, op0: nat, room: Room, table: array<nat>, whole: seq<byte>,
                    d: nat, startIndex: nat, tableType: TableType, dictDirective: DictDirective, dictSmall: bool,
                    anchor0: nat, ip0: nat, m0: nat, filledIp: nat, ghost agree: nat, ghost next: nat, ghost ss0: seq<Sequence>,
                    ghost plan: Plan)
    returns (status: ChainStatus, op: nat, anchor: nat, m: nat, ghost ss: seq<Sequence>)
    requires Callable(whole, d, startIndex, tableType, dictDirective, dictSmall)
    requires Pending(dst, d0, token, op0, room, table, whole, d, startIndex, tableType, dictDirective, anchor0, ip0, m0, filledIp, agree, next, ss0)
    requires PlanOf(plan, whole, d, startIndex, tableType, dictDirective, dictSmall)
    requires Progress(plan, room, room.olimit - d0, ss0, anchor0, ip0, m0, table[..], Another)
    modifies dst, table
    ensures forall i :: 0 <= i < dst.Length && !(d0 <= i < room.olimit) ==> dst[i] == old(dst[i])
    ensures !status.Another? ==> ChainLeft(dst, d0, op, room, table, whole, d, startIndex, tableType, anchor, ss, status)
    ensures status.SearchOn? || status.Another? ==> ip0 < anchor
    ensures status.Another? ==> Pending(dst, d0, op, op + 1, room, table, whole, d, startIndex, tableType, dictDirective,
                                        anchor, anchor, m, filledIp, 4, anchor + 1, ss)
    ensures Progress(plan, room, room.olimit - d0, ss, anchor, anchor, m, table[..], status)
  {
    hide Hash, Read32, Word, Emit, EmitAll, Expand, Applies, TextLength, CopyMatch, EntryOk, Matched, Full, OnPlan, FirstMatch,
         Plan.Bytes, Plan.Ok, RunLength, Same, Pending, MatchAt, Searched, Uncut, FullLength, Opened,
         Describes, CanFinish, WillRewind;
    var n := |whole| - d;
    AtNextMatch(dst, d0, token, op0, room, table, whole, d, startIndex, tableType, dictDirective, anchor0, ip0, m0, filledIp, agree, next, ss0);
    ghost var before, f := dst[..], Found(ip0, m0, table[..]);
    MatchFound(whole, d, ip0, m0, agree, dictDirective, plan.setup, f, anchor0);
    var status1;
    status1, op, anchor, ss := CloseSequence(dst, d0, token, op0, room, table, whole, d, startIndex, tableType, dictDirective,
                                             anchor0, ip0, m0, filledIp, agree, ss0);
    SequenceClosed(plan, room, d0, op0, room.olimit - d0, ss0, anchor0, f, status1, anchor, table[..], ss);
    m := 0;
    if status1.NoRoom? { return Failed, op, anchor, 0, ss; }
    if status1.Rewind? {
      TableLater(table, whole, d, startIndex, tableType, next, n);
      assert dst[d0..token] == before[d0..token];
      return LastLiterals, token, anchor0, 0, ss0;
    }
    status, m := TryNext(dst, d0, op, room, table, whole, d, startIndex, tableType, dictDirective, dictSmall, anchor, filledIp, ss, plan);
  }

  lemma AtNextMatch(dst: array<byte>, d0: nat, token: nat, op: nat, room: Room, table: array<nat>, whole: seq<byte>,
                    d: nat, startIndex: nat, tableType: TableType, dictDirective: DictDirective,
                    anchor: nat, ip: nat, m: nat, filledIp: nat, agree: nat, next: nat, ss: seq<Sequence>)
    requires Pending(dst, d0, token, op, room, table, whole, d, startIndex, tableType, dictDirective, anchor, ip, m, filledIp, agree, next, ss)
    ensures Closed(dst, d0, token, room, ss, whole, d, anchor) && Opened(dst, d0, token, op, ss, whole, d, anchor, ip)
    ensures op <= room.olimit <= dst.Length && op == token + 1 + (ip - anchor + 240) / 255 + (ip - anchor)
    ensures |EmitAll(ss)| == token - d0 && TextLength(ss) == anchor && (forall s :: s in ss ==> Encodable(s))
    ensures anchor <= ip && d + ip + MFLIMIT <= |whole|
    ensures MatchAt(whole, d, ip, m, agree, dictDirective)
    ensures TableOk(table, whole, d, startIndex, tableType, next) && d + next <= |whole|
    ensures WillRewind(room, op) || Searched(table, whole, d, startIndex, tableType, ip, filledIp, agree)
    ensures room.limit.NotLimited? ==> d0 + CompressBound(|whole| - d) <= room.olimit
    ensures room.limit.LimitedOutput? ==> op + 2 <= room.olimit
  {
    hide EmitAll, TextLength, EntryOk, Expand, Applies;
  }

  lemma MatchFound(whole: seq<byte>, d: nat, ip: nat, m: nat, agree: nat, dictDirective: DictDirective, j: Setup, f: Found, anchor: nat)
    requires j.whole == whole && j.d == d && f.Found? && f.at == ip && f.m == m
    requires MatchAt(whole, d, ip, m, agree, dictDirective) && anchor <= ip && d + ip + MFLIMIT <= |whole|
    ensures FoundOk(j, f, anchor)
  {
  }

  /**
    _next_match: encodes the match of an opened sequence, then every match that starts right where the
    previous one ended. Ends with everything closed, unless the output limit made compression fail.
   */
  method EncodeChain(dst: array<byte>, ghost d0: nat, token0: nat, op0: nat, room: Room, table: array<nat>, whole: seq<byte>,
                     d: nat, startIndex: nat, tableType: TableType, dictDirective: DictDirective, dictSmall: bool,
                     anchor0: nat, ip0: nat, m0: nat, filledIp: nat, ghost agree0: nat, ghost next0: nat, ghost ss0: seq<Sequence>,
                     ghost plan: Plan)
    returns (status: ChainStatus, op: nat, anchor: nat, ghost ss: seq<Sequence>)
    requires Callable(whole, d, startIndex, tableType, dictDirective, dictSmall)
    requires Pending(dst, d0, token0, op0, room, table, whole, d, startIndex, tableType, dictDirective, anchor0, ip0, m0, filledIp, agree0, next0, ss0)
    requires PlanOf(plan, whole, d, startIndex, tableType, dictDirective, dictSmall)
    requires Progress(plan, room, room.olimit - d0, ss0, anchor0, ip0, m0, table[..], Another)
    modifies dst, table
    ensures forall i :: 0 <= i < dst.Length && !(d0 <= i < room.olimit) ==> dst[i] == old(dst[i])
    ensures ChainLeft(dst, d0, op, room, table, whole, d, startIndex, tableType, anchor, ss, status) && !status.Another?
    ensures status.SearchOn? ==> ip0 < anchor
    ensures Progress(plan, room, room.olimit - d0, ss, anchor, 0, 0, table[..], status)
  {
    hide Hash, Emit, EmitAll, Expand, Applies, TextLength, CopyMatch, EntryOk, TableOk, Closed, Opened, MatchAt, Searched, ChainLeft,
         OnPlan, Sated, Plan.Ok, FirstMatch, Plan.Bytes;
    var token, ip, m := token0, ip0, m0;
    ghost var agree: nat, next: nat := agree0, next0;
    op, anchor, ss := op0, anchor0, ss0;
    status := Another;
    while status.Another?
      invariant ip0 <= ip && (status.SearchOn? ==> ip0 < anchor)
      invariant forall i :: 0 <= i < dst.Length && !(d0 <= i < room.olimit) ==> dst[i] == old(dst[i])
      invariant status.Another? ==> Pending(dst, d0, token, op, room, table, whole, d, startIndex, tableType, dictDirective,
                                            anchor, ip, m, filledIp, agree, next, ss)
      invariant !status.Another? ==> ChainLeft(dst, d0, op, room, table, whole, d, startIndex, tableType, anchor, ss, status)
      invariant Progress(plan, room, room.olimit - d0, ss, anchor, ip, m, table[..], status)
      decreases status.Another?, |whole| - ip
    {
      status, op, anchor, m, ss := ChainRound(dst, d0, token, op, room, table, whole, d, startIndex, tableType, dictDirective,
                                              dictSmall, anchor, ip, m, filledIp, agree, next, ss, plan);
      if status.Another? {
        token, op, ip, agree, next := op, op + 1, anchor, 4, anchor + 1;
      }
    }
  }

  /** A match has been found at ip: its literals are written, and the chain of matches begins. */
  method EncodeFound(dst: array<byte>, ghost d0: nat, token: nat, room: Room, table: array<nat>, whole: seq<byte>, d: nat,
                     startIndex: nat, tableType: TableType, dictDirective: DictDirective, dictSmall: bool,
                     anchor0: nat, ip: nat, m: nat, filledIp: nat, ghost ss0: seq<Sequence>, ghost plan: Plan)
    returns (status: ChainStatus, op: nat, anchor: nat, ghost ss: seq<Sequence>)
    requires Callable(whole, d, startIndex, tableType, dictDirective, dictSmall)
    requires Closed(dst, d0, token, room, ss0, whole, d, anchor0) && token <= room.olimit <= dst.Length
    requires anchor0 <= ip <= filledIp && d + filledIp + MFLIMIT <= |whole|
    requires MatchAt(whole, d, ip, m, filledIp - ip + 4, dictDirective)
    requires TableOk(table, whole, d, startIndex, tableType, filledIp + 1)
    requires room.limit.NotLimited? ==> d0 + CompressBound(|whole| - d) <= room.olimit
    requires PlanOf(plan, whole, d, startIndex, tableType, dictDirective, dictSmall)
    requires Progress(plan, room, room.olimit - d0, ss0, anchor0, ip, m, table[..], Another)
    modifies dst, table
    ensures forall i :: 0 <= i < dst.Length && !(d0 <= i < room.olimit) ==> dst[i] == old(dst[i])
    ensures ChainLeft(dst, d0, op, room, table, whole, d, startIndex, tableType, anchor, ss, status) && !status.Another?
    ensures status.SearchOn? ==> anchor0 < anchor
    ensures Progress(plan, room, room.olimit - d0, ss, anchor, 0, 0, table[..], status)
  {
    hide Hash, Read32, Word, Emit, EmitAll, Expand, Applies, TextLength, CopyMatch, EntryOk, MatchAt, TableOk, Progress, Plan.Ok;
    ghost var n, before := |whole| - d, dst[..];
    anchor, ss := anchor0, ss0;
    var ok;
    assert whole[d..][anchor..ip] == whole[d + anchor..d + ip];
    ok, op := EncodeLiterals(dst, token, room, whole[d..], anchor, ip);
    assert dst[d0..token] == before[d0..token];
    if !ok {
      TableLater(table, whole, d, startIndex, tableType, filledIp + 1, n);
      MatchFound(whole, d, ip, m, filledIp - ip + 4, dictDirective, plan.setup, Found(ip, m, table[..]), anchor);
      LiteralsRefused(plan, room, room.olimit - d0, ss, anchor, Found(ip, m, table[..]));
      return if room.limit.LimitedOutput? then Failed else LastLiterals, token, anchor, ss;
    }
    status, op, anchor, ss := EncodeChain(dst, d0, token, op, room, table, whole, d, startIndex, tableType, dictDirective, dictSmall,
                                          anchor, ip, m, filledIp, filledIp - ip + 4, filledIp + 1, ss, plan);
  }

  /** What it means that EncodeLiterals has refused the literals of the next sequence of the plan. */
  lemma LiteralsRefused(plan: Plan, room: Room, size: int, ss: seq<Sequence>, anchor: nat, f: Found)
    requires plan.Ok() && f.Found? && FoundOk(plan.setup, f, anchor) && TextLength(ss) == anchor && !room.limit.NotLimited?
    requires Progress(plan, room, size, ss, anchor, f.at, f.m, f.table, Another) && (forall t :: t in ss ==> Encodable(t))
    requires room.limit.LimitedOutput? ==> |EmitAll(ss)| + 1 + (f.at - anchor) + (f.at - anchor) / 255 + 8 > size
    requires room.limit.FillOutput? ==> |EmitAll(ss)| + 1 + (f.at - anchor + 240) / 255 + (f.at - anchor) + 11 > size
    ensures Progress(plan, room, size, ss, anchor, 0, 0, f.table, if room.limit.LimitedOutput? then Failed else LastLiterals)
  {
    hide Taken, Greedy, EmitAll, TextLength, Plan.Ok, Plan.Bytes, Sated;
    if !Full(plan, room, size, anchor) {
      NextSize(plan, ss, anchor, f);
      if room.limit.LimitedOutput? {
        NoRoomForPlan(plan, ss, anchor, f, size);
      } else {
        SatedAt(plan, ss, Taken(plan.setup, f, anchor), size, anchor);
      }
    }
  }

  /** The body of the main loop: one search, one opened sequence, and the chain of matches behind it. */
  method EncodeRound(dst: array<byte>, ghost d0: nat, op0: nat, room: Room, table: array<nat>, whole: seq<byte>, d: nat,
                     startIndex: nat, tableType: TableType, dictDirective: DictDirective, dictSmall: bool, acceleration: nat,
                     anchor0: nat, ip0: nat, ghost ss0: seq<Sequence>, ghost plan: Plan)
    returns (status: ChainStatus, op: nat, anchor: nat, ghost ss: seq<Sequence>)
    requires Callable(whole, d, startIndex, tableType, dictDirective, dictSmall) && acceleration >= 1
    requires Closed(dst, d0, op0, room, ss0, whole, d, anchor0) && op0 <= room.olimit <= dst.Length
    requires ip0 == anchor0 + 1 && d + ip0 + MFLIMIT - 1 <= |whole|
    requires TableOk(table, whole, d, startIndex, tableType, ip0)
    requires PlanOf(plan, whole, d, startIndex, tableType, dictDirective, dictSmall) && plan.setup.acceleration == acceleration
    requires Progress(plan, room, room.olimit - d0, ss0, anchor0, 0, 0, table[..], SearchOn)
    requires room.limit.NotLimited? ==> d0 + CompressBound(|whole| - d) <= room.olimit
    modifies dst, table
    ensures forall i :: 0 <= i < dst.Length && !(d0 <= i < room.olimit) ==> dst[i] == old(dst[i])
    ensures ChainLeft(dst, d0, op, room, table, whole, d, startIndex, tableType, anchor, ss, status) && !status.Another?
    ensures status.SearchOn? ==> anchor0 < anchor
    ensures Progress(plan, room, room.olimit - d0, ss, anchor, 0, 0, table[..], status)
  {
    hide Hash, Emit, EmitAll, Expand, Applies, TextLength, EntryOk, MatchAt, TableOk, Candidate, Search, Back, Plan.Ok, Sated;
    ghost var t := table[..];
    op, anchor, ss := op0, anchor0, ss0;
    var found, filledIp, m := FindMatch(table, whole, d, startIndex, tableType, dictDirective, dictSmall, ip0,
                                        Hash(whole, d + ip0, tableType), acceleration);
    if !found {
      TableLater(table, whole, d, startIndex, tableType, filledIp + 1, |whole| - d);
      return LastLiterals, op, anchor, ss;
    }
    var ip;
    ip, m := CatchUp(whole, d, dictDirective, anchor, filledIp, m, plan.setup);
    assert FirstMatch(plan.setup, t, anchor) == Found(ip, m, table[..]);
    status, op, anchor, ss := EncodeFound(dst, d0, op, room, table, whole, d, startIndex, tableType, dictDirective, dictSmall,
                                          anchor, ip, m, filledIp, ss, plan);
  }

  /** The most that n equal bytes come to, n >= 13, as a block. */
  function RunSize(n: nat): nat { 10 + (n + 230) / 255 }

  lemma BlockDone(block: seq<byte>, out: seq<byte>, ss: seq<Sequence>, hist: seq<byte>, src: seq<byte>, anchor: nat, lastRun: nat)
    requires Describes(out, ss, hist, src, anchor) && TextLength(ss) == anchor && anchor + lastRun <= |src|
    requires EndsWell(ss, anchor + lastRun)
    requires block == out + EmitLast(src[anchor..anchor + lastRun])
    ensures Represents(block, hist, src[..anchor + lastRun])
  {
    hide Expand, Applies, EmitAll, EmitLast, TextLength, Decode, Conforming;
    WellFormedEmitted(hist, ss, src[anchor..anchor + lastRun]);
    TakeBoth(hist, src, anchor, anchor + lastRun);
  }

  /** Last literals may be trimmed in fillOutput mode; enough of them remain for the restrictions to hold. */
  lemma EndsWellTrimmed(room: Room, d0: nat, op: nat, ss: seq<Sequence>, n: nat, lastRun: nat)
    requires CanFinish(room, d0, op, ss, n) && forall s :: s in ss ==> Encodable(s)
    requires TextLength(ss) + lastRun == n
             || (room.limit.FillOutput? && op < room.olimit && lastRun == FitLiterals(room.olimit - op - 1))
    ensures EndsWell(ss, TextLength(ss) + lastRun)
  {
    if ss != [] { assert ss[|ss| - 1] in ss; }
  }

  /**
    What the output limit makes of a plan: the whole block if it fits, and otherwise nothing. In fillOutput mode three bytes
    more are needed for it; otherwise the target is filled, and no part that leaves 9 bytes is missing.
   */
  ghost predicate Outcome(plan: Plan, room: Room, d0: nat, out: seq<byte>, n: nat, consumed: nat)
    requires plan.Ok()
  {
    var size := room.olimit - d0;
    match room.limit
    case NotLimited => out == plan.Bytes()
    case LimitedOutput => out == if |plan.Bytes()| <= size then plan.Bytes() else []
    case FillOutput =>
      && (|plan.Bytes()| + 3 <= size ==> out == plan.Bytes() && consumed == n)
      && forall part :: part <= plan.all && |EmitAll(part)| + 9 <= size ==> TextLength(part) <= consumed
  }

  lemma AllPlanned(plan: Plan, size: int, anchor: nat)
    requires plan.Ok() && TextLength(plan.all) <= anchor
    ensures forall part :: part <= plan.all && |EmitAll(part)| + 9 <= size ==> TextLength(part) <= anchor
  {
    hide EmitAll, TextLength;
    forall part | part <= plan.all && |EmitAll(part)| + 9 <= size ensures TextLength(part) <= anchor {
      PrefixSizes(part, plan.all);
    }
  }

  lemma LastSize(literals: seq<byte>)
    ensures |EmitLast(literals)| == 1 + (|literals| + 240) / 255 + |literals|
  {
    hide Ext;
    ExtSize(|literals|);
  }

  /** The last literals are long enough that a full target could not take three bytes more than the block. */
  lemma FullIsFull(plan: Plan, size: int, anchor: nat)
    requires plan.Ok() && Sated(plan, size, anchor)
    ensures |plan.Bytes()| + 3 > size
  {
    hide EmitAll, EmitLast, TextLength;
    LastSize(plan.setup.whole[plan.setup.d + TextLength(plan.all)..]);
  }

  /** The end of the block, as EncodeLastLiterals has made it. */
  lemma Finished(plan: Plan, room: Room, d0: nat, ss: seq<Sequence>, anchor: nat, out: seq<byte>, consumed: nat)
    requires plan.Ok() && d0 <= room.olimit && AllWritten(plan, room, room.olimit - d0, ss, anchor)
    requires anchor <= consumed <= |plan.setup.whole| - plan.setup.d && TextLength(ss) == anchor && (forall s :: s in ss ==> Encodable(s))
    requires !room.limit.FillOutput? ==> consumed == |plan.setup.whole| - plan.setup.d
    requires out == EmitAll(ss) + EmitLast(plan.setup.whole[plan.setup.d + anchor..plan.setup.d + consumed])
    requires |out| <= room.olimit - d0 || room.limit.NotLimited?
    requires consumed < |plan.setup.whole| - plan.setup.d ==>
      |EmitAll(ss)| + 1 + (|plan.setup.whole| - plan.setup.d - anchor + 240) / 255 + (|plan.setup.whole| - plan.setup.d - anchor) > room.olimit - d0
    ensures Outcome(plan, room, d0, out, |plan.setup.whole| - plan.setup.d, consumed)
  {
    hide EmitAll, EmitLast, TextLength, Sated;
    var size, n, w := room.olimit - d0, |plan.setup.whole| - plan.setup.d, plan.setup.whole;
    if Full(plan, room, size, anchor) {
      SatedLater(plan, size, anchor, consumed);
      FullIsFull(plan, size, anchor);
      SatedParts(plan, size, consumed);
    } else {
      LastSize(w[plan.setup.d + anchor..]);
      AllPlanned(plan, size, consumed);
      assert consumed == n ==> w[plan.setup.d + anchor..plan.setup.d + consumed] == w[plan.setup.d + anchor..];
    }
  }

  lemma BlockEnds(plan: Plan, room: Room, d0: nat, ss: seq<Sequence>, anchor: nat, before: seq<byte>, block: seq<byte>, lastRun: nat)
    requires plan.Ok() && d0 <= room.olimit && AllWritten(plan, room, room.olimit - d0, ss, anchor)
    requires Describes(before, ss, plan.setup.whole[..plan.setup.d], plan.setup.whole[plan.setup.d..], anchor) && TextLength(ss) == anchor
    requires anchor + lastRun <= |plan.setup.whole| - plan.setup.d && EndsWell(ss, anchor + lastRun)
    requires !room.limit.FillOutput? ==> anchor + lastRun == |plan.setup.whole| - plan.setup.d
    requires block == before + EmitLast(plan.setup.whole[plan.setup.d..][anchor..anchor + lastRun])
    requires |block| <= room.olimit - d0
    requires var n := |plan.setup.whole| - plan.setup.d - anchor; lastRun < n ==> |before| + 1 + n + (n + 240) / 255 > room.olimit - d0
    ensures Represents(block, plan.setup.whole[..plan.setup.d], plan.setup.whole[plan.setup.d..][..anchor + lastRun])
    ensures Outcome(plan, room, d0, block, |plan.setup.whole| - plan.setup.d, anchor + lastRun)
  {
    hide Emit, EmitAll, EmitLast, Expand, Applies, CopyMatch, Represents, Plan.Ok, Progress, Outcome, TextLength, EndsWell;
    var w, d := plan.setup.whole, plan.setup.d;
    BlockDone(block, before, ss, w[..d], w[d..], anchor, lastRun);
    assert w[d..][anchor..anchor + lastRun] == w[d + anchor..d + (anchor + lastRun)];
    Finished(plan, room, d0, ss, anchor, block, anchor + lastRun);
  }

  lemma SatedParts(plan: Plan, size: int, anchor: nat)
    requires plan.Ok() && Sated(plan, size, anchor)
    ensures forall part :: part <= plan.all && |EmitAll(part)| + 9 <= size ==> TextLength(part) <= anchor
  {
    hide EmitAll, TextLength;
  }

  /** The last literals of the whole block do not fit a limited output. */
  lemma PlanTooLong(plan: Plan, room: Room, d0: nat, ss: seq<Sequence>, anchor: nat)
    requires plan.Ok() && room.limit.LimitedOutput? && d0 <= room.olimit && TextLength(ss) == anchor <= |plan.setup.whole| - plan.setup.d
    requires AllWritten(plan, room, room.olimit - d0, ss, anchor) && (forall s :: s in ss ==> Encodable(s))
    requires var n := |plan.setup.whole| - plan.setup.d;
      |EmitAll(ss)| + 1 + (n - anchor) + (n - anchor + 240) / 255 > room.olimit - d0
    ensures Outcome(plan, room, d0, [], |plan.setup.whole| - plan.setup.d, 0)
  {
    hide EmitAll, EmitLast, TextLength, Sated;
    LastSize(plan.setup.whole[plan.setup.d + anchor..]);
  }

  lemma ClosedParts(dst: array<byte>, d0: nat, op: nat, room: Room, ss: seq<Sequence>, whole: seq<byte>, d: nat, anchor: nat)
    returns (before: seq<byte>)
    requires Closed(dst, d0, op, room, ss, whole, d, anchor)
    ensures d0 <= op <= dst.Length && before == dst[d0..op] && d <= |whole|
    ensures Describes(before, ss, whole[..d], whole[d..], anchor) && TextLength(ss) == anchor && |before| == |EmitAll(ss)|
    ensures (forall s :: s in ss ==> Encodable(s)) && CanFinish(room, d0, op, ss, |whole| - d) && Compact(d0, op, anchor)
  {
    before := dst[d0..op];
  }

  /** _last_literals, and with it the end of the block. */
  method FinishBlock(dst: array<byte>, d0: nat, op0: nat, room: Room, whole: seq<byte>, d: nat, anchor: nat, ghost ss: seq<Sequence>,
                     ghost plan: Plan)
    returns (result: nat, consumed: nat)
    requires plan.Ok() && plan.setup.whole == whole && plan.setup.d == d
    requires AllWritten(plan, room, room.olimit - d0, ss, anchor)
    requires Closed(dst, d0, op0, room, ss, whole, d, anchor) && d0 <= room.olimit <= dst.Length
    requires room.limit.NotLimited? ==> d0 + CompressBound(|whole| - d) <= room.olimit
    modifies dst
    ensures forall i :: 0 <= i < dst.Length && !(d0 <= i < room.olimit) ==> dst[i] == old(dst[i])
    ensures result == 0 ==> room.limit.LimitedOutput? && d0 + CompressBound(|whole| - d) > room.olimit
    ensures result > 0 ==>
      && d0 + result <= room.olimit && result <= CompressBound(consumed)
      && consumed <= |whole| - d && (!room.limit.FillOutput? ==> consumed == |whole| - d)
      && (consumed < |whole| - d ==> d0 + result + 1 >= room.olimit)
      && Represents(dst[d0..d0 + result], whole[..d], whole[d..][..consumed])
    ensures d0 + result <= room.olimit && Outcome(plan, room, d0, dst[d0..d0 + result], |whole| - d, consumed)
  {
    hide EmitAll, EmitLast, Represents, Plan.Ok, Progress, Outcome, Closed, Describes, CanFinish, EndsWell;
    ghost var before := ClosedParts(dst, d0, op0, room, ss, whole, d, anchor);
    var src := whole[d..];
    ClosedRoom(dst, d0, op0, room, ss, whole, d, anchor);
    var ok, op, lastRun := EncodeLastLiterals(dst, op0, room, src, anchor);
    LastRoom(d0, op0, anchor, lastRun, |src|);
    if !ok {
      PlanTooLong(plan, room, d0, ss, anchor);
      assert dst[d0..d0 + 0] == [];
      return 0, 0;
    }
    EndsWellTrimmed(room, d0, op0, ss, |src|, lastRun);
    assert dst[d0..op] == before + dst[op0..op];
    BlockEnds(plan, room, d0, ss, anchor, before, dst[d0..op], lastRun);
    return op - d0, anchor + lastRun;
  }

  /** The first byte and the main loop: all sequences of the plan, as far as there is room. */
  method WriteSequences(dst: array<byte>, d0: nat, room: Room, table: array<nat>, whole: seq<byte>, d: nat, startIndex: nat,
                        tableType: TableType, dictDirective: DictDirective, dictSmall: bool, acceleration: nat, ghost plan: Plan)
    returns (status: ChainStatus, op: nat, anchor: nat, ghost ss: seq<Sequence>)
    requires Callable(whole, d, startIndex, tableType, dictDirective, dictSmall) && acceleration >= 1
    requires d + LZ4_minLength <= |whole| && TableOk(table, whole, d, startIndex, tableType, 1)
    requires d0 <= room.olimit <= dst.Length
    requires room.limit.NotLimited? ==> d0 + CompressBound(|whole| - d) <= room.olimit
    requires room.limit.FillOutput? ==> d0 < room.olimit
    requires plan == PlanFor(Setup(whole, d, startIndex, tableType, dictDirective, dictSmall, acceleration), table[..])
    modifies dst, table
    ensures forall i :: 0 <= i < dst.Length && !(d0 <= i < room.olimit) ==> dst[i] == old(dst[i])
    ensures ChainLeft(dst, d0, op, room, table, whole, d, startIndex, tableType, anchor, ss, status)
    ensures !status.Another? && !status.SearchOn?
    ensures Progress(plan, room, room.olimit - d0, ss, anchor, 0, 0, table[..], status)
  {
    hide Hash, EntryOk, Greedy, FirstMatch, NextMatch, Plan.Ok, Plan.Bytes, Sated, Describes, CanFinish;
    op, anchor, ss, status := d0, 0, [], SearchOn;
    NothingWritten(dst, d0, room, whole, d);
    PutIndexOnHash(table, startIndex, Hash(whole, d, tableType), whole, d, startIndex, tableType, 1, dictDirective, dictSmall);
    var ip := 1;
    while status.SearchOn?
      invariant forall i :: 0 <= i < dst.Length && !(d0 <= i < room.olimit) ==> dst[i] == old(dst[i])
      invariant ChainLeft(dst, d0, op, room, table, whole, d, startIndex, tableType, anchor, ss, status) && !status.Another?
      invariant ip == anchor + 1
      invariant Progress(plan, room, room.olimit - d0, ss, anchor, 0, 0, table[..], status)
      decreases status.SearchOn?, |whole| - anchor
    {
      ClosedRoom(dst, d0, op, room, ss, whole, d, anchor);
      status, op, anchor, ss := EncodeRound(dst, d0, op, room, table, whole, d, startIndex, tableType, dictDirective, dictSmall,
                                            acceleration, anchor, ip, ss, plan);
      ip := anchor + 1;
    }
  }

  /**
    LZ4_compress_generic_validated, on the bytes of the dictionary (whole[..d]) and of the block (whole[d..]).
    The result is 0 when the output limit does not allow a block; consumed is how many bytes it stands for.
   */
  method CompressBlock(table: array<nat>, startIndex: nat, whole: seq<byte>, d: nat, dst: array<byte>, d0: nat, room: Room,
                       tableType: TableType, dictDirective: DictDirective, dictSmall: bool, acceleration: nat)
    returns (result: nat, consumed: nat)
    requires Callable(whole, d, startIndex, tableType, dictDirective, dictSmall) && acceleration >= 1 && |whole| > d
    requires TableOk(table, whole, d, startIndex, tableType, 1)
    requires d0 <= room.olimit <= dst.Length
    requires room.limit.NotLimited? ==> d0 + CompressBound(|whole| - d) <= room.olimit
    requires room.limit.FillOutput? ==> d0 < room.olimit
    modifies dst, table
    ensures forall i :: 0 <= i < dst.Length && !(d0 <= i < room.olimit) ==> dst[i] == old(dst[i])
    ensures TableOk(table, whole, d, startIndex, tableType, |whole| - d)
    ensures result == 0 ==> room.limit.LimitedOutput? && d0 + CompressBound(|whole| - d) > room.olimit
    ensures result > 0 ==>
      && d0 + result <= room.olimit && result <= CompressBound(consumed)
      && consumed <= |whole| - d && (!room.limit.FillOutput? ==> consumed == |whole| - d)
      && (consumed < |whole| - d ==> d0 + result + 1 >= room.olimit)
      && Represents(dst[d0..d0 + result], whole[..d], whole[d..][..consumed])
    ensures d0 + result <= room.olimit
    ensures var j := Setup(whole, d, startIndex, tableType, dictDirective, dictSmall, acceleration);
      var plan := PlanFor(j, old(table[..]));
      Outcome(plan, room, d0, dst[d0..d0 + result], |whole| - d, consumed) && (WholeFits(plan, room, d0) ==> table[..] == plan.left)
  {
    hide Hash, EntryOk, Represents, Greedy, TableLeft, FirstMatch, Plan.Ok, Outcome, Sated, Closed, EmitAll;
    var n := |whole| - d;
    var op, anchor := d0, 0;
    ghost var plan := PlanFor(Setup(whole, d, startIndex, tableType, dictDirective, dictSmall, acceleration), table[..]);
    ghost var ss: seq<Sequence> := [];
    if n >= LZ4_minLength {
      var status;
      status, op, anchor, ss := WriteSequences(dst, d0, room, table, whole, d, startIndex, tableType, dictDirective, dictSmall,
                                               acceleration, plan);
      if status.Failed? {
        OutcomeFailed(plan, room, d0);
        assert dst[d0..d0 + 0] == [];
        return 0, 0;
      }
      LastLiteralsLeft(plan, room, d0, ss, anchor, table[..]);
    } else {
      NothingWritten(dst, d0, room, whole, d);
      TableLater(table, whole, d, startIndex, tableType, 1, n);
    }
    result, consumed := FinishBlock(dst, d0, op, room, whole, d, anchor, ss, plan);
  }

  /** Equal bytes: a byte, a run that ends five bytes before the end, and the last five, whatever the table holds. */
  lemma UniformBlock(j: Setup, t: Slots)
    requires j.Ok() && j.d + LZ4_minLength <= |j.whole| && Uniform(j.whole[j.d..])
    ensures |PlanFor(j, t).Bytes()| <= RunSize(|j.whole| - j.d)
    ensures j.d == 0 ==>
      PlanFor(j, t).Bytes() == Emit(Sequence(j.whole[..1], 1, |j.whole| - 6)) + EmitLast(j.whole[|j.whole| - 5..])
  {
    hide Sequences, TableAfter, Emit, EmitLast, Plan.Ok;
    var n, ss := |j.whole| - j.d, Sequences(j, t);
    UniformSequences(j, t);
    assert ss == [ss[0]] && EmitAll(ss[..0]) == [] && TextLength(ss[..0]) == 0;
    EmitSize(ss[0]);
    LastSize(j.whole[j.d + TextLength(ss)..]);
  }

  ghost predicate RunsPlanned(plan: Plan)
    requires plan.Ok()
  {
    var text := plan.setup.whole[plan.setup.d..];
    Uniform(text) && |text| >= LZ4_minLength ==> |plan.Bytes()| <= RunSize(|text|)
  }

  lemma RunsArePlanned(j: Setup, t: Slots)
    requires j.Ok()
    ensures RunsPlanned(PlanFor(j, t))
  {
    hide PlanFor, Plan.Bytes;
    if Uniform(j.whole[j.d..]) && j.d + LZ4_minLength <= |j.whole| { UniformBlock(j, t); }
  }

  /** The block of no bytes at all is a single 0. */
  lemma NothingPlanned(plan: Plan, room: Room, d0: nat)
    requires plan.Ok() && |plan.setup.whole| == plan.setup.d && d0 <= room.olimit
    ensures Outcome(plan, room, d0, if room.limit.NotLimited? || room.olimit > d0 then [0] else [], 0, 0)
  {
    assert plan.all == [];
    assert plan.Bytes() == [0];
  }

  lemma NoTarget(plan: Plan, room: Room, d0: nat)
    requires plan.Ok() && room == Room(FillOutput, d0)
    ensures Outcome(plan, room, d0, [], |plan.setup.whole| - plan.setup.d, |plan.setup.whole| - plan.setup.d)
  {
  }

  /** The whole block is what a large target holds. */
  lemma WholeOutcome(plan: Plan, room: Room, d0: nat, out: seq<byte>, n: nat)
    requires plan.Ok() && room.limit.FillOutput? && out == plan.Bytes() && n == |plan.setup.whole| - plan.setup.d
    ensures Outcome(plan, room, d0, out, n, n)
  {
    hide EmitAll;
    AllPlanned(plan, room.olimit - d0, n);
  }

  lemma RefusedOutcome(plan: Plan, room: Room, d0: nat, out: seq<byte>, n: nat, consumed: nat, consumed': nat)
    requires plan.Ok() && !room.limit.FillOutput? && Outcome(plan, room, d0, out, n, consumed)
    ensures Outcome(plan, room, d0, out, n, consumed')
  {
  }

  lemma OutcomeFailed(plan: Plan, room: Room, d0: nat)
    requires plan.Ok() && room.limit.LimitedOutput? && |plan.Bytes()| > room.olimit - d0
    ensures Outcome(plan, room, d0, [], |plan.setup.whole| - plan.setup.d, 0)
  {
  }

  lemma NothingWritten(dst: array<byte>, d0: nat, room: Room, whole: seq<byte>, d: nat)
    requires d0 <= room.olimit <= dst.Length && d <= |whole| && (room.limit.FillOutput? ==> d0 < room.olimit)
    ensures Closed(dst, d0, d0, room, [], whole, d, 0)
  {
    assert whole[..d] + whole[d..][..0] == whole[..d];
  }

  lemma ClosedRoom(dst: array<byte>, d0: nat, op: nat, room: Room, ss: seq<Sequence>, whole: seq<byte>, d: nat, anchor: nat)
    requires Closed(dst, d0, op, room, ss, whole, d, anchor) && d0 <= room.olimit
    requires room.limit.NotLimited? ==> d0 + CompressBound(|whole| - d) <= room.olimit
    ensures anchor <= |whole| - d && op <= room.olimit && (room.limit.FillOutput? ==> op < room.olimit)
    ensures room.limit.NotLimited? ==>
      op + 1 + (|whole| - d - anchor) + (|whole| - d - anchor + 240) / 255 <= room.olimit
  {
  }

  lemma LastRoom(d0: nat, op: nat, anchor: nat, lastRun: nat, n: nat)
    requires d0 <= op && Compact(d0, op, anchor) && anchor <= n
    ensures op + 1 + (n - anchor) + (n - anchor + 240) / 255 <= d0 + CompressBound(n)
    ensures op + 1 + lastRun + (lastRun + 240) / 255 <= d0 + CompressBound(anchor + lastRun)
  {
  }
}