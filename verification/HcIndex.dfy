/** The tables of lz4hc.c: for every position, the previous one with the same hash. */
module HcIndex {
  import opened BlockFormat
  import opened BlockEncoder
  import opened GreedyParse

  const LZ4HC_HASHTABLESIZE := 0x8000
  const LZ4HC_MAXD := 0x1_0000
  const GB1 := 0x4000_0000

  /**
    What a stream can refer to: whole is the dictionary followed by the prefix and the block. The first byte of whole has
    index lowLimit, the first byte behind the dictionary has index dictLimit.
   */
  datatype Segments = Segments(whole: seq<byte>, lowLimit: nat, dictLimit: nat) {
    predicate Ok() {
      KB64 <= lowLimit <= dictLimit <= lowLimit + |whole|
    }

    function End(): nat { lowLimit + |whole| }

    /** Length of the dictionary. */
    function D(): nat
      requires Ok()
    {
      dictLimit - lowLimit
    }

    /** The positions below t that LZ4HC_Insert has met: all, except those whose four bytes leave the dictionary. */
    predicate Inserted(i: int, t: int) {
      lowLimit <= i < t && i + 4 <= End() && (i >= dictLimit || i + 4 <= dictLimit)
    }

    /** LZ4HC_hashPtr of the bytes at index i. */
    function Key(i: int): (h: nat)
      ensures h < LZ4HC_HASHTABLESIZE
    {
      if lowLimit <= i && i + 4 <= End() then HashPtr(whole, i - lowLimit) else 0
    }
  }

  function HashPtr(text: seq<byte>, p: nat): (h: nat)
    requires p + 4 <= |text|
    ensures h < LZ4HC_HASHTABLESIZE
  {
    (Read32(text, p) * 2654435761) % 0x1_0000_0000 / 0x2_0000
  }

  // ---------- The invariant ----------

  /** e is the last inserted position with hash h, or below everything inserted if there is none. */
  ghost predicate HeadOk(g: Segments, e: nat, h: nat, t: nat) {
    && e < t && (e >= g.lowLimit ==> g.Inserted(e, t) && g.Key(e) == h)
    && forall j :: e < j < t && g.Inserted(j, t) ==> g.Key(j) != h
  }

  /**
    c leads from position i to the last inserted position before it with the same hash. If there is none, or if it is
    further away than a 16-bit slot can tell, c leads below the stream or out of reach.
   */
  ghost predicate LinkOk(g: Segments, i: nat, c: nat, t: nat) {
    && 1 <= c <= MAXDISTANCE
    && (c == MAXDISTANCE || i - c < g.lowLimit || (g.Inserted(i - c, t) && g.Key(i - c) == g.Key(i)))
    && forall j :: i - c < j < i && g.Inserted(j, t) ==> g.Key(j) != g.Key(i)
  }

  ghost predicate HeadsOk(g: Segments, hash: seq<nat>, t: nat) {
    |hash| == LZ4HC_HASHTABLESIZE && forall h :: 0 <= h < |hash| ==> HeadOk(g, hash[h], h, t)
  }

  /** The slot of every inserted position that has not been reused. */
  ghost predicate LinksOk(g: Segments, chain: seq<nat>, t: nat) {
    && |chain| == LZ4HC_MAXD && (forall k :: 0 <= k < |chain| ==> chain[k] <= MAXDISTANCE)
    && forall i :: g.Inserted(i, t) && i + LZ4HC_MAXD > t ==> LinkOk(g, i, chain[i % LZ4HC_MAXD], t)
  }

  // ---------- One insertion ----------

  lemma SlotsDiffer(i: nat, idx: nat)
    requires i < idx < i + LZ4HC_MAXD
    ensures i % LZ4HC_MAXD != idx % LZ4HC_MAXD
  {
  }

  lemma HeadStep(g: Segments, e: nat, h: nat, idx: nat)
    requires g.Ok() && g.Inserted(idx, idx + 1) && HeadOk(g, e, h, idx)
    ensures HeadOk(g, if h == g.Key(idx) then idx else e, h, idx + 1)
  {
    hide HashPtr;
  }

  lemma LinkStep(g: Segments, i: nat, c: nat, idx: nat)
    requires i < idx && LinkOk(g, i, c, idx)
    ensures LinkOk(g, i, c, idx + 1)
  {
    hide HashPtr;
  }

  lemma NewLink(g: Segments, e: nat, idx: nat)
    requires g.Ok() && g.Inserted(idx, idx + 1) && HeadOk(g, e, g.Key(idx), idx)
    ensures LinkOk(g, idx, if idx - e > MAXDISTANCE then MAXDISTANCE else idx - e, idx + 1)
  {
    hide HashPtr;
  }

  lemma InsertKeepsHeads(g: Segments, hash: seq<nat>, idx: nat)
    requires g.Ok() && g.Inserted(idx, idx + 1) && HeadsOk(g, hash, idx)
    ensures HeadsOk(g, hash[g.Key(idx) := idx], idx + 1)
  {
    hide HeadOk, Segments.Key;
    var hash' := hash[g.Key(idx) := idx];
    forall h | 0 <= h < |hash| ensures HeadOk(g, hash'[h], h, idx + 1) {
      HeadStep(g, hash[h], h, idx);
    }
  }

  lemma InsertKeepsLinks(g: Segments, hash: seq<nat>, chain: seq<nat>, idx: nat)
    requires g.Ok() && g.Inserted(idx, idx + 1) && HeadsOk(g, hash, idx) && LinksOk(g, chain, idx)
    ensures var e := hash[g.Key(idx)];
      LinksOk(g, chain[idx % LZ4HC_MAXD := if idx - e > MAXDISTANCE then MAXDISTANCE else idx - e], idx + 1)
  {
    hide LinkOk, Segments.Key;
    var e := hash[g.Key(idx)];
    var c := if idx - e > MAXDISTANCE then MAXDISTANCE else idx - e;
    var chain' := chain[idx % LZ4HC_MAXD := c];
    assert HeadOk(g, e, g.Key(idx), idx);
    NewLink(g, e, idx);
    forall i | g.Inserted(i, idx + 1) && i + LZ4HC_MAXD > idx + 1
      ensures LinkOk(g, i, chain'[i % LZ4HC_MAXD], idx + 1)
    {
      if i < idx {
        SlotsDiffer(i, idx);
        assert g.Inserted(i, idx);
        LinkStep(g, i, chain[i % LZ4HC_MAXD], idx);
      }
    }
  }

  // ---------- Other segments ----------

  /** The same bytes at an index give the same key. */
  lemma KeySame(g: Segments, g': Segments, i: nat)
    requires g.lowLimit <= i && g'.lowLimit <= i && i + 4 <= g.End() && i + 4 <= g'.End()
    requires g.whole[i - g.lowLimit..i - g.lowLimit + 4] == g'.whole[i - g'.lowLimit..i - g'.lowLimit + 4]
    ensures g.Key(i) == g'.Key(i)
  {
    var a, b := g.whole[i - g.lowLimit..i - g.lowLimit + 4], g'.whole[i - g'.lowLimit..i - g'.lowLimit + 4];
    assert a[0] == b[0] && a[1] == b[1] && a[2] == b[2] && a[3] == b[3];
    assert Read32(g.whole, i - g.lowLimit) == Read32(g'.whole, i - g'.lowLimit);
  }

  /**
    g' keeps an end of what the positions below t of g refer to: nothing becomes inserted that was not, and what is
    still inserted has kept its key. What has been lost lies below lowLimit.
   */
  ghost predicate Keeps(g: Segments, t: nat, g': Segments, t': nat) {
    && g.Ok() && g'.Ok() && g.lowLimit <= g'.lowLimit && t <= t' && t <= t' + LZ4HC_MAXD
    && (forall i :: g'.Inserted(i, t') ==> g.Inserted(i, t) && g'.Key(i) == g.Key(i))
    && (forall i :: g.Inserted(i, t) && g'.lowLimit <= i ==> g'.Inserted(i, t'))
  }

  lemma HeadsKept(g: Segments, t: nat, g': Segments, t': nat, hash: seq<nat>)
    requires Keeps(g, t, g', t') && HeadsOk(g, hash, t)
    ensures HeadsOk(g', hash, t')
  {
    hide Segments.Key;
    forall h | 0 <= h < |hash| ensures HeadOk(g', hash[h], h, t') {
      assert HeadOk(g, hash[h], h, t);
    }
  }

  lemma LinksKept(g: Segments, t: nat, g': Segments, t': nat, chain: seq<nat>)
    requires Keeps(g, t, g', t') && LinksOk(g, chain, t)
    ensures LinksOk(g', chain, t')
  {
    hide Segments.Key;
    forall i | g'.Inserted(i, t') && i + LZ4HC_MAXD > t' ensures LinkOk(g', i, chain[i % LZ4HC_MAXD], t') {
      assert LinkOk(g, i, chain[i % LZ4HC_MAXD], t);
    }
  }

  /** More input at the end. */
  lemma LongerKeeps(g: Segments, t: nat, more: seq<byte>)
    requires g.Ok() && (t == g.dictLimit || t + 3 <= g.End())
    ensures Keeps(g, t, g.(whole := g.whole + more), t)
  {
    hide HashPtr;
    var g' := g.(whole := g.whole + more);
    forall i | g'.Inserted(i, t) ensures g.Inserted(i, t) && g'.Key(i) == g.Key(i) { KeySame(g, g', i); }
  }

  /** The prefix becomes the dictionary of what is to come. */
  lemma PrefixBecomesDict(g: Segments, t: nat, next: seq<byte>)
    requires g.Ok() && g.dictLimit <= t <= g.End() && (t + 3 == g.End() || (t == g.dictLimit && g.End() < t + 4))
    ensures Keeps(g, t, Segments(g.whole[g.D()..] + next, g.dictLimit, g.End()), g.End())
  {
    hide HashPtr;
    var g' := Segments(g.whole[g.D()..] + next, g.dictLimit, g.End());
    forall i | g'.Inserted(i, g.End()) ensures g.Inserted(i, t) && g'.Key(i) == g.Key(i) { KeySame(g, g', i); }
  }

  /** The last n bytes of the prefix are kept, and nothing else. */
  lemma SavedKeeps(g: Segments, t: nat, n: nat)
    requires g.Ok() && g.dictLimit <= t && n <= |g.whole| - g.D() && (t == g.dictLimit || t + 3 <= g.End())
    ensures var low := g.End() - n;
      Keeps(g, t, Segments(g.whole[|g.whole| - n..], low, low), if t < low then low else t)
  {
    hide HashPtr;
    var low := g.End() - n;
    var g', t' := Segments(g.whole[|g.whole| - n..], low, low), if t < low then low else t;
    forall i | g'.Inserted(i, t') ensures g.Inserted(i, t) && g'.Key(i) == g.Key(i) { KeySame(g, g', i); }
    forall i | g.Inserted(i, t) && g'.lowLimit <= i ensures g'.Inserted(i, t') { }
  }

  // ---------- The tables ----------

  class Tables {
    const hashTable: array<nat>
    const chainTable: array<nat>
    var nextToUpdate: nat

    /** The tables are right for the positions below nextToUpdate. */
    ghost predicate IndexOk(g: Segments)
      reads this, hashTable, chainTable
    {
      && g.Ok() && hashTable != chainTable && hashTable.Length == LZ4HC_HASHTABLESIZE && chainTable.Length == LZ4HC_MAXD
      && g.dictLimit <= nextToUpdate && (nextToUpdate == g.dictLimit || nextToUpdate + 3 <= g.End())
      && HeadsOk(g, hashTable[..], nextToUpdate) && LinksOk(g, chainTable[..], nextToUpdate)
    }

    /** Whatever the tables hold, it lies below a stream that starts 64 KB above end. */
    ghost predicate Reusable(end: nat)
      reads hashTable, chainTable
    {
      && hashTable != chainTable && hashTable.Length == LZ4HC_HASHTABLESIZE && chainTable.Length == LZ4HC_MAXD
      && (forall h :: 0 <= h < hashTable.Length ==> hashTable[h] < end + KB64)
      && (forall k :: 0 <= k < chainTable.Length ==> chainTable[k] <= MAXDISTANCE)
    }

    /** LZ4_initStreamHC. */
    constructor ()
      ensures Reusable(0) && fresh(hashTable) && fresh(chainTable)
    {
      hashTable := new nat[LZ4HC_HASHTABLESIZE](_ => 0);
      chainTable := new nat[LZ4HC_MAXD](_ => 0);
      nextToUpdate := 0;
    }

    /** What an earlier stream has left can be reused. */
    lemma EarlierStream(g: Segments)
      requires IndexOk(g)
      ensures Reusable(g.End())
    {
      hide Segments.Inserted, Segments.Key;
      forall h | 0 <= h < hashTable.Length ensures hashTable[h] < g.End() + KB64 {
        assert HeadOk(g, hashTable[..][h], h, nextToUpdate);
      }
      forall k | 0 <= k < chainTable.Length ensures chainTable[k] <= MAXDISTANCE {
        assert chainTable[..][k] <= MAXDISTANCE;
      }
    }

    /** The memset of LZ4_initStreamHC. */
    method Zero()
      requires hashTable.Length == LZ4HC_HASHTABLESIZE && chainTable.Length == LZ4HC_MAXD && hashTable != chainTable
      modifies hashTable, chainTable
      ensures Reusable(0)
    {
      forall h | 0 <= h < hashTable.Length { hashTable[h] := 0; }
      forall k | 0 <= k < chainTable.Length { chainTable[k] := 0; }
    }

    /** LZ4HC_clearTables. */
    method ClearTables()
      requires hashTable.Length == LZ4HC_HASHTABLESIZE && chainTable.Length == LZ4HC_MAXD && hashTable != chainTable
      modifies hashTable, chainTable
      ensures Reusable(0)
    {
      forall h | 0 <= h < hashTable.Length { hashTable[h] := 0; }
      forall k | 0 <= k < chainTable.Length { chainTable[k] := MAXDISTANCE; }
    }

    /** LZ4HC_init_internal: a stream starts, with indexes above everything that an earlier one has left in the tables. */
    method Init(end: nat) returns (startingOffset: nat)
      requires Reusable(end)
      modifies this, hashTable, chainTable
      ensures KB64 <= startingOffset <= GB1 + KB64 && (end <= GB1 ==> startingOffset == end + KB64)
      ensures nextToUpdate == startingOffset && IndexOk(Segments([], startingOffset, startingOffset))
    {
      startingOffset := end;
      if startingOffset > GB1 {
        ClearTables();
        startingOffset := 0;
      }
      startingOffset := startingOffset + KB64;
      nextToUpdate := startingOffset;
    }

    /** LZ4_loadDictHC: the tables are cleared and filled with a dictionary that is to be followed by the input. */
    method Load(text: seq<byte>) returns (startingOffset: nat)
      requires hashTable.Length == LZ4HC_HASHTABLESIZE && chainTable.Length == LZ4HC_MAXD && hashTable != chainTable
      modifies this, hashTable, chainTable
      ensures startingOffset == KB64 && IndexOk(Segments(text, startingOffset, startingOffset))
    {
      hide HeadsOk, LinksOk;
      Zero();
      startingOffset := Init(0);
      Longer(Segments([], startingOffset, startingOffset), text);
      assert [] + text == text;
      if |text| >= 4 { Insert(Segments(text, startingOffset, startingOffset), startingOffset + |text| - 3); }
    }

    /** More input follows the prefix. */
    lemma Longer(g: Segments, more: seq<byte>)
      requires IndexOk(g)
      ensures IndexOk(g.(whole := g.whole + more))
    {
      hide HeadsOk, LinksOk, Keeps;
      LongerKeeps(g, nextToUpdate, more);
      HeadsKept(g, nextToUpdate, g.(whole := g.whole + more), nextToUpdate, hashTable[..]);
      LinksKept(g, nextToUpdate, g.(whole := g.whole + more), nextToUpdate, chainTable[..]);
    }

    /** LZ4HC_setExternalDict: the prefix becomes the dictionary, and what comes next is elsewhere in memory. */
    method SetExternalDict(g: Segments)
      requires IndexOk(g)
      modifies this, hashTable, chainTable
      ensures IndexOk(Segments(g.whole[g.D()..], g.dictLimit, g.End()))
    {
      hide HeadsOk, LinksOk, Keeps;
      if g.End() >= g.dictLimit + 4 { Insert(g, g.End() - 3); }
      ghost var g' := Segments(g.whole[g.D()..] + [], g.dictLimit, g.End());
      PrefixBecomesDict(g, nextToUpdate, []);
      HeadsKept(g, nextToUpdate, g', g.End(), hashTable[..]);
      LinksKept(g, nextToUpdate, g', g.End(), chainTable[..]);
      assert g.whole[g.D()..] + [] == g.whole[g.D()..];
      nextToUpdate := g.End();
    }

    /** The indexes of LZ4_saveDictHC, when the last n bytes of the prefix have been saved. */
    method KeepLast(g: Segments, n: nat)
      requires IndexOk(g) && n <= |g.whole| - g.D()
      modifies `nextToUpdate
      ensures IndexOk(Segments(g.whole[|g.whole| - n..], g.End() - n, g.End() - n))
    {
      hide HeadsOk, LinksOk, Keeps;
      var dictLimit := g.End() - n;
      ghost var g', t := Segments(g.whole[|g.whole| - n..], dictLimit, dictLimit), nextToUpdate;
      SavedKeeps(g, t, n);
      if nextToUpdate < dictLimit { nextToUpdate := dictLimit; }
      HeadsKept(g, t, g', nextToUpdate, hashTable[..]);
      LinksKept(g, t, g', nextToUpdate, chainTable[..]);
    }

    /** LZ4HC_Insert: positions up to target (excluded). */
    method Insert(g: Segments, target: nat)
      requires IndexOk(g) && nextToUpdate <= target && target + 3 <= g.End()
      modifies this, hashTable, chainTable
      ensures IndexOk(g) && nextToUpdate == target
    {
      hide HeadsOk, LinksOk, Segments.Key, HashPtr;
      var idx := nextToUpdate;
      while idx < target
        invariant nextToUpdate == old(nextToUpdate) <= idx <= target
        invariant HeadsOk(g, hashTable[..], idx) && LinksOk(g, chainTable[..], idx)
      {
        idx := InsertOne(g, idx);
      }
      nextToUpdate := target;
    }

    /** The body of its loop. */
    method InsertOne(g: Segments, idx: nat) returns (next: nat)
      requires g.Ok() && hashTable != chainTable && g.Inserted(idx, idx + 1)
      requires HeadsOk(g, hashTable[..], idx) && LinksOk(g, chainTable[..], idx)
      modifies hashTable, chainTable
      ensures next == idx + 1
      ensures HeadsOk(g, hashTable[..], next) && LinksOk(g, chainTable[..], next)
    {
      hide LinkOk, HashPtr;
      ghost var hash, chain := hashTable[..], chainTable[..];
      var h := g.Key(idx);
      InsertKeepsHeads(g, hash, idx);
      InsertKeepsLinks(g, hash, chain, idx);
      assert HeadOk(g, hash[h], h, idx);
      var delta: nat := idx - hashTable[h];
      if delta > MAXDISTANCE { delta := MAXDISTANCE; }
      chainTable[idx % LZ4HC_MAXD] := delta;
      hashTable[h] := idx;
      assert hashTable[..] == hash[h := idx];
      assert chainTable[..] == chain[idx % LZ4HC_MAXD := delta];
      next := idx + 1;
    }
  }

  // ---------- Agreement with a scan ----------

  /** What the search loop visits when it follows the chain from i down to low. */
  function Follow(chain: seq<nat>, i: int, low: nat): seq<nat>
    requires |chain| == LZ4HC_MAXD
    decreases i
  {
    if i < low then [] else
      var c := chain[i % LZ4HC_MAXD];
      [i] + if c == 0 then [] else Follow(chain, i - c, low)
  }

  /** The inserted positions with hash h from i down to low, found by looking at every one of them. */
  function Scan(g: Segments, h: nat, i: int, low: nat, t: nat): seq<nat>
    decreases i
  {
    if i < low then []
    else if g.Inserted(i, t) && g.Key(i) == h then [i] + Scan(g, h, i - 1, low, t)
    else Scan(g, h, i - 1, low, t)
  }

  /** Nothing to be found between j and i. */
  lemma {:induction false} ScanSkips(g: Segments, h: nat, i: int, j: int, low: nat, t: nat)
    requires j <= i && forall k :: j < k <= i && g.Inserted(k, t) ==> g.Key(k) != h
    ensures Scan(g, h, i, low, t) == if j < low then [] else Scan(g, h, j, low, t)
    decreases i - j
  {
    if j < i && i >= low { ScanSkips(g, h, i - 1, j, low, t); }
  }

  /** One link of the chain skips nothing the scan would find. */
  lemma LinkIsScan(g: Segments, chain: seq<nat>, i: nat, low: nat, t: nat)
    requires LinksOk(g, chain, t) && g.lowLimit <= low <= i && t <= low + MAXDISTANCE && g.Inserted(i, t)
    ensures var c := chain[i % LZ4HC_MAXD];
      && c >= 1 && (i - c >= low ==> g.Inserted(i - c, t) && g.Key(i - c) == g.Key(i))
      && Scan(g, g.Key(i), i - 1, low, t) == if i - c < low then [] else Scan(g, g.Key(i), i - c, low, t)
  {
    hide Segments.Key, Scan;
    var c := chain[i % LZ4HC_MAXD];
    assert LinkOk(g, i, c, t);
    ScanSkips(g, g.Key(i), i - 1, i - c, low, t);
  }

  /** From an inserted position on, the chain and the scan meet the same positions. */
  lemma {:induction false} FollowIsScan(g: Segments, chain: seq<nat>, i: int, low: nat, t: nat)
    requires |chain| == LZ4HC_MAXD && LinksOk(g, chain, t) && g.lowLimit <= low && t <= low + MAXDISTANCE
    requires i >= low ==> g.Inserted(i, t)
    ensures Follow(chain, i, low) == Scan(g, g.Key(i), i, low, t)
    decreases i
  {
    hide Segments.Key, Segments.Inserted, LinksOk;
    if i >= low {
      LinkIsScan(g, chain, i, low, t);
      FollowIsScan(g, chain, i - chain[i % LZ4HC_MAXD], low, t);
    }
  }

  /**
    Index agreement: at position ip, the chain that starts in the hash table visits, inside the search window, exactly the
    inserted positions with the hash of ip, nearest first.
   */
  lemma SearchIsScan(g: Segments, hash: seq<nat>, chain: seq<nat>, h: nat, low: nat, ip: nat)
    requires g.Ok() && HeadsOk(g, hash, ip) && LinksOk(g, chain, ip)
    requires h < LZ4HC_HASHTABLESIZE && g.lowLimit <= low && ip <= low + MAXDISTANCE
    ensures Follow(chain, hash[h], low) == Scan(g, h, ip - 1, low, ip)
  {
    hide Segments.Key;
    var e := hash[h];
    assert HeadOk(g, e, h, ip);
    ScanSkips(g, h, ip - 1, e, low, ip);
    FollowIsScan(g, chain, e, low, ip);
  }
}
