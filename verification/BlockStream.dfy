/** LZ4_stream_t of lz4.c: compression state that survives across blocks. */
module BlockStream {
  import opened BlockFormat
  import opened BlockEncoder
  import opened GreedyParse
  import opened Memory
  import opened Window

  const LZ4_MAX_INPUT_SIZE := 0x7E00_0000
  const LZ4_ACCELERATION_MAX := 65537
  const KB4 := 4096
  const GB1 := 0x4000_0000
  const MAXOFFSET := 0x8000_0000

  function Accelerate(acceleration: int): (r: nat)
    ensures 1 <= r <= LZ4_ACCELERATION_MAX
  {
    if acceleration < 1 then 1 else if acceleration > LZ4_ACCELERATION_MAX then LZ4_ACCELERATION_MAX else acceleration
  }

  /** LZ4_compressBound: 0 for inputs that are refused. */
  function LZ4_compressBound(n: nat): nat {
    if n > LZ4_MAX_INPUT_SIZE then 0 else CompressBound(n)
  }

  lemma Adjacent(mem: seq<byte>, i: nat, j: nat, k: nat)
    requires i <= j <= k <= |mem|
    ensures mem[i..j] + mem[j..k] == mem[i..k]
  {
  }

  /** A block made with the end of the history alone is right for the whole history. */
  lemma RepresentsAfter(block: seq<byte>, hist: seq<byte>, tail: seq<byte>, text: seq<byte>)
    requires EndsWith(hist, tail) && Represents(block, tail, text)
    ensures Represents(block, hist, text)
  {
    hide Represents;
    RepresentsBehind(block, hist[..|hist| - |tail|], tail, text);
    assert hist[..|hist| - |tail|] + tail == hist;
  }

  lemma EmptyBlock(hist: seq<byte>)
    ensures Represents([0], hist, [])
  {
    assert Parse([0], 0) == Last(1, 0);
    assert hist + [0][1..] == hist;
  }

  /** A table slot that an earlier block left: empty, or at least 12 before the end of everything compressed so far. */
  predicate Stale(e: nat, currentOffset: nat) {
    e == 0 || e + MFLIMIT <= currentOffset
  }

  /** Stale slots are what compressing the next block may start from. */
  lemma StaleIsOk(table: array<nat>, currentOffset: nat, whole: seq<byte>, d: nat, tableType: TableType)
    requires table.Length == HASHENTRIES && d <= |whole|
    requires forall h :: 0 <= h < HASHENTRIES ==> Stale(table[h], currentOffset)
    ensures TableOk(table, whole, d, currentOffset, tableType, 1)
  {
  }

  lemma OkBecomesStale(table: array<nat>, startIndex: nat, whole: seq<byte>, d: nat, tableType: TableType)
    requires d <= |whole| && TableOk(table, whole, d, startIndex, tableType, |whole| - d)
    ensures forall h :: 0 <= h < HASHENTRIES ==> Stale(table[h], startIndex + (|whole| - d))
  {
    forall h | 0 <= h < HASHENTRIES ensures Stale(table[h], startIndex + (|whole| - d)) {
      assert EntryOk(table[h], h, whole, d, startIndex, tableType, |whole| - d);
    }
  }

  /** How much of a dictionary stays usable when the next block is put at s0, possibly over the dictionary's beginning. */
  function Kept(sameMemory: bool, dictStart: nat, dictSize: nat, s0: nat, n: nat): (r: nat)
    ensures r <= dictSize
  {
    var dictEnd := dictStart + dictSize;
    if 1 <= dictSize <= 3 && !(sameMemory && dictEnd == s0) then 0
    else if sameMemory && dictStart < s0 + n < dictEnd then
      var rest := dictEnd - (s0 + n);
      if rest > KB64 then KB64 else if rest < 4 then 0 else rest
    else dictSize
  }

  /** Every slot still names a position at the same distance, or has been emptied because nothing could reach that far. */
  ghost predicate DistancesKept(slots0: seq<nat>, offset0: nat, slots: seq<nat>, offset: nat) {
    |slots0| == |slots| && forall h :: 0 <= h < |slots| ==>
      || (slots[h] > 0 && offset - slots[h] == offset0 - slots0[h])
      || (slots[h] == 0 && (slots0[h] == 0 || offset0 - slots0[h] > MAXDISTANCE))
  }

  /** Every index lowered by delta, or emptied. */
  function Rescaled(slots: Slots, delta: nat): (r: Slots) {
    seq(HASHENTRIES, h requires 0 <= h < HASHENTRIES => if slots[h] < delta then 0 else slots[h] - delta)
  }

  lemma RescaleNothing(slots: seq<nat>, offset: nat)
    ensures DistancesKept(slots, offset, slots, offset)
  {
  }

  lemma RescaleKeeps(slots0: Slots, slots: seq<nat>, offset0: nat)
    requires offset0 >= KB64 && slots == Rescaled(slots0, offset0 - KB64)
    requires forall h :: 0 <= h < |slots0| ==> Stale(slots0[h], offset0)
    ensures DistancesKept(slots0, offset0, slots, KB64)
    ensures forall h :: 0 <= h < |slots| ==> Stale(slots[h], KB64)
  {
  }

  /** The result of compressing text behind dict into out[d0..d0 + cap): 0 only when a worst-case block would not fit. */
  ghost predicate BlockMade(out: seq<byte>, before: seq<byte>, d0: nat, cap: nat, result: nat, n: nat, dict: seq<byte>, text: seq<byte>)
  {
    && |out| == |before| && d0 + cap <= |out| && result <= cap && result <= CompressBound(n)
    && (forall i :: 0 <= i < |out| && !(d0 <= i < d0 + cap) ==> out[i] == before[i])
    && (result == 0 ==> CompressBound(n) > cap)
    && (result > 0 ==> Represents(out[d0..d0 + result], dict, text))
  }

  /** All of the plan if it fits, and otherwise nothing; and, in the first case, the table that the plan leaves. */
  ghost predicate AsPlanned(plan: Plan, cap: nat, out: seq<byte>, table: seq<nat>)
    requires plan.Ok()
  {
    && (out == if |plan.Bytes()| <= cap then plan.Bytes() else [])
    && (plan.setup.d < |plan.setup.whole| && |plan.Bytes()| <= cap ==> table == plan.left)
  }

  lemma OutcomePlanned(plan: Plan, room: Room, d0: nat, out: seq<byte>, n: nat, consumed: nat, table: seq<nat>)
    requires plan.Ok() && d0 <= room.olimit && !room.limit.FillOutput? && Outcome(plan, room, d0, out, n, consumed)
    requires |out| <= room.olimit - d0
    requires plan.setup.d < |plan.setup.whole| && WholeFits(plan, room, d0) ==> table == plan.left
    ensures AsPlanned(plan, room.olimit - d0, out, table)
  {
    hide Plan.Bytes;
  }

  /** Equal bytes become a short block whenever that fits. */
  ghost predicate RunsShrink(text: seq<byte>, cap: nat, result: nat) {
    Uniform(text) && |text| >= LZ4_minLength && RunSize(|text|) <= cap ==> 0 < result <= RunSize(|text|)
  }

  lemma PlannedRunsShrink(plan: Plan, room: Room, d0: nat, out: seq<byte>, n: nat, consumed: nat)
    requires plan.Ok() && !room.limit.FillOutput? && d0 <= room.olimit && RunsPlanned(plan)
    requires Outcome(plan, room, d0, out, n, consumed)
    ensures RunsShrink(plan.setup.whole[plan.setup.d..], room.olimit - d0, |out|)
  {
    hide Plan.Bytes;
  }

  lemma WholeMade(out: seq<byte>, before: seq<byte>, d0: nat, cap: nat, result: nat, n: nat, consumed: nat, dict: seq<byte>,
                  text: seq<byte>)
    requires |out| == |before| && d0 + cap <= |out| && result <= cap && result <= CompressBound(n) && consumed == n == |text|
    requires forall i :: 0 <= i < |out| && !(d0 <= i < d0 + cap) ==> out[i] == before[i]
    requires result == 0 ==> CompressBound(n) > cap
    requires result > 0 ==> Represents(out[d0..d0 + result], dict, text[..consumed])
    ensures BlockMade(out, before, d0, cap, result, n, dict, text)
  {
    hide Represents;
    assert text[..consumed] == text;
  }

  lemma BlockMadeAfter(out: seq<byte>, before: seq<byte>, d0: nat, cap: nat, result: nat, n: nat, hist: seq<byte>,
                       dict: seq<byte>, text: seq<byte>)
    requires EndsWith(hist, dict) && BlockMade(out, before, d0, cap, result, n, dict, text)
    ensures BlockMade(out, before, d0, cap, result, n, hist, text)
  {
    hide EndsWith, Represents;
    if result > 0 { RepresentsAfter(out[d0..d0 + result], hist, dict, text); }
  }

  lemma SliceWhole(mem: array<byte>, start: nat, size: nat)
    requires start + size <= mem.Length
    ensures Slice(mem, start, size) == mem[start..start + size]
  {
  }

  lemma SliceTail(mem: array?<byte>, start: nat, size: nat, mem': array?<byte>, start': nat, size': nat)
    requires Within(mem, start, size) && Within(mem', start', size') && size' <= size
    requires size' > 0 ==> mem' == mem && start' + size' == start + size
    ensures Slice(mem', start', size') == Slice(mem, start, size)[size - size'..]
  {
  }

  /** How a block is compressed behind dict, by LZ4_compress_fast_continue. */
  function ContinueSetup(dict: seq<byte>, text: seq<byte>, offset: nat, follows: bool, acceleration: nat): Setup {
    Setup(dict + text, |dict|, offset, ByU32, if follows then WithPrefix64k else UsingExtDict,
          |dict| < KB64 && |dict| < offset, acceleration)
  }

  function Ending(s: seq<byte>, n: nat): (r: seq<byte>)
    requires n <= |s|
    ensures |r| == n
  {
    s[|s| - n..]
  }

  /** What LZ4_compress_fast_continue goes by; same says whether the dictionary lies in the memory of the next block. */
  datatype View = View(dict: seq<byte>, start: nat, same: bool, offset: nat, slots: Slots) {
    /** The block at s0 follows the dictionary, or is taken to do so because the dictionary is too short to be searched. */
    predicate Follows(s0: nat) {
      (same && start + |dict| == s0) || 1 <= |dict| <= 3
    }

    /** The part of the dictionary that is still used when the next n bytes are put at s0. */
    function Remaining(s0: nat, n: nat): (r: seq<byte>)
      ensures |r| <= |dict|
    {
      Ending(dict, Kept(same, start, |dict|, s0, n))
    }

    /** LZ4_renormDictT. */
    function Renormed(n: nat): (v: View)
      requires n <= LZ4_MAX_INPUT_SIZE
      ensures |dict| <= offset ==> |v.dict| <= v.offset
    {
      if offset + n <= MAXOFFSET then this
      else
        var size := if |dict| > KB64 then KB64 else |dict|;
        View(Ending(dict, size), start + |dict| - size, same, KB64, Rescaled(slots, offset - KB64))
    }

    /** What is made of text, at s0, once the indexes are low enough. */
    ghost function PlanOf(text: seq<byte>, s0: nat, acceleration: nat): (plan: Plan)
      requires acceleration >= 1 && |dict| <= offset
      ensures plan.Ok()
    {
      PlanFor(ContinueSetup(Remaining(s0, |text|), text, offset, Follows(s0), acceleration), slots)
    }
  }

  lemma KeptLess(same: bool, start: nat, size: nat, size': nat, s0: nat, n: nat)
    requires size' == size || (size > KB64 && size' == KB64)
    ensures Kept(same, start + size - size', size', s0, n) <= Kept(same, start, size, s0, n)
  {
  }

  /** Two ends of the same bytes. */
  lemma EndOfEnd(dict: seq<byte>, kept: nat, kept': nat)
    requires kept' <= kept <= |dict|
    ensures EndsWith(Ending(dict, kept), Ending(dict, kept'))
  {
  }

  lemma EndingTwice(dict: seq<byte>, size: nat, kept: nat)
    requires kept <= size <= |dict|
    ensures Ending(Ending(dict, size), kept) == Ending(dict, kept)
  {
  }

  /** Lowering the indexes cuts the dictionary to its last 64 KB, and never leaves more of it than before. */
  lemma RenormedKeeps(v: View, s0: nat, n: nat) returns (kept: nat)
    requires n <= LZ4_MAX_INPUT_SIZE
    ensures kept <= |v.Remaining(s0, n)| && kept <= |v.dict| && v.Renormed(n).Remaining(s0, n) == Ending(v.dict, kept)
  {
    hide Kept, Rescaled, Ending;
    if v.offset + n <= MAXOFFSET { return Kept(v.same, v.start, |v.dict|, s0, n); }
    var size := if |v.dict| > KB64 then KB64 else |v.dict|;
    KeptLess(v.same, v.start, |v.dict|, size, s0, n);
    kept := Kept(v.same, v.start + |v.dict| - size, size, s0, n);
    EndingTwice(v.dict, size, kept);
  }

  lemma RenormedRemains(v: View, s0: nat, n: nat)
    requires n <= LZ4_MAX_INPUT_SIZE
    ensures EndsWith(v.Remaining(s0, n), v.Renormed(n).Remaining(s0, n))
  {
    hide Kept, View.Renormed, EndsWith, Ending;
    var kept := RenormedKeeps(v, s0, n);
    EndOfEnd(v.dict, |v.Remaining(s0, n)|, kept);
  }

  lemma NoWholeTarget(plan: Plan, d0: nat)
    requires plan.Ok()
    ensures !WholeFits(plan, Room(FillOutput, d0), d0)
  {
  }

  class Stream {
    const hashTable: array<nat>
    var currentOffset: nat
    var tableType: TableType
    var dictionary: array?<byte>
    var dictStart: nat
    var dictSize: nat

    /** The table can be used for a block without history. */
    ghost predicate TableValid()
      reads `currentOffset, `tableType, hashTable
    {
      && hashTable.Length == HASHENTRIES
      && currentOffset <= MAXOFFSET
      && (forall h :: 0 <= h < HASHENTRIES ==> Stale(hashTable[h], currentOffset))
      && (tableType.ClearedTable? ==> currentOffset == 0)
    }

    ghost predicate Valid()
      reads this, hashTable
    {
      && TableValid()
      && dictSize <= currentOffset
      && Within(dictionary, dictStart, dictSize)
    }

    /** The bytes that precede the next block. */
    function Dict(): (r: seq<byte>)
      requires Valid()
      reads this, hashTable, dictionary
      ensures |r| == dictSize
    {
      Slice(dictionary, dictStart, dictSize)
    }

    /** LZ4_initStream. */
    constructor ()
      ensures Valid() && fresh(hashTable)
      ensures tableType.ClearedTable? && dictionary == null && dictSize == 0 && hashTable[..] == seq(HASHENTRIES, _ => 0)
    {
      hashTable := new nat[HASHENTRIES](_ => 0);
      currentOffset, tableType := 0, ClearedTable;
      dictionary, dictStart, dictSize := null, 0, 0;
    }

    /** MEM_INIT of the hash table. */
    method ClearTable()
      requires hashTable.Length == HASHENTRIES
      modifies hashTable
      ensures forall h :: 0 <= h < HASHENTRIES ==> hashTable[h] == 0
    {
      forall h | 0 <= h < HASHENTRIES { hashTable[h] := 0; }
    }

    /** What the table holds is of no use for the next block, or is not worth keeping. */
    predicate Unusable(inputSize: nat, tt: TableType)
      reads `tableType, `currentOffset
    {
      || tableType != tt
      || (tt.ByU16? && currentOffset + inputSize >= 0xFFFF)
      || (tt.ByU32? && currentOffset > GB1)
      || inputSize >= KB4
    }

    /**
      LZ4_prepareTable. Afterwards there is no history, and no slot names a position that a match could reach:
      either the table is as new, or 32-bit indexes are too far back and 16-bit ones precede the block.
     */
    method PrepareTable(inputSize: nat, tt: TableType)
      requires TableValid() && !tt.ClearedTable?
      modifies this, hashTable
      ensures Valid() && dictionary == null && dictSize == 0 && (tableType == tt || tableType.ClearedTable?)
      ensures tt.ByU32? ==> forall h :: 0 <= h < HASHENTRIES ==> currentOffset == 0 || hashTable[h] + MAXDISTANCE < currentOffset
      ensures tt.ByU16? ==> currentOffset == 0 || currentOffset + inputSize < 0xFFFF
      ensures inputSize >= KB4 ==> currentOffset == 0
      ensures if old(!tableType.ClearedTable? && Unusable(inputSize, tt))
        then currentOffset == 0 && tableType.ClearedTable? && forall h :: 0 <= h < HASHENTRIES ==> hashTable[h] == 0
        else
          && tableType == old(tableType) && hashTable[..] == old(hashTable[..])
          && currentOffset == old(currentOffset) + if old(currentOffset) != 0 && tt.ByU32? then KB64 else 0
    {
      if !tableType.ClearedTable? {
        if Unusable(inputSize, tt) {
          ClearTable();
          currentOffset := 0;
          tableType := ClearedTable;
        }
      }
      if currentOffset != 0 && tt.ByU32? {
        currentOffset := currentOffset + KB64;
      }
      dictionary, dictStart, dictSize := null, 0, 0;
    }

    /** LZ4_resetStream_fast. */
    method ResetFast()
      requires TableValid()
      modifies this, hashTable
      ensures Valid() && dictionary == null && dictSize == 0 && !tableType.ByU16?
    {
      PrepareTable(0, ByU32);
    }

    /** The loop of LZ4_renormDictT over the hash table. */
    method Rescale(delta: nat)
      requires hashTable.Length == HASHENTRIES
      modifies hashTable
      ensures hashTable[..] == Rescaled(old(hashTable[..]), delta)
    {
      var i := 0;
      while i < HASHENTRIES
        invariant 0 <= i <= HASHENTRIES
        invariant forall h :: i <= h < HASHENTRIES ==> hashTable[h] == old(hashTable[h])
        invariant forall h :: 0 <= h < i ==>
          hashTable[h] == if old(hashTable[h]) < delta then 0 else old(hashTable[h]) - delta
      {
        if hashTable[i] < delta { hashTable[i] := 0; } else { hashTable[i] := hashTable[i] - delta; }
        i := i + 1;
      }
    }

    /**
      LZ4_renormDictT: indexes are kept below 2^31. An index that survives keeps its distance to currentOffset;
      the others were out of reach.
     */
    method RenormDict(nextSize: nat)
      requires Valid() && nextSize <= LZ4_MAX_INPUT_SIZE
      modifies this, hashTable
      ensures Valid() && currentOffset + nextSize <= MAXOFFSET && tableType == old(tableType)
      ensures dictionary == old(dictionary) && dictStart + dictSize == old(dictStart + dictSize)
      ensures dictSize == old(dictSize) || (old(dictSize) > KB64 && dictSize == KB64)
      ensures Dict() == old(Dict())[old(dictSize) - dictSize..]
      ensures DistancesKept(old(hashTable[..]), old(currentOffset), hashTable[..], currentOffset)
      ensures
        if old(currentOffset) + nextSize > MAXOFFSET then
          && currentOffset == KB64 && hashTable[..] == Rescaled(old(hashTable[..]), old(currentOffset) - KB64)
          && dictSize == if old(dictSize) > KB64 then KB64 else old(dictSize)
        else
          currentOffset == old(currentOffset) && dictSize == old(dictSize) && hashTable[..] == old(hashTable[..])
    {
      hide Slice, DistancesKept, Stale, Rescaled;
      ghost var slots0, offset0 := hashTable[..], currentOffset;
      if currentOffset + nextSize > MAXOFFSET {
        var delta := currentOffset - KB64;
        var size := if dictSize > KB64 then KB64 else dictSize;
        var start := dictStart + dictSize - size;
        Rescale(delta);
        RescaleKeeps(slots0, hashTable[..], offset0);
        SliceTail(dictionary, dictStart, dictSize, dictionary, start, size);
        currentOffset, dictStart, dictSize := KB64, start, size;
      } else {
        RescaleNothing(slots0, offset0);
        SliceTail(dictionary, dictStart, dictSize, dictionary, dictStart, dictSize);
      }
    }

    /** What the search finds in text, with the current dictionary as history and the current table. */
    ghost function NextPlan(text: seq<byte>, tt: TableType, dictDirective: DictDirective, dictSmall: bool, acceleration: nat): (plan: Plan)
      requires Valid() && acceleration >= 1 && (tt.ByU16? ==> dictSize + |text| < LZ4_64Klimit)
      reads this, hashTable, dictionary
      ensures plan.Ok() && RunsPlanned(plan)
      ensures plan.setup == Setup(Dict() + text, dictSize, currentOffset, tt, dictDirective, dictSmall, acceleration)
    {
      RunsArePlanned(Setup(Dict() + text, dictSize, currentOffset, tt, dictDirective, dictSmall, acceleration), hashTable[..]);
      PlanFor(Setup(Dict() + text, dictSize, currentOffset, tt, dictDirective, dictSmall, acceleration), hashTable[..])
    }

    /** LZ4_compress_generic_validated, and the updates of the state before it. */
    method CompressValidated(src: array<byte>, s0: nat, n: nat, dst: array<byte>, d0: nat, room: Room, tt: TableType,
                             dictDirective: DictDirective, dictSmall: bool, acceleration: nat)
      returns (result: nat, consumed: nat)
      requires Valid() && s0 + n <= src.Length && dst != src && dst != dictionary && acceleration >= 1
      requires 0 < n <= LZ4_MAX_INPUT_SIZE && currentOffset + n <= MAXOFFSET
      requires Callable(Dict() + src[s0..s0 + n], dictSize, currentOffset, tt, dictDirective, dictSmall)
      requires d0 <= room.olimit <= dst.Length
      requires room.limit.NotLimited? ==> d0 + CompressBound(n) <= room.olimit
      requires room.limit.FillOutput? ==> d0 < room.olimit
      modifies this, hashTable, dst
      ensures TableValid() && dictionary == old(dictionary) && dictStart == old(dictStart)
      ensures currentOffset == old(currentOffset) + n && dictSize == old(dictSize) + n && tableType == tt
      ensures forall i :: 0 <= i < dst.Length && !(d0 <= i < room.olimit) ==> dst[i] == old(dst[i])
      ensures result == 0 ==> room.limit.LimitedOutput? && d0 + CompressBound(n) > room.olimit
      ensures result > 0 ==>
        && d0 + result <= room.olimit && result <= CompressBound(consumed)
        && consumed <= n && (!room.limit.FillOutput? ==> consumed == n)
        && (consumed < n ==> d0 + result + 1 >= room.olimit)
        && Represents(dst[d0..d0 + result], old(Dict()), old(src[s0..s0 + n])[..consumed])
      ensures d0 + result <= room.olimit
      ensures
        var plan := old(NextPlan(src[s0..s0 + n], tt, dictDirective, dictSmall, acceleration));
        Outcome(plan, room, d0, dst[d0..d0 + result], n, consumed) && (WholeFits(plan, room, d0) ==> hashTable[..] == plan.left)
    {
      hide TableOk, Stale, Represents, Plan.Ok, Outcome, WholeFits, PlanFor, Slice;
      var whole, startIndex, d := Dict() + src[s0..s0 + n], currentOffset, dictSize;
      StaleIsOk(hashTable, startIndex, whole, d, tt);
      dictSize := dictSize + n;
      currentOffset := currentOffset + n;
      tableType := tt;
      result, consumed := CompressBlock(hashTable, startIndex, whole, d, dst, d0, room, tt, dictDirective, dictSmall, acceleration);
      OkBecomesStale(hashTable, startIndex, whole, d, tt);
      assert whole[..d] == old(Dict()) && whole[d..] == old(src[s0..s0 + n]);
    }

    /**
      LZ4_compress_generic: one block of n bytes, src[s0..s0 + n), with the current dictionary as history. Input
      sizes the format does not support are refused.
     */
    method CompressGeneric(src: array<byte>, s0: nat, n: nat, dst: array<byte>, d0: nat, room: Room, tt: TableType,
                           dictDirective: DictDirective, dictSmall: bool, acceleration: nat)
      returns (result: nat, consumed: nat)
      requires Valid() && s0 + n <= src.Length && dst != src && dst != dictionary && acceleration >= 1
      requires n <= LZ4_MAX_INPUT_SIZE ==>
        && currentOffset + n <= MAXOFFSET
        && Callable(Dict() + src[s0..s0 + n], dictSize, currentOffset, tt, dictDirective, dictSmall)
      requires d0 <= room.olimit <= dst.Length
      requires room.limit.NotLimited? ==> d0 + LZ4_compressBound(n) <= room.olimit
      modifies this, hashTable, dst
      ensures TableValid() && dictionary == old(dictionary) && dictStart == old(dictStart)
      ensures
        if n == 0 || n > LZ4_MAX_INPUT_SIZE || (room.limit.FillOutput? && d0 == room.olimit) then
          currentOffset == old(currentOffset) && dictSize == old(dictSize) && tableType == old(tableType)
        else
          currentOffset == old(currentOffset) + n && dictSize == old(dictSize) + n && tableType == tt
      ensures forall i :: 0 <= i < dst.Length && !(d0 <= i < room.olimit) ==> dst[i] == old(dst[i])
      ensures consumed <= n && (!room.limit.FillOutput? ==> consumed == n)
      ensures result == 0 ==>
        || n > LZ4_MAX_INPUT_SIZE
        || (room.limit.LimitedOutput? && d0 + CompressBound(n) > room.olimit)
        || (room.limit.FillOutput? && d0 == room.olimit)
      ensures result > 0 ==>
        && n <= LZ4_MAX_INPUT_SIZE && d0 + result <= room.olimit && result <= CompressBound(consumed)
        && (consumed < n ==> d0 + result + 1 >= room.olimit)
        && Represents(dst[d0..d0 + result], old(Dict()), old(src[s0..s0 + n])[..consumed])
      ensures n <= LZ4_MAX_INPUT_SIZE ==>
        && d0 + result <= room.olimit
        && (var plan := old(NextPlan(src[s0..s0 + n], tt, dictDirective, dictSmall, acceleration));
            && Outcome(plan, room, d0, dst[d0..d0 + result], n, consumed)
            && (n > 0 && WholeFits(plan, room, d0) ==> hashTable[..] == plan.left))
        && (!room.limit.FillOutput? ==> RunsShrink(old(src[s0..s0 + n]), room.olimit - d0, result))
    {
      hide TableValid, Represents, Plan.Ok, Outcome, WholeFits, NextPlan, Slice, RunsPlanned, Uniform;
      consumed := n;
      if n > LZ4_MAX_INPUT_SIZE { return 0, n; }
      ghost var plan, text := NextPlan(src[s0..s0 + n], tt, dictDirective, dictSmall, acceleration), src[s0..s0 + n];
      assert plan.setup.whole[plan.setup.d..] == text;
      if n == 0 {
        NothingPlanned(plan, room, d0);
        assert dst[d0..d0 + 0] == [];
        if !room.limit.NotLimited? && room.olimit == d0 { return 0, n; }
        dst[d0] := 0;
        EmptyBlock(Dict());
        assert dst[d0..d0 + 1] == [0];
        assert src[s0..s0 + n][..0] == [];
        return 1, 0;
      }
      if room.limit.FillOutput? && room.olimit == d0 {
        NoTarget(plan, room, d0);
        NoWholeTarget(plan, d0);
        assert dst[d0..d0 + 0] == [];
        return 0, n;
      }
      result, consumed := CompressValidated(src, s0, n, dst, d0, room, tt, dictDirective, dictSmall, acceleration);
      if result == 0 {
        RefusedOutcome(plan, room, d0, dst[d0..d0 + result], n, consumed, n);
        consumed := n;
      }
      if !room.limit.FillOutput? { PlannedRunsShrink(plan, room, d0, dst[d0..d0 + result], n, consumed); }
    }

    method SetDict(mem: array?<byte>, start: nat, size: nat)
      requires TableValid() && size <= currentOffset && Within(mem, start, size)
      modifies `dictionary, `dictStart, `dictSize
      ensures Valid() && dictionary == mem && dictStart == start && dictSize == size && Dict() == Slice(mem, start, size)
    {
      dictionary, dictStart, dictSize := mem, start, size;
    }

    function ViewFor(src: array<byte>): (v: View)
      requires Valid()
      reads this, hashTable, dictionary
      ensures |v.dict| == dictSize <= v.offset
    {
      View(Dict(), dictStart, dictionary == src, currentOffset, hashTable[..])
    }

    /** The part of the dictionary that LZ4_compress_fast_continue still uses when the next block is src[s0..s0 + n). */
    function Remaining(src: array<byte>, s0: nat, n: nat): (r: seq<byte>)
      requires Valid()
      reads this, hashTable, dictionary
    {
      ViewFor(src).Remaining(s0, n)
    }

    /** What LZ4_compress_fast_continue makes of src[s0..s0 + n), in the state that the stream is in. */
    ghost function ContinuePlan(src: array<byte>, s0: nat, n: nat, acceleration: nat): (plan: Plan)
      requires Valid() && s0 + n <= src.Length && n <= LZ4_MAX_INPUT_SIZE && acceleration >= 1
      reads this, hashTable, dictionary, src
      ensures plan.Ok()
    {
      ViewFor(src).Renormed(n).PlanOf(src[s0..s0 + n], s0, acceleration)
    }

    /** What it makes of text when the stream has been prepared for it. */
    ghost function PreparedPlan(text: seq<byte>, follows: bool, acceleration: nat): (plan: Plan)
      requires Valid() && acceleration >= 1
      reads this, hashTable, dictionary
      ensures plan.Ok() && plan.setup == ContinueSetup(Dict(), text, currentOffset, follows, acceleration)
    {
      NextPlan(text, ByU32, if follows then WithPrefix64k else UsingExtDict, dictSize < KB64 && dictSize < currentOffset, acceleration)
    }

    /**
      The dictionary loses what the next block overwrites, or all of it when it is too short to be searched. Tells
      whether the block follows the dictionary in memory.
     */
    method TrimDict(src: array<byte>, s0: nat, n: nat) returns (follows: bool)
      requires Valid() && s0 + n <= src.Length
      modifies this
      ensures Valid() && Dict() == old(Remaining(src, s0, n))
      ensures currentOffset == old(currentOffset) && tableType == old(tableType) && follows == old(ViewFor(src).Follows(s0))
      ensures hashTable[..] == old(hashTable[..])
      ensures if follows then dictionary == src && dictStart + dictSize == s0 else dictSize == 0 || dictSize >= 4
      ensures dictionary == old(dictionary) || dictionary == src
    {
      hide TableValid, Slice;
      var dictEnd := dictStart + dictSize;
      follows := dictionary == src && dictEnd == s0;
      if 1 <= dictSize <= 3 && !follows {
        SliceTail(dictionary, dictStart, dictSize, src, s0, 0);
        SetDict(src, s0, 0);
        return true;
      }
      var size := dictSize;
      if dictionary == src && dictStart < s0 + n < dictEnd {
        size := dictEnd - (s0 + n);
        if size > KB64 { size := KB64; }
        if size < 4 { size := 0; }
      }
      SliceTail(dictionary, dictStart, dictSize, dictionary, dictEnd - size, size);
      SetDict(dictionary, dictEnd - size, size);
    }

    /** The same, as the next block will see it. */
    method RenormFor(ghost src: array<byte>, n: nat)
      requires Valid() && n <= LZ4_MAX_INPUT_SIZE
      modifies this, hashTable
      ensures Valid() && currentOffset + n <= MAXOFFSET && tableType == old(tableType) && dictionary == old(dictionary)
      ensures ViewFor(src) == old(ViewFor(src)).Renormed(n)
    {
      hide TableValid, Slice, Rescaled, DistancesKept;
      RenormDict(n);
    }

    /** The preparations of LZ4_compress_fast_continue. */
    method AdjustDict(src: array<byte>, s0: nat, n: nat, ghost acceleration: nat, ghost plan: Plan) returns (follows: bool)
      requires Valid() && n <= LZ4_MAX_INPUT_SIZE && s0 + n <= src.Length
      requires acceleration >= 1 && plan == ContinuePlan(src, s0, n, acceleration)
      modifies this, hashTable
      ensures Valid() && currentOffset + n <= MAXOFFSET && tableType == old(tableType)
      ensures EndsWith(old(Remaining(src, s0, n)), Dict())
      ensures if follows then dictionary == src && dictStart + dictSize == s0 else dictSize == 0 || dictSize >= 4
      ensures dictionary == old(dictionary) || dictionary == src
      ensures plan == PreparedPlan(src[s0..s0 + n], follows, acceleration)
    {
      hide TableValid, EndsWith, PlanFor, Slice, RunsPlanned, View.Remaining, View.Renormed;
      RenormedRemains(ViewFor(src), s0, n);
      RenormFor(src, n);
      follows := TrimDict(src, s0, n);
    }

    /** The call of LZ4_compress_generic in LZ4_compress_fast_continue, when the stream has been prepared. */
    method CompressPrepared(src: array<byte>, s0: nat, n: nat, dst: array<byte>, d0: nat, cap: nat, follows: bool, acceleration: nat,
                            ghost plan: Plan)
      returns (result: nat)
      requires Valid() && n <= LZ4_MAX_INPUT_SIZE && currentOffset + n <= MAXOFFSET && acceleration >= 1 && !tableType.ByU16?
      requires s0 + n <= src.Length && d0 + cap <= dst.Length && dst != src && dst != dictionary
      requires follows || dictSize == 0 || dictSize >= 4
      requires plan == PreparedPlan(src[s0..s0 + n], follows, acceleration)
      modifies this, hashTable, dst
      ensures TableValid() && !tableType.ByU16? && currentOffset == old(currentOffset) + n
      ensures dictionary == old(dictionary) && dictStart == old(dictStart) && dictSize == old(dictSize) + n
      ensures BlockMade(dst[..], old(dst[..]), d0, cap, result, n, old(Dict()), old(src[s0..s0 + n]))
      ensures RunsShrink(old(src[s0..s0 + n]), cap, result)
      ensures d0 + result <= dst.Length && AsPlanned(plan, cap, dst[d0..d0 + result], hashTable[..])
    {
      hide Represents, Stale, Outcome, WholeFits, NextPlan, RunsShrink, AsPlanned, BlockMade, TableValid, Plan.Ok, Slice;
      ghost var dict, text, before := Dict(), src[s0..s0 + n], dst[..];
      var dictSmall := dictSize < KB64 && dictSize < currentOffset;
      var consumed;
      result, consumed := CompressGeneric(src, s0, n, dst, d0, Room(LimitedOutput, d0 + cap), ByU32,
                                          if follows then WithPrefix64k else UsingExtDict, dictSmall, acceleration);
      OutcomePlanned(plan, Room(LimitedOutput, d0 + cap), d0, dst[d0..d0 + result], n, consumed, hashTable[..]);
      assert dst[..][d0..d0 + result] == dst[d0..d0 + result];
      WholeMade(dst[..], before, d0, cap, result, n, consumed, dict, text);
    }

    /** LZ4_compress_fast_continue when the block follows the dictionary in memory: the dictionary grows. */
    method CompressAfterPrefix(src: array<byte>, s0: nat, n: nat, dst: array<byte>, d0: nat, cap: nat, acceleration: nat, ghost plan: Plan)
      returns (result: nat)
      requires Valid() && n <= LZ4_MAX_INPUT_SIZE && currentOffset + n <= MAXOFFSET && acceleration >= 1
      requires s0 + n <= src.Length && d0 + cap <= dst.Length && dst != src
      requires dictionary == src && dictStart + dictSize == s0 && !tableType.ByU16?
      requires plan == PreparedPlan(src[s0..s0 + n], true, acceleration)
      modifies this, hashTable, dst
      ensures Valid() && !tableType.ByU16?
      ensures dictionary == src && dictStart + dictSize == s0 + n && Dict() == old(Dict() + src[s0..s0 + n])
      ensures BlockMade(dst[..], old(dst[..]), d0, cap, result, n, old(Dict()), old(src[s0..s0 + n]))
      ensures RunsShrink(old(src[s0..s0 + n]), cap, result)
      ensures currentOffset == plan.setup.startIndex + n && dictSize == plan.setup.d + n
      ensures d0 + result <= dst.Length && AsPlanned(plan, cap, dst[d0..d0 + result], hashTable[..])
    {
      hide Represents, Stale, NextPlan, RunsShrink, AsPlanned, BlockMade, Plan.Ok;
      Adjacent(src[..], dictStart, s0, s0 + n);
      result := CompressPrepared(src, s0, n, dst, d0, cap, true, acceleration, plan);
    }

    /** LZ4_compress_fast_continue when the dictionary is somewhere else: the block takes its place. */
    method CompressAfterDict(src: array<byte>, s0: nat, n: nat, dst: array<byte>, d0: nat, cap: nat, acceleration: nat, ghost plan: Plan)
      returns (result: nat)
      requires Valid() && n <= LZ4_MAX_INPUT_SIZE && currentOffset + n <= MAXOFFSET && acceleration >= 1
      requires s0 + n <= src.Length && d0 + cap <= dst.Length && dst != src && dst != dictionary
      requires (dictSize == 0 || dictSize >= 4) && !tableType.ByU16?
      requires plan == PreparedPlan(src[s0..s0 + n], false, acceleration)
      modifies this, hashTable, dst
      ensures Valid() && !tableType.ByU16?
      ensures dictionary == src && dictStart + dictSize == s0 + n && Dict() == old(src[s0..s0 + n])
      ensures BlockMade(dst[..], old(dst[..]), d0, cap, result, n, old(Dict()), old(src[s0..s0 + n]))
      ensures RunsShrink(old(src[s0..s0 + n]), cap, result)
      ensures currentOffset == plan.setup.startIndex + n && dictSize == n
      ensures d0 + result <= dst.Length && AsPlanned(plan, cap, dst[d0..d0 + result], hashTable[..])
    {
      hide Represents, Stale, NextPlan, RunsShrink, AsPlanned, BlockMade, Plan.Ok, Slice;
      result := CompressPrepared(src, s0, n, dst, d0, cap, false, acceleration, plan);
      SliceWhole(src, s0, n);
      SetDict(src, s0, n);
    }

    /**
      LZ4_compress_fast_continue. hist is everything compressed before; the caller has left the dictionary alone,
      except where the new block itself has been put over its beginning.
     */
    method CompressFastContinue(src: array<byte>, s0: nat, n: nat, dst: array<byte>, d0: nat, cap: nat, acceleration: int,
                                ghost hist: seq<byte>)
      returns (result: nat)
      requires Valid() && !tableType.ByU16? && n <= LZ4_MAX_INPUT_SIZE
      requires s0 + n <= src.Length && d0 + cap <= dst.Length && dst != src && dst != dictionary
      requires EndsWith(hist, Remaining(src, s0, n))
      modifies this, hashTable, dst
      ensures Valid() && !tableType.ByU16? && EndsWith(hist + old(src[s0..s0 + n]), Dict())
      ensures dictionary == src && dictStart + dictSize == s0 + n && dictSize >= n
      ensures BlockMade(dst[..], old(dst[..]), d0, cap, result, n, hist, old(src[s0..s0 + n]))
      ensures RunsShrink(old(src[s0..s0 + n]), cap, result)
      ensures
        var plan := old(ContinuePlan(src, s0, n, Accelerate(acceleration)));
        && d0 + result <= dst.Length && AsPlanned(plan, cap, dst[d0..d0 + result], hashTable[..])
        && currentOffset == plan.setup.startIndex + n
        && dictSize == (if plan.setup.dictDirective.WithPrefix64k? then plan.setup.d else 0) + n
    {
      hide RunsShrink, BlockMade, TableValid, EndsWith, Kept, AsPlanned, RunsPlanned, ContinuePlan, Plan.Ok, NextPlan;
      ghost var text, kept, before := src[s0..s0 + n], Remaining(src, s0, n), dst[..];
      var a := Accelerate(acceleration);
      ghost var plan := ContinuePlan(src, s0, n, a);
      var follows := AdjustDict(src, s0, n, a, plan);
      ghost var dict := Dict();
      EndsWithTrans(hist, kept, dict);
      EndsWithMore(hist, dict, text);
      if follows {
        result := CompressAfterPrefix(src, s0, n, dst, d0, cap, a, plan);
      } else {
        result := CompressAfterDict(src, s0, n, dst, d0, cap, a, plan);
      }
      BlockMadeAfter(dst[..], before, d0, cap, result, n, hist, dict, text);
    }

    /** How many bytes LZ4_saveDict saves. */
    static function Saved(size: int, dictSize: nat): (r: nat)
      ensures r <= dictSize && r <= KB64
    {
      var wanted := if size < 0 || size > KB64 then KB64 else size;
      if wanted > dictSize then dictSize else wanted
    }

    /** LZ4_saveDict: the last bytes of the dictionary move to a safer place, possibly over their old one. */
    method SaveDict(safeBuffer: array<byte>, b0: nat, size: int) returns (saved: nat)
      requires Valid() && b0 + Saved(size, dictSize) <= safeBuffer.Length
      modifies this, safeBuffer
      ensures Valid() && saved == old(Saved(size, dictSize)) && EndsWith(old(Dict()), Dict()) && |Dict()| == saved
      ensures dictionary == safeBuffer && dictStart == b0 && tableType == old(tableType)
      ensures forall i :: 0 <= i < safeBuffer.Length && !(b0 <= i < b0 + saved) ==> safeBuffer[i] == old(safeBuffer[i])
    {
      hide TableValid, Slice, EndsWith;
      ghost var dict := Dict();
      saved := Saved(size, dictSize);
      EndsWithDrop(dict, saved);
      var start := dictStart + dictSize - saved;
      SliceTail(dictionary, dictStart, dictSize, dictionary, start, saved);
      MoveSlice(safeBuffer, b0, dictionary, start, saved, 0, 0);
      SetDict(safeBuffer, b0, saved);
    }

    /** What LZ4_compress_fast_extState_fastReset makes of text: the table is cleared if it is of no use. */
    ghost function ResetPlan(text: seq<byte>, acceleration: nat): (plan: Plan)
      requires TableValid() && acceleration >= 1
      reads `currentOffset, `tableType, hashTable
      ensures plan.Ok()
    {
      var tt := if |text| < LZ4_64Klimit then ByU16 else ByU32;
      if !tableType.ClearedTable? && Unusable(|text|, tt) then
        PlanFor(Setup(text, 0, 0, tt, NoDict, false, acceleration), seq(HASHENTRIES, _ => 0))
      else
        var offset := currentOffset + if currentOffset != 0 && tt.ByU32? then KB64 else 0;
        PlanFor(Setup(text, 0, offset, tt, NoDict, tt.ByU16? && offset != 0, acceleration), hashTable[..])
    }

    /** The preparations of LZ4_compress_fast_extState_fastReset. */
    method PrepareReset(n: nat, tt: TableType, ghost text: seq<byte>, ghost acceleration: nat, ghost plan: Plan)
      returns (dictSmall: bool)
      requires TableValid() && |text| == n && acceleration >= 1 && plan == ResetPlan(text, acceleration)
      requires tt == if n < LZ4_64Klimit then ByU16 else ByU32
      modifies this, hashTable
      ensures Valid() && dictionary == null && dictSize == 0 && dictSmall == (tt.ByU16? && currentOffset != 0)
      ensures tt.ByU16? ==> currentOffset == 0 || currentOffset + n < 0xFFFF
      ensures tt.ByU32? ==> currentOffset == 0
      ensures plan == NextPlan(text, tt, NoDict, dictSmall, acceleration)
    {
      hide PlanFor, RunsPlanned, Stale;
      ghost var slots := hashTable[..];
      PrepareTable(n, tt);
      dictSmall := tt.ByU16? && currentOffset != 0;
      assert Dict() + text == text;
      assert currentOffset == 0 && tableType.ClearedTable? ==> hashTable[..] == seq(HASHENTRIES, _ => 0) || hashTable[..] == slots;
    }

    /**
      LZ4_compress_fast_extState_fastReset: a block without history, with a table that an earlier block may have left
      behind. Only a limited output can make it fail. For inputs of 64 KB and more, a 32-bit target keeps pointers instead
      of 32-bit indexes (byPtr); ByU32 stands for both here, and below.
     */
    method CompressFastReset(src: array<byte>, s0: nat, n: nat, dst: array<byte>, d0: nat, cap: nat, acceleration: int)
      returns (result: nat)
      requires TableValid() && s0 + n <= src.Length && d0 + cap <= dst.Length && dst != src
      modifies this, hashTable, dst
      ensures TableValid() && dictionary == null
      ensures n <= LZ4_MAX_INPUT_SIZE ==> BlockMade(dst[..], old(dst[..]), d0, cap, result, n, [], old(src[s0..s0 + n]))
      ensures n <= LZ4_MAX_INPUT_SIZE ==> RunsShrink(old(src[s0..s0 + n]), cap, result)
      ensures n <= LZ4_MAX_INPUT_SIZE ==>
        var plan := old(ResetPlan(src[s0..s0 + n], Accelerate(acceleration)));
        && d0 + result <= dst.Length && AsPlanned(plan, cap, dst[d0..d0 + result], hashTable[..])
        && currentOffset == plan.setup.startIndex + n
      ensures n > LZ4_MAX_INPUT_SIZE ==> result == 0
      ensures forall i :: 0 <= i < dst.Length && !(d0 <= i < d0 + cap) ==> dst[i] == old(dst[i])
    {
      hide Represents, Outcome, WholeFits, NextPlan, ResetPlan, RunsShrink, Plan.Ok, TableValid, Stale, Slice, BlockMade, AsPlanned,
           Accelerate, RunsPlanned, Uniform;
      ghost var text, before := src[s0..s0 + n], dst[..];
      var limit := if cap >= LZ4_compressBound(n) then NotLimited else LimitedOutput;
      var tt := if n < LZ4_64Klimit then ByU16 else ByU32;
      ghost var plan := ResetPlan(text, Accelerate(acceleration));
      var dictSmall := PrepareReset(n, tt, text, Accelerate(acceleration), plan);
      var consumed;
      result, consumed := CompressGeneric(src, s0, n, dst, d0, Room(limit, d0 + cap), tt, NoDict, dictSmall, Accelerate(acceleration));
      if n <= LZ4_MAX_INPUT_SIZE {
        assert dst[..][d0..d0 + result] == dst[d0..d0 + result];
        WholeMade(dst[..], before, d0, cap, result, n, consumed, [], text);
        OutcomePlanned(plan, Room(limit, d0 + cap), d0, dst[d0..d0 + result], n, consumed, hashTable[..]);
      }
    }
  }

  /** What the search of a new state makes of a text. */
  ghost function FastPlan(text: seq<byte>, acceleration: int): (plan: Plan)
    ensures plan.Ok() && plan.setup.whole == text && plan.setup.d == 0
  {
    PlanFor(Setup(text, 0, 0, if |text| < LZ4_64Klimit then ByU16 else ByU32, NoDict, false, Accelerate(acceleration)),
            seq(HASHENTRIES, _ => 0))
  }

  /** LZ4_compress_fast: a block without history, from a new state; nothing if that block does not fit. */
  method CompressFast(src: array<byte>, s0: nat, n: nat, dst: array<byte>, d0: nat, cap: nat, acceleration: int)
    returns (result: nat)
    requires s0 + n <= src.Length && d0 + cap <= dst.Length && dst != src
    modifies dst
    ensures n <= LZ4_MAX_INPUT_SIZE ==> BlockMade(dst[..], old(dst[..]), d0, cap, result, n, [], old(src[s0..s0 + n]))
    ensures n <= LZ4_MAX_INPUT_SIZE ==>
      var block := FastPlan(old(src[s0..s0 + n]), acceleration).Bytes();
      result <= cap && dst[d0..d0 + result] == if |block| <= cap then block else []
    ensures n > LZ4_MAX_INPUT_SIZE ==> result == 0
    ensures forall i :: 0 <= i < dst.Length && !(d0 <= i < d0 + cap) ==> dst[i] == old(dst[i])
  {
    hide Represents, PlanFor, Plan.Bytes, Plan.Ok, RunsShrink, RunsPlanned, Outcome, WholeFits, BlockMade, Stale, Slice, Accelerate;
    ghost var text, before := src[s0..s0 + n], dst[..];
    var limit := if cap >= LZ4_compressBound(n) then NotLimited else LimitedOutput;
    var ctx := new Stream();
    assert ctx.Dict() == [];
    assert [] + text == text;
    var consumed;
    result, consumed := ctx.CompressGeneric(src, s0, n, dst, d0, Room(limit, d0 + cap), if n < LZ4_64Klimit then ByU16 else ByU32,
                                            NoDict, false, Accelerate(acceleration));
    if n <= LZ4_MAX_INPUT_SIZE {
      assert dst[..][d0..d0 + result] == dst[d0..d0 + result];
      WholeMade(dst[..], before, d0, cap, result, n, consumed, [], text);
      OutcomePlanned(FastPlan(text, acceleration), Room(limit, d0 + cap), d0, dst[d0..d0 + result], n, consumed, ctx.hashTable[..]);
    }
  }

  /** LZ4_compress_destSize_extState when the target size may be too small. */
  method FillDest(src: array<byte>, s0: nat, n: nat, dst: array<byte>, d0: nat, targetDstSize: nat)
    returns (result: nat, consumed: nat)
    requires s0 + n <= src.Length && d0 + targetDstSize <= dst.Length && dst != src
    modifies dst
    ensures result <= targetDstSize && consumed <= n
    ensures forall i :: 0 <= i < dst.Length && !(d0 <= i < d0 + targetDstSize) ==> dst[i] == old(dst[i])
    ensures result == 0 <==> n > LZ4_MAX_INPUT_SIZE || targetDstSize == 0
    ensures result > 0 ==> Represents(dst[d0..d0 + result], [], old(src[s0..s0 + consumed]))
    ensures result > 0 ==> result <= CompressBound(consumed) && (consumed < n ==> result + 1 >= targetDstSize)
    ensures n <= LZ4_MAX_INPUT_SIZE ==>
      Outcome(FastPlan(old(src[s0..s0 + n]), 1), Room(FillOutput, d0 + targetDstSize), d0, dst[d0..d0 + result], n, consumed)
  {
    hide Represents, PlanFor, Plan.Bytes, Plan.Ok, Outcome;
    var ctx := new Stream();
    assert ctx.Dict() == [];
    assert [] + src[s0..s0 + n] == src[s0..s0 + n];
    result, consumed := ctx.CompressGeneric(src, s0, n, dst, d0, Room(FillOutput, d0 + targetDstSize),
                                            if n < LZ4_64Klimit then ByU16 else ByU32, NoDict, false, 1);
    assert src[s0..s0 + n][..consumed] == src[s0..s0 + consumed];
  }

  /**
    LZ4_compress_destSize: as much of the source as the target size can hold. The result is a whole block: it decodes,
    in a buffer of exactly consumed bytes, to the first consumed bytes of the source. Unless that is all of the source, no
    more than one byte of the target size is left unused.
   */
  method CompressDestSize(src: array<byte>, s0: nat, n: nat, dst: array<byte>, d0: nat, targetDstSize: nat)
    returns (result: nat, consumed: nat)
    requires s0 + n <= src.Length && d0 + targetDstSize <= dst.Length && dst != src
    modifies dst
    ensures result <= targetDstSize && consumed <= n
    ensures forall i :: 0 <= i < dst.Length && !(d0 <= i < d0 + targetDstSize) ==> dst[i] == old(dst[i])
    ensures result == 0 <==> n > LZ4_MAX_INPUT_SIZE || targetDstSize == 0
    ensures result > 0 ==> Represents(dst[d0..d0 + result], [], old(src[s0..s0 + consumed]))
    ensures result > 0 ==> result <= CompressBound(consumed) && (consumed < n ==> result + 1 >= targetDstSize)
    ensures result > 0 && targetDstSize >= CompressBound(n) ==> consumed == n
    ensures n <= LZ4_MAX_INPUT_SIZE ==>
      Outcome(FastPlan(old(src[s0..s0 + n]), 1), Room(FillOutput, d0 + targetDstSize), d0, dst[d0..d0 + result], n, consumed)
  {
    hide Represents, PlanFor, Plan.Bytes, Plan.Ok, Outcome;
    if targetDstSize >= LZ4_compressBound(n) {
      result := CompressFast(src, s0, n, dst, d0, targetDstSize, 1);
      consumed := n;
      assert dst[..][d0..d0 + result] == dst[d0..d0 + result];
      if n <= LZ4_MAX_INPUT_SIZE {
        WholeOutcome(FastPlan(src[s0..s0 + n], 1), Room(FillOutput, d0 + targetDstSize), d0, dst[d0..d0 + result], n);
      }
    } else {
      result, consumed := FillDest(src, s0, n, dst, d0, targetDstSize);
    }
  }
}
