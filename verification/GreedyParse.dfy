/** What LZ4_compress_generic of lz4.c looks for: which matches its hash table leads to, whatever the output. */
module GreedyParse {
  import opened BlockFormat
  import opened BlockSequences

  const LZ4_minLength := MFLIMIT + 1
  const LZ4_64Klimit := KB64 + (MFLIMIT - 1)
  const SKIPSTEP := 64
  const HASHENTRIES := 8192

  datatype TableType = ClearedTable | ByU32 | ByU16
  datatype DictDirective = NoDict | WithPrefix64k | UsingExtDict

  function Word(b0: byte, b1: byte, b2: byte, b3: byte): (r: nat)
    ensures r < 0x1_0000_0000
  {
    b0 + 0x100 * (b1 + 0x100 * (b2 + 0x100 * (b3 as int)))
  }

  function Read32(text: seq<byte>, p: nat): (r: nat)
    requires p + 4 <= |text|
  {
    Word(text[p], text[p + 1], text[p + 2], text[p + 3])
  }

  lemma LowByte(x: int, y: int, x': int, y': int)
    requires 0 <= x < 256 && 0 <= x' < 256 && x + 256 * y == x' + 256 * y'
    ensures x == x' && y == y'
  {
  }

  lemma WordInjective(a0: byte, a1: byte, a2: byte, a3: byte, b0: byte, b1: byte, b2: byte, b3: byte)
    requires Word(a0, a1, a2, a3) == Word(b0, b1, b2, b3)
    ensures a0 == b0 && a1 == b1 && a2 == b2 && a3 == b3
  {
    var a, b := a1 + 0x100 * (a2 + 0x100 * (a3 as int)), b1 + 0x100 * (b2 + 0x100 * (b3 as int));
    LowByte(a0, a, b0, b);
    LowByte(a1, a2 + 0x100 * (a3 as int), b1, b2 + 0x100 * (b3 as int));
    LowByte(a2, a3, b2, b3);
  }

  /** The bytes of text from i to j equal those off positions earlier. */
  ghost predicate Same(text: seq<byte>, off: nat, i: nat, j: nat) {
    off <= i && j <= |text| && forall k :: i <= k < j ==> text[k] == text[k - off]
  }

  lemma Read32Equal(text: seq<byte>, p: nat, off: nat)
    requires off <= p && p + 4 <= |text|
    ensures Read32(text, p) == Read32(text, p - off) <==> Same(text, off, p, p + 4)
  {
    if Same(text, off, p, p + 4) {
      assert text[p] == text[p - off] && text[p + 1] == text[p + 1 - off]
          && text[p + 2] == text[p + 2 - off] && text[p + 3] == text[p + 3 - off];
    } else if Read32(text, p) == Read32(text, p - off) {
      WordInjective(text[p], text[p + 1], text[p + 2], text[p + 3],
                    text[p - off], text[p - off + 1], text[p - off + 2], text[p - off + 3]);
    }
  }

  /** LZ4_hashPosition on a 32-bit target. Nothing below depends on which function this is. */
  function Hash(text: seq<byte>, p: nat, tableType: TableType): (h: nat)
    requires p + 4 <= |text|
    ensures h < HASHENTRIES
  {
    var product := (Read32(text, p) * 2654435761) % 0x1_0000_0000;
    if tableType.ByU16? then product / 0x8_0000 else product / 0x10_0000
  }

  /** The r bytes at p agree with those off positions earlier, and no longer run before limit does. */
  ghost predicate CommonRun(text: seq<byte>, p: nat, off: nat, limit: nat, r: nat) {
    p + r <= limit <= |text| && Same(text, off, p, p + r) && (p + r < limit ==> text[p + r] != text[p + r - off])
  }

  // ---------- The search ----------

  type Slots = t: seq<nat> | |t| == HASHENTRIES witness seq(HASHENTRIES, _ => 0)

  /** The block whole[d..] behind whole[..d], and how it is to be compressed; its first byte has index startIndex. */
  datatype Setup = Setup(whole: seq<byte>, d: nat, startIndex: nat, tableType: TableType, dictDirective: DictDirective,
                     dictSmall: bool, acceleration: nat) {
    predicate Ok() {
      d <= |whole| && d <= startIndex && acceleration >= 1 && (tableType.ByU16? ==> |whole| < LZ4_64Klimit)
    }

    function Slot(ip: nat): (h: nat)
      requires d + ip + 4 <= |whole|
      ensures h < HASHENTRIES
    {
      Hash(whole, d + ip, tableType)
    }
  }

  /** The place in whole that an index stands for. */
  function PlaceOf(j: Setup, e: nat): int {
    e - (j.startIndex - j.d)
  }

  /** What is asked of an index before the bytes it stands for are looked at. */
  predicate Passes(j: Setup, e: nat, ip: nat) {
    && (j.dictSmall ==> e >= j.startIndex - j.d)
    && (j.tableType.ByU16? || e + MAXDISTANCE >= j.startIndex + ip)
  }

  /** The entry that the table t has for position ip passes, and names four bytes equal to those at ip. */
  ghost predicate Hit(j: Setup, t: Slots, ip: nat)
    requires j.d + ip + 4 <= |j.whole|
  {
    var e := t[j.Slot(ip)];
    var m := PlaceOf(j, e);
    Passes(j, e, ip) && 0 <= m < j.d + ip && Same(j.whole, j.d + ip - m, j.d + ip, j.d + ip + 4)
  }

  function Put(j: Setup, t: Slots, ip: nat): Slots
    requires j.d + ip + 4 <= |j.whole|
  {
    t[j.Slot(ip) := j.startIndex + ip]
  }

  /** A match for position at, to be copied from m, and the table when it has been found. */
  datatype Found = Nothing(table: Slots) | Found(at: nat, m: nat, table: Slots)

  ghost predicate FoundOk(j: Setup, f: Found, anchor: nat) {
    f.Found? ==>
      && anchor <= f.at && j.d + f.at + MFLIMIT <= |j.whole| && f.m < j.d + f.at && j.d + f.at - f.m <= MAXDISTANCE
      && Same(j.whole, j.d + f.at - f.m, j.d + f.at, j.d + f.at + 4)
  }

  /** How far the k-th position that is tested lies before the next: the steps grow while nothing is found. */
  function Stride(acceleration: nat, k: nat): (r: nat)
    ensures acceleration >= 1 ==> r >= 1
  {
    if k == 0 then 1 else (acceleration * SKIPSTEP + k - 1) / SKIPSTEP
  }

  /** The first position from ip on, of those that are tested, whose entry starts a match. */
  ghost function Search(j: Setup, t: Slots, ip: nat, k: nat): (f: Found)
    requires j.Ok() && j.d + ip + MFLIMIT - 1 <= |j.whole|
    ensures FoundOk(j, f, ip)
    decreases |j.whole| - ip
  {
    var next := ip + Stride(j.acceleration, k);
    if j.d + next + MFLIMIT - 1 > |j.whole| then Nothing(t)
    else if Hit(j, t, ip) then Found(ip, PlaceOf(j, t[j.Slot(ip)]), Put(j, t, ip))
    else Search(j, Put(j, t, ip), next, k + 1)
  }

  /** The i-th position that a search from ip on tests. */
  function Tested(j: Setup, ip: nat, i: nat): (r: nat)
    ensures r >= ip
    ensures i > 0 && j.acceleration >= 1 ==> r > Tested(j, ip, i - 1)
  {
    if i == 0 then ip else Tested(j, ip, i - 1) + Stride(j.acceleration, i - 1)
  }

  /** The table when i positions have been tested and recorded. */
  function Recorded(j: Setup, t: Slots, ip: nat, i: nat): Slots
    requires i > 0 ==> j.acceleration >= 1 && j.d + Tested(j, ip, i - 1) + 4 <= |j.whole|
  {
    if i == 0 then t else Put(j, Recorded(j, t, ip, i - 1), Tested(j, ip, i - 1))
  }

  /** There are more than i positions to test, and the first i fail. */
  ghost predicate Missed(j: Setup, t: Slots, ip: nat, i: nat)
    requires j.Ok()
  {
    && j.d + Tested(j, ip, i) + MFLIMIT - 1 <= |j.whole|
    && (i > 0 ==> Missed(j, t, ip, i - 1) && !Hit(j, Recorded(j, t, ip, i - 1), Tested(j, ip, i - 1)))
  }

  /** What a search from ip on finds once the first i positions have failed. */
  ghost predicate Onwards(j: Setup, t: Slots, ip: nat, i: nat)
    requires j.Ok() && Missed(j, t, ip, i)
  {
    Search(j, t, ip, 0) == Search(j, Recorded(j, t, ip, i), Tested(j, ip, i), i)
  }

  lemma OnwardsNext(j: Setup, t: Slots, ip: nat, i: nat)
    requires j.Ok() && Missed(j, t, ip, i) && Onwards(j, t, ip, i) && !Hit(j, Recorded(j, t, ip, i), Tested(j, ip, i))
    requires j.d + Tested(j, ip, i + 1) + MFLIMIT - 1 <= |j.whole|
    ensures Missed(j, t, ip, i + 1) && Onwards(j, t, ip, i + 1)
  {
    hide Hit, Stride;
  }

  /** A search ends at the first position, of those it tests, that is a hit; it finds nothing only if all of them fail. */
  lemma SearchIsFirst(j: Setup, t: Slots, ip: nat) returns (i: nat)
    requires j.Ok() && j.d + ip + MFLIMIT - 1 <= |j.whole|
    ensures Missed(j, t, ip, i)
    ensures var at, table, f := Tested(j, ip, i), Recorded(j, t, ip, i), Search(j, t, ip, 0);
      if j.d + Tested(j, ip, i + 1) + MFLIMIT - 1 > |j.whole| then f == Nothing(table)
      else Hit(j, table, at) && f == Found(at, PlaceOf(j, table[j.Slot(at)]), Put(j, table, at))
  {
    hide Hit, Put, Stride;
    i := 0;
    while j.d + Tested(j, ip, i + 1) + MFLIMIT - 1 <= |j.whole| && !Hit(j, Recorded(j, t, ip, i), Tested(j, ip, i))
      invariant Missed(j, t, ip, i) && Onwards(j, t, ip, i)
      decreases |j.whole| - Tested(j, ip, i)
    {
      OnwardsNext(j, t, ip, i);
      i := i + 1;
    }
  }

  /** The start of the segment that m lies in: matches are not extended across it. */
  function LowLimit(j: Setup, m: nat): nat {
    if j.dictDirective.UsingExtDict? && m >= j.d then j.d else 0
  }

  /** By how many bytes a match can be extended backwards. */
  function Back(j: Setup, anchor: nat, ip: nat, m: nat): (r: nat)
    requires m < j.d + ip <= |j.whole|
    ensures r <= m && (anchor <= ip ==> anchor + r <= ip)
  {
    if ip > anchor && m > LowLimit(j, m) && j.whole[j.d + ip - 1] == j.whole[m - 1] then 1 + Back(j, anchor, ip - 1, m - 1) else 0
  }

  lemma {:induction false} BackSame(j: Setup, anchor: nat, ip: nat, m: nat)
    requires m < j.d + ip <= |j.whole|
    ensures Same(j.whole, j.d + ip - m, j.d + ip - Back(j, anchor, ip, m), j.d + ip)
    decreases ip
  {
    if ip > anchor && m > LowLimit(j, m) && j.whole[j.d + ip - 1] == j.whole[m - 1] { BackSame(j, anchor, ip - 1, m - 1); }
  }

  /** The length of the common run. */
  function RunLength(text: seq<byte>, p: nat, off: nat, limit: nat): (r: nat)
    requires off <= p <= limit <= |text|
    ensures CommonRun(text, p, off, limit, r)
    decreases limit - p
  {
    if p < limit && text[p] == text[p - off] then 1 + RunLength(text, p + 1, off, limit) else 0
  }

  lemma {:induction false} RunLengthUnique(text: seq<byte>, p: nat, off: nat, limit: nat, r: nat)
    requires off <= p <= limit <= |text| && CommonRun(text, p, off, limit, r)
    ensures r == RunLength(text, p, off, limit)
    decreases r
  {
    if r > 0 { RunLengthUnique(text, p + 1, off, limit, r - 1); }
  }

  // ---------- The parse ----------

  /** Behind a search: the match, extended backwards. */
  ghost function FirstMatch(j: Setup, t: Slots, anchor: nat): (f: Found)
    requires j.Ok() && j.d + anchor + MFLIMIT <= |j.whole|
    ensures FoundOk(j, f, anchor)
  {
    match Search(j, t, anchor + 1, 0)
    case Nothing(t') => Nothing(t')
    case Found(at, m, t') =>
      var r := Back(j, anchor, at, m);
      BackSame(j, anchor, at, m);
      Found(at - r, m - r, t')
  }

  /** Behind a match that ends in anchor: two positions are recorded, and a match right here is taken first. */
  ghost function NextMatch(j: Setup, t: Slots, anchor: nat): (f: Found)
    requires j.Ok() && 2 <= anchor && j.d + anchor + MFLIMIT <= |j.whole|
    ensures FoundOk(j, f, anchor)
  {
    var t1 := Put(j, t, anchor - 2);
    var t2 := Put(j, t1, anchor);
    if Hit(j, t1, anchor) then Found(anchor, PlaceOf(j, t1[j.Slot(anchor)]), t2) else FirstMatch(j, t2, anchor)
  }

  /** The literals before a match and the match in its full length, which leaves the last five bytes alone. */
  ghost function Taken(j: Setup, f: Found, anchor: nat): (s: Sequence)
    requires f.Found? && FoundOk(j, f, anchor)
    ensures s.len >= MINMATCH && j.d + f.at + s.len + LASTLITERALS <= |j.whole|
  {
    var off := j.d + f.at - f.m;
    var len := RunLength(j.whole, j.d + f.at, off, |j.whole| - LASTLITERALS);
    assert j.whole[j.d + f.at + len] == j.whole[j.d + f.at + len - off] || len >= 4;
    Sequence(j.whole[j.d + anchor..j.d + f.at], off, len)
  }

  lemma {:induction false} BackEnds(j: Setup, anchor: nat, ip: nat, m: nat)
    requires m < j.d + ip <= |j.whole| && anchor <= ip
    ensures var r := Back(j, anchor, ip, m);
      ip - r == anchor || m - r == LowLimit(j, m - r) || j.whole[j.d + ip - r - 1] != j.whole[m - r - 1]
    decreases ip
  {
    if ip > anchor && m > LowLimit(j, m) && j.whole[j.d + ip - 1] == j.whole[m - 1] { BackEnds(j, anchor, ip - 1, m - 1); }
  }

  /** A match that a search has led to can be extended neither backwards nor forwards. */
  lemma MatchIsMaximal(j: Setup, t: Slots, anchor: nat)
    requires j.Ok() && j.d + anchor + MFLIMIT <= |j.whole| && FirstMatch(j, t, anchor).Found?
    ensures var f := FirstMatch(j, t, anchor); var p := j.d + f.at; var end := p + Taken(j, f, anchor).len;
      && (f.at == anchor || f.m == LowLimit(j, f.m) || j.whole[p - 1] != j.whole[f.m - 1])
      && (end + LASTLITERALS == |j.whole| || j.whole[end] != j.whole[end - (p - f.m)])
  {
    hide Back, Search, RunLength, Same;
    var f := Search(j, t, anchor + 1, 0);
    BackEnds(j, anchor, f.at, f.m);
  }

  /** The sequences from anchor on, the first of which takes the match f. */
  ghost function Greedy(j: Setup, f: Found, anchor: nat): seq<Sequence>
    requires j.Ok() && FoundOk(j, f, anchor)
    decreases |j.whole| - anchor
  {
    if f.Nothing? then []
    else
      var s := Taken(j, f, anchor);
      var end := f.at + s.len;
      [s] + if j.d + end + MFLIMIT <= |j.whole| then Greedy(j, NextMatch(j, f.table, end), end) else []
  }

  /** The table behind them. */
  ghost function TableLeft(j: Setup, f: Found, anchor: nat): Slots
    requires j.Ok() && FoundOk(j, f, anchor)
    decreases |j.whole| - anchor
  {
    if f.Nothing? then f.table
    else
      var end := f.at + Taken(j, f, anchor).len;
      if j.d + end + MFLIMIT <= |j.whole| then TableLeft(j, NextMatch(j, f.table, end), end) else f.table
  }

  /** All sequences of the block, when t is the table at the start. */
  ghost function Sequences(j: Setup, t: Slots): seq<Sequence>
    requires j.Ok()
  {
    if j.d + LZ4_minLength <= |j.whole| then Greedy(j, FirstMatch(j, Put(j, t, 0), 0), 0) else []
  }

  ghost predicate Fit(j: Setup, ss: seq<Sequence>, anchor: nat) {
    (forall s :: s in ss ==> Encodable(s)) && (ss != [] ==> j.d + anchor + TextLength(ss) + LASTLITERALS <= |j.whole|)
  }

  /** The table behind all sequences of the block; a block that is too short to be searched leaves it alone. */
  ghost function TableAfter(j: Setup, t: Slots): Slots
    requires j.Ok()
  {
    if j.d + LZ4_minLength <= |j.whole| then TableLeft(j, FirstMatch(j, Put(j, t, 0), 0), 0) else t
  }

  /** A block, with how it is to be compressed, all its sequences, and the table that they leave for the next block. */
  datatype Plan = Plan(setup: Setup, all: seq<Sequence>, left: Slots) {
    ghost predicate Ok() {
      setup.Ok() && Fit(setup, all, 0)
    }

    ghost function Bytes(): (b: seq<byte>)
      requires Ok()
      ensures |b| > 0
    {
      EmitAll(all) + EmitLast(setup.whole[setup.d + TextLength(all)..])
    }
  }

  lemma {:induction false} FirstLength(s: Sequence, ss: seq<Sequence>)
    ensures TextLength([s] + ss) == |s.literals| + s.len + TextLength(ss)
    decreases |ss|
  {
    var all := [s] + ss;
    if ss == [] {
      assert all[..|all| - 1] == [];
    } else {
      FirstLength(s, ss[..|ss| - 1]);
      assert all[..|all| - 1] == [s] + ss[..|ss| - 1];
    }
  }

  lemma TakenFits(j: Setup, f: Found, anchor: nat)
    requires j.Ok() && f.Found? && FoundOk(j, f, anchor)
    ensures var s := Taken(j, f, anchor);
      && Encodable(s) && s.offset == j.d + f.at - f.m && |s.literals| == f.at - anchor
      && j.d + f.at + s.len + LASTLITERALS <= |j.whole|
  {
  }

  lemma FitFirst(j: Setup, s: Sequence, ss: seq<Sequence>, anchor: nat, end: nat)
    requires Encodable(s) && anchor + |s.literals| + s.len == end && j.d + end + LASTLITERALS <= |j.whole| && Fit(j, ss, end)
    ensures Fit(j, [s] + ss, anchor)
  {
    FirstLength(s, ss);
  }

  lemma {:induction false} GreedyFits(j: Setup, f: Found, anchor: nat)
    requires j.Ok() && FoundOk(j, f, anchor)
    ensures Fit(j, Greedy(j, f, anchor), anchor)
    decreases |j.whole| - anchor
  {
    hide Taken, NextMatch, FirstMatch, FoundOk, TextLength, Fit;
    if f.Found? {
      var s := Taken(j, f, anchor);
      var end := f.at + s.len;
      TakenFits(j, f, anchor);
      NothingFits(j, end);
      if j.d + end + MFLIMIT <= |j.whole| { GreedyFits(j, NextMatch(j, f.table, end), end); }
      FitFirst(j, s, if j.d + end + MFLIMIT <= |j.whole| then Greedy(j, NextMatch(j, f.table, end), end) else [], anchor, end);
    } else {
      NothingFits(j, anchor);
    }
  }

  lemma NothingFits(j: Setup, anchor: nat)
    ensures Fit(j, [], anchor)
  {
  }

  lemma SequencesFit(j: Setup, t: Slots)
    requires j.Ok()
    ensures Fit(j, Sequences(j, t), 0)
  {
    hide Greedy, FirstMatch, Fit;
    NothingFits(j, 0);
    if j.d + LZ4_minLength <= |j.whole| { GreedyFits(j, FirstMatch(j, Put(j, t, 0), 0), 0); }
  }

  /** The plan for a block, when t is the table at the start. */
  ghost function PlanFor(j: Setup, t: Slots): (plan: Plan)
    requires j.Ok()
    ensures plan.Ok() && plan.setup == j
  {
    SequencesFit(j, t);
    Plan(j, Sequences(j, t), TableAfter(j, t))
  }

  // ---------- Following the parse ----------

  /** The sequences ss are the first ones, and f is the next match. */
  ghost predicate OnPlan(plan: Plan, ss: seq<Sequence>, anchor: nat, f: Found) {
    && plan.Ok() && FoundOk(plan.setup, f, anchor)
    && plan.all == ss + Greedy(plan.setup, f, anchor) && plan.left == TableLeft(plan.setup, f, anchor)
  }

  lemma GreedyNext(j: Setup, f: Found, anchor: nat)
    requires j.Ok() && FoundOk(j, f, anchor) && f.Found?
    ensures var s := Taken(j, f, anchor); var end := f.at + s.len;
      if j.d + end + MFLIMIT <= |j.whole| then
        var next := NextMatch(j, f.table, end);
        Greedy(j, f, anchor) == [s] + Greedy(j, next, end) && TableLeft(j, f, anchor) == TableLeft(j, next, end)
      else
        Greedy(j, f, anchor) == [s] && TableLeft(j, f, anchor) == f.table
  {
    hide Taken, NextMatch, FirstMatch, FoundOk;
  }

  /** One more sequence. */
  lemma PlanNext(plan: Plan, ss: seq<Sequence>, anchor: nat, f: Found)
    requires OnPlan(plan, ss, anchor, f) && f.Found?
    ensures var s := Taken(plan.setup, f, anchor); var end := f.at + s.len;
      && ss + [s] <= plan.all
      && (if plan.setup.d + end + MFLIMIT <= |plan.setup.whole| then OnPlan(plan, ss + [s], end, NextMatch(plan.setup, f.table, end))
          else plan.all == ss + [s] && plan.left == f.table)
  {
    hide Taken, NextMatch, FirstMatch, FoundOk, Fit, Greedy, TableLeft;
    var s := Taken(plan.setup, f, anchor);
    var end := f.at + s.len;
    GreedyNext(plan.setup, f, anchor);
    var rest := if plan.setup.d + end + MFLIMIT <= |plan.setup.whole| then Greedy(plan.setup, NextMatch(plan.setup, f.table, end), end) else [];
    assert ss + ([s] + rest) == (ss + [s]) + rest;
  }

  lemma {:induction false} PrefixSizes(ss: seq<Sequence>, all: seq<Sequence>)
    requires ss <= all && forall s :: s in all ==> Encodable(s)
    ensures |EmitAll(ss)| <= |EmitAll(all)| && TextLength(ss) <= TextLength(all)
    decreases |all|
  {
    if ss != all { PrefixSizes(ss, all[..|all| - 1]); }
  }

  /**
    A target of this size cannot take the whole block in fillOutput mode, and every first part of the block that would
    leave 9 bytes has been written.
   */
  ghost predicate Sated(plan: Plan, size: int, anchor: nat)
    requires plan.Ok()
  {
    && plan.all != [] && |EmitAll(plan.all)| + 9 > size
    && forall ss :: ss <= plan.all && |EmitAll(ss)| + 9 <= size ==> TextLength(ss) <= anchor
  }

  lemma SatedAt(plan: Plan, ss: seq<Sequence>, s: Sequence, size: int, anchor: nat)
    requires plan.Ok() && ss + [s] <= plan.all && |EmitAll(ss + [s])| + 9 > size && TextLength(ss) <= anchor
    ensures Sated(plan, size, anchor)
  {
    hide EmitAll, TextLength;
    PrefixSizes(ss + [s], plan.all);
    forall part | part <= plan.all && |EmitAll(part)| + 9 <= size ensures TextLength(part) <= anchor {
      if |part| <= |ss| {
        assert part <= ss;
        PrefixSizes(part, ss);
      } else {
        assert ss + [s] <= part;
        PrefixSizes(ss + [s], part);
      }
    }
  }

  // ---------- Bytes that are all equal ----------

  ghost predicate Uniform(text: seq<byte>) {
    forall k :: 0 <= k < |text| ==> text[k] == text[0]
  }

  lemma UniformHit(j: Setup, t: Slots)
    requires j.Ok() && j.d + LZ4_minLength <= |j.whole| && Uniform(j.whole[j.d..])
    ensures var t0 := Put(j, t, 0); Search(j, t0, 1, 0) == Found(1, j.d, Put(j, t0, 1))
  {
    var w, d := j.whole, j.d;
    forall k | d <= k < |w| ensures w[k] == w[d] { assert w[k] == w[d..][k - d]; }
    assert Read32(w, d) == Read32(w, d + 1);
  }

  /** A block of equal bytes is one match, one byte back, whatever has been compressed before it. */
  lemma UniformSequences(j: Setup, t: Slots)
    requires j.Ok() && j.d + LZ4_minLength <= |j.whole| && Uniform(j.whole[j.d..])
    ensures var n, s := |j.whole| - j.d, Sequences(j, t);
      && |s| == 1 && |s[0].literals| <= 1 && s[0].offset == 1 && |s[0].literals| + s[0].len == n - LASTLITERALS
      && (j.d == 0 ==> s[0].literals == j.whole[..1])
  {
    hide Search;
    var w, d := j.whole, j.d;
    UniformHit(j, t);
    var f := FirstMatch(j, Put(j, t, 0), 0);
    assert f.at <= 1 && f.m + 1 == d + f.at;
    forall k | d <= k < |w| ensures w[k] == w[d] { assert w[k] == w[d..][k - d]; }
    assert CommonRun(w, d + f.at, 1, |w| - LASTLITERALS, |w| - LASTLITERALS - d - f.at);
    RunLengthUnique(w, d + f.at, 1, |w| - LASTLITERALS, |w| - LASTLITERALS - d - f.at);
  }
}
