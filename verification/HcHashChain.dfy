/** LZ4HC_compress_hashChain: the parser of levels 3 to 9, which weighs up to three overlapping matches. */
module HcHashChain {
  import opened BlockFormat
  import opened BlockSequences
  import opened BlockEncoder
  import opened GreedyParse
  import opened HcIndex
  import opened HcSearch
  import opened HcEncoder

  const OPTIMAL_ML := 18

  /** A block to be compressed: whole[s..], and how hard to search. */
  datatype Job = Job(g: Segments, beyond: seq<byte>, s: nat, maxNbAttempts: nat) {
    predicate Ok() {
      g.Ok() && g.D() <= s <= |g.whole| && |beyond| == 3
    }

    /** Size of the block. */
    function N(): nat
      requires Ok()
    {
      |g.whole| - s
    }

    function PatternAnalysis(): bool { maxNbAttempts > 128 }

    /** The search at position ip, not further back than low, for more than longest bytes. */
    function Ask(ip: nat, low: nat, longest: nat): (q: Query)
      requires Ok() && low <= ip < low + longest && low + longest + LASTLITERALS <= N() && ip + MFLIMIT <= N()
      ensures q.Ok(g)
    {
      Query(s + ip, s + low, |g.whole| - LASTLITERALS, longest, PatternAnalysis(), false, false)
    }
  }

  /** h may be encoded in this block. */
  ghost predicate Good(job: Job, h: Hit) {
    HitOk(job.g.whole, job.s, h)
  }

  /** The search has not been past position i. */
  ghost predicate SearchedTo(tables: Tables, job: Job, i: int)
    reads tables, tables.hashTable, tables.chainTable
  {
    job.Ok() && tables.IndexOk(job.g) && tables.nextToUpdate <= job.g.lowLimit + job.s + i
  }

  /** LZ4HC_InsertAndFindBestMatch. */
  method FindBest(tables: Tables, job: Job, ip: nat) returns (found: bool, h: Hit)
    requires SearchedTo(tables, job, ip) && ip + MFLIMIT <= job.N()
    modifies tables, tables.hashTable, tables.chainTable
    ensures SearchedTo(tables, job, ip) && (found ==> Good(job, h) && h.start == ip && h.len >= MINMATCH)
    ensures Complete(job.g, job.Ask(ip, ip, MINMATCH - 1), job.maxNbAttempts, if found then h.len else MINMATCH - 1)
  {
    hide Tables.IndexOk, Genuine, Complete;
    found, h := FindWider(tables, job, ip, ip, MINMATCH - 1);
  }

  /** LZ4HC_InsertAndGetWiderMatch at ip, not further back than low, for more than longest bytes. */
  method FindWider(tables: Tables, job: Job, ip: nat, low: nat, longest: nat) returns (found: bool, h: Hit)
    requires SearchedTo(tables, job, ip) && low <= ip < low + longest && low + longest + LASTLITERALS <= job.N()
    requires ip + MFLIMIT <= job.N()
    modifies tables, tables.hashTable, tables.chainTable
    ensures SearchedTo(tables, job, ip)
    ensures found ==> Good(job, h) && low <= h.start <= ip && h.len > longest && ip + MINMATCH <= h.End()
    ensures Complete(job.g, job.Ask(ip, low, longest), job.maxNbAttempts, if found then h.len else longest)
  {
    hide Tables.IndexOk, Genuine, Complete;
    var g, q := job.g, job.Ask(ip, low, longest);
    var len, from, start := InsertAndGetWiderMatch(tables, g, job.beyond, q, job.maxNbAttempts);
    found := len > longest;
    h := if found then Hit(start - job.s, len, start - from) else Hit(0, 0, 0);
  }

  // ---------- The automaton behind the gotos ----------

  /** Where the parser is: at one of its labels, done with these matches, or out of room. */
  datatype Label = Search2 | Search3 | Written | Overflow

  /** The matches it holds: ML1, the original ML1 (ML0), and ML2. */
  datatype Group = Group(label_: Label, m0: Hit, m1: Hit, m2: Hit)

  /** At _Search2: one match, and one it may have displaced, which starts at most two bytes earlier. */
  ghost predicate Search2Ok(job: Job, low: nat, m0: Hit, m1: Hit)
    requires job.Ok()
  {
    && Good(job, m0) && Good(job, m1) && low <= m0.start <= m1.start <= m0.start + 2
    && (m0 != m1 ==> m0.End() + MFLIMIT <= job.N() && m1.len >= 5)
  }

  /** At _Search3: two matches that together leave room for both. */
  ghost predicate Search3Ok(job: Job, low: nat, m1: Hit, m2: Hit)
    requires job.Ok()
  {
    && Good(job, m1) && Good(job, m2) && low <= m1.start && m1.End() + MFLIMIT <= job.N()
    && m2.len >= 5 && m1.start + 8 <= m2.End() && m1.start + 2 <= m2.start <= m1.End() + 1
  }

  /** What holds at each label; no match at hand starts before low. */
  ghost predicate AtLabel(tables: Tables, job: Job, low: nat, st: Group)
    reads tables, tables.hashTable, tables.chainTable
  {
    && job.Ok()
    && match st.label_
       case Search2 => Search2Ok(job, low, st.m0, st.m1) && SearchedTo(tables, job, st.m1.End() - 2)
       case Search3 => Search3Ok(job, low, st.m1, st.m2) && SearchedTo(tables, job, st.m2.End() - 3)
       case Written => low <= job.N() && SearchedTo(tables, job, low)
       case Overflow => tables.IndexOk(job.g)
  }

  /** A match has been encoded behind anchor; or it has not, because even six more bytes would not fit. */
  predicate Advanced(op0: nat, op: nat, room: Room, anchor: nat, h: Hit, ok: bool)
    requires anchor <= h.start && h.len >= MINMATCH
  {
    if ok then op == op0 + SequenceSize(h.start - anchor, h.len)
    else op0 + SequenceSize(h.start - anchor, h.len) + (1 + LASTLITERALS) > room.olimit
  }

  /** Encodes one match, and says where that leads. */
  method Encode(dst: array<byte>, ghost d0: nat, op0: nat, room: Room, job: Job, anchor: nat, h: Hit, ghost ss: seq<Sequence>)
    returns (ok: bool, op: nat, ghost ss': seq<Sequence>)
    requires job.Ok() && Standing(dst, d0, op0, room, ss, job.g.whole, job.s, anchor) && !room.limit.FillOutput?
    requires Good(job, h) && anchor <= h.start
    modifies dst
    ensures forall i :: 0 <= i < dst.Length && !(d0 <= i < room.olimit) ==> dst[i] == old(dst[i])
    ensures ok ==> Standing(dst, d0, op, room, ss', job.g.whole, job.s, h.End()) && ss' == WithHit(ss, job.g.whole, job.s, anchor, h)
    ensures !ok ==> room.limit.LimitedOutput? && d0 + CompressBound(job.N()) > room.olimit
    ensures h.len >= MINMATCH && Advanced(op0, op, room, anchor, h, ok)
  {
    ok, op, ss' := EncodeSequence(dst, d0, op0, room, job.g.whole, job.s, anchor, h, ss);
  }

  /** The overlap of two matches goes to the first one, as far as it is worth it. */
  function Corrected(m1: Hit, m2: Hit): (r: Hit)
    requires m1.start <= m2.start && m2.len >= 4
    ensures r.End() == m2.End() && r.offset == m2.offset && m2.start <= r.start
  {
    if m2.start - m1.start < OPTIMAL_ML then
      var new_ml := if m1.len > OPTIMAL_ML then OPTIMAL_ML else m1.len;
      var new_ml' := if m1.start + new_ml > m2.End() - MINMATCH then m2.End() - MINMATCH - m1.start else new_ml;
      var correction := new_ml' - (m2.start - m1.start);
      if correction > 0 then m2.Later(correction) else m2
    else m2
  }

  lemma CorrectedOk(job: Job, anchor: nat, m1: Hit, m2: Hit)
    requires job.Ok() && Search3Ok(job, anchor, m1, m2)
    ensures var r := Corrected(m1, m2);
      && Good(job, r) && m1.start + 4 <= r.start <= m1.End() + 1 && (r.start > m1.End() ==> r == m2)
  {
    hide Genuine;
    var r := Corrected(m1, m2);
    if r != m2 { LaterOk(job.g.whole, job.s, m2, r.start - m2.start); }
  }

  /** The first of two overlapping matches keeps 18 bytes, or all it has if that is less, but always leaves 4 to the second. */
  lemma CorrectedStart(m1: Hit, m2: Hit)
    requires m1.start <= m2.start && m2.len >= 4
    ensures var want := m1.start + if m1.len > OPTIMAL_ML then OPTIMAL_ML else m1.len;
      var last := m2.End() - MINMATCH;
      Corrected(m1, m2).start == if want > m2.start then (if want > last then last else want) else m2.start
  {
  }

  /** The overlap has been dealt with once and for all. */
  lemma CorrectedOnce(m1: Hit, m2: Hit)
    requires m1.start <= m2.start && m2.len >= 4
    ensures Corrected(m1, m2).len >= 4 && Corrected(m1, Corrected(m1, m2)) == Corrected(m1, m2)
  {
  }

  // ---------- The parser as a state machine ----------

  /** What a search says. */
  datatype Answer = NoLonger | Longer(hit: Hit)

  /** The next state, and the matches that are written on the way. */
  datatype Move = Move(st: Group, hits: seq<Hit>)

  /** The part of m1 before m2. */
  function Cut(m1: Hit, m2: Hit): Hit {
    if m1.start <= m2.start < m1.End() then m1.(len := m2.start - m1.start) else m1
  }

  /** What is remembered of m2 behind m1; m3 instead, if that is too short. */
  function Behind(m1: Hit, m2: Hit, m3: Hit): Hit {
    if m2.start >= m1.End() then m2
    else if m2.End() < m1.End() + MINMATCH then m3
    else m2.Later(m1.End() - m2.start)
  }

  /** From _Search2, when the search around the end of ML1 says a. */
  function Move2(st: Group, a: Answer): Move {
    match a
    case NoLonger => Move(Group(Written, st.m0, st.m1, st.m1), [st.m1])
    case Longer(m2) =>
      var m1 := if st.m0.start < st.m1.start && m2.start < st.m1.start + st.m0.len then st.m0 else st.m1;
      if m2.start < m1.start + 3 then Move(Group(Search2, st.m0, m2, m2), []) else Move(Group(Search3, st.m0, m1, m2), [])
  }

  /** From _Search3, when the search around the end of ML2, the overlap with ML1 taken off, says a. */
  function Move3(st: Group, a: Answer): Move
    requires st.m1.start <= st.m2.start && st.m2.len >= 4
  {
    var m1, m2 := st.m1, Corrected(st.m1, st.m2);
    match a
    case NoLonger => Move(Group(Written, m1, m1, m2), [Cut(m1, m2), m2])
    case Longer(m3) =>
      if m3.start < m1.End() then Move(Group(Search3, m1, m1, m3), [])
      else if m3.start < m1.End() + 3 then Move(Group(Search2, Behind(m1, m2, m3), m3, m3), [m1])
      else Move(Group(Search3, m2, m2, m3), [Cut(m1, m2)])
  }

  /** Where the last of the matches ends. */
  function EndOf(anchor: nat, hits: seq<Hit>): nat {
    if hits == [] then anchor else hits[|hits| - 1].End()
  }

  /** The sequences ss, which end at anchor, and then those with the matches hits. */
  function WithHits(job: Job, ss: seq<Sequence>, anchor: nat, hits: seq<Hit>): seq<Sequence> {
    if hits == [] then ss
    else
      var h := hits[|hits| - 1];
      var rest := hits[..|hits| - 1];
      if EndOf(anchor, rest) <= h.start && job.s + h.start <= |job.g.whole| then
        WithHit(WithHits(job, ss, anchor, rest), job.g.whole, job.s, EndOf(anchor, rest), h)
      else ss
  }

  lemma OneHit(job: Job, ss: seq<Sequence>, anchor: nat, h: Hit)
    requires anchor <= h.start && job.s + h.start <= |job.g.whole|
    ensures WithHits(job, ss, anchor, [h]) == WithHit(ss, job.g.whole, job.s, anchor, h) && EndOf(anchor, [h]) == h.End()
  {
    assert [h][..0] == [];
  }

  lemma TwoHits(job: Job, ss: seq<Sequence>, anchor: nat, h: Hit, h': Hit)
    requires anchor <= h.start && h.End() <= h'.start && job.s + h'.start <= |job.g.whole|
    ensures var ss1 := WithHit(ss, job.g.whole, job.s, anchor, h);
      WithHits(job, ss, anchor, [h, h']) == WithHit(ss1, job.g.whole, job.s, h.End(), h')
  {
    assert [h, h'][..1] == [h];
    OneHit(job, ss, anchor, h);
  }

  /** What a step has done. */
  ghost predicate Moved(job: Job, ss0: seq<Sequence>, anchor0: nat, mv: Move, st: Group, ss: seq<Sequence>, anchor: nat) {
    !st.label_.Overflow? ==> st == mv.st && anchor == EndOf(anchor0, mv.hits) && ss == WithHits(job, ss0, anchor0, mv.hits)
  }

  /** What a step leaves in the output. */
  ghost predicate Stands(dst: array<byte>, d0: nat, op: nat, room: Room, ss: seq<Sequence>, job: Job, anchor: nat, label_: Label)
    reads dst
  {
    job.Ok() &&
    if label_.Overflow? then room.limit.LimitedOutput? && d0 + CompressBound(job.N()) > room.olimit
    else Standing(dst, d0, op, room, ss, job.g.whole, job.s, anchor)
  }

  /** One step gets closer to the end of the block: more has been encoded, or the matches at hand reach further. */
  ghost predicate Closer(job: Job, anchor0: nat, st0: Group, anchor: nat, st: Group) {
    || st.label_.Overflow?
    || anchor > anchor0
    || (anchor == anchor0 && st0.label_.Search2? && (st.label_.Search3? || (st.label_.Search2? && st.m1.End() > st0.m1.End())))
    || (anchor == anchor0 && st0.label_.Search3? && st.label_.Search3? && st.m2.End() > st0.m2.End())
  }

  /** a is the result of the search at ip, not further back than low, for more than longest bytes. */
  ghost predicate AnswerTo(job: Job, ip: int, low: nat, longest: nat, a: Answer)
    requires job.Ok()
  {
    && 0 <= ip && ip + MFLIMIT <= job.N() && low <= ip < low + longest && low + longest + LASTLITERALS <= job.N()
    && Complete(job.g, job.Ask(ip, low, longest), job.maxNbAttempts, if a.Longer? then a.hit.len else longest)
    && (a.Longer? ==> Good(job, a.hit) && low <= a.hit.start <= ip && a.hit.len > longest)
  }

  /** a is the result of the search for a match wider than m, back bytes before its end; near the end of the block there is none. */
  ghost predicate WiderAnswer(job: Job, m: Hit, back: nat, a: Answer)
    requires job.Ok()
  {
    if m.End() + MFLIMIT > job.N() then a.NoLonger? else AnswerTo(job, m.End() - back, m.start, m.len, a)
  }

  /** _Search2: looks for a longer match around the end of ML1. */
  method AtSearch2(dst: array<byte>, ghost d0: nat, op0: nat, room: Room, tables: Tables, job: Job, anchor0: nat, ghost low0: nat,
                   st0: Group,
                   ghost ss0: seq<Sequence>)
    returns (st: Group, op: nat, anchor: nat, ghost low: nat, ghost ss: seq<Sequence>, ghost a: Answer)
    requires st0.label_.Search2? && anchor0 <= low0 && AtLabel(tables, job, low0, st0) && !room.limit.FillOutput?
    requires Stands(dst, d0, op0, room, ss0, job, anchor0, Search2)
    modifies dst, tables, tables.hashTable, tables.chainTable
    ensures forall i :: 0 <= i < dst.Length && !(d0 <= i < room.olimit) ==> dst[i] == old(dst[i])
    ensures AtLabel(tables, job, low, st) && Stands(dst, d0, op, room, ss, job, anchor, st.label_)
    ensures Closer(job, anchor0, st0, anchor, st)
    ensures if anchor == anchor0 then low == low0 else low == anchor > low0
    ensures st0.m1.End() + MFLIMIT > job.N() ==>
      && !st.label_.Search2? && !st.label_.Search3? && anchor == st0.m1.End() && st0.m1.len >= MINMATCH
      && Advanced(op0, op, room, anchor0, st0.m1, st.label_.Written?)
    ensures WiderAnswer(job, st0.m1, 2, a) && Moved(job, ss0, anchor0, Move2(st0, a), st, ss, anchor)
  {
    hide Genuine, Tables.IndexOk, Standing, HitOk, Advanced, Complete;
    op, anchor, low, ss := op0, anchor0, low0, ss0;
    var m0, m1, found, m2 := st0.m0, st0.m1, false, st0.m1;
    HitBounds(job, m1);
    OneHit(job, ss0, anchor, m1);
    if m1.End() + MFLIMIT <= job.N() {
      found, m2 := FindWider(tables, job, m1.End() - 2, m1.start, m1.len);
    }
    a := if found then Longer(m2) else NoLonger;
    if !found {
      var ok;
      ok, op, ss := Encode(dst, d0, op0, room, job, anchor, m1, ss0);
      return Group(if ok then Written else Overflow, m0, m1, m1), op, m1.End(), m1.End(), ss, a;
    }
    if m0.start < m1.start && m2.start < m1.start + m0.len {
      m1 := m0;  // squeezing ML1 between ML0 and ML2
    }
    HitBounds(job, m0);
    HitBounds(job, m2);
    if m2.start - m1.start < 3 {
      return Group(Search2, m0, m2, m2), op, anchor, low, ss, a;
    }
    return Group(Search3, m0, m1, m2), op, anchor, low, ss, a;
  }

  lemma HitBounds(job: Job, h: Hit)
    requires job.Ok() && Good(job, h)
    ensures h.len >= MINMATCH && h.start + MFLIMIT <= job.N() && h.End() + LASTLITERALS <= job.N()
  {
  }

  /** ML1 and ML2 are all there is: ML1 ends where ML2 starts, if not before. */
  method EncodeBoth(dst: array<byte>, ghost d0: nat, op0: nat, room: Room, job: Job, anchor0: nat, m1: Hit, m2: Hit,
                    ghost ss0: seq<Sequence>)
    returns (ok: bool, op: nat, ghost ss: seq<Sequence>)
    requires job.Ok() && Stands(dst, d0, op0, room, ss0, job, anchor0, Search3) && !room.limit.FillOutput?
    requires Good(job, m1) && Good(job, m2) && anchor0 <= m1.start && m1.start + 4 <= m2.start
    modifies dst
    ensures forall i :: 0 <= i < dst.Length && !(d0 <= i < room.olimit) ==> dst[i] == old(dst[i])
    ensures Stands(dst, d0, op, room, ss, job, m2.End(), if ok then Written else Overflow)
    ensures ok ==> ss == WithHits(job, ss0, anchor0, [Cut(m1, m2), m2])
  {
    hide Genuine, Standing, HitOk;
    HitBounds(job, m1);
    var ml := if m2.start < m1.End() then m2.start - m1.start else m1.len;
    ShorterOk(job.g.whole, job.s, m1, ml);
    ok, op, ss := Encode(dst, d0, op0, room, job, anchor0, m1.(len := ml), ss0);
    if ok {
      HitBounds(job, m2);
      TwoHits(job, ss0, anchor0, Cut(m1, m2), m2);
      ok, op, ss := Encode(dst, d0, op, room, job, m1.start + ml, m2, ss);
    }
  }

  /** ML3 starts where ML1 ends, or hardly later: ML1 is written, ML2 only remembered, and ML3 becomes ML1. */
  method DropSecond(dst: array<byte>, ghost d0: nat, op0: nat, room: Room, job: Job, anchor0: nat, m1: Hit, m2: Hit, m3: Hit,
                    ghost ss0: seq<Sequence>)
    returns (st: Group, op: nat, ghost ss: seq<Sequence>)
    requires job.Ok() && Stands(dst, d0, op0, room, ss0, job, anchor0, Search3) && !room.limit.FillOutput?
    requires Good(job, m1) && Good(job, m2) && Good(job, m3) && anchor0 <= m1.start <= m2.start <= m3.start
    requires m1.End() <= m3.start < m1.End() + 3 && m3.len >= 5 && m2.End() + MFLIMIT <= job.N() && m1.End() + MFLIMIT <= job.N()
    modifies dst
    ensures forall i :: 0 <= i < dst.Length && !(d0 <= i < room.olimit) ==> dst[i] == old(dst[i])
    ensures Stands(dst, d0, op, room, ss, job, m1.End(), st.label_)
    ensures st.label_.Overflow? || (st.label_.Search2? && st.m1 == m3 && Search2Ok(job, m1.End(), st.m0, st.m1))
    ensures Moved(job, ss0, anchor0, Move(Group(Search2, Behind(m1, m2, m3), m3, m3), [m1]), st, ss, m1.End())
  {
    hide Genuine, Standing, HitOk;
    HitBounds(job, m1);
    OneHit(job, ss0, anchor0, m1);
    var m0 := m2;
    if m2.start < m1.End() {
      var correction := m1.End() - m2.start;
      if m2.len < correction + MINMATCH {
        m0 := m3;
      } else {
        LaterOk(job.g.whole, job.s, m2, correction);
        m0 := m2.Later(correction);
      }
    }
    var ok;
    ok, op, ss := Encode(dst, d0, op0, room, job, anchor0, m1, ss0);
    return Group(if ok then Search2 else Overflow, m0, m3, m3), op, ss;
  }

  /** Three ascending matches: the first one is written. */
  method EncodeFirst(dst: array<byte>, ghost d0: nat, op0: nat, room: Room, job: Job, anchor0: nat, m1: Hit, m2: Hit, m3: Hit,
                     ghost ss0: seq<Sequence>)
    returns (st: Group, op: nat, anchor: nat, ghost ss: seq<Sequence>)
    requires job.Ok() && Stands(dst, d0, op0, room, ss0, job, anchor0, Search3) && !room.limit.FillOutput?
    requires Good(job, m1) && Good(job, m2) && Good(job, m3) && anchor0 <= m1.start && m1.start + 4 <= m2.start <= m1.End() + 1
    requires m1.End() + 3 <= m3.start <= m2.End() - 3 && m3.len >= 5 && (m2.start > m1.End() ==> m3.len >= 6)
    requires m2.End() + MFLIMIT <= job.N() && m1.End() + MFLIMIT <= job.N()
    modifies dst
    ensures forall i :: 0 <= i < dst.Length && !(d0 <= i < room.olimit) ==> dst[i] == old(dst[i])
    ensures Stands(dst, d0, op, room, ss, job, anchor, st.label_) && anchor > m1.start
    ensures var r := Corrected(m1, m2);
      Moved(job, ss0, anchor0, Move(Group(Search3, r, r, m3), [Cut(m1, r)]), st, ss, anchor)
    ensures st.label_.Overflow? || (st.label_.Search3? && anchor > m1.start && st.m2 == m3 && Search3Ok(job, anchor, st.m1, st.m2))
  {
    hide Genuine, Standing, HitOk;
    HitBounds(job, m1);
    HitBounds(job, m2);
    var ml, m2' := m1.len, m2;
    if m2.start < m1.End() {
      if m2.start - m1.start < OPTIMAL_ML {
        if ml > OPTIMAL_ML { ml := OPTIMAL_ML; }
        if m1.start + ml > m2.End() - MINMATCH { ml := m2.End() - MINMATCH - m1.start; }
        var correction := ml - (m2.start - m1.start);
        if correction > 0 {
          LaterOk(job.g.whole, job.s, m2, correction);
          m2' := m2.Later(correction);
        }
      } else {
        ml := m2.start - m1.start;
      }
    }
    ShorterOk(job.g.whole, job.s, m1, ml);
    OneHit(job, ss0, anchor0, m1.(len := ml));
    var ok;
    ok, op, ss := Encode(dst, d0, op0, room, job, anchor0, m1.(len := ml), ss0);
    anchor := m1.start + ml;
    return Group(if ok then Search3 else Overflow, m2', m2', m3), op, anchor, ss;
  }

  lemma MovedEnds(job: Job, ss: seq<Sequence>, anchor: nat, m1: Hit, m2: Hit)
    ensures EndOf(anchor, [Cut(m1, m2), m2]) == m2.End() && EndOf(anchor, []) == anchor && EndOf(anchor, [m1]) == m1.End()
    ensures WithHits(job, ss, anchor, []) == ss
  {
  }

  /** _Search3: looks for a longer match around the end of ML2. */
  method AtSearch3(dst: array<byte>, ghost d0: nat, op0: nat, room: Room, tables: Tables, job: Job, anchor0: nat, ghost low0: nat,
                   st0: Group,
                   ghost ss0: seq<Sequence>)
    returns (st: Group, op: nat, anchor: nat, ghost low: nat, ghost ss: seq<Sequence>, ghost a: Answer)
    requires st0.label_.Search3? && anchor0 <= low0 && AtLabel(tables, job, low0, st0) && !room.limit.FillOutput?
    requires Stands(dst, d0, op0, room, ss0, job, anchor0, Search3)
    modifies dst, tables, tables.hashTable, tables.chainTable
    ensures forall i :: 0 <= i < dst.Length && !(d0 <= i < room.olimit) ==> dst[i] == old(dst[i])
    ensures AtLabel(tables, job, low, st) && Stands(dst, d0, op, room, ss, job, anchor, st.label_)
    ensures Closer(job, anchor0, st0, anchor, st)
    ensures if anchor == anchor0 then low == low0 else low == anchor > low0
    ensures WiderAnswer(job, Corrected(st0.m1, st0.m2), 3, a) && Moved(job, ss0, anchor0, Move3(st0, a), st, ss, anchor)
  {
    hide Genuine, Tables.IndexOk, Standing, HitOk, Corrected, Complete, Cut, Behind, WithHits, EndOf;
    op, anchor, low, ss := op0, anchor0, low0, ss0;
    var m1, m2, found, m3 := st0.m1, Corrected(st0.m1, st0.m2), false, st0.m2;
    CorrectedOk(job, low, m1, st0.m2);
    CorrectedOnce(m1, st0.m2);
    MovedEnds(job, ss0, anchor0, m1, m2);
    HitBounds(job, m1);
    HitBounds(job, m2);
    if m2.End() + MFLIMIT <= job.N() {
      found, m3 := FindWider(tables, job, m2.End() - 3, m2.start, m2.len);
    }
    a := if found then Longer(m3) else NoLonger;
    if !found {
      var ok;
      ok, op, ss := EncodeBoth(dst, d0, op0, room, job, anchor, m1, m2, ss0);
      return Group(if ok then Written else Overflow, m1, m1, m2), op, m2.End(), m2.End(), ss, a;
    }
    if m3.start < m1.End() + 3 {
      if m3.start >= m1.End() {
        st, op, ss := DropSecond(dst, d0, op0, room, job, anchor, m1, m2, m3, ss0);
        return st, op, m1.End(), m1.End(), ss, a;
      }
      return Group(Search3, m1, m1, m3), op, anchor, low, ss, a;
    }
    st, op, anchor, ss := EncodeFirst(dst, d0, op0, room, job, anchor, m1, m2, m3, ss0);
    low := anchor;
  }

  // ---------- The whole parse ----------

  /** Where the parser is in the block: between groups of matches (Written), or in the middle of one. */
  datatype Here = Here(ip: nat, anchor: nat, ss: seq<Sequence>, st: Group)

  function Start(): Here {
    Here(0, 0, [], Group(Written, Hit(0, 0, 0), Hit(0, 0, 0), Hit(0, 0, 0)))
  }

  /** The next search says a. */
  function Next(job: Job, here: Here, a: Answer): Here {
    if here.st.label_.Written? then
      if a.NoLonger? then here.(ip := here.ip + 1) else here.(st := Group(Search2, a.hit, a.hit, a.hit))
    else if here.st.label_.Search2? then After(job, here, Move2(here.st, a))
    else if here.st.label_.Search3? && here.st.m1.start <= here.st.m2.start && here.st.m2.len >= 4 then
      After(job, here, Move3(here.st, a))
    else here
  }

  function After(job: Job, here: Here, mv: Move): Here {
    var anchor := EndOf(here.anchor, mv.hits);
    Here(if mv.st.label_.Written? then anchor else here.ip, anchor, WithHits(job, here.ss, here.anchor, mv.hits), mv.st)
  }

  /** What the next search is for, and that a is its result. */
  ghost predicate Answered(job: Job, here: Here, a: Answer)
    requires job.Ok()
  {
    match here.st.label_
    case Written => AnswerTo(job, here.ip, here.ip, MINMATCH - 1, a)
    case Search2 => WiderAnswer(job, here.st.m1, 2, a)
    case Search3 => here.st.m1.start <= here.st.m2.start && here.st.m2.len >= 4 && WiderAnswer(job, Corrected(here.st.m1, here.st.m2), 3, a)
    case Overflow => false
  }

  /** These answers, each the result of the search that it answers, lead here. */
  ghost predicate Leads(job: Job, answers: seq<Answer>, here: Here)
    requires job.Ok()
  {
    if answers == [] then here == Start()
    else
      var init, a := answers[..|answers| - 1], answers[|answers| - 1];
      exists before :: Leads(job, init, before) && Answered(job, before, a) && here == Next(job, before, a)
  }

  lemma LeadsOn(job: Job, answers: seq<Answer>, here: Here, a: Answer)
    requires job.Ok() && Leads(job, answers, here) && Answered(job, here, a)
    ensures Leads(job, answers + [a], Next(job, here, a))
  {
    hide Next, Answered;
    var all := answers + [a];
    assert all[..|all| - 1] == answers;
  }

  /** The rank of a state: steps decrease it. */
  ghost function Ahead(job: Job, st: Group): int
    requires job.Ok()
  {
    if st.label_.Search2? then job.N() - st.m1.End() else if st.label_.Search3? then job.N() - st.m2.End() else 0
  }

  lemma AheadIsNat(tables: Tables, job: Job, low: nat, st: Group)
    requires AtLabel(tables, job, low, st)
    ensures Ahead(job, st) >= 0 && (!st.label_.Overflow? ==> low <= job.N())
  {
    hide Genuine, Tables.IndexOk;
  }

  /** One search and one move inside a group of matches. */
  method GroupStep(dst: array<byte>, ghost d0: nat, op0: nat, room: Room, tables: Tables, job: Job, anchor0: nat, ghost low0: nat,
                   st0: Group, ghost ip: nat, ghost ss0: seq<Sequence>, ghost answers0: seq<Answer>)
    returns (st: Group, op: nat, anchor: nat, ghost low: nat, ghost ss: seq<Sequence>, ghost answers: seq<Answer>)
    requires (st0.label_.Search2? || st0.label_.Search3?) && anchor0 <= low0 && AtLabel(tables, job, low0, st0) && !room.limit.FillOutput?
    requires Stands(dst, d0, op0, room, ss0, job, anchor0, st0.label_) && Leads(job, answers0, Here(ip, anchor0, ss0, st0))
    modifies dst, tables, tables.hashTable, tables.chainTable
    ensures forall i :: 0 <= i < dst.Length && !(d0 <= i < room.olimit) ==> dst[i] == old(dst[i])
    ensures AtLabel(tables, job, low, st) && Stands(dst, d0, op, room, ss, job, anchor, st.label_)
    ensures Closer(job, anchor0, st0, anchor, st)
    ensures if anchor == anchor0 then low == low0 else low == anchor > low0
    ensures st0.label_.Search2? && st0.m1.End() + MFLIMIT > job.N() ==>
      && !st.label_.Search2? && !st.label_.Search3? && anchor == st0.m1.End() && st0.m1.len >= MINMATCH
      && Advanced(op0, op, room, anchor0, st0.m1, st.label_.Written?)
    ensures !st.label_.Overflow? ==> Leads(job, answers, Here(if st.label_.Written? then anchor else ip, anchor, ss, st))
  {
    hide Genuine, Tables.IndexOk, Standing, HitOk, Advanced, Move2, Move3, WiderAnswer, Leads, WithHits, EndOf, Corrected;
    ghost var here, a := Here(ip, anchor0, ss0, st0), NoLonger;
    if st0.label_.Search2? {
      st, op, anchor, low, ss, a := AtSearch2(dst, d0, op0, room, tables, job, anchor0, low0, st0, ss0);
    } else {
      HitBounds(job, st0.m2);
      st, op, anchor, low, ss, a := AtSearch3(dst, d0, op0, room, tables, job, anchor0, low0, st0, ss0);
    }
    LeadsOn(job, answers0, here, a);
    answers := answers0 + [a];
  }

  /** From the first match at ip on, until everything at hand is written. */
  method EncodeGroup(dst: array<byte>, ghost d0: nat, op0: nat, room: Room, tables: Tables, job: Job, anchor0: nat, first: Hit,
                     ghost ip: nat, ghost ss0: seq<Sequence>, ghost answers0: seq<Answer>)
    returns (ok: bool, op: nat, anchor: nat, ghost ss: seq<Sequence>, ghost answers: seq<Answer>, ghost st: Group)
    requires job.Ok() && Good(job, first) && anchor0 <= first.start && SearchedTo(tables, job, first.start)
    requires Stands(dst, d0, op0, room, ss0, job, anchor0, Written) && !room.limit.FillOutput?
    requires Leads(job, answers0, Here(ip, anchor0, ss0, Group(Search2, first, first, first)))
    modifies dst, tables, tables.hashTable, tables.chainTable
    ensures forall i :: 0 <= i < dst.Length && !(d0 <= i < room.olimit) ==> dst[i] == old(dst[i])
    ensures Stands(dst, d0, op, room, ss, job, anchor, if ok then Written else Overflow)
    ensures if ok then first.start < anchor <= job.N() && SearchedTo(tables, job, anchor) else tables.IndexOk(job.g)
    ensures first.End() + MFLIMIT > job.N() ==>
      && anchor == first.End() && first.len >= MINMATCH && Advanced(op0, op, room, anchor0, first, ok)
    ensures ok ==> st.label_.Written? && Leads(job, answers, Here(anchor, anchor, ss, st))
  {
    hide Genuine, Tables.IndexOk, Standing, HitOk, Advanced, Leads;
    HitBounds(job, first);
    op, anchor, ss, answers := op0, anchor0, ss0, answers0;
    var now := Group(Search2, first, first, first);
    ghost var low := first.start;
    st := now;
    while now.label_.Search2? || now.label_.Search3?
      invariant AtLabel(tables, job, low, now) && Stands(dst, d0, op, room, ss, job, anchor, now.label_) && !now.label_.Overflow?
      invariant anchor0 <= anchor && (if anchor == anchor0 then low == first.start else low == anchor > first.start)
      invariant now.label_.Written? ==> anchor0 < anchor
      invariant first.End() + MFLIMIT > job.N() ==>
        if now.label_.Written? then anchor == first.End() && Advanced(op0, op, room, anchor0, first, true)
        else now == Group(Search2, first, first, first) && op == op0 && anchor == anchor0
      invariant Leads(job, answers, Here(if now.label_.Written? then anchor else ip, anchor, ss, now))
      invariant forall i :: 0 <= i < dst.Length && !(d0 <= i < room.olimit) ==> dst[i] == old(dst[i])
      decreases job.N() - anchor, now.label_.Search2?, Ahead(job, now)
    {
      now, op, anchor, low, ss, answers := GroupStep(dst, d0, op, room, tables, job, anchor, low, now, ip, ss, answers);
      if now.label_.Overflow? { return false, op, anchor, ss, answers, now; }
      AheadIsNat(tables, job, low, now);
    }
    ok, st := true, now;
  }

  /** The block before anything has been written. */
  lemma NothingStands(dst: array<byte>, d0: nat, room: Room, whole: seq<byte>, s: nat)
    requires d0 <= room.olimit <= dst.Length && s <= |whole|
    requires room.limit.NotLimited? ==> d0 + CompressBound(|whole| - s) <= room.olimit
    ensures Standing(dst, d0, d0, room, [], whole, s, 0)
  {
    assert whole[..s] + whole[s..][..0] == whole[..s];
  }

  /** _last_literals. */
  method Finish(dst: array<byte>, d0: nat, op0: nat, room: Room, whole: seq<byte>, s: nat, anchor: nat, ghost ss: seq<Sequence>)
    returns (result: nat)
    requires Standing(dst, d0, op0, room, ss, whole, s, anchor) && !room.limit.FillOutput?
    modifies dst
    ensures forall i :: 0 <= i < dst.Length && !(d0 <= i < room.olimit) ==> dst[i] == old(dst[i])
    ensures result == 0 ==> room.limit.LimitedOutput? && d0 + CompressBound(|whole| - s) > room.olimit
    ensures var end := op0 + 1 + (|whole| - s - anchor) + (|whole| - s - anchor + 240) / 255;
      if result == 0 then end > room.olimit else d0 + result == end
    ensures result > 0 ==>
      && d0 + result <= room.olimit && result <= CompressBound(|whole| - s)
      && Represents(dst[d0..d0 + result], whole[..s], whole[s..])
      && s + anchor <= |whole| && (forall t :: t in ss ==> Encodable(t))
      && dst[d0..d0 + result] == EmitAll(ss) + EmitLast(whole[s + anchor..])
  {
    hide Emit, EmitAll, EmitLast, Expand, Applies, CopyMatch, Represents;
    var src := whole[s..];
    LastRoom(d0, op0, anchor, |src| - anchor, |src|);
    ghost var before := dst[d0..op0];
    var ok, op, lastRun := EncodeLastLiterals(dst, op0, room, src, anchor);
    if !ok { return 0; }
    assert dst[d0..op] == before + dst[op0..op];
    BlockDone(dst[d0..op], before, ss, whole[..s], src, anchor, lastRun);
    assert src[..anchor + lastRun] == src && src[anchor..anchor + lastRun] == whole[s + anchor..];
    return op - d0;
  }

  // ---------- Bytes that are all equal ----------

  /** A block of equal bytes with nothing before it. */
  ghost predicate IsRun(job: Job)
    requires job.Ok()
  {
    job.s == 0 && job.g.D() == 0 && Uniform(job.g.whole) && job.N() >= LZ4_minLength && job.maxNbAttempts > 0
  }

  /** Before the match that covers all but the last five bytes, or behind it. */
  ghost predicate InRun(job: Job, d0: nat, op: nat, ip: nat, anchor: nat)
    requires job.Ok() && IsRun(job)
  {
    || (ip <= 1 && anchor == 0 && op == d0)
    || (ip == anchor == job.N() - LASTLITERALS && op == d0 + SequenceSize(1, job.N() - 6))
  }

  lemma NothingAtStart(job: Job, h: Hit)
    requires job.Ok() && IsRun(job) && Good(job, h)
    ensures h.start > 0
  {
  }

  /** The match at position 1 is as long as it can be. */
  lemma RunIsFound(job: Job, found: bool, h: Hit, q: Query)
    requires job.Ok() && IsRun(job) && (found ==> Good(job, h) && h.start == 1)
    requires q.Ok(job.g) && q.ip == q.iLow == 1 && q.iHigh == job.N() - LASTLITERALS && q.longest == MINMATCH - 1 && !q.favorDecSpeed
    requires Complete(job.g, q, job.maxNbAttempts, if found then h.len else MINMATCH - 1)
    ensures found && h.len == job.N() - 6
  {
    hide Complete, Genuine, Uniform;
    UniformFound(job.g, q, job.maxNbAttempts, if found then h.len else MINMATCH - 1);
  }

  /** The match is encoded if the block fits. */
  lemma RunEncoded(job: Job, d0: nat, op: nat, room: Room, h: Hit, ok: bool)
    requires job.Ok() && IsRun(job) && h.start == 1 && h.len == job.N() - 6 && Advanced(d0, op, room, 0, h, ok)
    ensures if ok then InRun(job, d0, op, h.End(), h.End()) else d0 + RunSize(job.N()) > room.olimit
  {
  }

  lemma RunStarts(job: Job, d0: nat)
    requires job.Ok()
    ensures IsRun(job) ==> job.N() >= LZ4_minLength && InRun(job, d0, d0, 0, 0)
  {
  }

  /** One round of the parser: nothing at position 0, the whole run at position 1. */
  lemma RunStep(job: Job, d0: nat, op0: nat, ip: nat, anchor0: nat, room: Room, found: bool, h: Hit, op: nat, ok: bool)
    requires job.Ok() && IsRun(job) && InRun(job, d0, op0, ip, anchor0) && ip + MFLIMIT <= job.N()
    requires found ==> Good(job, h) && h.start == ip && anchor0 <= ip && h.len >= MINMATCH
    requires Complete(job.g, job.Ask(ip, ip, MINMATCH - 1), job.maxNbAttempts, if found then h.len else MINMATCH - 1)
    requires found && h.End() + MFLIMIT > job.N() ==> Advanced(op0, op, room, anchor0, h, ok)
    ensures if !found then ok ==> InRun(job, d0, op0, ip + 1, anchor0)
            else if ok then InRun(job, d0, op, h.End(), h.End()) else d0 + RunSize(job.N()) > room.olimit
    ensures found ==> h.End() + MFLIMIT > job.N()
  {
    hide Complete, Genuine, Uniform, Advanced, RunSize;
    if ip == 0 {
      if found { NothingAtStart(job, h); }
    } else {
      RunIsFound(job, found, h, job.Ask(ip, ip, MINMATCH - 1));
      RunEncoded(job, d0, op, room, h, ok);
    }
  }

  lemma RunFinished(job: Job, d0: nat, op: nat, ip: nat, anchor: nat)
    requires job.Ok() && IsRun(job) && InRun(job, d0, op, ip, anchor) && ip + MFLIMIT > job.N()
    ensures anchor == job.N() - LASTLITERALS && op + 6 == d0 + RunSize(job.N())
  {
  }

  /** The block is what the parse comes to, each search answered in turn until no position is left to be searched. */
  ghost predicate Parsed(job: Job, answers: seq<Answer>, block: seq<byte>)
    requires job.Ok()
  {
    exists here :: Leads(job, answers, here) && here.st.label_.Written? && (here.ip + MFLIMIT > job.N() || job.N() < LZ4_minLength)
      && (job.N() < LZ4_minLength ==> answers == [])
      && here.anchor <= job.N() && (forall t :: t in here.ss ==> Encodable(t))
      && block == EmitAll(here.ss) + EmitLast(job.g.whole[job.s + here.anchor..])
  }

  lemma ParseDone(job: Job, answers: seq<Answer>, here: Here, block: seq<byte>)
    requires job.Ok() && Leads(job, answers, here) && here.st.label_.Written?
    requires if job.N() < LZ4_minLength then answers == [] else here.ip + MFLIMIT > job.N()
    requires here.anchor <= job.N() && (forall t :: t in here.ss ==> Encodable(t))
    requires block == EmitAll(here.ss) + EmitLast(job.g.whole[job.s + here.anchor..])
    ensures Parsed(job, answers, block)
  {
    hide Leads, EmitAll, EmitLast;
  }

  lemma NothingAsked(job: Job)
    requires job.Ok()
    ensures Leads(job, [], Start())
  {
  }

  /** The body of the main loop: a search, and the group of matches that begins with what it finds. */
  method HashChainRound(dst: array<byte>, ghost d0: nat, op0: nat, room: Room, tables: Tables, job: Job, ip0: nat, anchor0: nat,
                        ghost ss0: seq<Sequence>, ghost st0: Group, ghost answers0: seq<Answer>)
    returns (ok: bool, op: nat, ip: nat, anchor: nat, ghost ss: seq<Sequence>, ghost st: Group, ghost answers: seq<Answer>)
    requires SearchedTo(tables, job, ip0) && ip0 + MFLIMIT <= job.N() && anchor0 <= ip0 && !room.limit.FillOutput?
    requires Standing(dst, d0, op0, room, ss0, job.g.whole, job.s, anchor0)
    requires st0.label_.Written? && Leads(job, answers0, Here(ip0, anchor0, ss0, st0))
    modifies dst, tables, tables.hashTable, tables.chainTable
    ensures forall i :: 0 <= i < dst.Length && !(d0 <= i < room.olimit) ==> dst[i] == old(dst[i])
    ensures ok ==>
      && anchor <= ip && ip0 < ip && anchor <= job.N() && SearchedTo(tables, job, ip)
      && Standing(dst, d0, op, room, ss, job.g.whole, job.s, anchor)
      && st.label_.Written? && Leads(job, answers, Here(ip, anchor, ss, st))
    ensures !ok ==> tables.IndexOk(job.g) && room.limit.LimitedOutput? && d0 + CompressBound(job.N()) > room.olimit
    ensures IsRun(job) && InRun(job, d0, op0, ip0, anchor0) ==>
      if ok then InRun(job, d0, op, ip, anchor) else d0 + RunSize(job.N()) > room.olimit
  {
    hide Genuine, Tables.IndexOk, HitOk, Standing, Advanced, Complete, IsRun, InRun, RunSize, Good, Leads;
    op, ip, anchor, ss, st := op0, ip0, anchor0, ss0, st0;
    ghost var run := IsRun(job) && InRun(job, d0, op0, ip0, anchor0);
    var found, first := FindBest(tables, job, ip);
    LeadsOn(job, answers0, Here(ip, anchor, ss, st), if found then Longer(first) else NoLonger);
    answers := answers0 + [if found then Longer(first) else NoLonger];
    if found {
      HitBounds(job, first);
      ok, op, anchor, ss, answers, st := EncodeGroup(dst, d0, op, room, tables, job, anchor, first, ip, ss, answers);
      if run { RunStep(job, d0, op0, ip0, anchor0, room, found, first, op, ok); }
      ip := anchor;
    } else {
      if run { RunStep(job, d0, op0, ip0, anchor0, room, found, first, op, true); }
      ok, ip := true, ip + 1;
    }
  }

  /**
    LZ4HC_compress_hashChain. Whatever the tables lead to, the block decodes to the source and meets the end-of-block
    restrictions; it fails only if a worst-case block would not fit.
   */
  method CompressHashChain(dst: array<byte>, d0: nat, room: Room, tables: Tables, job: Job)
    returns (result: nat, ghost answers: seq<Answer>)
    requires SearchedTo(tables, job, 0) && d0 <= room.olimit <= dst.Length && !room.limit.FillOutput?
    requires room.limit.NotLimited? ==> d0 + CompressBound(job.N()) <= room.olimit
    modifies dst, tables, tables.hashTable, tables.chainTable
    ensures tables.IndexOk(job.g)
    ensures forall i :: 0 <= i < dst.Length && !(d0 <= i < room.olimit) ==> dst[i] == old(dst[i])
    ensures result == 0 ==> room.limit.LimitedOutput? && d0 + CompressBound(job.N()) > room.olimit
    ensures result > 0 ==>
      && d0 + result <= room.olimit && result <= CompressBound(job.N())
      && Represents(dst[d0..d0 + result], job.g.whole[..job.s], job.g.whole[job.s..])
    ensures IsRun(job) && d0 + RunSize(job.N()) <= room.olimit ==> result == RunSize(job.N())
    ensures result > 0 ==> Parsed(job, answers, dst[d0..d0 + result])
  {
    hide Genuine, Tables.IndexOk, HitOk, Describes, Represents, Compact, EndsWell, Advanced, Complete, IsRun, InRun, RunSize, Good,
         Leads, Parsed, EmitAll, EmitLast, Standing;
    RunStarts(job, d0);
    NothingStands(dst, d0, room, job.g.whole, job.s);
    var ip, anchor: nat, op: nat := 0, 0, d0;
    ghost var ss: seq<Sequence>, st := [], Start().st;
    answers := [];
    NothingAsked(job);
    if job.N() >= LZ4_minLength {
      while ip + MFLIMIT <= job.N()
        invariant st.label_.Written? && Leads(job, answers, Here(ip, anchor, ss, st))
        invariant anchor <= ip && anchor <= job.N() && SearchedTo(tables, job, ip)
        invariant Standing(dst, d0, op, room, ss, job.g.whole, job.s, anchor)
        invariant forall i :: 0 <= i < dst.Length && !(d0 <= i < room.olimit) ==> dst[i] == old(dst[i])
        invariant IsRun(job) ==> InRun(job, d0, op, ip, anchor)
        decreases job.N() - ip
      {
        var ok;
        ok, op, ip, anchor, ss, st, answers := HashChainRound(dst, d0, op, room, tables, job, ip, anchor, ss, st, answers);
        if !ok { return 0, answers; }
      }
      if IsRun(job) { RunFinished(job, d0, op, ip, anchor); }
    }
    result := Finish(dst, d0, op, room, job.g.whole, job.s, anchor, ss);
    if result > 0 { ParseDone(job, answers, Here(ip, anchor, ss, st), dst[d0..d0 + result]); }
  }
}
