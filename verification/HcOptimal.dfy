/** LZ4HC_compress_optimal: the dynamic-programming parser of levels 10 to 12. */
module HcOptimal {
  import opened BlockFormat
  import opened BlockSequences
  import opened BlockEncoder
  import opened HcIndex
  import opened HcSearch
  import opened HcEncoder
  import opened HcHashChain

  const LZ4_OPT_NUM := 4096
  const TRAILING_LITERALS := 3

  // ---------- Prices ----------

  /** LZ4HC_literalsPrice. */
  function LiteralsPrice(litlen: nat): nat {
    litlen + if litlen >= 15 then 1 + (litlen - 15) / 255 else 0
  }

  /** LZ4HC_sequencePrice. */
  function SequencePrice(litlen: nat, mlen: nat): nat {
    1 + 2 + LiteralsPrice(litlen) + if mlen >= 15 + MINMATCH then 1 + (mlen - (15 + MINMATCH)) / 255 else 0
  }

  lemma ExtPrice(n: nat)
    ensures |Ext(n)| == if n >= 15 then 1 + (n - 15) / 255 else 0
  {
    if n >= 15 { Ext255Bytes(n - 15); }
  }

  /** The price of a sequence is the number of bytes it is written with. */
  lemma PriceIsSize(seq_: Sequence)
    requires Encodable(seq_)
    ensures SequencePrice(|seq_.literals|, seq_.len) == |Emit(seq_)|
  {
    ExtPrice(|seq_.literals|);
    ExtPrice(seq_.len - MINMATCH);
  }

  /** So is the price of last literals, next to their token. */
  lemma LiteralsPriceIsSize(literals: seq<byte>)
    ensures 1 + LiteralsPrice(|literals|) == |EmitLast(literals)|
  {
    ExtPrice(|literals|);
  }

  // ---------- The table ----------

  /** LZ4HC_optimal_t: how a position is reached, by a literal (mlen is 1) or by a match that ends there. */
  datatype Opt = Opt(price: int, off: nat, mlen: nat, litlen: nat)

  /** A step of len bytes at position p: a literal or a match that may be encoded. */
  ghost predicate StepOk(job: Job, ip: nat, p: nat, len: nat, off: nat) {
    len == 1 || Good(job, Hit(ip + p, len, off))
  }

  ghost predicate EntryOk(job: Job, ip: nat, i: nat, e: Opt) {
    e.mlen == 1 || (1 <= e.mlen <= i && StepOk(job, ip, i - e.mlen, e.mlen, e.off))
  }

  /** All positions up to a little behind the last match are filled in. */
  ghost predicate TableOk(job: Job, ip: nat, opt: seq<Opt>, last: nat) {
    && job.Ok() && |opt| == LZ4_OPT_NUM + TRAILING_LITERALS && 1 <= last < LZ4_OPT_NUM
    && ip + last + LASTLITERALS <= job.N()
    && forall i :: 0 <= i <= last + TRAILING_LITERALS ==> EntryOk(job, ip, i, opt[i])
  }

  // ---------- What an entry costs ----------

  /** k more literals behind the position of e. */
  function LiteralCost(e: Opt, k: nat): int {
    e.price - LiteralsPrice(e.litlen) + LiteralsPrice(e.litlen + k)
  }

  /** How many literals come right before position cur. */
  function LiteralsAt(e: Opt): nat {
    if e.mlen == 1 then e.litlen else 0
  }

  /** A match of ml bytes at position cur, with the literals before it. */
  function MatchCost(t: seq<Opt>, cur: nat, ml: nat): int
    requires cur < |t|
  {
    var ll := LiteralsAt(t[cur]);
    (if t[cur].mlen != 1 then t[cur].price else if cur > ll then t[cur - ll].price else 0) + SequencePrice(ll, ml)
  }

  /**
    Behind a match, the literals before the match are counted again: the price is right if and only if the literals behind
    it, added to those, would need no further length byte.
   */
  lemma LiteralCostRight(e: Opt, k: nat)
    requires e.mlen > 1 && 1 <= k < MINMATCH
    ensures LiteralCost(e, k) == e.price + LiteralsPrice(k) <==> (e.litlen + k + 240) / 255 == (e.litlen + 240) / 255
  {
    LengthBytes(e.litlen);
    LengthBytes(e.litlen + k);
  }

  lemma LengthBytes(n: nat)
    ensures LiteralsPrice(n) == n + (n + 240) / 255
  {
  }

  /** What becomes of entry i when literals behind position cur are tried. */
  function WithLiterals(t: seq<Opt>, cur: nat, i: nat): (e: Opt)
    requires cur < |t| && i < |t|
    ensures e.price <= t[i].price
  {
    if cur < i < cur + MINMATCH && LiteralCost(t[cur], i - cur) < t[i].price then
      Opt(LiteralCost(t[cur], i - cur), 0, 1, t[cur].litlen + (i - cur))
    else t[i]
  }

  /** Entry i takes a match at cur: it is beyond what is filled in, or the match is no more expensive. */
  predicate Takes(t: seq<Opt>, cur: nat, last: nat, favorDecSpeed: bool, i: nat)
    requires cur < i < |t|
  {
    i > last + TRAILING_LITERALS || MatchCost(t, cur, i - cur) <= t[i].price - if favorDecSpeed then 1 else 0
  }

  /** What becomes of entry i when a match of len bytes at cur, and its beginnings, are tried. */
  function WithMatch(t: seq<Opt>, cur: nat, last: nat, len: nat, off: nat, favorDecSpeed: bool, i: nat): (e: Opt)
    requires cur < |t| && i < |t|
    ensures i <= last ==> e.price <= t[i].price
    ensures cur + MINMATCH <= i <= cur + len && i <= last ==> e.price <= MatchCost(t, cur, i - cur)
  {
    if cur + MINMATCH <= i <= cur + len && Takes(t, cur, last, favorDecSpeed, i) then
      Opt(MatchCost(t, cur, i - cur), off, i - cur, LiteralsAt(t[cur]))
    else t[i]
  }

  /** The literals behind the last match. */
  function Trailing(t: seq<Opt>, last: nat, i: nat): Opt
    requires last < |t| && i < |t|
  {
    if last < i <= last + TRAILING_LITERALS then Opt(t[last].price + LiteralsPrice(i - last), 0, 1, i - last) else t[i]
  }

  /** Where the table ends when a match of len bytes at cur has been tried. */
  function LastAfter(t: seq<Opt>, cur: nat, last: nat, len: nat, favorDecSpeed: bool): (r: nat)
    requires cur + len < |t|
    ensures r >= last && (r == last || r == cur + len)
  {
    if last < cur + len && len > 0 && Takes(t, cur, last, favorDecSpeed, cur + len) then cur + len else last
  }

  /** The table when literals behind cur have been tried. */
  ghost predicate LiteralsTried(t: seq<Opt>, cur: nat, t': seq<Opt>) {
    cur < |t| == |t'| && forall i :: 0 <= i < |t| ==> t'[i] == WithLiterals(t, cur, i)
  }

  /** The table when a match of len bytes at cur has been tried. */
  ghost predicate MatchTried(t: seq<Opt>, cur: nat, last: nat, len: nat, off: nat, favorDecSpeed: bool, t': seq<Opt>) {
    cur < |t| == |t'| && forall i :: 0 <= i < |t| ==> t'[i] == WithMatch(t, cur, last, len, off, favorDecSpeed, i)
  }

  /** The table with literals behind its last match. */
  ghost predicate Trailed(t: seq<Opt>, last: nat, t': seq<Opt>) {
    last < |t| == |t'| && forall i :: 0 <= i < |t| ==> t'[i] == Trailing(t, last, i)
  }

  /** Nothing that literals or a match of len bytes at cur lead to, up to reach, is cheaper than what the table has. */
  ghost predicate Relaxed(t: seq<Opt>, cur: nat, len: nat, reach: nat) {
    && cur < |t| && reach < |t|
    && (forall i :: cur + MINMATCH <= i <= cur + len && i <= reach ==> t[i].price <= MatchCost(t, cur, i - cur))
    && (forall i :: cur < i < cur + MINMATCH && i <= reach ==> t[i].price <= LiteralCost(t[cur], i - cur))
  }

  /** No position becomes more expensive, and none up to cur changes. */
  ghost predicate Cheaper(t: seq<Opt>, cur: nat, last: nat, t': seq<Opt>) {
    && cur < last < |t| == |t'|
    && (forall i :: 0 <= i <= cur ==> t'[i] == t[i])
    && (forall i :: 0 <= i <= last ==> t'[i].price <= t[i].price)
  }

  lemma LiteralsImprove(t: seq<Opt>, cur: nat, last: nat, t': seq<Opt>)
    requires LiteralsTried(t, cur, t') && cur < last < |t|
    ensures Cheaper(t, cur, last, t') && Relaxed(t', cur, 0, |t| - 1)
  {
    hide LiteralsPrice;
  }

  lemma MatchImproves(t: seq<Opt>, cur: nat, last: nat, len: nat, off: nat, favorDecSpeed: bool, t': seq<Opt>, last': nat)
    requires MatchTried(t, cur, last, len, off, favorDecSpeed, t') && cur < last < |t| && MINMATCH <= len && cur + len < |t|
    requires last' == LastAfter(t, cur, last, len, favorDecSpeed) && Relaxed(t, cur, 0, |t| - 1)
    ensures Cheaper(t, cur, last, t') && Relaxed(t', cur, len, last')
  {
    hide LiteralsPrice, SequencePrice;
  }

  lemma TrailingKeeps(t: seq<Opt>, cur: nat, last0: nat, last: nat, len: nat, t': seq<Opt>)
    requires Trailed(t, last, t') && cur < last0 <= last && Relaxed(t, cur, len, last)
    ensures Cheaper(t, cur, last0, t') && Relaxed(t', cur, len, last)
  {
    hide LiteralsPrice, SequencePrice;
  }

  // ---------- The path ----------

  /** Read forward from p, the table is a path of steps that ends at target. */
  ghost predicate Path(job: Job, ip: nat, opt: seq<Opt>, p: nat, target: nat)
    decreases target - p
  {
    p == target ||
    (p < target && p < |opt| && opt[p].mlen >= 1 && StepOk(job, ip, p, opt[p].mlen, opt[p].off)
     && Path(job, ip, opt, p + opt[p].mlen, target))
  }

  /** What lies before p does not matter. */
  lemma {:induction false} PathElsewhere(job: Job, ip: nat, opt: seq<Opt>, opt': seq<Opt>, p: nat, target: nat)
    requires Path(job, ip, opt, p, target) && |opt'| == |opt| && forall i :: p <= i < |opt| ==> opt'[i] == opt[i]
    ensures Path(job, ip, opt', p, target)
    decreases target - p
  {
    hide StepOk;
    if p < target { PathElsewhere(job, ip, opt, opt', p + opt[p].mlen, target); }
  }

  /** A literal (len is 1) or a match. */
  datatype Step = Step(len: nat, off: nat)

  /** The steps by which cur is reached, back to front through the table, and one more. */
  function StepsTo(t: seq<Opt>, cur: nat, len: nat, off: nat): (steps: seq<Step>)
    ensures |steps| > 0 && steps[|steps| - 1] == Step(len, off)
    decreases cur
  {
    if cur >= |t| || t[cur].mlen == 0 || t[cur].mlen > cur then [Step(len, off)]
    else StepsTo(t, cur - t[cur].mlen, t[cur].mlen, t[cur].off) + [Step(len, off)]
  }

  /** Read forward from p, the table holds these steps. */
  ghost predicate Reads(t: seq<Opt>, p: nat, steps: seq<Step>)
    decreases |steps|
  {
    steps == [] || (p < |t| && t[p].mlen == steps[0].len && t[p].off == steps[0].off && Reads(t, p + steps[0].len, steps[1..]))
  }

  lemma {:induction false} ReadsElsewhere(t: seq<Opt>, t': seq<Opt>, p: nat, steps: seq<Step>)
    requires Reads(t, p, steps) && |t'| == |t| && forall i :: p <= i < |t| ==> t'[i] == t[i]
    ensures Reads(t', p, steps)
    decreases |steps|
  {
    if steps != [] { ReadsElsewhere(t, t', p + steps[0].len, steps[1..]); }
  }

  lemma ReadsNext(t: seq<Opt>, p: nat, steps: seq<Step>)
    requires steps != [] && p < |t| && t[p].mlen == steps[0].len && t[p].off == steps[0].off && Reads(t, p + steps[0].len, steps[1..])
    ensures Reads(t, p, steps)
  {
  }

  lemma ReadsFirst(t: seq<Opt>, t': seq<Opt>, p: nat, len: nat, off: nat, steps: seq<Step>)
    requires p < |t| == |t'| && Reads(t, p + len, steps) && len >= 1
    requires t'[p].mlen == len && t'[p].off == off && forall i :: p < i < |t| ==> t'[i] == t[i]
    ensures Reads(t', p, [Step(len, off)] + steps)
  {
    hide Reads;
    ReadsElsewhere(t, t', p + len, steps);
    assert ([Step(len, off)] + steps)[1..] == steps;
    ReadsNext(t', p, [Step(len, off)] + steps);
  }

  lemma StepsStart(t0: seq<Opt>, cur: nat, len: nat, off: nat)
    ensures StepsLeft(t0, StepsTo(t0, cur, len, off), cur, len, off, []) && Reads(t0, cur + len, [])
  {
  }

  /** What is left of the steps to cur, once the last ones, done, are known. */
  ghost predicate StepsLeft(t0: seq<Opt>, all: seq<Step>, p: nat, len: nat, off: nat, done: seq<Step>) {
    StepsTo(t0, p, len, off) + done == all
  }

  lemma StepsLeftNext(t0: seq<Opt>, all: seq<Step>, p: nat, len: nat, off: nat, done: seq<Step>)
    requires StepsLeft(t0, all, p, len, off, done) && p < |t0| && t0[p].mlen >= 1
    ensures if t0[p].mlen > p then [Step(len, off)] + done == all
            else StepsLeft(t0, all, p - t0[p].mlen, t0[p].mlen, t0[p].off, [Step(len, off)] + done)
  {
    if t0[p].mlen <= p {
      var before := StepsTo(t0, p - t0[p].mlen, t0[p].mlen, t0[p].off);
      assert before + [Step(len, off)] + done == before + ([Step(len, off)] + done);
    }
  }

  /** The reverse traversal: it turns the steps that lead to cur, and one more of best_mlen, into a path from 0. */
  method Reverse(job: Job, ip: nat, opt: array<Opt>, cur: nat, best_mlen: nat, best_off: nat)
    requires cur < opt.Length && best_mlen >= 1 && StepOk(job, ip, cur, best_mlen, best_off)
    requires forall i :: 0 <= i <= cur ==> EntryOk(job, ip, i, opt[i])
    modifies opt
    ensures Path(job, ip, opt[..], 0, cur + best_mlen)
    ensures Reads(opt[..], 0, StepsTo(old(opt[..]), cur, best_mlen, best_off))
  {
    hide Good, Reads, StepsTo, StepsLeft;
    ghost var t0, all, done := opt[..], StepsTo(opt[..], cur, best_mlen, best_off), [];
    StepsStart(t0, cur, best_mlen, best_off);
    var candidate_pos: nat, selected_matchLength: nat, selected_offset: nat := cur, best_mlen, best_off;
    ghost var target := cur + best_mlen;
    while true
      invariant candidate_pos <= cur && selected_matchLength >= 1
      invariant StepOk(job, ip, candidate_pos, selected_matchLength, selected_offset)
      invariant candidate_pos + selected_matchLength <= target
      invariant Path(job, ip, opt[..], candidate_pos + selected_matchLength, target)
      invariant forall i :: 0 <= i <= candidate_pos ==> EntryOk(job, ip, i, opt[i]) && opt[i] == t0[i]
      invariant StepsLeft(t0, all, candidate_pos, selected_matchLength, selected_offset, done)
      invariant Reads(opt[..], candidate_pos + selected_matchLength, done)
      decreases candidate_pos
    {
      var next_matchLength, next_offset := opt[candidate_pos].mlen, opt[candidate_pos].off;
      ghost var before := opt[..];
      assert EntryOk(job, ip, candidate_pos, opt[candidate_pos]);
      opt[candidate_pos] := opt[candidate_pos].(mlen := selected_matchLength, off := selected_offset);
      PathElsewhere(job, ip, before, opt[..], candidate_pos + selected_matchLength, target);
      assert Path(job, ip, opt[..], candidate_pos, target);
      ReadsFirst(before, opt[..], candidate_pos, selected_matchLength, selected_offset, done);
      StepsLeftNext(t0, all, candidate_pos, selected_matchLength, selected_offset, done);
      done := [Step(selected_matchLength, selected_offset)] + done;
      selected_matchLength, selected_offset := next_matchLength, next_offset;
      if next_matchLength > candidate_pos { break; }
      candidate_pos := candidate_pos - next_matchLength;
    }
  }

  // ---------- Filling the table ----------

  /** The search at position ip for more than minLen bytes. */
  function AskLonger(job: Job, ip: nat, minLen: nat, favorDecSpeed: bool): (q: Query)
    requires job.Ok() && ip + MFLIMIT <= job.N() && 1 <= minLen && ip + minLen + LASTLITERALS <= job.N()
    ensures q.Ok(job.g)
  {
    Query(job.s + ip, job.s + ip, |job.g.whole| - LASTLITERALS, minLen, true, true, favorDecSpeed)
  }

  /** LZ4HC_FindLongerMatch: a length of 0 if there is none. */
  method FindLonger(tables: Tables, job: Job, ip: nat, minLen: nat, favorDecSpeed: bool) returns (len: nat, off: nat)
    requires SearchedTo(tables, job, ip) && ip + MFLIMIT <= job.N() && 1 <= minLen && ip + minLen + LASTLITERALS <= job.N()
    modifies tables, tables.hashTable, tables.chainTable
    ensures SearchedTo(tables, job, ip) && (len > 0 ==> Good(job, Hit(ip, len, off)) && len >= MINMATCH)
    ensures !favorDecSpeed ==> Complete(job.g, AskLonger(job, ip, minLen, favorDecSpeed), job.maxNbAttempts, if len > 0 then len else minLen)
  {
    hide Tables.IndexOk, Genuine, Complete;
    var q := AskLonger(job, ip, minLen, favorDecSpeed);
    var from, start;
    len, from, start := InsertAndGetWiderMatch(tables, job.g, job.beyond, q, job.maxNbAttempts);
    if len <= minLen { return 0, 0; }
    off := start - from;
    if favorDecSpeed && 18 < len <= 36 {
      ShorterOk(job.g.whole, job.s, Hit(ip, len, off), 18);
      len := 18;
    }
  }

  /** Positions 0 to hi are filled in. */
  ghost predicate Filled(job: Job, ip: nat, opt: seq<Opt>, hi: int) {
    hi < |opt| && forall i :: 0 <= i <= hi ==> EntryOk(job, ip, i, opt[i])
  }

  method Put(opt: array<Opt>, i: nat, e: Opt, ghost job: Job, ghost ip: nat, ghost hi: int)
    requires i < opt.Length && i <= hi + 1 && EntryOk(job, ip, i, e) && Filled(job, ip, opt[..], hi)
    modifies opt
    ensures Filled(job, ip, opt[..], if i <= hi then hi else i)
    ensures opt[..] == old(opt[..])[i := e]
  {
    hide EntryOk;
    opt[i] := e;
  }

  lemma LiteralEntry(job: Job, ip: nat, i: nat, e: Opt)
    requires e.mlen == 1
    ensures EntryOk(job, ip, i, e)
  {
  }

  /** Complete the positions after the last match with literals. */
  method TrailLiterals(opt: array<Opt>, last: nat, ghost job: Job, ghost ip: nat, ghost hi: int)
    requires last + TRAILING_LITERALS < opt.Length && last <= hi <= last + TRAILING_LITERALS && Filled(job, ip, opt[..], hi)
    modifies opt
    ensures Filled(job, ip, opt[..], last + TRAILING_LITERALS)
    ensures Trailed(old(opt[..]), last, opt[..])
  {
    hide StepOk, EntryOk, LiteralsPrice;
    var addLit := 1;
    ghost var h, t := hi, opt[..];
    while addLit <= TRAILING_LITERALS
      invariant 1 <= addLit <= TRAILING_LITERALS + 1 && last + addLit - 1 <= h <= last + TRAILING_LITERALS
      invariant Filled(job, ip, opt[..], h)
      invariant forall i :: 0 <= i < opt.Length ==> opt[i] == if i < last + addLit then Trailing(t, last, i) else t[i]
    {
      LiteralEntry(job, ip, last + addLit, Opt(opt[last].price + LiteralsPrice(addLit), 0, 1, addLit));
      Put(opt, last + addLit, Opt(opt[last].price + LiteralsPrice(addLit), 0, 1, addLit), job, ip, h);
      if last + addLit > h { h := last + addLit; }
      addLit := addLit + 1;
    }
  }

  lemma StepShorter(job: Job, ip: nat, p: nat, len: nat, off: nat, ml: nat)
    requires Good(job, Hit(ip + p, len, off)) && MINMATCH <= ml <= len
    ensures EntryOk(job, ip, p + ml, Opt(0, off, ml, 0)) && Good(job, Hit(ip + p, ml, off))
  {
    ShorterOk(job.g.whole, job.s, Hit(ip + p, len, off), ml);
  }

  lemma EntryPrice(job: Job, ip: nat, i: nat, e: Opt, e': Opt)
    requires EntryOk(job, ip, i, e) && e'.mlen == e.mlen && e'.off == e.off
    ensures EntryOk(job, ip, i, e')
  {
  }

  /** What the table starts with: literals only, then the first match and its beginnings, then literals behind it. */
  function FirstEntry(llen: nat, len: nat, off: nat, i: nat): Opt {
    if i < MINMATCH then Opt(LiteralsPrice(llen + i), 0, 1, llen + i)
    else if i <= len then Opt(SequencePrice(llen, i), off, i, llen)
    else Opt(SequencePrice(llen, len) + LiteralsPrice(i - len), 0, 1, i - len)
  }

  /** The first positions, from literals and from the first match. */
  method StartTable(opt: array<Opt>, job: Job, ip: nat, llen: nat, len: nat, off: nat)
    requires job.Ok() && opt.Length == LZ4_OPT_NUM + TRAILING_LITERALS && len < LZ4_OPT_NUM && Good(job, Hit(ip, len, off))
    modifies opt
    ensures TableOk(job, ip, opt[..], len)
    ensures forall i :: 0 <= i <= len + TRAILING_LITERALS ==> opt[i] == FirstEntry(llen, len, off, i)
  {
    hide StepOk, Good, EntryOk, LiteralsPrice, SequencePrice;
    HitBounds(job, Hit(ip, len, off));
    var rPos := 0;
    while rPos < MINMATCH
      invariant rPos <= MINMATCH && Filled(job, ip, opt[..], rPos - 1)
      invariant forall i :: 0 <= i < rPos ==> opt[i] == FirstEntry(llen, len, off, i)
    {
      LiteralEntry(job, ip, rPos, Opt(LiteralsPrice(llen + rPos), 0, 1, llen + rPos));
      Put(opt, rPos, Opt(LiteralsPrice(llen + rPos), 0, 1, llen + rPos), job, ip, rPos - 1);
      rPos := rPos + 1;
    }
    var mlen := MINMATCH;
    while mlen <= len
      invariant MINMATCH <= mlen <= len + 1 && Filled(job, ip, opt[..], mlen - 1)
      invariant forall i :: 0 <= i < mlen ==> opt[i] == FirstEntry(llen, len, off, i)
    {
      StepShorter(job, ip, 0, len, off, mlen);
      EntryPrice(job, ip, mlen, Opt(0, off, mlen, 0), Opt(SequencePrice(llen, mlen), off, mlen, llen));
      Put(opt, mlen, Opt(SequencePrice(llen, mlen), off, mlen, llen), job, ip, mlen - 1);
      mlen := mlen + 1;
    }
    TrailLiterals(opt, len, job, ip, len);
  }

  /** Before a match at cur: literals, where they are cheaper. */
  method PriceLiterals(opt: array<Opt>, cur: nat, ghost job: Job, ghost ip: nat, ghost hi: int)
    requires cur + TRAILING_LITERALS <= hi && Filled(job, ip, opt[..], hi)
    modifies opt
    ensures Filled(job, ip, opt[..], hi)
    ensures LiteralsTried(old(opt[..]), cur, opt[..])
  {
    hide StepOk, EntryOk, LiteralsPrice;
    ghost var t := opt[..];
    var baseLitlen, litlen := opt[cur].litlen, 1;
    while litlen < MINMATCH
      invariant 1 <= litlen <= MINMATCH && Filled(job, ip, opt[..], hi)
      invariant forall i :: 0 <= i < opt.Length ==> opt[i] == if i < cur + litlen then WithLiterals(t, cur, i) else t[i]
    {
      var price := opt[cur].price - LiteralsPrice(baseLitlen) + LiteralsPrice(baseLitlen + litlen);
      var pos := cur + litlen;
      if price < opt[pos].price {
        LiteralEntry(job, ip, pos, Opt(price, 0, 1, baseLitlen + litlen));
        Put(opt, pos, Opt(price, 0, 1, baseLitlen + litlen), job, ip, hi);
      }
      litlen := litlen + 1;
    }
  }

  /** What is still to be read for the next length is as it was. */
  lemma NotYetTried(t: seq<Opt>, cur: nat, last: nat, ml: nat, off: nat, favorDecSpeed: bool, t': seq<Opt>)
    requires ml >= MINMATCH && cur + ml < |t| && MatchTried(t, cur, last, ml - 1, off, favorDecSpeed, t')
    ensures t'[cur] == t[cur] && t'[cur + ml] == t[cur + ml] && MatchCost(t', cur, ml) == MatchCost(t, cur, ml)
  {
    hide SequencePrice;
  }

  lemma NoneTried(t: seq<Opt>, cur: nat, last: nat, off: nat, favorDecSpeed: bool)
    requires cur < |t|
    ensures MatchTried(t, cur, last, MINMATCH - 1, off, favorDecSpeed, t)
  {
    hide SequencePrice;
  }

  lemma OneMoreTried(t: seq<Opt>, cur: nat, last: nat, ml: nat, off: nat, favorDecSpeed: bool, t1: seq<Opt>, t2: seq<Opt>)
    requires ml >= MINMATCH && cur + ml < |t| && MatchTried(t, cur, last, ml - 1, off, favorDecSpeed, t1)
    requires t2 == if Takes(t, cur, last, favorDecSpeed, cur + ml)
                   then t1[cur + ml := Opt(MatchCost(t, cur, ml), off, ml, LiteralsAt(t[cur]))] else t1
    ensures MatchTried(t, cur, last, ml, off, favorDecSpeed, t2)
  {
    hide SequencePrice, LiteralsPrice, MatchCost, Takes;
  }

  /** The prices of the positions that a match at cur reaches. */
  method PriceMatch(opt: array<Opt>, cur: nat, last0: nat, len: nat, off: nat, favorDecSpeed: bool, ghost job: Job, ghost ip: nat)
    returns (last: nat)
    requires Good(job, Hit(ip + cur, len, off)) && len >= MINMATCH && cur < last0 && cur + len < LZ4_OPT_NUM
    requires opt.Length == LZ4_OPT_NUM + TRAILING_LITERALS && last0 + TRAILING_LITERALS < opt.Length
    requires Filled(job, ip, opt[..], last0 + TRAILING_LITERALS)
    modifies opt
    ensures last == LastAfter(old(opt[..]), cur, last0, len, favorDecSpeed)
    ensures MatchTried(old(opt[..]), cur, last0, len, off, favorDecSpeed, opt[..])
    ensures exists hi :: last <= hi <= last + TRAILING_LITERALS && Filled(job, ip, opt[..], hi)
  {
    hide StepOk, Good, EntryOk, LiteralsPrice, SequencePrice, Filled, MatchTried, WithMatch;
    ghost var t := opt[..];
    last := last0;
    var ml := MINMATCH;
    ghost var hi: int := last0 + TRAILING_LITERALS;
    NoneTried(t, cur, last0, off, favorDecSpeed);
    while ml <= len
      invariant MINMATCH <= ml <= len + 1
      invariant hi >= last0 + TRAILING_LITERALS && cur + ml - 1 <= hi && (hi > last0 + TRAILING_LITERALS ==> hi == cur + ml - 1)
      invariant last >= last0 && (ml <= len ==> last == last0) && (last != last0 ==> last == cur + len)
      invariant ml > len && hi > last0 + TRAILING_LITERALS ==> last == cur + len
      invariant ml > len ==> last == LastAfter(t, cur, last0, len, favorDecSpeed)
      invariant Filled(job, ip, opt[..], hi) && MatchTried(t, cur, last0, ml - 1, off, favorDecSpeed, opt[..])
    {
      ghost var t1 := opt[..];
      NotYetTried(t, cur, last0, ml, off, favorDecSpeed, t1);
      var pos := cur + ml;
      var ll := if opt[cur].mlen == 1 then opt[cur].litlen else 0;
      var price := if opt[cur].mlen == 1 then (if cur > ll then opt[cur - ll].price else 0) + SequencePrice(ll, ml)
                   else opt[cur].price + SequencePrice(0, ml);
      if pos > last + TRAILING_LITERALS || price <= opt[pos].price - (if favorDecSpeed then 1 else 0) {
        if ml == len && last < pos { last := pos; }
        StepShorter(job, ip, cur, len, off, ml);
        EntryPrice(job, ip, pos, Opt(0, off, ml, 0), Opt(price, off, ml, ll));
        Put(opt, pos, Opt(price, off, ml, ll), job, ip, hi);
        if pos > hi { hi := pos; }
      }
      OneMoreTried(t, cur, last0, ml, off, favorDecSpeed, t1, opt[..]);
      ml := ml + 1;
    }
    assert last <= hi <= last + TRAILING_LITERALS;
  }

  // ---------- The parser ----------

  /** A match at cur enters the table. */
  method Consider(opt: array<Opt>, job: Job, ip: nat, cur: nat, last0: nat, len: nat, off: nat, favorDecSpeed: bool)
    returns (last: nat, ghost t1: seq<Opt>, ghost t2: seq<Opt>)
    requires opt.Length == LZ4_OPT_NUM + TRAILING_LITERALS && TableOk(job, ip, opt[..], last0) && cur < last0
    requires Good(job, Hit(ip + cur, len, off)) && cur + len < LZ4_OPT_NUM
    modifies opt
    ensures TableOk(job, ip, opt[..], last) && last >= last0
    ensures LiteralsTried(old(opt[..]), cur, t1) && MatchTried(t1, cur, last0, len, off, favorDecSpeed, t2) && Trailed(t2, last, opt[..])
    ensures last == LastAfter(t1, cur, last0, len, favorDecSpeed)
    ensures Cheaper(old(opt[..]), cur, last0, opt[..]) && Relaxed(opt[..], cur, len, last)
  {
    hide StepOk, Good, EntryOk, LiteralsTried, MatchTried, Trailed, LastAfter, Relaxed;
    HitBounds(job, Hit(ip + cur, len, off));
    ghost var t := opt[..];
    PriceLiterals(opt, cur, job, ip, last0 + TRAILING_LITERALS);
    t1 := opt[..];
    LiteralsImprove(t, cur, last0, t1);
    last := PriceMatch(opt, cur, last0, len, off, favorDecSpeed, job, ip);
    t2 := opt[..];
    MatchImproves(t1, cur, last0, len, off, favorDecSpeed, t2, last);
    ghost var hi :| last <= hi <= last + TRAILING_LITERALS && Filled(job, ip, opt[..], hi);
    TrailLiterals(opt, last, job, ip, hi);
    TrailingKeeps(t2, cur, last0, last, len, opt[..]);
  }

  /** Where the last step of the path starts, and that step. */
  ghost predicate PathEnd(job: Job, ip: nat, opt: seq<Opt>, last: nat, cur: nat, best_mlen: nat, best_off: nat) {
    && cur < |opt| && 1 <= last <= cur + best_mlen && best_mlen >= 1
    && StepOk(job, ip, cur, best_mlen, best_off)
    && forall i :: 0 <= i <= cur ==> EntryOk(job, ip, i, opt[i])
  }

  lemma LastEntry(job: Job, ip: nat, opt: seq<Opt>, last: nat)
    requires TableOk(job, ip, opt, last)
    ensures 1 <= opt[last].mlen <= last && PathEnd(job, ip, opt, last, last - opt[last].mlen, opt[last].mlen, opt[last].off)
  {
    hide Good;
    assert EntryOk(job, ip, last, opt[last]);
  }

  /** Nothing is searched for at cur if the next position is not more expensive. */
  predicate SkipSearch(opt: seq<Opt>, cur: nat, fullUpdate: bool)
    requires cur + MINMATCH < |opt|
  {
    && opt[cur + 1].price <= opt[cur].price
    && (fullUpdate ==> opt[cur + MINMATCH].price < opt[cur].price + 3)
  }

  /** What has been done at a position: a search for more than asked bytes (none if asked is 0), and what it has found. */
  datatype Try = Try(asked: nat, len: nat, reach: nat)

  /**
    Position c has been dealt with: either the next position is not more expensive, or the search there has found a match
    of y.len bytes (none if that is 0), and the table has nothing more expensive than what that match offers.
   */
  ghost predicate Tried(job: Job, ip: nat, t: seq<Opt>, c: nat, y: Try, fullUpdate: bool, favorDecSpeed: bool)
    requires job.Ok()
  {
    && c + MINMATCH < |t| && ip + c + MFLIMIT <= job.N()
    && if y.asked == 0 then t[c + 1].price <= t[c].price
       else
         && (fullUpdate ==> y.asked == MINMATCH - 1) && ip + c + y.asked + LASTLITERALS <= job.N()
         && (!favorDecSpeed ==>
               Complete(job.g, AskLonger(job, ip + c, y.asked, favorDecSpeed), job.maxNbAttempts, if y.len > 0 then y.len else y.asked))
         && (y.len > 0 ==> Relaxed(t, c, y.len, y.reach))
  }

  /** All positions from 1 on, before |seen|, have been dealt with. */
  ghost predicate Explored(job: Job, ip: nat, t: seq<Opt>, last: nat, seen: seq<Try>, fullUpdate: bool, favorDecSpeed: bool)
    requires job.Ok()
  {
    |seen| >= 1 && forall c :: 1 <= c < |seen| ==> seen[c].reach <= last && Tried(job, ip, t, c, seen[c], fullUpdate, favorDecSpeed)
  }

  lemma RelaxedStill(t: seq<Opt>, cur: nat, last: nat, t': seq<Opt>, c: nat, len: nat, reach: nat)
    requires Cheaper(t, cur, last, t') && c < cur && reach <= last && Relaxed(t, c, len, reach)
    ensures Relaxed(t', c, len, reach)
  {
    hide LiteralsPrice, SequencePrice;
  }

  /** What has been dealt with stays so when a later position is. */
  lemma ExploredStill(job: Job, ip: nat, t: seq<Opt>, last: nat, seen: seq<Try>, fullUpdate: bool, favorDecSpeed: bool,
                      t': seq<Opt>, last': nat)
    requires job.Ok() && Explored(job, ip, t, last, seen, fullUpdate, favorDecSpeed) && Cheaper(t, |seen|, last, t') && last <= last'
    ensures Explored(job, ip, t', last', seen, fullUpdate, favorDecSpeed)
  {
    hide Complete, Relaxed;
    forall c | 1 <= c < |seen| ensures seen[c].reach <= last' && Tried(job, ip, t', c, seen[c], fullUpdate, favorDecSpeed) {
      assert Tried(job, ip, t, c, seen[c], fullUpdate, favorDecSpeed);
      if seen[c].asked > 0 && seen[c].len > 0 { RelaxedStill(t, |seen|, last, t', c, seen[c].len, seen[c].reach); }
    }
  }

  lemma ExploredOne(job: Job, ip: nat, t: seq<Opt>, last: nat, seen: seq<Try>, fullUpdate: bool, favorDecSpeed: bool, y: Try)
    requires job.Ok() && Explored(job, ip, t, last, seen, fullUpdate, favorDecSpeed)
    requires y.reach <= last && Tried(job, ip, t, |seen|, y, fullUpdate, favorDecSpeed)
    ensures Explored(job, ip, t, last, seen + [y], fullUpdate, favorDecSpeed)
  {
    hide Tried;
  }

  /** No position up to last has become more expensive. */
  ghost predicate NoDearer(t: seq<Opt>, last: nat, t': seq<Opt>) {
    last < |t| == |t'| && forall i :: 0 <= i <= last ==> t'[i].price <= t[i].price
  }

  lemma NoDearerStill(t0: seq<Opt>, last0: nat, t: seq<Opt>, cur: nat, last: nat, t': seq<Opt>)
    requires NoDearer(t0, last0, t) && Cheaper(t, cur, last, t') && last0 <= last
    ensures NoDearer(t0, last0, t')
  {
  }

  /** One position: a search there, and what it leads to; a match that is good enough is only reported. */
  method ExploreAt(opt: array<Opt>, tables: Tables, job: Job, ip: nat, cur: nat, last0: nat, sufficient_len: nat, fullUpdate: bool,
                   favorDecSpeed: bool, ghost seen0: seq<Try>, ghost t0: seq<Opt>, ghost first: nat)
    returns (enough: bool, last: nat, len: nat, off: nat, ghost seen: seq<Try>)
    requires opt.Length == LZ4_OPT_NUM + TRAILING_LITERALS && TableOk(job, ip, opt[..], last0) && SearchedTo(tables, job, ip + cur)
    requires 1 <= cur < last0 && ip + cur + MFLIMIT <= job.N() && !SkipSearch(opt[..], cur, fullUpdate)
    requires Explored(job, ip, opt[..], last0, seen0, fullUpdate, favorDecSpeed) && |seen0| == cur
    requires first <= last0 && NoDearer(t0, first, opt[..])
    modifies opt, tables, tables.hashTable, tables.chainTable
    ensures TableOk(job, ip, opt[..], last) && last >= last0 && SearchedTo(tables, job, ip + cur) && NoDearer(t0, first, opt[..])
    ensures enough ==> opt[..] == old(opt[..]) && Good(job, Hit(ip + cur, len, off)) && (len > sufficient_len || len + cur >= LZ4_OPT_NUM)
    ensures enough ==> seen == seen0
    ensures !enough ==> |seen| == cur + 1
    ensures Explored(job, ip, opt[..], last, seen, fullUpdate, favorDecSpeed)
  {
    hide StepOk, Good, EntryOk, Tables.IndexOk, Complete, Relaxed, Explored, Cheaper, NoDearer, LiteralsTried, MatchTried, Trailed,
         Explored;
    var asked := if fullUpdate then MINMATCH - 1 else last0 - cur;
    enough, last, seen := false, last0, seen0;
    len, off := FindLonger(tables, job, ip + cur, asked, favorDecSpeed);
    ghost var t := opt[..];
    if len > 0 {
      if len > sufficient_len || len + cur >= LZ4_OPT_NUM { return true, last, len, off, seen; }
      ghost var t1, t2;
      last, t1, t2 := Consider(opt, job, ip, cur, last0, len, off, favorDecSpeed);
      ExploredStill(job, ip, t, last0, seen, fullUpdate, favorDecSpeed, opt[..], last);
      NoDearerStill(t0, first, t, cur, last0, opt[..]);
    }
    ExploredOne(job, ip, opt[..], last, seen, fullUpdate, favorDecSpeed, Try(asked, len, last));
    seen := seen + [Try(asked, len, last)];
  }

  /** How the exploration ends: with the step that ends the table, or with a match that is good enough. */
  ghost predicate Ended(job: Job, ip: nat, t: seq<Opt>, last: nat, cur: nat, best_mlen: nat, best_off: nat, seen: seq<Try>,
                        sufficient_len: nat)
    requires job.Ok()
  {
    if cur + best_mlen == last then
      && last < |t| && t[last].mlen == best_mlen && t[last].off == best_off
      && (|seen| == last || ip + |seen| + MFLIMIT > job.N())
    else
      |seen| == cur && last == cur + 1 && (best_mlen > sufficient_len || best_mlen + cur >= LZ4_OPT_NUM)
  }

  /** Check further positions, until the table is complete or a match is good enough. */
  method Explore(opt: array<Opt>, tables: Tables, job: Job, ip: nat, last0: nat, sufficient_len: nat, fullUpdate: bool,
                 favorDecSpeed: bool)
    returns (last: nat, cur: nat, best_mlen: nat, best_off: nat, ghost seen: seq<Try>)
    requires opt.Length == LZ4_OPT_NUM + TRAILING_LITERALS && TableOk(job, ip, opt[..], last0) && SearchedTo(tables, job, ip)
    modifies opt, tables, tables.hashTable, tables.chainTable
    ensures PathEnd(job, ip, opt[..], last, cur, best_mlen, best_off) && SearchedTo(tables, job, ip + last)
    ensures exists reached :: Explored(job, ip, opt[..], reached, seen, fullUpdate, favorDecSpeed) && last0 <= reached
    ensures NoDearer(old(opt[..]), last0, opt[..]) && Ended(job, ip, opt[..], last, cur, best_mlen, best_off, seen, sufficient_len)
  {
    hide StepOk, Good, EntryOk, Tables.IndexOk, NoDearer, Explored, Tried;
    ghost var t0 := opt[..];
    last, cur, seen := last0, 1, [Try(0, 0, 0)];
    NothingTried(job, ip, t0, last, seen[0], fullUpdate, favorDecSpeed);
    while cur < last && ip + cur + MFLIMIT <= job.N()
      invariant 1 <= cur <= last && TableOk(job, ip, opt[..], last) && SearchedTo(tables, job, ip + cur - 1) && last0 <= last
      invariant |seen| == cur && Explored(job, ip, opt[..], last, seen, fullUpdate, favorDecSpeed) && NoDearer(t0, last0, opt[..])
      decreases LZ4_OPT_NUM - cur
    {
      if !SkipSearch(opt[..], cur, fullUpdate) {
        var enough, len, off;
        enough, last, len, off, seen := ExploreAt(opt, tables, job, ip, cur, last, sufficient_len, fullUpdate, favorDecSpeed, seen, t0, last0);
        if enough {
          StepIsGood(job, ip, cur, len, off);
          return cur + 1, cur, len, off, seen;
        }
      } else {
        Skipped(job, ip, opt[..], last, seen, fullUpdate, favorDecSpeed);
        seen := seen + [Try(0, 0, 0)];
      }
      cur := cur + 1;
    }
    LastEntry(job, ip, opt[..], last);
    best_mlen, best_off := opt[last].mlen, opt[last].off;
    cur := last - best_mlen;
  }

  lemma NothingTried(job: Job, ip: nat, t: seq<Opt>, last: nat, y: Try, fullUpdate: bool, favorDecSpeed: bool)
    requires job.Ok() && last < |t|
    ensures Explored(job, ip, t, last, [y], fullUpdate, favorDecSpeed) && NoDearer(t, last, t)
  {
  }

  lemma Skipped(job: Job, ip: nat, t: seq<Opt>, last: nat, seen: seq<Try>, fullUpdate: bool, favorDecSpeed: bool)
    requires job.Ok() && Explored(job, ip, t, last, seen, fullUpdate, favorDecSpeed) && |seen| + MINMATCH < |t|
    requires ip + |seen| + MFLIMIT <= job.N() && SkipSearch(t, |seen|, fullUpdate)
    ensures Explored(job, ip, t, last, seen + [Try(0, 0, 0)], fullUpdate, favorDecSpeed)
  {
    hide Explored;
    ExploredOne(job, ip, t, last, seen, fullUpdate, favorDecSpeed, Try(0, 0, 0));
  }

  lemma StepIsGood(job: Job, ip: nat, p: nat, len: nat, off: nat)
    requires job.Ok() && Good(job, Hit(ip + p, len, off))
    ensures StepOk(job, ip, p, len, off) && len >= MINMATCH
  {
    HitBounds(job, Hit(ip + p, len, off));
  }

  function Total(steps: seq<Step>): (n: nat)
    ensures steps != [] ==> n >= steps[|steps| - 1].len
  {
    if steps == [] then 0 else Total(steps[..|steps| - 1]) + steps[|steps| - 1].len
  }

  lemma {:induction false} TotalFirst(steps: seq<Step>)
    requires steps != []
    ensures Total(steps) == steps[0].len + Total(steps[1..])
    decreases |steps|
  {
    if |steps| > 1 {
      TotalFirst(steps[..|steps| - 1]);
      assert steps[..|steps| - 1][1..] == steps[1..][..|steps| - 2];
    }
  }

  lemma {:induction false} TotalOfSteps(t: seq<Opt>, cur: nat, len: nat, off: nat)
    requires forall i :: 0 <= i <= cur ==> i < |t| && (t[i].mlen == 1 || 1 <= t[i].mlen <= i)
    ensures Total(StepsTo(t, cur, len, off)) == cur + len
    decreases cur
  {
    if t[cur].mlen <= cur { TotalOfSteps(t, cur - t[cur].mlen, t[cur].mlen, t[cur].off); } else { assert [Step(len, off)][..0] == []; }
  }

  /** The sequences that the steps from ip on come to, and where the last match ends. */
  function Draw(job: Job, ss: seq<Sequence>, ip: nat, anchor: nat, steps: seq<Step>): (seq<Sequence>, nat)
    decreases |steps|
  {
    if steps == [] then (ss, anchor)
    else if steps[0].len == 1 then Draw(job, ss, ip + 1, anchor, steps[1..])
    else if anchor <= ip && job.s + ip <= |job.g.whole| then
      var h := Hit(ip, steps[0].len, steps[0].off);
      Draw(job, WithHit(ss, job.g.whole, job.s, anchor, h), h.End(), h.End(), steps[1..])
    else (ss, anchor)
  }

  /** Encode all recorded sequences in order. */
  method EncodePath(dst: array<byte>, ghost d0: nat, op0: nat, room: Room, job: Job, ip0: nat, anchor0: nat, opt: array<Opt>,
                    last: nat, ghost target: nat, ghost steps: seq<Step>, ghost ss0: seq<Sequence>)
    returns (ok: bool, op: nat, ip: nat, anchor: nat, ghost ss: seq<Sequence>)
    requires job.Ok() && !room.limit.FillOutput? && anchor0 <= ip0 && 1 <= last <= target
    requires Path(job, ip0, opt[..], 0, target) && Standing(dst, d0, op0, room, ss0, job.g.whole, job.s, anchor0)
    requires Reads(opt[..], 0, steps) && Total(steps) == target && steps != [] && target < last + steps[|steps| - 1].len
    modifies dst
    ensures forall i :: 0 <= i < dst.Length && !(d0 <= i < room.olimit) ==> dst[i] == old(dst[i])
    ensures ok ==> anchor <= ip && ip == ip0 + target && Standing(dst, d0, op, room, ss, job.g.whole, job.s, anchor)
    ensures ok ==> (ss, anchor) == Draw(job, ss0, ip0, anchor0, steps)
    ensures !ok ==> room.limit.LimitedOutput? && d0 + CompressBound(job.N()) > room.olimit
  {
    hide Good, Standing, StepOk, Total, Draw;
    var rPos := 0;
    ghost var rest := steps;
    ok, op, ip, anchor, ss := true, op0, ip0, anchor0, ss0;
    while rPos < last
      invariant rPos <= target && ip == ip0 + rPos && anchor <= ip && Path(job, ip0, opt[..], rPos, target)
      invariant Standing(dst, d0, op, room, ss, job.g.whole, job.s, anchor)
      invariant Reads(opt[..], rPos, rest) && rPos + Total(rest) == target && (rest != [] ==> rest[|rest| - 1] == steps[|steps| - 1])
      invariant Draw(job, ss, ip, anchor, rest) == Draw(job, ss0, ip0, anchor0, steps)
      invariant forall i :: 0 <= i < dst.Length && !(d0 <= i < room.olimit) ==> dst[i] == old(dst[i])
      decreases target - rPos
    {
      NotDone(rest);
      TotalFirst(rest);
      var ml, offset := opt[rPos].mlen, opt[rPos].off;
      if ml == 1 {
        DrawLiteral(job, ss, ip, anchor, rest);
        ip, rPos := ip + 1, rPos + 1;
      } else {
        StepIsHit(job, ip0, rPos, ml, offset);
        DrawMatch(job, ss, ip, anchor, rest);
        ok, op, ss := HcHashChain.Encode(dst, d0, op, room, job, anchor, Hit(ip, ml, offset), ss);
        if !ok { return; }
        ip, rPos := ip + ml, rPos + ml;
        anchor := ip;
      }
      rest := rest[1..];
    }
    NotDone(rest);
    DrawNothing(job, ss, ip, anchor);
  }

  lemma NotDone(rest: seq<Step>)
    ensures if rest == [] then Total(rest) == 0 else Total(rest) >= rest[|rest| - 1].len
  {
  }

  lemma StepIsHit(job: Job, ip: nat, p: nat, len: nat, off: nat)
    requires job.Ok() && StepOk(job, ip, p, len, off) && len != 1
    ensures Good(job, Hit(ip + p, len, off)) && job.s + ip + p <= |job.g.whole|
  {
  }

  lemma DrawLiteral(job: Job, ss: seq<Sequence>, ip: nat, anchor: nat, steps: seq<Step>)
    requires steps != [] && steps[0].len == 1
    ensures Draw(job, ss, ip, anchor, steps) == Draw(job, ss, ip + 1, anchor, steps[1..])
  {
  }

  lemma DrawMatch(job: Job, ss: seq<Sequence>, ip: nat, anchor: nat, steps: seq<Step>)
    requires steps != [] && steps[0].len != 1 && anchor <= ip && job.s + ip <= |job.g.whole|
    ensures var h := Hit(ip, steps[0].len, steps[0].off);
      Draw(job, ss, ip, anchor, steps) == Draw(job, WithHit(ss, job.g.whole, job.s, anchor, h), h.End(), h.End(), steps[1..])
  {
  }

  lemma DrawNothing(job: Job, ss: seq<Sequence>, ip: nat, anchor: nat)
    ensures Draw(job, ss, ip, anchor, []) == (ss, anchor)
  {
  }

  // ---------- One round ----------

  /** How hard the parser tries. */
  datatype Effort = Effort(sufficient: nat, fullUpdate: bool, favorDecSpeed: bool) {
    /** sufficient_len, once it has been limited. */
    function Enough(): nat {
      if sufficient >= LZ4_OPT_NUM then LZ4_OPT_NUM - 1 else sufficient
    }
  }

  /** An exploration: the table at its start and at its end, how it ended, and what it has tried. */
  datatype Exploration = Exploration(first: seq<Opt>, table: seq<Opt>, reached: nat, last: nat, cur: nat, mlen: nat, off: nat,
                                     seen: seq<Try>)

  /** The exploration x starts from the match at ip, makes no position dearer, leaves no cheaper way out, and ends properly. */
  ghost predicate BestFrom(job: Job, ip: nat, llen: nat, len: nat, off: nat, x: Exploration, e: Effort)
    requires job.Ok()
  {
    && |x.first| == LZ4_OPT_NUM + TRAILING_LITERALS && len + TRAILING_LITERALS < |x.first|
    && (forall i :: 0 <= i <= len + TRAILING_LITERALS ==> x.first[i] == FirstEntry(llen, len, off, i))
    && NoDearer(x.first, len, x.table) && len <= x.reached
    && Explored(job, ip, x.table, x.reached, x.seen, e.fullUpdate, e.favorDecSpeed)
    && Ended(job, ip, x.table, x.last, x.cur, x.mlen, x.off, x.seen, e.Enough())
  }

  lemma IsBestFrom(job: Job, ip: nat, llen: nat, len: nat, off: nat, first: seq<Opt>, table: seq<Opt>, last: nat, cur: nat, mlen: nat,
                   o: nat, seen: seq<Try>, e: Effort) returns (x: Exploration)
    requires job.Ok() && |first| == LZ4_OPT_NUM + TRAILING_LITERALS && len + TRAILING_LITERALS < |first|
    requires forall i :: 0 <= i <= len + TRAILING_LITERALS ==> first[i] == FirstEntry(llen, len, off, i)
    requires exists reached :: Explored(job, ip, table, reached, seen, e.fullUpdate, e.favorDecSpeed) && len <= reached
    requires NoDearer(first, len, table) && Ended(job, ip, table, last, cur, mlen, o, seen, e.Enough())
    ensures x.table == table && x.cur == cur && x.mlen == mlen && x.off == o && BestFrom(job, ip, llen, len, off, x, e)
  {
    hide NoDearer, Explored, Ended, FirstEntry;
    var reached: nat :| Explored(job, ip, table, reached, seen, e.fullUpdate, e.favorDecSpeed) && len <= reached;
    x := Exploration(first, table, reached, last, cur, mlen, o, seen);
  }

  /** The way back through the table. */
  function Way(x: Exploration): seq<Step> {
    StepsTo(x.table, x.cur, x.mlen, x.off)
  }

  lemma WayLength(job: Job, ip: nat, opt: seq<Opt>, last: nat, cur: nat, mlen: nat, off: nat)
    requires PathEnd(job, ip, opt, last, cur, mlen, off)
    ensures var steps := StepsTo(opt, cur, mlen, off); Total(steps) == cur + mlen && steps[|steps| - 1].len == mlen
  {
    hide StepOk;
    forall i | 0 <= i <= cur ensures i < |opt| && (opt[i].mlen == 1 || 1 <= opt[i].mlen <= i) {
      assert EntryOk(job, ip, i, opt[i]);
    }
    TotalOfSteps(opt, cur, mlen, off);
  }

  /** The parse from one match on: what is best is worked out, and written. */
  method ParseFrom(dst: array<byte>, ghost d0: nat, op0: nat, room: Room, opt: array<Opt>, tables: Tables, job: Job, ip0: nat,
                   anchor0: nat, len: nat, off: nat, e: Effort, ghost ss0: seq<Sequence>)
    returns (ok: bool, op: nat, ip: nat, anchor: nat, ghost ss: seq<Sequence>, ghost x: Exploration)
    requires opt.Length == LZ4_OPT_NUM + TRAILING_LITERALS && SearchedTo(tables, job, ip0) && len < LZ4_OPT_NUM
    requires Good(job, Hit(ip0, len, off)) && anchor0 <= ip0 && !room.limit.FillOutput?
    requires Standing(dst, d0, op0, room, ss0, job.g.whole, job.s, anchor0)
    modifies dst, opt, tables, tables.hashTable, tables.chainTable
    ensures forall i :: 0 <= i < dst.Length && !(d0 <= i < room.olimit) ==> dst[i] == old(dst[i])
    ensures ok ==>
      anchor <= ip && ip0 < ip && Standing(dst, d0, op, room, ss, job.g.whole, job.s, anchor) && SearchedTo(tables, job, ip)
    ensures !ok ==> tables.IndexOk(job.g) && room.limit.LimitedOutput? && d0 + CompressBound(job.N()) > room.olimit
    ensures BestFrom(job, ip0, ip0 - anchor0, len, off, x, e)
    ensures ok ==> ip == ip0 + Total(Way(x)) && (ss, anchor) == Draw(job, ss0, ip0, anchor0, Way(x))
  {
    hide Good, Standing, StepOk, EntryOk, TableOk, Tables.IndexOk, Path, NoDearer, Explored, Ended, Reads, StepsTo, Draw, Total,
         BestFrom, FirstEntry;
    StartTable(opt, job, ip0, ip0 - anchor0, len, off);
    ghost var seen, first := [], opt[..];
    var last, cur, best_mlen, best_off;
    last, cur, best_mlen, best_off, seen := Explore(opt, tables, job, ip0, len, e.Enough(), e.fullUpdate, e.favorDecSpeed);
    x := IsBestFrom(job, ip0, ip0 - anchor0, len, off, first, opt[..], last, cur, best_mlen, best_off, seen, e);
    WayLength(job, ip0, opt[..], last, cur, best_mlen, best_off);
    StepsBefore(job, ip0, opt[..], last, cur, best_mlen, best_off, seen, e);
    Reverse(job, ip0, opt, cur, best_mlen, best_off);
    ok, op, ip, anchor, ss := EncodePath(dst, d0, op0, room, job, ip0, anchor0, opt, last, cur + best_mlen, Way(x), ss0);
  }

  lemma StepsBefore(job: Job, ip: nat, t: seq<Opt>, last: nat, cur: nat, mlen: nat, off: nat, seen: seq<Try>, e: Effort)
    requires job.Ok() && PathEnd(job, ip, t, last, cur, mlen, off) && Ended(job, ip, t, last, cur, mlen, off, seen, e.Enough())
    ensures cur < last
  {
  }

  /** A run whose match is good enough to be taken at once. */
  ghost predicate LongRun(job: Job, sufficient: nat)
    requires job.Ok()
  {
    IsRun(job) && (job.N() > sufficient + 6 || job.N() > LZ4_OPT_NUM + 5)
  }

  lemma LongRunIsRun(job: Job, sufficient: nat)
    requires job.Ok()
    ensures LongRun(job, sufficient) ==> IsRun(job)
  {
  }

  /** One round of the parser: nothing at position 0, the whole run at position 1. */
  lemma LongRunStep(job: Job, d0: nat, op: nat, ip: nat, anchor: nat, sufficient: nat, len: nat, off: nat)
    requires job.Ok() && LongRun(job, sufficient) && InRun(job, d0, op, ip, anchor) && ip + MFLIMIT <= job.N()
    requires len > 0 ==> Good(job, Hit(ip, len, off)) && len >= MINMATCH
    requires Complete(job.g, AskLonger(job, ip, MINMATCH - 1, false), job.maxNbAttempts, if len > 0 then len else MINMATCH - 1)
    ensures anchor == 0 && op == d0
    ensures if ip == 0 then len == 0 && InRun(job, d0, op, 1, 0)
            else ip == 1 && len == job.N() - 6 && (len > sufficient || len >= LZ4_OPT_NUM)
  {
    hide Complete, Genuine, RunSize;
    var h := Hit(ip, len, off);
    if ip == 0 {
      if len > 0 { NothingAtStart(job, h); }
    } else {
      RunIsFound(job, len > 0, h, AskLonger(job, ip, MINMATCH - 1, false));
    }
  }

  /** What a round comes to: nothing, a match that is good enough, or the best way from a match on. */
  datatype Round = Nothing | AtOnce(hit: Hit) | Weighed(hit: Hit, x: Exploration)

  datatype Place = Place(ip: nat, anchor: nat, ss: seq<Sequence>)

  function Onward(job: Job, here: Place, r: Round): Place {
    match r
    case Nothing => here.(ip := here.ip + 1)
    case AtOnce(h) =>
      if here.anchor <= h.start && job.s + h.start <= |job.g.whole| then
        Place(h.End(), h.End(), WithHit(here.ss, job.g.whole, job.s, here.anchor, h))
      else here
    case Weighed(h, x) =>
      var (ss, anchor) := Draw(job, here.ss, here.ip, here.anchor, Way(x));
      Place(here.ip + Total(Way(x)), anchor, ss)
  }

  /** r is what the search at this place, and what has to follow it, come to. */
  ghost predicate RoundOk(job: Job, here: Place, r: Round, e: Effort)
    requires job.Ok()
  {
    && here.ip + MFLIMIT <= job.N() && here.anchor <= here.ip
    && (r.Nothing? || (Good(job, r.hit) && r.hit.start == here.ip && (r.AtOnce? <==> r.hit.len > e.Enough())))
    && (!e.favorDecSpeed ==> Complete(job.g, AskLonger(job, here.ip, MINMATCH - 1, false), job.maxNbAttempts,
                                      if r.Nothing? then MINMATCH - 1 else r.hit.len))
    && (r.Weighed? ==> BestFrom(job, here.ip, here.ip - here.anchor, r.hit.len, r.hit.offset, r.x, e))
  }

  /** These rounds lead here. */
  ghost predicate RoundsLead(job: Job, rounds: seq<Round>, here: Place, e: Effort)
    requires job.Ok()
  {
    if rounds == [] then here == Place(0, 0, [])
    else
      var init, r := rounds[..|rounds| - 1], rounds[|rounds| - 1];
      exists before :: RoundsLead(job, init, before, e) && RoundOk(job, before, r, e) && here == Onward(job, before, r)
  }

  lemma RoundsLeadOn(job: Job, rounds: seq<Round>, here: Place, r: Round, e: Effort)
    requires job.Ok() && RoundsLead(job, rounds, here, e) && RoundOk(job, here, r, e)
    ensures RoundsLead(job, rounds + [r], Onward(job, here, r), e)
  {
    hide Onward, RoundOk;
    var all := rounds + [r];
    assert all[..|all| - 1] == rounds;
  }

  /** The block is what the rounds come to, until no position is left to be searched. */
  ghost predicate Parsed(job: Job, rounds: seq<Round>, e: Effort, block: seq<byte>)
    requires job.Ok()
  {
    exists here :: RoundsLead(job, rounds, here, e) && here.ip + MFLIMIT > job.N()
      && here.anchor <= job.N() && (forall t :: t in here.ss ==> Encodable(t))
      && block == EmitAll(here.ss) + EmitLast(job.g.whole[job.s + here.anchor..])
  }

  lemma ParseDone(job: Job, rounds: seq<Round>, e: Effort, here: Place, block: seq<byte>)
    requires job.Ok() && RoundsLead(job, rounds, here, e) && here.ip + MFLIMIT > job.N()
    requires here.anchor <= job.N() && (forall t :: t in here.ss ==> Encodable(t))
    requires block == EmitAll(here.ss) + EmitLast(job.g.whole[job.s + here.anchor..])
    ensures Parsed(job, rounds, e, block)
  {
    hide RoundsLead, EmitAll, EmitLast;
  }

  lemma NoRounds(job: Job, e: Effort)
    requires job.Ok()
    ensures RoundsLead(job, [], Place(0, 0, []), e)
  {
  }

  /** The body of the main loop: a search, and what follows from what it finds. */
  method OptimalRound(dst: array<byte>, ghost d0: nat, op0: nat, room: Room, opt: array<Opt>, tables: Tables, job: Job, ip0: nat,
                      anchor0: nat, e: Effort, ghost ss0: seq<Sequence>)
    returns (ok: bool, op: nat, ip: nat, anchor: nat, ghost ss: seq<Sequence>, ghost r: Round)
    requires opt.Length == LZ4_OPT_NUM + TRAILING_LITERALS && SearchedTo(tables, job, ip0) && ip0 + MFLIMIT <= job.N()
    requires anchor0 <= ip0 && !room.limit.FillOutput? && Standing(dst, d0, op0, room, ss0, job.g.whole, job.s, anchor0)
    modifies dst, opt, tables, tables.hashTable, tables.chainTable
    ensures forall i :: 0 <= i < dst.Length && !(d0 <= i < room.olimit) ==> dst[i] == old(dst[i])
    ensures ok ==>
      anchor <= ip && ip0 < ip && Standing(dst, d0, op, room, ss, job.g.whole, job.s, anchor) && SearchedTo(tables, job, ip)
    ensures !ok ==> tables.IndexOk(job.g) && room.limit.LimitedOutput? && d0 + CompressBound(job.N()) > room.olimit
    ensures LongRun(job, e.sufficient) && !e.favorDecSpeed && InRun(job, d0, op0, ip0, anchor0) ==>
      if ok then InRun(job, d0, op, ip, anchor) else d0 + RunSize(job.N()) > room.olimit
    ensures ok ==> RoundOk(job, Place(ip0, anchor0, ss0), r, e) && Place(ip, anchor, ss) == Onward(job, Place(ip0, anchor0, ss0), r)
  {
    hide Good, Tables.IndexOk, HitOk, Standing, Advanced, Complete, IsRun, InRun, RunSize, LongRun, BestFrom, Draw, Total, Way;
    LongRunIsRun(job, e.sufficient);
    ghost var run := LongRun(job, e.sufficient) && !e.favorDecSpeed && InRun(job, d0, op0, ip0, anchor0);
    ok, op, ip, anchor, ss := true, op0, ip0, anchor0, ss0;
    var len, off := FindLonger(tables, job, ip, MINMATCH - 1, e.favorDecSpeed);
    if run { LongRunStep(job, d0, op, ip, anchor, e.sufficient, len, off); }
    if len == 0 {
      r := Nothing;
      ip := ip + 1;
    } else if len > e.Enough() {
      HitBounds(job, Hit(ip, len, off));
      ok, op, ss := HcHashChain.Encode(dst, d0, op, room, job, anchor, Hit(ip, len, off), ss);
      if run { RunEncoded(job, d0, op, room, Hit(ip, len, off), ok); }
      r := AtOnce(Hit(ip, len, off));
      ip := ip + len;
      anchor := ip;
    } else {
      ghost var x;
      ok, op, ip, anchor, ss, x := ParseFrom(dst, d0, op, room, opt, tables, job, ip, anchor, len, off, e, ss);
      r := Weighed(Hit(ip0, len, off), x);
    }
  }

  /**
    LZ4HC_compress_optimal. Whatever the tables lead to and whatever the prices are, the block decodes to the source and
    meets the end-of-block restrictions; it fails only if a worst-case block would not fit.
   */
  method CompressOptimal(dst: array<byte>, d0: nat, room: Room, tables: Tables, job: Job, sufficient: nat, fullUpdate: bool,
                         favorDecSpeed: bool)
    returns (result: nat, ghost rounds: seq<Round>)
    requires SearchedTo(tables, job, 0) && d0 <= room.olimit <= dst.Length && !room.limit.FillOutput?
    requires room.limit.NotLimited? ==> d0 + CompressBound(job.N()) <= room.olimit
    modifies dst, tables, tables.hashTable, tables.chainTable
    ensures tables.IndexOk(job.g)
    ensures forall i :: 0 <= i < dst.Length && !(d0 <= i < room.olimit) ==> dst[i] == old(dst[i])
    ensures result == 0 ==> room.limit.LimitedOutput? && d0 + CompressBound(job.N()) > room.olimit
    ensures result > 0 ==>
      && d0 + result <= room.olimit && result <= CompressBound(job.N())
      && Represents(dst[d0..d0 + result], job.g.whole[..job.s], job.g.whole[job.s..])
    ensures LongRun(job, sufficient) && !favorDecSpeed && d0 + RunSize(job.N()) <= room.olimit ==> result == RunSize(job.N())
    ensures result > 0 ==> Parsed(job, rounds, Effort(sufficient, fullUpdate, favorDecSpeed), dst[d0..d0 + result])
  {
    hide Good, Tables.IndexOk, HitOk, Describes, Represents, Compact, EndsWell, Advanced, Complete, IsRun, InRun, RunSize, LongRun,
         Standing, RoundOk, RoundsLead, Onward, Parsed, EmitAll, EmitLast;
    RunStarts(job, d0);
    var e := Effort(sufficient, fullUpdate, favorDecSpeed);
    ghost var run := LongRun(job, sufficient) && !favorDecSpeed;
    LongRunIsRun(job, sufficient);
    NothingStands(dst, d0, room, job.g.whole, job.s);
    NoRounds(job, e);
    var opt := new Opt[LZ4_OPT_NUM + TRAILING_LITERALS](_ => Opt(0, 0, 1, 0));
    var ip, anchor: nat, op: nat := 0, 0, d0;
    ghost var ss: seq<Sequence> := [];
    rounds := [];
    while ip + MFLIMIT <= job.N()
      invariant anchor <= ip && SearchedTo(tables, job, ip)
      invariant Standing(dst, d0, op, room, ss, job.g.whole, job.s, anchor)
      invariant RoundsLead(job, rounds, Place(ip, anchor, ss), e)
      invariant forall i :: 0 <= i < dst.Length && !(d0 <= i < room.olimit) ==> dst[i] == old(dst[i])
      invariant run ==> InRun(job, d0, op, ip, anchor)
      decreases job.N() - ip
    {
      ghost var r, here := Nothing, Place(ip, anchor, ss);
      var ok;
      ok, op, ip, anchor, ss, r := OptimalRound(dst, d0, op, room, opt, tables, job, ip, anchor, e, ss);
      if !ok { return 0, rounds; }
      RoundsLeadOn(job, rounds, here, r, e);
      rounds := rounds + [r];
    }
    if run { RunFinished(job, d0, op, ip, anchor); }
    result := Finish(dst, d0, op, room, job.g.whole, job.s, anchor, ss);
    if result > 0 { ParseDone(job, rounds, e, Place(ip, anchor, ss), dst[d0..d0 + result]); }
  }
}
