/** LZ4HC_InsertAndGetWiderMatch: the longest match around a position. */
module HcSearch {
  import opened BlockFormat
  import opened BlockEncoder
  import opened GreedyParse
  import opened BlockSequences
  import opened HcIndex

  // ---------- Counting ----------

  /** How many bytes before ip and before m agree, down to iMin and mMin. */
  function CommonBack(text: seq<byte>, ip: nat, m: nat, iMin: nat, mMin: nat): (r: nat)
    requires m <= ip <= |text|
    ensures r <= m && (iMin <= ip ==> iMin + r <= ip)
  {
    if ip > iMin && m > mMin && text[ip - 1] == text[m - 1] then 1 + CommonBack(text, ip - 1, m - 1, iMin, mMin) else 0
  }

  /** LZ4HC_countBack: how many bytes before ip and before m agree. */
  method CountBack(whole: seq<byte>, ip: nat, m: nat, iMin: nat, mMin: nat) returns (back: nat)
    requires iMin <= ip <= |whole| && mMin <= m <= ip
    ensures back <= ip - iMin && back <= m - mMin && Same(whole, ip - m, ip - back, ip)
    ensures back == CommonBack(whole, ip, m, iMin, mMin)
  {
    back := 0;
    while back < ip - iMin && back < m - mMin && whole[ip - back - 1] == whole[m - back - 1]
      invariant back <= ip - iMin && back <= m - mMin && Same(whole, ip - m, ip - back, ip)
      invariant CommonBack(whole, ip, m, iMin, mMin) == back + CommonBack(whole, ip - back, m - back, iMin, mMin)
    {
      back := back + 1;
    }
  }

  /** A 32-bit pattern, as the four bytes it has in memory. */
  datatype Pattern = Pattern(b0: byte, b1: byte, b2: byte, b3: byte) {
    function At(k: nat): byte {
      if k % 4 == 0 then b0 else if k % 4 == 1 then b1 else if k % 4 == 2 then b2 else b3
    }

    function Value(): nat { Word(b0, b1, b2, b3) }
  }

  function PatternAt(text: seq<byte>, p: nat): Pattern
    requires p + 4 <= |text|
  {
    Pattern(text[p], text[p + 1], text[p + 2], text[p + 3])
  }

  lemma PatternEqual(text: seq<byte>, p: nat, pattern: Pattern)
    requires p + 4 <= |text|
    ensures Read32(text, p) == pattern.Value() <==> PatternAt(text, p) == pattern
  {
    if Read32(text, p) == pattern.Value() {
      WordInjective(text[p], text[p + 1], text[p + 2], text[p + 3], pattern.b0, pattern.b1, pattern.b2, pattern.b3);
    }
  }

  /** The bytes from p on repeat the pattern for r bytes, and no longer before limit. */
  ghost predicate PatternRun(text: seq<byte>, p: nat, limit: nat, pattern: Pattern, r: nat) {
    && p + r <= limit <= |text| && (forall k :: p <= k < p + r ==> text[k] == pattern.At(k - p))
    && (p + r < limit ==> text[p + r] != pattern.At(r))
  }

  /** The pattern repeats from p0 to p. */
  ghost predicate Repeats(text: seq<byte>, p0: nat, p: nat, pattern: Pattern) {
    p0 <= p <= |text| && forall k :: p0 <= k < p ==> text[k] == pattern.At(k - p0)
  }

  /** How many bytes of a word agree with the pattern. */
  function CommonWithPattern(text: seq<byte>, p: nat, pattern: Pattern): (r: nat)
    requires p + 4 <= |text|
    ensures r <= 4 && (r < 4 ==> text[p + r] != pattern.At(r))
    ensures forall k :: 0 <= k < r ==> text[p + k] == pattern.At(k)
  {
    if text[p] != pattern.b0 then 0
    else if text[p + 1] != pattern.b1 then 1
    else if text[p + 2] != pattern.b2 then 2
    else if text[p + 3] != pattern.b3 then 3
    else 4
  }

  lemma WholeWord(text: seq<byte>, p: nat, pattern: Pattern)
    requires p + 4 <= |text|
    ensures CommonWithPattern(text, p, pattern) == 4 <==> Read32(text, p) == pattern.Value()
  {
    PatternEqual(text, p, pattern);
  }

  lemma RepeatsMore(text: seq<byte>, p0: nat, p: nat, pattern: Pattern, n: nat)
    requires Repeats(text, p0, p, pattern) && (p - p0) % 4 == 0 && p + n <= |text| && n <= 4
    requires forall k :: 0 <= k < n ==> text[p + k] == pattern.At(k)
    ensures Repeats(text, p0, p + n, pattern)
  {
    forall k | p0 <= k < p + n ensures text[k] == pattern.At(k - p0) {
      if k >= p { assert text[p + (k - p)] == pattern.At(k - p); }
    }
  }

  lemma RepeatsOne(text: seq<byte>, p0: nat, p: nat, pattern: Pattern)
    requires Repeats(text, p0, p, pattern) && p < |text| && text[p] == pattern.At(p - p0)
    ensures Repeats(text, p0, p + 1, pattern)
  {
  }

  lemma RunEnds(text: seq<byte>, p0: nat, p: nat, limit: nat, pattern: Pattern)
    requires Repeats(text, p0, p, pattern) && p <= limit <= |text| && (p < limit ==> text[p] != pattern.At(p - p0))
    ensures PatternRun(text, p0, limit, pattern, p - p0)
  {
  }

  /** A word that is not the pattern: how much of it still is. */
  lemma LastWord(text: seq<byte>, p0: nat, p: nat, pattern: Pattern, n: nat)
    requires p + 4 <= |text| && Repeats(text, p0, p, pattern) && (p - p0) % 4 == 0
    requires n == CommonWithPattern(text, p, pattern) < 4
    ensures Repeats(text, p0, p + n, pattern) && text[p + n] != pattern.At(p + n - p0)
  {
    hide CommonWithPattern;
    RepeatsMore(text, p0, p, pattern, n);
  }

  /** LZ4HC_countPattern: four bytes at a time, then one at a time. */
  method CountPattern(text: seq<byte>, p0: nat, limit: nat, pattern: Pattern) returns (r: nat)
    requires p0 <= limit <= |text|
    ensures PatternRun(text, p0, limit, pattern, r)
  {
    hide CommonWithPattern, Pattern.Value, Pattern.At, Read32, Repeats, PatternRun;
    var p := p0;
    assert Repeats(text, p0, p, pattern) by { NothingRepeats(text, p0, pattern); }
    while p + 3 < limit
      invariant p0 <= p <= limit && (p - p0) % 4 == 0
      invariant Repeats(text, p0, p, pattern)
    {
      var n := CommonWithPattern(text, p, pattern);
      WholeWord(text, p, pattern);
      if Read32(text, p) != pattern.Value() {
        LastWord(text, p0, p, pattern, n);
        RunEnds(text, p0, p + n, limit, pattern);
        return p + n - p0;
      }
      RepeatsMore(text, p0, p, pattern, 4);
      p := p + 4;
    }
    while p < limit && text[p] == pattern.At(p - p0)
      invariant p0 <= p <= limit && Repeats(text, p0, p, pattern)
    {
      RepeatsOne(text, p0, p, pattern);
      p := p + 1;
    }
    RunEnds(text, p0, p, limit, pattern);
    return p - p0;
  }

  lemma NothingRepeats(text: seq<byte>, p: nat, pattern: Pattern)
    requires p <= |text|
    ensures Repeats(text, p, p, pattern)
  {
  }

  /** The r bytes before ip repeat the pattern, which ends there. */
  ghost predicate RepeatsDown(text: seq<byte>, ip: nat, r: nat, pattern: Pattern) {
    r <= ip <= |text| && forall i :: ip - r <= i < ip ==> text[i] == pattern.At(3 * (ip - i))
  }

  lemma DownOne(text: seq<byte>, ip: nat, r: nat, pattern: Pattern)
    requires RepeatsDown(text, ip, r, pattern) && r < ip && text[ip - r - 1] == pattern.At(3 * (r + 1))
    ensures RepeatsDown(text, ip, r + 1, pattern)
  {
    forall i | ip - (r + 1) <= i < ip ensures text[i] == pattern.At(3 * (ip - i)) {
      if i < ip - r { assert i == ip - r - 1 && 3 * (ip - i) == 3 * (r + 1); }
    }
  }

  lemma AtBack(pattern: Pattern, r: nat)
    requires r % 4 == 0
    ensures pattern.At(3 * (r + 1)) == pattern.b3 && pattern.At(3 * (r + 2)) == pattern.b2
    ensures pattern.At(3 * (r + 3)) == pattern.b1 && pattern.At(3 * (r + 4)) == pattern.b0
  {
    var k := r / 4;
    Mod4(3 * (r + 1), 3 * k, 3);
    Mod4(3 * (r + 2), 3 * k + 1, 2);
    Mod4(3 * (r + 3), 3 * k + 2, 1);
    Mod4(3 * (r + 4), 3 * k + 3, 0);
  }

  lemma Mod4(x: nat, q: nat, b: nat)
    requires x == 4 * q + b && b < 4
    ensures x % 4 == b
  {
  }

  lemma DownWord(text: seq<byte>, ip: nat, r: nat, pattern: Pattern)
    requires RepeatsDown(text, ip, r, pattern) && r + 4 <= ip && r % 4 == 0 && PatternAt(text, ip - r - 4) == pattern
    ensures RepeatsDown(text, ip, r + 4, pattern)
  {
    hide RepeatsDown, Pattern.At;
    AtBack(pattern, r);
    DownOne(text, ip, r, pattern);
    DownOne(text, ip, r + 1, pattern);
    DownOne(text, ip, r + 2, pattern);
    DownOne(text, ip, r + 3, pattern);
  }

  /** LZ4HC_reverseCountPattern: how far the pattern that ends at ip reaches down. */
  method ReverseCountPattern(text: seq<byte>, ip: nat, low: nat, pattern: Pattern) returns (r: nat)
    requires low <= ip <= |text|
    ensures r <= ip - low && RepeatsDown(text, ip, r, pattern)
    ensures r < ip - low ==> text[ip - r - 1] != pattern.At(3 * (r + 1))
  {
    hide Pattern.At, Pattern.Value, PatternAt, Read32, RepeatsDown;
    r := 0;
    NothingDown(text, ip, pattern);
    while ip - r >= low + 4
      invariant r <= ip - low && r % 4 == 0 && RepeatsDown(text, ip, r, pattern)
    {
      PatternEqual(text, ip - r - 4, pattern);
      if Read32(text, ip - r - 4) != pattern.Value() { break; }
      DownWord(text, ip, r, pattern);
      r := r + 4;
    }
    while ip - r > low && text[ip - r - 1] == pattern.At(3 * (r + 1))
      invariant r <= ip - low && RepeatsDown(text, ip, r, pattern)
    {
      DownOne(text, ip, r, pattern);
      r := r + 1;
    }
  }

  lemma NothingDown(text: seq<byte>, ip: nat, pattern: Pattern)
    requires ip <= |text|
    ensures RepeatsDown(text, ip, 0, pattern)
  {
  }

  /** All bytes from p to q are b. */
  ghost predicate AllAre(text: seq<byte>, p: int, q: int, b: byte) {
    0 <= p && q <= |text| && forall k :: p <= k < q ==> text[k] == b
  }

  /** A word as two halves. */
  lemma Halves(b0: byte, b1: byte, b2: byte, b3: byte)
    ensures Word(b0, b1, b2, b3) % 0x1_0000 == b0 as int + 0x100 * b1 as int
    ensures Word(b0, b1, b2, b3) / 0x1_0000 == b2 as int + 0x100 * b3 as int
  {
    var lo: int, hi: int := b0 as int + 0x100 * b1 as int, b2 as int + 0x100 * b3 as int;
    assert Word(b0, b1, b2, b3) == lo + 0x1_0000 * hi;
  }

  /** Its outer bytes. */
  lemma OuterBytes(b0: byte, b1: byte, b2: byte, b3: byte)
    ensures Word(b0, b1, b2, b3) % 0x100 == b0
    ensures Word(b0, b1, b2, b3) / 0x100_0000 == b3
  {
    var low: int, middle: int := b0 as int, b1 as int + 0x100 * b2 as int;
    assert Word(b0, b1, b2, b3) == low + 0x100 * middle + 0x100_0000 * b3 as int;
  }

  /** The test for a repeated pattern. */
  lemma OneByte(pattern: Pattern)
    ensures var v := pattern.Value();
      v % 0x1_0000 == v / 0x1_0000 && v % 0x100 == v / 0x100_0000
      <==> pattern == Repeated(pattern.b0)
  {
    hide Word;
    Halves(pattern.b0, pattern.b1, pattern.b2, pattern.b3);
    OuterBytes(pattern.b0, pattern.b1, pattern.b2, pattern.b3);
    LowByte(pattern.b0, pattern.b1, pattern.b0, pattern.b1);
    if pattern.b0 as int + 0x100 * pattern.b1 as int == pattern.b2 as int + 0x100 * pattern.b3 as int {
      LowByte(pattern.b0, pattern.b1, pattern.b2, pattern.b3);
    }
  }

  // ---------- One candidate ----------

  /** A match that has been found: a genuine one, in reach. */
  ghost predicate Found(g: Segments, start: nat, from: nat, len: nat) {
    && g.Ok() && from < start && start - from <= MAXDISTANCE && start + len <= |g.whole|
    && Genuine(g.whole, start, start - from, len)
  }

  /** The best match so far, if it is longer than what was asked for. */
  ghost predicate Best(g: Segments, ip: nat, iLow: nat, iHigh: nat, longest0: nat, longest: nat, from: nat, start: nat) {
    && longest >= longest0
    && (longest > longest0 ==>
      && longest >= MINMATCH && iLow <= start <= ip && ip + MINMATCH <= start + longest <= iHigh
      && Found(g, start, from, longest))
  }

  /** Where a search may look: at ip, back to iLow, up to iHigh, for more than longest bytes. */
  predicate Searchable(g: Segments, ip: nat, iLow: nat, iHigh: nat, longest: nat) {
    && g.Ok() && g.D() <= iLow <= ip && ip + MINMATCH <= iHigh && iHigh + LASTLITERALS <= |g.whole|
    && ip < iLow + longest <= iHigh
  }

  lemma SameIsGenuine(whole: seq<byte>, off: nat, i: nat, j: nat)
    requires 1 <= off && i <= j && Same(whole, off, i, j)
    ensures Genuine(whole, i, off, j - i)
  {
  }

  lemma IsFound(g: Segments, start: nat, from: nat, len: nat)
    requires g.Ok() && from < start && start - from <= MAXDISTANCE && start + len <= |g.whole|
    requires Same(g.whole, start - from, start, start + len)
    ensures Found(g, start, from, len)
  {
    SameIsGenuine(g.whole, start - from, start, start + len);
  }

  lemma SameJoin(whole: seq<byte>, off: nat, i: nat, j: nat, k: nat)
    requires i <= j <= k && Same(whole, off, i, j) && Same(whole, off, j, k)
    ensures Same(whole, off, i, k)
  {
  }

  /** How long a match with position m is: on to iHigh, and back to iLow or to the start of the segment of m. */
  ghost function FullMatch(g: Segments, ip: nat, iLow: nat, iHigh: nat, m: nat): nat
    requires g.Ok() && m < ip && ip + MINMATCH <= iHigh <= |g.whole|
  {
    if Same(g.whole, ip - m, ip, ip + MINMATCH) then
      RunLength(g.whole, ip, ip - m, iHigh) + CommonBack(g.whole, ip, m, iLow, if m >= g.D() then g.D() else 0)
    else 0
  }

  /** A run of four bytes and more. */
  lemma RunFromFour(text: seq<byte>, ip: nat, off: nat, limit: nat, more: nat)
    requires off <= ip && ip + MINMATCH <= limit <= |text|
    requires Same(text, off, ip, ip + MINMATCH) && CommonRun(text, ip + MINMATCH, off, limit, more)
    ensures RunLength(text, ip, off, limit) == MINMATCH + more
  {
    hide RunLength;
    RunLengthUnique(text, ip, off, limit, MINMATCH + more);
  }

  /** How far a match of four bytes in the prefix reaches back and on. */
  method MeasurePrefix(g: Segments, ip: nat, iLow: nat, iHigh: nat, m: nat) returns (back: nat, length: nat)
    requires g.Ok() && g.D() <= iLow <= ip && g.D() <= m < ip && ip + MINMATCH <= iHigh <= |g.whole|
    requires Same(g.whole, ip - m, ip, ip + MINMATCH)
    ensures back <= ip - iLow && back <= m && back + MINMATCH <= length && ip - back + length <= iHigh
    ensures Same(g.whole, ip - m, ip - back, ip - back + length)
    ensures length == FullMatch(g, ip, iLow, iHigh, m)
  {
    hide Same, CommonRun, RunLength;
    ghost var off := ip - m;
    back := 0;
    if ip > iLow { back := CountBack(g.whole, ip, m, iLow, g.D()); }
    var more := Count(g.whole, ip + MINMATCH, m + MINMATCH, iHigh);
    RunIsSame(g.whole, ip + MINMATCH, off, iHigh, more);
    RunFromFour(g.whole, ip, off, iHigh, more);
    length := MINMATCH + more + back;
    if back == 0 { NothingSame(g.whole, off, ip); }
    SameJoin(g.whole, off, ip - back, ip, ip + MINMATCH);
    SameJoin(g.whole, off, ip - back, ip + MINMATCH, ip + MINMATCH + more);
  }

  lemma RunIsSame(text: seq<byte>, p: nat, off: nat, limit: nat, r: nat)
    requires CommonRun(text, p, off, limit, r)
    ensures Same(text, off, p, p + r) && p + r <= limit
  {
  }

  /** The two bytes that are looked at first are equal if the match is longer than the best one. */
  lemma FilterIsSound(g: Segments, ip: nat, iLow: nat, iHigh: nat, m: nat, longest: nat)
    requires Searchable(g, ip, iLow, iHigh, longest) && g.D() <= m < ip && FullMatch(g, ip, iLow, iHigh, m) > longest
    ensures var off, last := ip - m, iLow + longest - 1;
      g.whole[last] == g.whole[last - off] && g.whole[last + 1] == g.whole[last + 1 - off]
  {
    var off := ip - m;
    var r, back := RunLength(g.whole, ip, off, iHigh), CommonBack(g.whole, ip, m, iLow, g.D());
    RunIsSame(g.whole, ip, off, iHigh, r);
    BackIsSame(g.whole, ip, m, iLow, g.D());
    SameJoin(g.whole, off, ip - back, ip, ip + r);
  }

  lemma {:induction false} BackIsSame(text: seq<byte>, ip: nat, m: nat, iMin: nat, mMin: nat)
    requires m <= ip <= |text|
    ensures Same(text, ip - m, ip - CommonBack(text, ip, m, iMin, mMin), ip)
    decreases ip
  {
    if ip > iMin && m > mMin && text[ip - 1] == text[m - 1] { BackIsSame(text, ip - 1, m - 1, iMin, mMin); }
  }

  lemma NothingSame(whole: seq<byte>, off: nat, i: nat)
    requires off <= i <= |whole|
    ensures Same(whole, off, i, i)
  {
  }

  /** A candidate in the prefix. */
  method ComparePrefix(g: Segments, ip: nat, iLow: nat, iHigh: nat, m: nat, longest0: nat, from0: nat, start0: nat,
                       ghost wanted: nat)
    returns (matchLength: nat, longest: nat, from: nat, start: nat)
    requires Searchable(g, ip, iLow, iHigh, longest0) && g.D() <= m < ip && ip - m <= MAXDISTANCE
    requires Best(g, ip, iLow, iHigh, wanted, longest0, from0, start0)
    ensures Best(g, ip, iLow, iHigh, wanted, longest, from, start) && longest >= longest0
    ensures matchLength == 0 || MINMATCH <= matchLength <= longest
    ensures Searchable(g, ip, iLow, iHigh, longest)
    ensures FullMatch(g, ip, iLow, iHigh, m) <= longest
  {
    hide Read32, Found, Same, RunLength, CommonBack;
    matchLength, longest, from, start := 0, longest0, from0, start0;
    var off, last := ip - m, iLow + longest - 1;
    if FullMatch(g, ip, iLow, iHigh, m) > longest { FilterIsSound(g, ip, iLow, iHigh, m, longest); }
    if g.whole[last] == g.whole[last - off] && g.whole[last + 1] == g.whole[last + 1 - off] {
      Read32Equal(g.whole, ip, off);
      if Read32(g.whole, m) == Read32(g.whole, ip) {
        var back;
        back, matchLength := MeasurePrefix(g, ip, iLow, iHigh, m);
        if matchLength > longest {
          longest, from, start := matchLength, m - back, ip - back;
          IsFound(g, start, from, longest);
        }
      }
    }
  }

  /** A byte of the dictionary's memory; beyond is what follows the dictionary there. */
  function DictByte(g: Segments, beyond: seq<byte>, i: nat): byte
    requires g.Ok() && i < g.D() + |beyond|
  {
    if i < g.D() then g.whole[i] else beyond[i - g.D()]
  }

  function DictRead32(g: Segments, beyond: seq<byte>, m: nat): nat
    requires g.Ok() && m < g.D() && |beyond| == 3
  {
    Word(DictByte(g, beyond, m), DictByte(g, beyond, m + 1), DictByte(g, beyond, m + 2), DictByte(g, beyond, m + 3))
  }

  /** As long as the word does not leave the dictionary, it is what the decoder will see. */
  lemma DictWord(g: Segments, beyond: seq<byte>, m: nat)
    requires g.Ok() && m + 4 <= g.D() && |beyond| == 3
    ensures DictRead32(g, beyond, m) == Read32(g.whole, m)
  {
  }

  /** Length of a match that starts in the dictionary and may run on at the start of the prefix. */
  method CountFromDict(g: Segments, ip: nat, iHigh: nat, m: nat) returns (matchLength: nat)
    requires g.Ok() && m < g.D() <= ip && ip + MINMATCH <= iHigh <= |g.whole|
    ensures m + MINMATCH <= g.D() && Same(g.whole, ip - m, ip, ip + MINMATCH) ==>
      Same(g.whole, ip - m, ip, ip + matchLength)
    ensures matchLength >= MINMATCH && ip + matchLength <= iHigh
    ensures m + MINMATCH > g.D() ==> matchLength == MINMATCH
    ensures m + MINMATCH <= g.D() && Same(g.whole, ip - m, ip, ip + MINMATCH) ==>
      matchLength == RunLength(g.whole, ip, ip - m, iHigh)
  {
    hide RunLength;
    ghost var off := ip - m;
    var vLimit := ip + (g.D() - m);
    if vLimit > iHigh { vLimit := iHigh; }
    matchLength := Count(g.whole, ip + MINMATCH, m + MINMATCH, vLimit);
    matchLength := matchLength + MINMATCH;
    if ip + matchLength == vLimit && vLimit < iHigh {
      var more := Count(g.whole, vLimit, g.D(), iHigh);
      matchLength := matchLength + more;
    }
    if m + MINMATCH <= g.D() && Same(g.whole, off, ip, ip + MINMATCH) { RunFromFour(g.whole, ip, off, iHigh, matchLength - MINMATCH); }
  }

  /**
    A candidate in the dictionary. Only a jump to another chain leads to the last three bytes of the dictionary, where the
    comparison leaves it; by then a match of four bytes is not longer than the best one any more.
   */
  method CompareDict(g: Segments, beyond: seq<byte>, ip: nat, iLow: nat, iHigh: nat, m: nat, longest0: nat, from0: nat,
                     start0: nat, ghost wanted: nat)
    returns (matchLength: nat, longest: nat, from: nat, start: nat)
    requires Searchable(g, ip, iLow, iHigh, longest0) && m < g.D() && ip - m <= MAXDISTANCE && |beyond| == 3
    requires m + MINMATCH <= g.D() || (iLow == ip && longest0 >= MINMATCH)
    requires Best(g, ip, iLow, iHigh, wanted, longest0, from0, start0)
    ensures Best(g, ip, iLow, iHigh, wanted, longest, from, start) && longest >= longest0
    ensures matchLength == 0 || MINMATCH <= matchLength <= longest
    ensures Searchable(g, ip, iLow, iHigh, longest)
    ensures m + MINMATCH <= g.D() ==> FullMatch(g, ip, iLow, iHigh, m) <= longest
  {
    hide Read32, DictRead32, Same, Found, RunLength;
    matchLength, longest, from, start := 0, longest0, from0, start0;
    var lookBackLength, off := ip - iLow, ip - m;
    if m + 4 <= g.D() { DictWord(g, beyond, m); }
    Read32Equal(g.whole, ip, off);
    if DictRead32(g, beyond, m) == Read32(g.whole, ip) {
      matchLength := CountFromDict(g, ip, iHigh, m);
      var back := 0;
      if lookBackLength > 0 { back := CountBack(g.whole, ip, m, iLow, 0); }
      if m + MINMATCH <= g.D() {
        SameJoin(g.whole, off, ip - back, ip, ip + matchLength);
      }
      matchLength := matchLength + back;
      if matchLength > longest {
        IsFound(g, ip - back, m - back, matchLength);
        longest, from, start := matchLength, m - back, ip - back;
      }
    }
  }

  // ---------- Repeated patterns ----------

  /** LZ4HC_rotatePattern, on the bytes in memory. */
  function RotatePattern(rotate: int, p: Pattern): Pattern {
    match rotate % 4
    case 0 => p
    case 1 => Pattern(p.b3, p.b0, p.b1, p.b2)
    case 2 => Pattern(p.b2, p.b3, p.b0, p.b1)
    case _ => Pattern(p.b1, p.b2, p.b3, p.b0)
  }

  function Repeated(b: byte): Pattern { Pattern(b, b, b, b) }

  /** LZ4HC_protectDictEnd. */
  predicate ProtectDictEnd(g: Segments, i: nat) {
    i >= g.dictLimit || i + MINMATCH <= g.dictLimit
  }

  /** How far the byte b is repeated above m, where it stands four times. */
  method ForwardPattern(g: Segments, m: nat, iHigh: nat, b: byte) returns (n: nat)
    requires g.Ok() && g.D() <= iHigh <= |g.whole| && m + 4 <= iHigh && (m < g.D() ==> m + 4 <= g.D())
    requires AllAre(g.whole, m, m + 4, b)
    ensures n >= 4 && m + n <= iHigh && AllAre(g.whole, m, m + n, b)
  {
    var extDict := m < g.D();
    var iLimit := if extDict then g.D() else iHigh;
    n := CountPattern(g.whole, m + 4, iLimit, Repeated(b));
    n := n + 4;
    if extDict && m + n == iLimit {
      var more := CountPattern(g.whole, g.D(), iHigh, RotatePattern(n, Repeated(b)));
      n := n + more;
    }
  }

  /** How far it is repeated below m, but not below index low. */
  method BackwardPattern(g: Segments, m: nat, low: nat, b: byte) returns (n: nat)
    requires g.Ok() && m <= |g.whole| && g.lowLimit <= low <= g.lowLimit + m
    ensures n <= m && low <= g.lowLimit + m - n && AllAre(g.whole, m - n, m, b)
  {
    var extDict := m < g.D();
    n := ReverseCountPattern(g.whole, m, if extDict then 0 else g.D(), Repeated(b));
    if !extDict && m - n == g.D() && g.lowLimit < g.dictLimit {
      var more := ReverseCountPattern(g.whole, g.D(), 0, RotatePattern(-(n as int), Repeated(b)));
      n := n + more;
    }
    var i := g.lowLimit + m;
    n := i - if i - n < low then low else i - n;
  }

  // ---------- The search loop ----------

  /** What is asked for: more than longest bytes around ip, between iLow and iHigh. */
  datatype Query = Query(ip: nat, iLow: nat, iHigh: nat, longest: nat, patternAnalysis: bool, chainSwap: bool, favorDecSpeed: bool) {
    predicate Ok(g: Segments) {
      Searchable(g, ip, iLow, iHigh, longest) && (chainSwap ==> iLow == ip)
    }

    /** The chain is followed link by link. */
    predicate Plain() { !patternAnalysis && !chainSwap }

    /** lowestMatchIndex. */
    function Lowest(g: Segments): (r: nat)
      requires g.Ok()
      ensures g.lowLimit <= r && g.lowLimit + ip <= r + MAXDISTANCE
    {
      if g.lowLimit + (MAXDISTANCE + 1) > g.lowLimit + ip then g.lowLimit else g.lowLimit + ip - MAXDISTANCE
    }
  }

  datatype Repeat = Untested | Not | Confirmed

  /** The variables of the loop. */
  datatype State = State(longest: nat, from: nat, start: nat, matchIndex: nat, matchChainPos: nat, repeat: Repeat, srcPatternLength: nat)

  /** The bytes at ip repeat the first one for n bytes. */
  ghost predicate SourcePattern(g: Segments, q: Query, n: nat) {
    n >= 4 && q.ip + n <= q.iHigh <= |g.whole| && AllAre(g.whole, q.ip, q.ip + n, g.whole[q.ip])
  }

  /** The candidate with index i offers no more than longest, unless it is left out because it is too near. */
  ghost predicate Beaten(g: Segments, q: Query, i: int, longest: nat)
    requires q.Ok(g)
  {
    g.Inserted(i, g.lowLimit + q.ip) && !(q.favorDecSpeed && g.lowLimit + q.ip - i < 8) ==>
      FullMatch(g, q.ip, q.iLow, q.iHigh, i - g.lowLimit) <= longest
  }

  lemma BeatenMore(g: Segments, q: Query, i: int, longest: nat, longest': nat)
    requires q.Ok(g) && Beaten(g, q, i, longest) && longest <= longest'
    ensures Beaten(g, q, i, longest')
  {
    hide FullMatch;
  }

  ghost predicate SearchOk(g: Segments, q: Query, s: State) {
    && q.Ok(g) && Searchable(g, q.ip, q.iLow, q.iHigh, s.longest)
    && Best(g, q.ip, q.iLow, q.iHigh, q.longest, s.longest, s.from, s.start)
    && s.matchIndex < g.lowLimit + q.ip
    && (s.matchIndex >= q.Lowest(g) ==> g.Inserted(s.matchIndex, g.lowLimit + q.ip) || (q.chainSwap && s.longest >= MINMATCH))
    && (s.repeat.Confirmed? ==> SourcePattern(g, q, s.srcPatternLength))
    && (s.matchChainPos > 0 ==> q.chainSwap && s.longest >= MINMATCH)
  }

  /** The comparison with the candidate. */
  method Compare(g: Segments, beyond: seq<byte>, q: Query, s0: State) returns (matchLength: nat, s: State)
    requires SearchOk(g, q, s0) && s0.matchIndex >= q.Lowest(g) && |beyond| == 3
    ensures SearchOk(g, q, s) && s == s0.(longest := s.longest, from := s.from, start := s.start) && s.longest >= s0.longest
    ensures matchLength == 0 || MINMATCH <= matchLength <= s.longest
    ensures Beaten(g, q, s0.matchIndex, s.longest)
  {
    hide Found, FullMatch;
    matchLength, s := 0, s0;
    var m := s.matchIndex - g.lowLimit;
    if q.favorDecSpeed && q.ip - m < 8 {
    } else {
      var longest, from, start;
      if s.matchIndex >= g.dictLimit {
        matchLength, longest, from, start :=
          ComparePrefix(g, q.ip, q.iLow, q.iHigh, m, s.longest, s.from, s.start, q.longest);
      } else {
        matchLength, longest, from, start :=
          CompareDict(g, beyond, q.ip, q.iLow, q.iHigh, m, s.longest, s.from, s.start, q.longest);
      }
      s := s.(longest := longest, from := from, start := start);
    }
  }

  /** Looks among the chains of the match's positions for the one that makes the largest jump. */
  method SwapChain(chainTable: array<nat>, matchIndex: nat, longest: nat, matchChainPos0: nat)
    returns (distanceToNextMatch: nat, matchChainPos: nat)
    requires chainTable.Length == LZ4HC_MAXD && longest >= 1
    ensures distanceToNextMatch >= 1
    ensures MINMATCH <= longest ==> distanceToNextMatch >= chainTable[matchIndex % LZ4HC_MAXD]
    ensures if distanceToNextMatch == 1 then matchChainPos == matchChainPos0
            else matchChainPos + MINMATCH <= longest && distanceToNextMatch == chainTable[(matchIndex + matchChainPos) % LZ4HC_MAXD]
  {
    distanceToNextMatch, matchChainPos := 1, matchChainPos0;
    var end, step, accel, pos := longest - MINMATCH + 1, 1, 16, 0;
    while pos < end
      invariant step >= 1 && accel >= 16 && distanceToNextMatch >= 1
      invariant pos > 0 ==> distanceToNextMatch >= chainTable[matchIndex % LZ4HC_MAXD]
      invariant if distanceToNextMatch == 1 then matchChainPos == matchChainPos0
                else matchChainPos + MINMATCH <= longest && distanceToNextMatch == chainTable[(matchIndex + matchChainPos) % LZ4HC_MAXD]
    {
      var candidateDist := chainTable[(matchIndex + pos) % LZ4HC_MAXD];
      step := accel / 16;
      accel := accel + 1;
      if candidateDist > distanceToNextMatch {
        distanceToNextMatch := candidateDist;
        matchChainPos := pos;
        accel := 16;
      }
      pos := pos + step;
    }
  }

  datatype Action = FollowChain | NextAttempt | Stop

  /** A jump along one chain leads to an inserted position, or out of the window. */
  lemma LinkLeads(g: Segments, chain: seq<nat>, q: Query, i: nat)
    requires q.Ok(g) && LinksOk(g, chain, g.lowLimit + q.ip) && g.Inserted(i, g.lowLimit + q.ip) && i >= q.Lowest(g)
    ensures var c := chain[i % LZ4HC_MAXD];
      1 <= c <= MAXDISTANCE && (i - c >= q.Lowest(g) ==> g.Inserted(i - c, g.lowLimit + q.ip))
  {
    hide Segments.Key;
    assert LinkOk(g, i, chain[i % LZ4HC_MAXD], g.lowLimit + q.ip);
  }

  /** Whether the bytes at ip repeat one byte, and for how long. */
  method TestRepeat(g: Segments, q: Query) returns (repeat: Repeat, srcPatternLength: nat)
    requires q.Ok(g)
    ensures !repeat.Untested? && (repeat.Confirmed? ==> SourcePattern(g, q, srcPatternLength))
  {
    hide Pattern.Value;
    var pattern := PatternAt(g.whole, q.ip);
    OneByte(pattern);
    var v := pattern.Value();
    if v % 0x1_0000 == v / 0x1_0000 && v % 0x100 == v / 0x100_0000 {
      var more := CountPattern(g.whole, q.ip + 4, q.iHigh, pattern);
      return Confirmed, more + 4;
    }
    return Not, 0;
  }

  /** Places the candidate inside a segment of the pattern: at the end if the source pattern fits, at the beginning otherwise. */
  method JumpPattern(tables: Tables, g: Segments, q: Query, s0: State, candidate: nat, fwd: nat, back: nat)
    returns (s: State)
    requires SearchOk(g, q, s0) && s0.repeat.Confirmed? && tables.IndexOk(g) && tables.nextToUpdate == g.lowLimit + q.ip
    requires q.Lowest(g) <= candidate < s0.matchIndex && back <= candidate - q.Lowest(g) && ProtectDictEnd(g, candidate)
    requires fwd >= 4 && candidate - g.lowLimit + fwd <= q.iHigh
    requires AllAre(g.whole, candidate - g.lowLimit - back, candidate - g.lowLimit + fwd, g.whole[q.ip])
    ensures SearchOk(g, q, s) && s.matchChainPos == s0.matchChainPos && s.longest >= s0.longest
  {
    hide Found, HeadsOk, LinksOk, Segments.Key, Best, Searchable;
    var currentSegmentLength, t := back + fwd, g.lowLimit + q.ip;
    s := s0;
    if currentSegmentLength >= s.srcPatternLength && fwd <= s.srcPatternLength {
      var newMatchIndex := candidate + fwd - s.srcPatternLength;
      return s.(matchIndex := if ProtectDictEnd(g, newMatchIndex) then newMatchIndex else g.dictLimit);
    }
    var newMatchIndex := candidate - back;
    if !ProtectDictEnd(g, newMatchIndex) { return s.(matchIndex := g.dictLimit); }
    s := s.(matchIndex := newMatchIndex);
    if q.ip == q.iLow {
      var maxML := if currentSegmentLength < s.srcPatternLength then currentSegmentLength else s.srcPatternLength;
      if s.longest < maxML {
        assert t - newMatchIndex <= MAXDISTANCE;
        PatternFound(g, q, s, newMatchIndex - g.lowLimit, maxML);
        s := s.(longest := maxML, from := newMatchIndex - g.lowLimit, start := q.ip);
      }
      LinkLeads(g, tables.chainTable[..], q, newMatchIndex);
      s := s.(matchIndex := newMatchIndex - tables.chainTable[newMatchIndex % LZ4HC_MAXD]);
    }
  }

  /** Two runs of the same byte are a match. */
  lemma PatternFound(g: Segments, q: Query, s: State, m: nat, n: nat)
    requires SearchOk(g, q, s) && q.ip == q.iLow && s.longest < n
    requires m < q.ip && q.ip - m <= MAXDISTANCE && SourcePattern(g, q, n) && AllAre(g.whole, m, m + n, g.whole[q.ip])
    ensures Best(g, q.ip, q.iLow, q.iHigh, q.longest, n, m, q.ip) && Searchable(g, q.ip, q.iLow, q.iHigh, n)
  {
    IsFound(g, q.ip, m, n);
  }

  /** The jump to a better chain, after a match as long as the best one. */
  method SwapStep(tables: Tables, g: Segments, q: Query, s0: State, matchLength: nat) returns (jumped: bool, s: State)
    requires SearchOk(g, q, s0) && s0.matchIndex >= q.Lowest(g) && (matchLength == 0 || matchLength >= MINMATCH)
    requires tables.IndexOk(g) && tables.nextToUpdate == g.lowLimit + q.ip
    ensures SearchOk(g, q, s) && (!jumped ==> s.matchIndex == s0.matchIndex) && s.longest == s0.longest
    ensures !q.chainSwap ==> !jumped && s == s0
  {
    hide Found, HeadsOk, Segments.Key;
    s := s0;
    if !(q.chainSwap && matchLength == s.longest) { return false, s; }
    if s.matchIndex + s.longest > g.lowLimit + q.ip { return false, s; }
    var distanceToNextMatch, matchChainPos := SwapChain(tables.chainTable, s.matchIndex, s.longest, s.matchChainPos);
    s := s.(matchChainPos := matchChainPos);
    if distanceToNextMatch > 1 {
      assert distanceToNextMatch <= s.matchIndex;  // indexes start at 64 KB: no overflow
      return true, s.(matchIndex := s.matchIndex - distanceToNextMatch);
    }
    return false, s;
  }

  /** The analysis of repeated patterns. */
  method PatternStep(tables: Tables, g: Segments, q: Query, s0: State) returns (jumped: bool, s: State)
    requires SearchOk(g, q, s0) && s0.matchIndex >= q.Lowest(g)
    requires tables.IndexOk(g) && tables.nextToUpdate == g.lowLimit + q.ip
    ensures SearchOk(g, q, s) && s.matchChainPos == s0.matchChainPos && (!jumped ==> s.matchIndex == s0.matchIndex)
    ensures s.longest >= s0.longest && (!q.patternAnalysis ==> !jumped && s == s0)
  {
    hide Found, HeadsOk, LinksOk, Segments.Key, Read32;
    s := s0;
    if !(q.patternAnalysis && tables.chainTable[s.matchIndex % LZ4HC_MAXD] == 1 && s.matchChainPos == 0) { return false, s; }
    var matchCandidateIdx := s.matchIndex - 1;
    if s.repeat.Untested? {
      var repeat, srcPatternLength := TestRepeat(g, q);
      s := s.(repeat := repeat, srcPatternLength := srcPatternLength);
    }
    if !(s.repeat.Confirmed? && matchCandidateIdx >= q.Lowest(g) && ProtectDictEnd(g, matchCandidateIdx)) { return false, s; }
    var m, b := matchCandidateIdx - g.lowLimit, g.whole[q.ip];
    if Read32(g.whole, m) != Read32(g.whole, q.ip) { return false, s; }
    Read32Equal(g.whole, q.ip, q.ip - m);
    FourBytes(g, q, m);
    var fwd := ForwardPattern(g, m, q.iHigh, b);
    var back := BackwardPattern(g, m, q.Lowest(g), b);
    s := JumpPattern(tables, g, q, s, matchCandidateIdx, fwd, back);
    jumped := true;
  }

  lemma FourBytes(g: Segments, q: Query, m: nat)
    requires q.Ok(g) && m < q.ip && AllAre(g.whole, q.ip, q.ip + 4, g.whole[q.ip]) && Same(g.whole, q.ip - m, q.ip, q.ip + 4)
    ensures AllAre(g.whole, m, m + 4, g.whole[q.ip])
  {
    forall k | m <= k < m + 4 ensures g.whole[k] == g.whole[q.ip] {
      assert g.whole[k + (q.ip - m)] == g.whole[k];
    }
  }

  /** One attempt. */
  method Attempt(tables: Tables, g: Segments, beyond: seq<byte>, q: Query, s0: State) returns (s: State)
    requires SearchOk(g, q, s0) && s0.matchIndex >= q.Lowest(g) && |beyond| == 3
    requires tables.IndexOk(g) && tables.nextToUpdate == g.lowLimit + q.ip
    ensures SearchOk(g, q, s) && s.longest >= s0.longest && Beaten(g, q, s0.matchIndex, s.longest)
    ensures q.Plain() && s0.matchChainPos == 0 ==>
      s.matchChainPos == 0 && s.matchIndex == s0.matchIndex - tables.chainTable[s0.matchIndex % LZ4HC_MAXD]
  {
    hide Found, HeadsOk, Segments.Key, Best, Searchable, FullMatch;
    var matchLength, jumped;
    matchLength, s := Compare(g, beyond, q, s0);
    ghost var compared := s.longest;
    jumped, s := SwapStep(tables, g, q, s, matchLength);
    if jumped { return; }
    jumped, s := PatternStep(tables, g, q, s);
    BeatenMore(g, q, s0.matchIndex, compared, s.longest);
    if jumped { return; }
    if g.Inserted(s.matchIndex, g.lowLimit + q.ip) { LinkLeads(g, tables.chainTable[..], q, s.matchIndex); }
    s := s.(matchIndex := s.matchIndex - tables.chainTable[(s.matchIndex + s.matchChainPos) % LZ4HC_MAXD]);
  }

  /** The positions before q.ip, in the window, with the same hash, nearest first. */
  ghost function Candidates(g: Segments, q: Query): seq<nat>
    requires q.Ok(g)
  {
    Scan(g, HashPtr(g.whole, q.ip), g.lowLimit + q.ip - 1, q.Lowest(g), g.lowLimit + q.ip)
  }

  /**
    The nearest candidate offers no more than longest; and when chains are followed link by link, neither do the others, as
    many as there are attempts.
   */
  ghost predicate Complete(g: Segments, q: Query, attempts: nat, longest: nat)
    requires q.Ok(g)
  {
    var c := Candidates(g, q);
    forall k :: 0 <= k < |c| && k < attempts && (k == 0 || q.Plain()) ==> Beaten(g, q, c[k], longest)
  }

  /** The candidates that have been visited, and those that are still to come. */
  ghost predicate Visited(g: Segments, q: Query, chain: seq<nat>, all: seq<nat>, visited: seq<nat>, s: State)
    requires q.Ok(g) && |chain| == LZ4HC_MAXD
  {
    && (visited == [] || q.Plain() ==> visited + Follow(chain, s.matchIndex, q.Lowest(g)) == all)
    && (visited == [] || q.Plain() ==> s.matchChainPos == 0)
    && (visited != [] ==> all != [] && visited[0] == all[0])
    && (forall k :: 0 <= k < |visited| && (k == 0 || q.Plain()) ==> Beaten(g, q, visited[k], s.longest))
  }

  lemma VisitedNext(g: Segments, q: Query, chain: seq<nat>, all: seq<nat>, visited: seq<nat>, s0: State, s: State)
    requires q.Ok(g) && |chain| == LZ4HC_MAXD && Visited(g, q, chain, all, visited, s0)
    requires s0.matchIndex >= q.Lowest(g) && s.longest >= s0.longest && Beaten(g, q, s0.matchIndex, s.longest)
    requires q.Plain() ==> chain[s0.matchIndex % LZ4HC_MAXD] > 0
    requires q.Plain() && s0.matchChainPos == 0 ==>
      s.matchChainPos == 0 && s.matchIndex == s0.matchIndex - chain[s0.matchIndex % LZ4HC_MAXD]
    ensures Visited(g, q, chain, all, visited + [s0.matchIndex], s)
  {
    hide FullMatch, Beaten;
    var visited' := visited + [s0.matchIndex];
    assert Follow(chain, s0.matchIndex, q.Lowest(g))[0] == s0.matchIndex;
    if q.Plain() {
      var rest := Follow(chain, s.matchIndex, q.Lowest(g));
      assert visited + ([s0.matchIndex] + rest) == visited' + rest;
    }
    forall k | 0 <= k < |visited'| && (k == 0 || q.Plain()) ensures Beaten(g, q, visited'[k], s.longest) {
      if k < |visited| { BeatenMore(g, q, visited[k], s0.longest, s.longest); }
    }
  }

  lemma VisitedAll(g: Segments, q: Query, chain: seq<nat>, visited: seq<nat>, s: State, attempts: nat)
    requires q.Ok(g) && |chain| == LZ4HC_MAXD && Visited(g, q, chain, Candidates(g, q), visited, s)
    requires s.matchIndex < q.Lowest(g) || |visited| == attempts
    ensures Complete(g, q, attempts, s.longest)
  {
    hide FullMatch, Beaten, Candidates;
    var c := Candidates(g, q);
    forall k | 0 <= k < |c| && k < attempts && (k == 0 || q.Plain()) ensures Beaten(g, q, c[k], s.longest) {
      assert visited + Follow(chain, s.matchIndex, q.Lowest(g)) == c ==> k < |visited| ==> visited[k] == c[k];
    }
  }

  /**
    LZ4HC_InsertAndGetWiderMatch without a dictionary context. A length above the one asked for comes with a genuine
    match in reach and inside the limits, through all jumps between chains and along repeated patterns; and none of the
    positions that are sure to be visited has more to offer.
   */
  method InsertAndGetWiderMatch(tables: Tables, g: Segments, beyond: seq<byte>, q: Query, maxNbAttempts: nat)
    returns (longest: nat, from: nat, start: nat)
    requires q.Ok(g) && |beyond| == 3 && tables.IndexOk(g) && tables.nextToUpdate <= g.lowLimit + q.ip
    modifies tables, tables.hashTable, tables.chainTable
    ensures tables.IndexOk(g) && tables.nextToUpdate == g.lowLimit + q.ip
    ensures Best(g, q.ip, q.iLow, q.iHigh, q.longest, longest, from, start)
    ensures Complete(g, q, maxNbAttempts, longest)
  {
    hide Found, LinksOk, Segments.Key, Complete, Candidates, Visited, Best, Searchable;
    QueryBounds(g, q);
    tables.Insert(g, g.lowLimit + q.ip);
    var nbAttempts := maxNbAttempts;
    var h := HashPtr(g.whole, q.ip);
    assert HeadOk(g, tables.hashTable[..][h], h, g.lowLimit + q.ip);
    var s := State(q.longest, 0, 0, tables.hashTable[h], 0, Untested, 0);
    ghost var chain, visited: seq<nat> := tables.chainTable[..], [];
    SearchStarts(tables, g, q, s);
    while s.matchIndex >= q.Lowest(g) && nbAttempts > 0
      invariant SearchOk(g, q, s) && tables.IndexOk(g) && tables.nextToUpdate == g.lowLimit + q.ip
      invariant |chain| == LZ4HC_MAXD && chain == tables.chainTable[..]
      invariant Visited(g, q, chain, Candidates(g, q), visited, s) && |visited| + nbAttempts == maxNbAttempts
      decreases nbAttempts
    {
      nbAttempts := nbAttempts - 1;
      ghost var s0 := s;
      s := Attempt(tables, g, beyond, q, s);
      if q.Plain() { PlainLink(g, chain, q, s0); }
      VisitedNext(g, q, chain, Candidates(g, q), visited, s0, s);
      visited := visited + [s0.matchIndex];
    }
    VisitedAll(g, q, chain, visited, s, maxNbAttempts);
    return s.longest, s.from, s.start;
  }

  lemma UniformHash(w: seq<byte>)
    requires Uniform(w) && |w| >= 5
    ensures HashPtr(w, 0) == HashPtr(w, 1)
  {
    assert Read32(w, 0) == Read32(w, 1);
  }

  /** In equal bytes without anything before them, the only candidate at position 1 is position 0. */
  lemma UniformCandidate(g: Segments, q: Query)
    requires q.Ok(g) && g.D() == 0 && Uniform(g.whole) && q.ip == 1
    ensures Candidates(g, q) == [g.lowLimit]
  {
    hide Searchable, HashPtr, Uniform;
    QueryBounds(g, q);
    UniformHash(g.whole);
    assert Scan(g, HashPtr(g.whole, 1), g.lowLimit - 1, q.Lowest(g), g.lowLimit + 1) == [];
  }

  lemma UniformMatch(g: Segments, q: Query)
    requires q.Ok(g) && g.D() == 0 && Uniform(g.whole) && q.ip == q.iLow == 1
    ensures FullMatch(g, 1, 1, q.iHigh, 0) == q.iHigh - 1
  {
    hide Searchable;
    QueryLimit(g, q);
    assert CommonRun(g.whole, 1, 1, q.iHigh, q.iHigh - 1);
    RunLengthUnique(g.whole, 1, 1, q.iHigh, q.iHigh - 1);
  }

  lemma QueryLimit(g: Segments, q: Query)
    requires q.Ok(g)
    ensures q.ip + MINMATCH <= q.iHigh <= |g.whole|
  {
  }

  /** So the search finds it. */
  lemma UniformFound(g: Segments, q: Query, attempts: nat, longest: nat)
    requires q.Ok(g) && g.D() == 0 && Uniform(g.whole) && q.ip == q.iLow == 1 && !q.favorDecSpeed
    requires attempts > 0 && Complete(g, q, attempts, longest)
    ensures longest >= q.iHigh - 1
  {
    hide FullMatch, Candidates, Searchable;
    UniformCandidate(g, q);
    UniformMatch(g, q);
    QueryBounds(g, q);
    assert Beaten(g, q, Candidates(g, q)[0], longest);
  }

  lemma QueryBounds(g: Segments, q: Query)
    requires q.Ok(g)
    ensures g.Ok() && g.D() <= q.ip && q.ip + MINMATCH + LASTLITERALS <= |g.whole|
  {
  }

  lemma PlainLink(g: Segments, chain: seq<nat>, q: Query, s: State)
    requires SearchOk(g, q, s) && q.Plain() && s.matchIndex >= q.Lowest(g) && LinksOk(g, chain, g.lowLimit + q.ip)
    ensures chain[s.matchIndex % LZ4HC_MAXD] > 0
  {
    hide LinksOk, Best, Segments.Key;
    LinkLeads(g, chain, q, s.matchIndex);
  }

  /** Following the chain from the head of the hash table is going through the candidates. */
  lemma SearchStarts(tables: Tables, g: Segments, q: Query, s: State)
    requires q.Ok(g) && tables.IndexOk(g) && tables.nextToUpdate == g.lowLimit + q.ip
    requires s.matchIndex == tables.hashTable[HashPtr(g.whole, q.ip)] && s.matchChainPos == 0 && s.longest == q.longest
    ensures Best(g, q.ip, q.iLow, q.iHigh, q.longest, s.longest, s.from, s.start)
    ensures Visited(g, q, tables.chainTable[..], Candidates(g, q), [], s)
  {
    hide HashPtr, HeadsOk, LinksOk, Follow, Scan;
    var h := HashPtr(g.whole, q.ip);
    SearchIsScan(g, tables.hashTable[..], tables.chainTable[..], h, q.Lowest(g), g.lowLimit + q.ip);
    assert [] + Candidates(g, q) == Candidates(g, q);
  }
}
