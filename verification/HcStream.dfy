/** LZ4_streamHC_t: high compression of one block, or of blocks that follow each other. */
module HcStream {
  import opened BlockFormat
  import opened BlockEncoder
  import opened BlockStream
  import opened GreedyParse
  import opened HcIndex
  import opened HcHashChain
  import opened HcOptimal
  import opened Memory
  import opened Window

  const LZ4HC_CLEVEL_DEFAULT := 9
  const LZ4HC_CLEVEL_OPT_MIN := 10
  const LZ4HC_CLEVEL_MAX := 12
  const GB2 := 0x8000_0000

  /** The level a request stands for. */
  function Level(cLevel: int): (r: nat)
    ensures 1 <= r <= LZ4HC_CLEVEL_MAX
  {
    if cLevel < 1 then LZ4HC_CLEVEL_DEFAULT else if cLevel > LZ4HC_CLEVEL_MAX then LZ4HC_CLEVEL_MAX else cLevel
  }

  /** clTable: number of searches, and the length that is good enough for the optimal parser. */
  function NbSearches(level: nat): (r: nat)
    ensures r > 0
  {
    if level <= 2 then 2
    else if level <= 9 then [4, 8, 16, 32, 64, 128, 256][level - 3]
    else if level == 10 then 96 else if level == 11 then 512 else 16384
  }

  function TargetLength(level: nat): nat {
    if level < LZ4HC_CLEVEL_OPT_MIN then 16 else if level == 10 then 64 else if level == 11 then 128 else LZ4_OPT_NUM
  }

  /** n equal bytes without history become one literal and one match at this level, at once. */
  ghost predicate RunAtOnce(text: seq<byte>, level: nat, favorDecSpeed: bool) {
    && Uniform(text) && |text| >= LZ4_minLength
    && (level < LZ4HC_CLEVEL_OPT_MIN || (!favorDecSpeed && (|text| > TargetLength(level) + 6 || |text| > LZ4_OPT_NUM + 5)))
  }

  /** The block is what the parser of this level comes to, every one of its searches answered in turn. */
  ghost predicate HcMade(job: Job, level: nat, favorDecSpeed: bool, block: seq<byte>) {
    && job.Ok() && job.maxNbAttempts == NbSearches(level)
    && if level < LZ4HC_CLEVEL_OPT_MIN then exists answers :: HcHashChain.Parsed(job, answers, block)
       else
         var e := Effort(TargetLength(level), level == LZ4HC_CLEVEL_MAX, favorDecSpeed);
         exists rounds :: HcOptimal.Parsed(job, rounds, e, block)
  }

  /** LZ4HC_compress_generic_internal, without output to fill. */
  method CompressGeneric(dst: array<byte>, d0: nat, cap: nat, limit: OutputLimit, tables: Tables, g: Segments, beyond: seq<byte>,
                         s: nat, cLevel: int, favorDecSpeed: bool)
    returns (result: nat)
    requires tables.IndexOk(g) && g.D() <= s <= |g.whole| && |beyond| == 3 && tables.nextToUpdate <= g.lowLimit + s
    requires d0 + cap <= dst.Length && !limit.FillOutput? && (limit.NotLimited? ==> CompressBound(|g.whole| - s) <= cap)
    modifies dst, tables, tables.hashTable, tables.chainTable
    ensures tables.IndexOk(g)
    ensures forall i :: 0 <= i < dst.Length && !(d0 <= i < d0 + cap) ==> dst[i] == old(dst[i])
    ensures result == 0 ==> limit.LimitedOutput? && CompressBound(|g.whole| - s) > cap
    ensures result > 0 ==>
      result <= cap && result <= CompressBound(|g.whole| - s) && Represents(dst[d0..d0 + result], g.whole[..s], g.whole[s..])
    ensures s == g.D() == 0 && RunAtOnce(g.whole, Level(cLevel), favorDecSpeed) && RunSize(|g.whole|) <= cap ==>
      result == RunSize(|g.whole|)
    ensures result > 0 ==> HcMade(Job(g, beyond, s, NbSearches(Level(cLevel))), Level(cLevel), favorDecSpeed, dst[d0..d0 + result])
  {
    hide Tables.IndexOk, Represents, Uniform, RunSize, HcHashChain.Parsed, HcOptimal.Parsed, NbSearches, TargetLength;
    var level := Level(cLevel);
    var job, room := Job(g, beyond, s, NbSearches(level)), Room(limit, d0 + cap);
    IndexedIsOk(tables, g);
    if level < LZ4HC_CLEVEL_OPT_MIN {
      ghost var answers;
      result, answers := CompressHashChain(dst, d0, room, tables, job);
    } else {
      ghost var rounds;
      result, rounds := CompressOptimal(dst, d0, room, tables, job, TargetLength(level), level == LZ4HC_CLEVEL_MAX, favorDecSpeed);
    }
  }

  lemma IndexedIsOk(tables: Tables, g: Segments)
    requires tables.IndexOk(g)
    ensures g.Ok() && g.dictLimit <= tables.nextToUpdate <= g.End()
  {
  }

  lemma IsBlockMade(out: seq<byte>, before: seq<byte>, d0: nat, cap: nat, result: nat, n: nat, whole: seq<byte>,
                    history: seq<byte>, text: seq<byte>)
    requires whole == history + text && |text| == n && |out| == |before| && d0 + cap <= |out|
    requires forall i :: 0 <= i < |out| && !(d0 <= i < d0 + cap) ==> out[i] == before[i]
    requires result == 0 ==> CompressBound(|whole| - |history|) > cap
    requires result > 0 ==> result <= cap && result <= CompressBound(|whole| - |history|)
    requires result > 0 ==> Represents(out[d0..d0 + result], whole[..|history|], whole[|history|..])
    ensures BlockMade(out, before, d0, cap, result, n, history, text)
  {
    hide Represents;
    assert whole[..|history|] == history && whole[|history|..] == text;
  }

  lemma SameTail(a: seq<byte>, b: seq<byte>, n: nat)
    requires n <= |b|
    ensures (a + b)[|a + b| - n..] == b[|b| - n..]
  {
  }

  class StreamHC {
    const tables: Tables
    var compressionLevel: int
    var favorDecSpeed: bool
    var dirty: bool
    /** Whether base is set; if it is not, how far the indexes of the last stream went. */
    var started: bool
    var endOffset: nat
    /** The dictionary and, from index dictLimit on, the prefix. */
    var dict: array?<byte>
    var dictStart: nat
    var dictSize: nat
    var prefix: array?<byte>
    var prefixStart: nat
    var prefixSize: nat
    var dictLimit: nat

    /** What the next block can refer to. */
    ghost function History(): seq<byte>
      reads `started, `dict, `dictStart, `dictSize, `prefix, `prefixStart, `prefixSize, dict, prefix
    {
      if started then Slice(dict, dictStart, dictSize) + Slice(prefix, prefixStart, prefixSize) else []
    }

    ghost predicate Placed()
      reads `dict, `dictStart, `dictSize, `prefix, `prefixStart, `prefixSize, `dictLimit
    {
      Within(dict, dictStart, dictSize) && Within(prefix, prefixStart, prefixSize) && dictSize <= dictLimit
    }

    /** The tables are right for the history, or for anything that starts afresh. */
    ghost predicate Valid()
      reads this, tables, tables.hashTable, tables.chainTable, dict, prefix
    {
      && Placed()
      && (if started then tables.IndexOk(Segments(History(), dictLimit - dictSize, dictLimit)) else tables.Reusable(endOffset))
    }

    /** What does not change while a stream is used: where its tables are. */
    ghost predicate TablesThere()
      reads tables
    {
      tables.hashTable.Length == LZ4HC_HASHTABLESIZE && tables.chainTable.Length == LZ4HC_MAXD && tables.hashTable != tables.chainTable
    }

    /** LZ4_createStreamHC, or LZ4_initStreamHC and LZ4_setCompressionLevel. */
    constructor (cLevel: int)
      ensures Valid() && TablesThere() && !started && History() == [] && compressionLevel == Level(cLevel) && !favorDecSpeed
      ensures fresh(tables) && fresh(tables.hashTable) && fresh(tables.chainTable)
    {
      tables := new Tables();
      compressionLevel, favorDecSpeed, dirty, started, endOffset := Level(cLevel), false, false, false, 0;
      dict, dictStart, dictSize := null, 0, 0;
      prefix, prefixStart, prefixSize, dictLimit := null, 0, 0, 0;
    }

    /** LZ4_resetStreamHC_fast: the tables stay as they are, unless compression has failed. */
    method ResetFast(cLevel: int)
      requires Valid() && TablesThere()
      modifies this, tables.hashTable, tables.chainTable
      ensures Valid() && !started && !dirty
    {
      hide Tables.IndexOk;
      if dirty {
        tables.Zero();
        favorDecSpeed, dirty, endOffset := false, false, 0;
      } else if started {
        tables.EarlierStream(Segments(History(), dictLimit - dictSize, dictLimit));
        endOffset := dictLimit + prefixSize;
      }
      started := false;
      compressionLevel := Level(cLevel);
    }

    /** LZ4HC_init_internal: a stream starts at src[s0..]. */
    method Start(src: array<byte>, s0: nat)
      requires Valid() && !started && s0 <= src.Length
      modifies this, tables, tables.hashTable, tables.chainTable
      ensures Valid() && started && History() == [] && prefix == src && prefixStart == s0 && dictSize == prefixSize == 0 && dict == null
      ensures dirty == old(dirty) && compressionLevel == old(compressionLevel) && favorDecSpeed == old(favorDecSpeed)
      ensures dictLimit <= HcIndex.GB1 + KB64
    {
      hide Tables.IndexOk, Tables.Reusable, Slice;
      var limit := tables.Init(endOffset);
      Restart(src, s0, limit);
    }

    /** The fields at the start of a stream. */
    method Restart(src: array<byte>, s0: nat, limit: nat)
      requires s0 <= src.Length
      modifies `started, `dict, `dictStart, `dictSize, `prefix, `prefixStart, `prefixSize, `dictLimit
      ensures Placed() && started && History() == [] && dictLimit == limit
      ensures prefix == src && prefixStart == s0 && dictSize == prefixSize == 0 && dict == null
    {
      dictLimit, started := limit, true;
      dict, dictStart, dictSize := null, 0, 0;
      prefix, prefixStart, prefixSize := src, s0, 0;
      assert History() == [];
    }

    lemma PrefixOnly()
      requires started && dictSize == 0
      ensures History() == Slice(prefix, prefixStart, prefixSize)
    {
      assert Slice(dict, dictStart, 0) == [];
    }

    /** Only the last bytes of the prefix, up to 64 KB, are kept. */
    method KeepTail()
      requires Placed() && started
      modifies `dict, `dictStart, `dictSize, `prefixStart, `prefixSize
      ensures Placed() && dict == null && dictSize == 0
      ensures prefixStart + prefixSize == old(prefixStart + prefixSize) && prefixStart >= old(prefixStart)
      ensures prefixSize == (if old(prefixSize) > KB64 then KB64 else old(prefixSize)) && prefix == old(prefix)
      ensures EndsWith(old(History()), Slice(prefix, prefixStart, prefixSize))
    {
      hide Slice, EndsWith;
      var size := if prefixSize > KB64 then KB64 else prefixSize;
      var start := prefixStart + prefixSize - size;
      ghost var history := History();
      assert EndsWith(history, Slice(prefix, start, size)) by {
        SliceEnd(prefix, prefixStart, prefixSize, size);
        TailOfBoth(Slice(dict, dictStart, dictSize), Slice(prefix, prefixStart, prefixSize), size);
      }
      prefixStart, prefixSize := start, size;
      dict, dictStart, dictSize := null, 0, 0;
    }

    /** LZ4_loadDictHC, of the last 64 KB of the prefix, before indexes get too large. */
    method Reload()
      requires Valid() && TablesThere() && started
      modifies this, tables, tables.hashTable, tables.chainTable
      ensures Valid() && started && EndsWith(old(History()), History())
      ensures prefix == old(prefix) && prefixStart + prefixSize == old(prefixStart + prefixSize) && dict == null && dictSize == 0
      ensures prefixStart >= old(prefixStart) && compressionLevel == old(compressionLevel) && dictLimit == KB64
      ensures prefixSize == (if old(prefixSize) > KB64 then KB64 else old(prefixSize)) && History() == Slice(prefix, prefixStart, prefixSize)
    {
      hide Tables.IndexOk, Tables.Reusable, Slice, EndsWith;
      KeepTail();
      favorDecSpeed, dirty := false, false;
      dictLimit := tables.Load(Slice(prefix, prefixStart, prefixSize));
      PrefixOnly();
    }

    /** The new block is not put over what it may refer to. */
    predicate Elsewhere(src: array<byte>, s0: nat, n: nat)
      reads `dict, `dictStart, `dictSize, `prefix, `prefixStart, `prefixSize
    {
      && (dict == src ==> dictStart + dictSize <= s0 || s0 + n <= dictStart)
      && (prefix == src ==> prefixStart + prefixSize <= s0 || s0 + n <= prefixStart)
    }

    /** Check if blocks follow each other: if not, the prefix becomes the dictionary. */
    method Follow(src: array<byte>, s0: nat)
      requires Valid() && started && s0 <= src.Length
      modifies this, tables, tables.hashTable, tables.chainTable
      ensures Valid() && started && EndsWith(old(History()), History()) && compressionLevel == old(compressionLevel)
      ensures prefix == src && prefixStart + prefixSize == s0
      ensures dict == old(dict) || dict == old(prefix)
      ensures History() == old(if prefix == src && prefixStart + prefixSize == s0 then History() else Slice(prefix, prefixStart, prefixSize))
    {
      hide Tables.IndexOk, Slice, EndsWith;
      ghost var history := History();
      if prefix == src && prefixStart + prefixSize == s0 {
        assert EndsWith(history, history) by { TailOfBoth([], history, |history|); }
        return;
      }
      assert EndsWith(history, Slice(prefix, prefixStart, prefixSize)) by {
        TailOfBoth(Slice(dict, dictStart, dictSize), Slice(prefix, prefixStart, prefixSize), prefixSize);
      }
      PrefixToDict();
      BecomeDict(src, s0);
    }

    /** The tables for the prefix as a dictionary. */
    method PrefixToDict()
      requires Valid() && started
      modifies tables, tables.hashTable, tables.chainTable
      ensures tables.IndexOk(Segments(Slice(prefix, prefixStart, prefixSize), dictLimit, dictLimit + prefixSize))
    {
      hide Tables.IndexOk, Slice;
      var g := Segments(Slice(dict, dictStart, dictSize) + Slice(prefix, prefixStart, prefixSize), dictLimit - dictSize, dictLimit);
      assert g.whole[dictSize..] == Slice(prefix, prefixStart, prefixSize);
      tables.SetExternalDict(g);
    }

    /** The tables for the last n bytes of the prefix alone. */
    method PrefixEnd(n: nat)
      requires Valid() && started && n <= prefixSize
      modifies tables`nextToUpdate
      ensures var low := dictLimit + prefixSize - n;
        tables.IndexOk(Segments(Slice(prefix, prefixStart + prefixSize - n, n), low, low))
    {
      hide Tables.IndexOk, Slice;
      var g := Segments(Slice(dict, dictStart, dictSize) + Slice(prefix, prefixStart, prefixSize), dictLimit - dictSize, dictLimit);
      SliceEnd(prefix, prefixStart, prefixSize, n);
      SameTail(Slice(dict, dictStart, dictSize), Slice(prefix, prefixStart, prefixSize), n);
      tables.KeepLast(g, n);
    }

    /** A new place for the whole history. */
    method Place(mem: array<byte>, start: nat, size: nat, limit: nat)
      requires Within(mem, start, size) && started
      modifies `dict, `dictStart, `dictSize, `prefix, `prefixStart, `prefixSize, `dictLimit
      ensures Placed() && History() == Slice(mem, start, size) && dictLimit == limit && dictSize == 0
      ensures prefix == mem && prefixStart == start && prefixSize == size
    {
      dictLimit := limit;
      dict, dictStart, dictSize := null, 0, 0;
      prefix, prefixStart, prefixSize := mem, start, size;
      PrefixOnly();
    }

    /** The fields of LZ4HC_setExternalDict. */
    method BecomeDict(src: array<byte>, s0: nat)
      requires Placed() && started && s0 <= src.Length
      modifies `dict, `dictStart, `dictSize, `prefix, `prefixStart, `prefixSize, `dictLimit
      ensures Placed() && History() == old(Slice(prefix, prefixStart, prefixSize)) && dict == old(prefix)
      ensures prefix == src && prefixStart == s0 && prefixSize == 0
      ensures dictLimit == old(dictLimit + prefixSize) && dictSize == old(prefixSize)
    {
      dictLimit := dictLimit + prefixSize;
      dict, dictStart, dictSize := prefix, prefixStart, prefixSize;
      prefix, prefixStart, prefixSize := src, s0, 0;
      assert Slice(src, s0, 0) == [];
    }

    /** Compresses the block that follows the prefix. */
    method CompressHere(n: nat, dst: array<byte>, d0: nat, cap: nat, limit: OutputLimit, beyond: seq<byte>, ghost text: seq<byte>)
      returns (result: nat, ghost job: Job)
      requires Valid() && started && prefix != null && prefixStart + prefixSize + n <= prefix.Length && |beyond| == 3
      requires text == prefix[prefixStart + prefixSize..prefixStart + prefixSize + n]
      requires d0 + cap <= dst.Length && dst != dict && dst != prefix
      requires !limit.FillOutput? && (limit.NotLimited? ==> CompressBound(n) <= cap)
      modifies `prefixSize, `dirty, tables, tables.hashTable, tables.chainTable, dst
      ensures Valid() && started && prefixSize == old(prefixSize) + n && History() == old(History()) + text
      ensures BlockMade(dst[..], old(dst[..]), d0, cap, result, n, old(History()), text)
      ensures old(History()) == [] && RunAtOnce(text, Level(compressionLevel), favorDecSpeed) && RunSize(n) <= cap ==> result == RunSize(n)
      ensures job.s == |old(History())| && job.g.whole == old(History()) + text
      ensures result > 0 ==> d0 + result <= dst.Length && HcMade(job, Level(compressionLevel), favorDecSpeed, dst[d0..d0 + result])
    {
      hide Tables.IndexOk, Slice, Represents, BlockMade, RunAtOnce, RunSize, HcMade;
      ghost var before := dst[..];
      var history := Slice(dict, dictStart, dictSize) + Slice(prefix, prefixStart, prefixSize);
      var whole := history + Slice(prefix, prefixStart + prefixSize, n);
      SliceIs(prefix, prefixStart + prefixSize, n);
      HistoryMore(n, whole);
      tables.Longer(Segments(history, dictLimit - dictSize, dictLimit), text);
      IndexedIsOk(tables, Segments(history, dictLimit - dictSize, dictLimit));
      result := CompressGeneric(dst, d0, cap, limit, tables, Segments(whole, dictLimit - dictSize, dictLimit), beyond, |history|,
                                compressionLevel, favorDecSpeed);
      job := Job(Segments(whole, dictLimit - dictSize, dictLimit), beyond, |history|, NbSearches(Level(compressionLevel)));
      assert dst[..][d0..d0 + result] == dst[d0..d0 + result];
      IsBlockMade(dst[..], before, d0, cap, result, n, whole, history, text);
      if history == [] { NoHistory(whole, text); }
      Extend(n, result == 0, whole);
    }

    lemma NoHistory(whole: seq<byte>, text: seq<byte>)
      requires Placed() && Slice(dict, dictStart, dictSize) + Slice(prefix, prefixStart, prefixSize) == []
      requires whole == Slice(dict, dictStart, dictSize) + Slice(prefix, prefixStart, prefixSize) + text
      ensures whole == text && dictSize == 0
    {
      assert |Slice(dict, dictStart, dictSize) + Slice(prefix, prefixStart, prefixSize)| == dictSize + prefixSize;
    }

    lemma HistoryMore(n: nat, whole: seq<byte>)
      requires prefix != null && prefixStart + prefixSize + n <= prefix.Length
      requires whole == Slice(dict, dictStart, dictSize) + Slice(prefix, prefixStart, prefixSize) + Slice(prefix, prefixStart + prefixSize, n)
      ensures whole == Slice(dict, dictStart, dictSize) + Slice(prefix, prefixStart, prefixSize + n)
    {
      hide Slice;
      JoinSlices(prefix, prefixStart, prefixSize, n);
    }

    /** The block becomes part of the prefix. */
    method Extend(n: nat, failed: bool, ghost whole: seq<byte>)
      requires Placed() && started && prefix != null && prefixStart + prefixSize + n <= prefix.Length
      requires whole == Slice(dict, dictStart, dictSize) + Slice(prefix, prefixStart, prefixSize + n)
      requires tables.IndexOk(Segments(whole, dictLimit - dictSize, dictLimit))
      modifies `prefixSize, `dirty
      ensures Valid() && prefixSize == old(prefixSize) + n && History() == whole
    {
      hide Tables.IndexOk, Slice;
      prefixSize := prefixSize + n;
      if failed { dirty := true; }
    }

    /** What of the history the next block can refer to: only the prefix, if the block is put elsewhere, and little after 2 GB. */
    ghost function Remaining(src: array<byte>, s0: nat): seq<byte>
      reads `started, `dict, `dictStart, `dictSize, `prefix, `prefixStart, `prefixSize, `dictLimit, dict, prefix
    {
      if !started then []
      else if dictLimit + prefixSize > GB2 then
        var size := if prefixSize > KB64 then KB64 else prefixSize;
        Slice(prefix, prefixStart + prefixSize - size, size)
      else if prefix == src && prefixStart + prefixSize == s0 then History()
      else Slice(prefix, prefixStart, prefixSize)
    }

    /** The preparations of LZ4_compressHC_continue_generic for a block at src[s0..]. */
    method Prepare(src: array<byte>, s0: nat)
      requires Valid() && TablesThere() && s0 <= src.Length
      modifies this, tables, tables.hashTable, tables.chainTable
      ensures Valid() && started && prefix == src && prefixStart + prefixSize == s0
      ensures dict == null || dict == old(dict) || dict == old(prefix)
      ensures History() == old(Remaining(src, s0)) && EndsWith(old(History()), History())
    {
      hide Tables.IndexOk, Tables.Reusable, EndsWith, Slice;
      ghost var h := History();
      assert EndsWith(h, h) by { TailOfBoth([], h, |h|); }
      if !started {
        Start(src, s0);
        return;
      }
      if dictLimit + prefixSize > GB2 { Reload(); }
      EndsWithTrans(h, h, History());
      ghost var h1 := History();
      Follow(src, s0);
      EndsWithTrans(h, h1, History());
    }

    /**
      LZ4_compress_HC_continue. hist is everything compressed before; the caller has left what the stream refers to alone.
      The block decodes behind hist, and the stream is ready for the next one, whether it fitted or not.
     */
    method Continue(src: array<byte>, s0: nat, n: nat, dst: array<byte>, d0: nat, cap: nat, beyond: seq<byte>, ghost hist: seq<byte>)
      returns (result: nat, ghost job: Job)
      requires Valid() && TablesThere() && n <= LZ4_MAX_INPUT_SIZE && s0 + n <= src.Length && d0 + cap <= dst.Length
      requires dst != src && dst != dict && dst != prefix && |beyond| == 3 && Elsewhere(src, s0, n) && EndsWith(hist, History())
      modifies this, tables, tables.hashTable, tables.chainTable, dst
      ensures Valid() && started && EndsWith(hist + old(src[s0..s0 + n]), History())
      ensures BlockMade(dst[..], old(dst[..]), d0, cap, result, n, hist, old(src[s0..s0 + n]))
      ensures prefix == src && prefixStart + prefixSize == s0 + n
      ensures History() == old(Remaining(src, s0)) + old(src[s0..s0 + n])
      ensures job.s == |old(Remaining(src, s0))| && job.g.whole == History()
      ensures result > 0 ==> d0 + result <= dst.Length && HcMade(job, Level(compressionLevel), favorDecSpeed, dst[d0..d0 + result])
    {
      hide Tables.IndexOk, Tables.Reusable, EndsWith, BlockMade, History, HcMade, Slice, Remaining;
      ghost var text, before := src[s0..s0 + n], dst[..];
      var limit := if cap < LZ4_compressBound(n) then LimitedOutput else NotLimited;
      ghost var h0 := History();
      Prepare(src, s0);
      ghost var h2 := History();
      EndsWithTrans(hist, h0, h2);
      result, job := CompressHere(n, dst, d0, cap, limit, beyond, text);
      EndsWithMore(hist, h2, text);
      BlockMadeAfter(dst[..], before, d0, cap, result, n, hist, h2, text);
    }

    /** LZ4_saveDictHC: the last bytes of the prefix move to a safer place. */
    method SaveDict(safeBuffer: array<byte>, b0: nat, wanted: int) returns (saved: nat)
      requires Valid() && started
      requires b0 + (if wanted < 4 then 0 else if wanted > KB64 then KB64 else wanted) <= safeBuffer.Length
      modifies this, tables`nextToUpdate, safeBuffer
      ensures Valid() && started && EndsWith(old(History()), History()) && |History()| == saved
      ensures saved == Min(if wanted < 4 then 0 else Min(wanted, KB64), old(prefixSize))
      ensures prefix == safeBuffer && prefixStart == b0 && prefixSize == saved && dictSize == 0
    {
      hide Tables.IndexOk, Slice, EndsWith;
      saved := Min(if wanted < 4 then 0 else Min(wanted, KB64), prefixSize);
      ghost var history := History();
      assert EndsWith(history, Slice(prefix, prefixStart + prefixSize - saved, saved)) by {
        SliceEnd(prefix, prefixStart, prefixSize, saved);
        TailOfBoth(Slice(dict, dictStart, dictSize), Slice(prefix, prefixStart, prefixSize), saved);
      }
      PrefixEnd(saved);
      MoveSlice(safeBuffer, b0, prefix, prefixStart + prefixSize - saved, saved, 0, 0);
      Place(safeBuffer, b0, saved, dictLimit + prefixSize - saved);
    }
  }

  /** LZ4_compress_HC: one block, without history. */
  method CompressHC(src: array<byte>, s0: nat, n: nat, dst: array<byte>, d0: nat, cap: nat, cLevel: int)
    returns (result: nat, ghost job: Job)
    requires s0 + n <= src.Length && d0 + cap <= dst.Length && dst != src
    modifies dst
    ensures n <= LZ4_MAX_INPUT_SIZE ==> BlockMade(dst[..], old(dst[..]), d0, cap, result, n, [], old(src[s0..s0 + n]))
    ensures n <= LZ4_MAX_INPUT_SIZE && RunAtOnce(old(src[s0..s0 + n]), Level(cLevel), false) && RunSize(n) <= cap ==> result == RunSize(n)
    ensures n > LZ4_MAX_INPUT_SIZE ==> result == 0 && dst[..] == old(dst[..])
    ensures result > 0 ==>
      && job.s == 0 && job.g.whole == old(src[s0..s0 + n])
      && d0 + result <= dst.Length && HcMade(job, Level(cLevel), false, dst[d0..d0 + result])
  {
    hide Tables.IndexOk, BlockMade, RunAtOnce, RunSize, HcMade;
    job := Job(Segments([], 0, 0), [], 0, 0);
    if n > LZ4_MAX_INPUT_SIZE { return 0, job; }
    var ctx := new StreamHC(cLevel);
    ctx.Start(src, s0);
    var limit := if cap < LZ4_compressBound(n) then LimitedOutput else NotLimited;
    result, job := ctx.CompressHere(n, dst, d0, cap, limit, [0, 0, 0], src[s0..s0 + n]);
  }

  lemma TailOfBoth(a: seq<byte>, b: seq<byte>, n: nat)
    requires n <= |b|
    ensures EndsWith(a + b, b[|b| - n..])
  {
  }
}
