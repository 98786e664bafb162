/** What the sizes, bounds, hashes and levels come to, with every number written out. */
module KnownNumbers {
  import opened BlockFormat
  import BlockStream
  import FrameEncoder
  import opened FrameFormat
  import opened GreedyParse
  import opened HcEncoder
  import opened HcHashChain
  import HcIndex
  import HcOptimal
  import HcStream
  import LogFile

  /** LZ4_compressBound: the largest input, and one more. */
  lemma BlockBounds()
    ensures BlockStream.LZ4_compressBound(0) == 16 && BlockStream.LZ4_compressBound(255) == 272
    ensures BlockStream.LZ4_compressBound(0x7E00_0000) == 2122219150 && BlockStream.LZ4_compressBound(0x7E00_0001) == 0
  {
  }

  /** LZ4F_compressBound, with and without something buffered, and LZ4F_compressFrameBound. */
  lemma FrameBounds()
    ensures var plain, checked := FrameInfo(true, false, false, 4, 0), FrameInfo(false, true, true, 5, 0);
      && FrameEncoder.LZ4F_compressBound(0, FrameEncoder.Preferences(plain, 0, 0, false)) == 65543
      && FrameEncoder.LZ4F_compressBound(1, FrameEncoder.Preferences(plain, 0, 0, false)) == 65544
      && FrameEncoder.LZ4F_compressBound(524293, FrameEncoder.Preferences(checked, 0, 0, true)) == 524325
      && FrameEncoder.LZ4F_compressFrameBound(0, FrameEncoder.Preferences(plain, 0, 0, false)) == 23
  {
  }

  /** The hash of AAAA in a table of 16-bit and of 32-bit indexes, and in the tables for high compression. */
  lemma Hashes(text: seq<byte>)
    requires text == [65, 65, 65, 65]
    ensures Hash(text, 0, ByU16) == 797 && Hash(text, 0, ByU32) == 398 && HcIndex.HashPtr(text, 0) == 3190
  {
    assert Read32(text, 0) == 0x41414141;
    assert 0x41414141 * 2654435761 == 2906064551808915185;
    hide Read32;
  }

  /** At acceleration 1, a search tests 66 positions in a row before it skips one. */
  lemma {:induction false} SixtySixInARow(j: Setup, ip: nat, i: nat)
    requires j.acceleration == 1 && i <= 65
    ensures Tested(j, ip, i) == ip + i
    decreases i
  {
    hide Stride;
    Strides(i);
    if i > 0 { SixtySixInARow(j, ip, i - 1); }
  }

  lemma Strides(i: nat)
    ensures 0 < i <= 65 ==> Stride(1, i - 1) == 1
    ensures Stride(1, 65) == 2 && Stride(1, 129) == 3 && Stride(3, 1) == 3
  {
  }

  /** clTable: searches, and the length that is good enough. */
  lemma Levels()
    ensures HcStream.NbSearches(3) == 4 && HcStream.NbSearches(6) == 32 && HcStream.NbSearches(9) == 256
    ensures HcStream.NbSearches(10) == 96 && HcStream.NbSearches(11) == 512 && HcStream.NbSearches(12) == 16384
    ensures HcStream.TargetLength(9) == 16 && HcStream.TargetLength(10) == 64 && HcStream.TargetLength(12) == 4096
    ensures HcStream.Level(0) == 9 && HcStream.Level(13) == 12 && FrameEncoder.Acceleration(-1) == 2
  {
  }

  /** ML1 is followed by a longer match: one that starts 2 bytes later replaces it; one that starts 4 bytes later does not. */
  lemma FirstMoves(m1: Hit, later: Hit, much: Hit)
    requires m1 == Hit(10, 6, 5) && later == Hit(12, 7, 9) && much == Hit(14, 9, 3)
    ensures Move2(Group(Search2, m1, m1, m1), Longer(later)) == Move(Group(Search2, m1, later, later), [])
    ensures Move2(Group(Search2, m1, m1, m1), Longer(much)) == Move(Group(Search3, m1, m1, much), [])
    ensures Move2(Group(Search2, m1, later, later), Longer(much)) == Move(Group(Search3, m1, m1, much), [])
    ensures Move2(Group(Search2, m1, later, later), NoLonger).hits == [later]
  {
  }

  /** ML2 starts 6 bytes behind ML1, which has 30 bytes: it gets 18 of them. What becomes of ML3 depends on where it starts. */
  lemma SecondMoves(m1: Hit, m2: Hit, st: Group)
    requires m1 == Hit(10, 30, 5) && m2 == Hit(16, 40, 9) && st == Group(Search3, m1, m1, m2)
    ensures Move3(st, NoLonger).hits == [Hit(10, 18, 5), Hit(28, 28, 9)]
    ensures Move3(st, Longer(Hit(39, 50, 7))) == Move(Group(Search3, m1, m1, Hit(39, 50, 7)), [])
    ensures Move3(st, Longer(Hit(41, 50, 7))) == Move(Group(Search2, Hit(40, 16, 9), Hit(41, 50, 7), Hit(41, 50, 7)), [m1])
    ensures Move3(st, Longer(Hit(43, 50, 7))) ==
      Move(Group(Search3, Hit(28, 28, 9), Hit(28, 28, 9), Hit(43, 50, 7)), [Hit(10, 18, 5)])
  {
  }

  /** Prices, among them that of one literal behind a match with 14 literals before it: two bytes instead of one. */
  lemma Prices()
    ensures HcOptimal.LiteralsPrice(14) == 14 && HcOptimal.LiteralsPrice(15) == 16 && HcOptimal.LiteralsPrice(270) == 272
    ensures HcOptimal.SequencePrice(0, 18) == 3 && HcOptimal.SequencePrice(0, 19) == 4 && HcOptimal.SequencePrice(15, 274) == 21
    ensures HcOptimal.LiteralCost(HcOptimal.Opt(20, 1, 4, 14), 1) == 22
  {
  }

  /** A log file under construction, its chunks and its buffer. */
  lemma LogNumbers()
    ensures LogFile.TempName("a.lz4") == "a.lz4.tmp" && LogFile.CHUNKSIZE == 4096 && LogFile.BUFFERSIZE == 4200
    ensures LogFile.kPrefs == FrameEncoder.Preferences(FrameInfo(true, false, false, 4, 0), 0, -1, true)
  {
  }
}
