/** XXH32 of particular inputs, with all numbers written out. */
module KnownHashes {
  import opened BlockFormat
  import opened XxHash32

  // ---------- One step at a time ----------

  lemma BitsBack(b: bv32)
    ensures (b as int) as bv32 == b
  {
  }

  lemma XorShiftIs(b: bv32, r: nat, x: u32, c: bv32, y: u32)
    requires r < 32 && b as int == x && c as int == y && XorShiftBits(b, r) == c
    ensures XorShift(x, r) == y
  {
    hide XorShiftBits;
    BitsBack(b);
  }

  lemma RotLIs(b: bv32, r: nat, x: u32, c: bv32, y: u32)
    requires 0 < r < 32 && b as int == x && c as int == y && RotLBits(b, r) == c
    ensures RotL(x, r) == y
  {
    hide RotLBits;
    BitsBack(b);
  }

  lemma ShortHash(s: seq<byte>, seed: u32, h: u32)
    requires |s| < 16 && h == (seed + 374761393 + |s|) % 0x1_0000_0000
    ensures Hash(s, seed) == Tail(h, s, 0)
  {
    hide Tail;
  }

  lemma RoundIs(v: u32, w: u32, sum: u32, turned: u32, v': u32)
    requires sum == (v + w * 2246822519) % 0x1_0000_0000 && turned == RotL(sum, 13)
    requires v' == (turned * 2654435761) % 0x1_0000_0000
    ensures Round(v, w) == v'
  {
    hide RotL;
  }

  lemma Stripe(s: seq<byte>, p: nat, l: Lanes, w1: u32, w2: u32, w3: u32, w4: u32, l': Lanes)
    requires p + 16 <= |s| && w1 == LE32(s, p) && w2 == LE32(s, p + 4) && w3 == LE32(s, p + 8) && w4 == LE32(s, p + 12)
    requires l' == Lanes(Round(l.v1, w1), Round(l.v2, w2), Round(l.v3, w3), Round(l.v4, w4))
    ensures Stripes(s, p, l) == Stripes(s, p + 16, l')
  {
    hide Round, LE32;
  }

  lemma ConvergeIs(l: Lanes, a1: u32, a2: u32, a3: u32, a4: u32, h: u32)
    requires a1 == RotL(l.v1, 1) && a2 == RotL(l.v2, 7) && a3 == RotL(l.v3, 12) && a4 == RotL(l.v4, 18)
    requires h == (a1 + a2 + a3 + a4) % 0x1_0000_0000
    ensures Converge(l) == h
  {
    hide RotL;
  }

  lemma LongHash(s: seq<byte>, seed: u32, first: Lanes, last: Lanes, p: nat, c: u32, h: u32)
    requires p <= |s| < p + 16 && p % 16 == 0 && p >= 16
    requires first == Lanes((seed + 2654435761 + 2246822519) % 0x1_0000_0000, (seed + 2246822519) % 0x1_0000_0000, seed,
                            (seed - 2654435761) % 0x1_0000_0000)
    requires Stripes(s, 0, first) == Stripes(s, p, last) && Converge(last) == c && h == (c + |s|) % 0x1_0000_0000
    ensures Hash(s, seed) == Tail(h, s, p)
  {
    hide Tail, Converge, Absorb, Stripes;
    AllStripes(s, p, last);
    assert |s| - |s| % 16 == p;
  }

  lemma AllStripes(s: seq<byte>, p: nat, l: Lanes)
    requires p <= |s| < p + 16
    ensures Stripes(s, p, l) == l
  {
    hide Absorb;
  }

  lemma TailWord(s: seq<byte>, p: nat, h: u32, w: u32, sum: u32, turned: u32, h': u32)
    requires p + 4 <= |s| && w == LE32(s, p) && sum == (h + w * 3266489917) % 0x1_0000_0000
    requires turned == RotL(sum, 17) && h' == (turned * 668265263) % 0x1_0000_0000
    ensures Tail(h, s, p) == Tail(h', s, p + 4)
  {
    hide Tail, RotL, LE32;
    TailStep(h, s, p);
  }

  lemma TailByte(s: seq<byte>, p: nat, h: u32, b: byte, sum: u32, turned: u32, h': u32)
    requires p < |s| < p + 4 && b == s[p] && sum == (h + b as int * 374761393) % 0x1_0000_0000
    requires turned == RotL(sum, 11) && h' == (turned * 2654435761) % 0x1_0000_0000
    ensures Tail(h, s, p) == Tail(h', s, p + 1)
  {
    hide Tail, RotL;
    TailStep(h, s, p);
  }

  lemma TailDone(s: seq<byte>, h: u32, x1: u32, h1: u32, x2: u32, h2: u32, r: u32)
    requires x1 == XorShift(h, 15) && h1 == (x1 * 2246822519) % 0x1_0000_0000
    requires x2 == XorShift(h1, 13) && h2 == (x2 * 3266489917) % 0x1_0000_0000
    requires r == XorShift(h2, 16)
    ensures Tail(h, s, |s|) == r
  {
    hide Tail, XorShift;
    TailEnd(h, s);
  }

  // ---------- Known answers ----------

  lemma NothingHashedA()
    ensures XorShift(0x165667B1, 15) == 0x16564B1D
    ensures XorShift(0x7E00CC7B, 13) == 0x7E033C7D
    ensures XorShift(0x02CC5FC9, 16) == 0x02CC5D05
  {
    XorShiftIs(0x165667B1, 15, 0x165667B1, 0x16564B1D, 0x16564B1D);
    XorShiftIs(0x7E00CC7B, 13, 0x7E00CC7B, 0x7E033C7D, 0x7E033C7D);
    XorShiftIs(0x02CC5FC9, 16, 0x02CC5FC9, 0x02CC5D05, 0x02CC5D05);
  }

  /** No bytes at all. */
  lemma NothingHashed()
    ensures Hash([], 0) == 0x02CC5D05
  {
    hide Hash, Tail, Stripes, Round, Converge, RotL, XorShift;
    var s := [];
    NothingHashedA();
    ShortHash(s, 0, 0x165667B1);
    TailDone(s, 0x165667B1, 0x16564B1D, 0x7E00CC7B, 0x7E033C7D, 0x02CC5FC9, 0x02CC5D05);
  }

  lemma AbcHashedA()
    ensures RotL(0x8D13B1C5, 11) == 0x9D8E2C68
    ensures RotL(0x69B58DAA, 11) == 0xAC6D534D
    ensures RotL(0xF2EB16B0, 11) == 0x58B58797
  {
    RotLIs(0x8D13B1C5, 11, 0x8D13B1C5, 0x9D8E2C68, 0x9D8E2C68);
    RotLIs(0x69B58DAA, 11, 0x69B58DAA, 0xAC6D534D, 0xAC6D534D);
    RotLIs(0xF2EB16B0, 11, 0xF2EB16B0, 0x58B58797, 0x58B58797);
  }

  lemma AbcHashedB()
    ensures XorShift(0x760A1E67, 15) == 0x760AF273
    ensures XorShift(0xD0F67175, 13) == 0xD0F0F6C6
    ensures XorShift(0x32D1612E, 16) == 0x32D153FF
  {
    XorShiftIs(0x760A1E67, 15, 0x760A1E67, 0x760AF273, 0x760AF273);
    XorShiftIs(0xD0F67175, 13, 0xD0F67175, 0xD0F0F6C6, 0xD0F0F6C6);
    XorShiftIs(0x32D1612E, 16, 0x32D1612E, 0x32D153FF, 0x32D153FF);
  }

  /** The text abc. */
  lemma AbcHashed()
    ensures Hash([97, 98, 99], 0) == 0x32D153FF
  {
    hide Hash, Tail, Stripes, Round, Converge, RotL, XorShift;
    var s := [97, 98, 99];
    AbcHashedA(); AbcHashedB();
    ShortHash(s, 0, 0x165667B4);
    TailByte(s, 0, 0x165667B4, 97, 0x8D13B1C5, 0x9D8E2C68, 0xDCA1DBE8);
    TailByte(s, 1, 0xDCA1DBE8, 98, 0x69B58DAA, 0xAC6D534D, 0x4F80FD3D);
    TailByte(s, 2, 0x4F80FD3D, 99, 0xF2EB16B0, 0x58B58797, 0x760A1E67);
    TailDone(s, 0x760A1E67, 0x760AF273, 0xD0F67175, 0xD0F0F6C6, 0x32D1612E, 0x32D153FF);
  }

  lemma AbcdHashedA()
    ensures RotL(0x7854C6D2, 17) == 0x8DA4F0A9
    ensures XorShift(0x75275207, 15) == 0x7527B849
    ensures XorShift(0xE4E343EF, 13) == 0xE4E464F5
  {
    RotLIs(0x7854C6D2, 17, 0x7854C6D2, 0x8DA4F0A9, 0x8DA4F0A9);
    XorShiftIs(0x75275207, 15, 0x75275207, 0x7527B849, 0x7527B849);
    XorShiftIs(0xE4E343EF, 13, 0xE4E343EF, 0xE4E464F5, 0xE4E464F5);
  }

  lemma AbcdHashedB()
    ensures XorShift(0xA3649461, 16) == 0xA3643705
  {
    XorShiftIs(0xA3649461, 16, 0xA3649461, 0xA3643705, 0xA3643705);
  }

  /** The text abcd. */
  lemma AbcdHashed()
    ensures Hash([97, 98, 99, 100], 0) == 0xA3643705
  {
    hide Hash, Tail, Stripes, Round, Converge, RotL, XorShift;
    var s := [97, 98, 99, 100];
    AbcdHashedA(); AbcdHashedB();
    ShortHash(s, 0, 0x165667B5);
    TailWord(s, 0, 0x165667B5, 0x64636261, 0x7854C6D2, 0x8DA4F0A9, 0x75275207);
    TailDone(s, 0x75275207, 0x7527B849, 0xE4E343EF, 0xE4E464F5, 0xA3649461, 0xA3643705);
  }

  lemma LongHashedA()
    ensures RotL(0xA81334D9, 13) == 0x669B3502
    ensures RotL(0xD690C104, 13) == 0x18209AD2
    ensures RotL(0x1D59FC69, 13) == 0x3F8D23AB
  {
    RotLIs(0xA81334D9, 13, 0xA81334D9, 0x669B3502, 0x669B3502);
    RotLIs(0xD690C104, 13, 0xD690C104, 0x18209AD2, 0x18209AD2);
    RotLIs(0x1D59FC69, 13, 0x1D59FC69, 0x3F8D23AB, 0x3F8D23AB);
  }

  lemma LongHashedB()
    ensures RotL(0x4BD78894, 13) == 0xF112897A
    ensures RotL(0x055826D2, 13) == 0x04DA40AB
    ensures RotL(0xDC17E17E, 13) == 0xFC2FDB82
  {
    RotLIs(0x4BD78894, 13, 0x4BD78894, 0xF112897A, 0xF112897A);
    RotLIs(0x055826D2, 13, 0x055826D2, 0x04DA40AB, 0x04DA40AB);
    RotLIs(0xDC17E17E, 13, 0xDC17E17E, 0xFC2FDB82, 0xFC2FDB82);
  }

  lemma LongHashedC()
    ensures RotL(0x8C251663, 13) == 0xA2CC7184
    ensures RotL(0xC4AD575E, 13) == 0xAAEBD895
    ensures RotL(0xF234893B, 1) == 0xE4691277
  {
    RotLIs(0x8C251663, 13, 0x8C251663, 0xA2CC7184, 0xA2CC7184);
    RotLIs(0xC4AD575E, 13, 0xC4AD575E, 0xAAEBD895, 0xAAEBD895);
    RotLIs(0xF234893B, 1, 0xF234893B, 0xE4691277, 0xE4691277);
  }

  lemma LongHashedD()
    ensures RotL(0x60C536E2, 7) == 0x629B7130
    ensures RotL(0x0C5DE044, 12) == 0xDE0440C5
    ensures RotL(0x24722C05, 18) == 0xB01491C8
  {
    RotLIs(0x60C536E2, 7, 0x60C536E2, 0x629B7130, 0x629B7130);
    RotLIs(0x0C5DE044, 12, 0x0C5DE044, 0xDE0440C5, 0xDE0440C5);
    RotLIs(0x24722C05, 18, 0x24722C05, 0xB01491C8, 0xB01491C8);
  }

  lemma LongHashedE()
    ensures RotL(0xAF02FAF9, 17) == 0xF5F35E05
    ensures RotL(0x52476ECF, 11) == 0x3B767A92
    ensures XorShift(0x8E37C0F2, 15) == 0x8E36DC9D
  {
    RotLIs(0xAF02FAF9, 17, 0xAF02FAF9, 0xF5F35E05, 0xF5F35E05);
    RotLIs(0x52476ECF, 11, 0x52476ECF, 0x3B767A92, 0x3B767A92);
    XorShiftIs(0x8E37C0F2, 15, 0x8E37C0F2, 0x8E36DC9D, 0x8E36DC9D);
  }

  lemma LongHashedF()
    ensures XorShift(0x7AB36EFB, 13) == 0x7AB0BB60
    ensures XorShift(0x6437E5E0, 16) == 0x643781D7
  {
    XorShiftIs(0x7AB36EFB, 13, 0x7AB36EFB, 0x7AB0BB60, 0x7AB0BB60);
    XorShiftIs(0x6437E5E0, 16, 0x6437E5E0, 0x643781D7, 0x643781D7);
  }

  /** Two stripes, a word and a byte, with a seed. */
  lemma LongHashed()
    ensures Hash(seq(37, i requires 0 <= i < 37 => i as byte), 0x9E3779B1) == 0x643781D7
  {
    hide Hash, Tail, Stripes, Round, Converge, RotL, XorShift;
    var s := seq(37, i requires 0 <= i < 37 => i as byte);
    LongHashedA(); LongHashedB(); LongHashedC(); LongHashedD(); LongHashedE(); LongHashedF();
    var l0 := Lanes(0xC25ABDD9, 0x24234428, 0x9E3779B1, 0x00000000);
    var l1 := Lanes(0xECCB9862, 0xF6D64D32, 0xDA2E7C3B, 0x4601B75A);
    RoundIs(0xC25ABDD9, 0x03020100, 0xA81334D9, 0x669B3502, 0xECCB9862);
    RoundIs(0x24234428, 0x07060504, 0xD690C104, 0x18209AD2, 0xF6D64D32);
    RoundIs(0x9E3779B1, 0x0B0A0908, 0x1D59FC69, 0x3F8D23AB, 0xDA2E7C3B);
    RoundIs(0x00000000, 0x0F0E0D0C, 0x4BD78894, 0xF112897A, 0x4601B75A);
    Stripe(s, 0, l0, 0x03020100, 0x07060504, 0x0B0A0908, 0x0F0E0D0C, l1);
    var l2 := Lanes(0xF234893B, 0x60C536E2, 0x0C5DE044, 0x24722C05);
    RoundIs(0xECCB9862, 0x13121110, 0x055826D2, 0x04DA40AB, 0xF234893B);
    RoundIs(0xF6D64D32, 0x17161514, 0xDC17E17E, 0xFC2FDB82, 0x60C536E2);
    RoundIs(0xDA2E7C3B, 0x1B1A1918, 0x8C251663, 0xA2CC7184, 0x0C5DE044);
    RoundIs(0x4601B75A, 0x1F1E1D1C, 0xC4AD575E, 0xAAEBD895, 0x24722C05);
    Stripe(s, 16, l1, 0x13121110, 0x17161514, 0x1B1A1918, 0x1F1E1D1C, l2);
    ConvergeIs(l2, 0xE4691277, 0x629B7130, 0xDE0440C5, 0xB01491C8, 0xD51D5634);
    LongHash(s, 0x9E3779B1, l0, l2, 32, 0xD51D5634, 0xD51D5659);
    TailWord(s, 32, 0xD51D5659, 0x23222120, 0xAF02FAF9, 0xF5F35E05, 0x2E20D9EB);
    TailByte(s, 36, 0x2E20D9EB, 36, 0x52476ECF, 0x3B767A92, 0x8E37C0F2);
    TailDone(s, 0x8E37C0F2, 0x8E36DC9D, 0x7AB36EFB, 0x7AB0BB60, 0x6437E5E0, 0x643781D7);
  }

  lemma FirmwareDescriptorA()
    ensures RotL(0xABF053F3, 11) == 0x829F9D5F
    ensures RotL(0xC8C0A1EF, 11) == 0x050F7E46
    ensures XorShift(0x276F6466, 15) == 0x276F2AB8
  {
    RotLIs(0xABF053F3, 11, 0xABF053F3, 0x829F9D5F, 0x829F9D5F);
    RotLIs(0xC8C0A1EF, 11, 0xC8C0A1EF, 0x050F7E46, 0x050F7E46);
    XorShiftIs(0x276F6466, 15, 0x276F6466, 0x276F2AB8, 0x276F2AB8);
  }

  lemma FirmwareDescriptorB()
    ensures XorShift(0xDB4A0B88, 13) == 0xDB4CD1D8
    ensures XorShift(0x101ED078, 16) == 0x101EC066
  {
    XorShiftIs(0xDB4A0B88, 13, 0xDB4A0B88, 0xDB4CD1D8, 0xDB4CD1D8);
    XorShiftIs(0x101ED078, 16, 0x101ED078, 0x101EC066, 0x101EC066);
  }

  /** The descriptor of every log file. */
  lemma FirmwareDescriptor()
    ensures Hash([64, 64], 0) == 0x101EC066
  {
    hide Hash, Tail, Stripes, Round, Converge, RotL, XorShift;
    var s := [64, 64];
    FirmwareDescriptorA(); FirmwareDescriptorB();
    ShortHash(s, 0, 0x165667B3);
    TailByte(s, 0, 0x165667B3, 64, 0xABF053F3, 0x829F9D5F, 0x3326B5AF);
    TailByte(s, 1, 0x3326B5AF, 64, 0xC8C0A1EF, 0x050F7E46, 0x276F6466);
    TailDone(s, 0x276F6466, 0x276F2AB8, 0xDB4A0B88, 0xDB4CD1D8, 0x101ED078, 0x101EC066);
  }

  lemma FullDescriptorA()
    ensures RotL(0x457EB5A7, 17) == 0x6B4E8AFD
    ensures RotL(0x7185C373, 17) == 0x86E6E30B
    ensures RotL(0x68EAC805, 11) == 0x56402B47
  {
    RotLIs(0x457EB5A7, 17, 0x457EB5A7, 0x6B4E8AFD, 0x6B4E8AFD);
    RotLIs(0x7185C373, 17, 0x7185C373, 0x86E6E30B, 0x86E6E30B);
    RotLIs(0x68EAC805, 11, 0x68EAC805, 0x56402B47, 0x56402B47);
  }

  lemma FullDescriptorB()
    ensures RotL(0x15137B17, 11) == 0x9BD8B8A8
    ensures XorShift(0x8C371428, 15) == 0x8C360C46
    ensures XorShift(0x7510F08A, 13) == 0x7513580D
  {
    RotLIs(0x15137B17, 11, 0x15137B17, 0x9BD8B8A8, 0x9BD8B8A8);
    XorShiftIs(0x8C371428, 15, 0x8C371428, 0x8C360C46, 0x8C360C46);
    XorShiftIs(0x7510F08A, 13, 0x7510F08A, 0x7513580D, 0x7513580D);
  }

  lemma FullDescriptorC()
    ensures XorShift(0x1E7ED119, 16) == 0x1E7ECF67
  {
    XorShiftIs(0x1E7ED119, 16, 0x1E7ED119, 0x1E7ECF67, 0x1E7ECF67);
  }

  /** A descriptor with both checksum flags, blocks of 4 MB, and a declared size of 3. */
  lemma FullDescriptor()
    ensures Hash([92, 112, 3, 0, 0, 0, 0, 0, 0, 0], 0) == 0x1E7ECF67
  {
    hide Hash, Tail, Stripes, Round, Converge, RotL, XorShift;
    var s := [92, 112, 3, 0, 0, 0, 0, 0, 0, 0];
    FullDescriptorA(); FullDescriptorB(); FullDescriptorC();
    ShortHash(s, 0, 0x165667BB);
    TailWord(s, 0, 0x165667BB, 0x0003705C, 0x457EB5A7, 0x6B4E8AFD, 0x7185C373);
    TailWord(s, 4, 0x7185C373, 0x00000000, 0x7185C373, 0x86E6E30B, 0x68EAC805);
    TailByte(s, 8, 0x68EAC805, 0, 0x68EAC805, 0x56402B47, 0x15137B17);
    TailByte(s, 9, 0x15137B17, 0, 0x15137B17, 0x9BD8B8A8, 0x8C371428);
    TailDone(s, 0x8C371428, 0x8C360C46, 0x7510F08A, 0x7513580D, 0x1E7ED119, 0x1E7ECF67);
  }

  lemma DictionaryDescriptorA()
    ensures RotL(0xDABA7CD4, 17) == 0xF9A9B574
    ensures RotL(0xD2CD035F, 11) == 0x681AFE96
    ensures RotL(0x5C928A7A, 11) == 0x9453D2E4
  {
    RotLIs(0xDABA7CD4, 17, 0xDABA7CD4, 0xF9A9B574, 0xF9A9B574);
    RotLIs(0xD2CD035F, 11, 0xD2CD035F, 0x681AFE96, 0x681AFE96);
    RotLIs(0x5C928A7A, 11, 0x5C928A7A, 0x9453D2E4, 0x9453D2E4);
  }

  lemma DictionaryDescriptorB()
    ensures XorShift(0x339E93A4, 15) == 0x339EF499
    ensures XorShift(0x71576D1F, 13) == 0x7154E7A4
    ensures XorShift(0x0EB4AA14, 16) == 0x0EB4A4A0
  {
    XorShiftIs(0x339E93A4, 15, 0x339E93A4, 0x339EF499, 0x339EF499);
    XorShiftIs(0x71576D1F, 13, 0x71576D1F, 0x7154E7A4, 0x7154E7A4);
    XorShiftIs(0x0EB4AA14, 16, 0x0EB4AA14, 0x0EB4A4A0, 0x0EB4A4A0);
  }

  /** A descriptor with independent blocks of 256 KB and a dictionary ID. */
  lemma DictionaryDescriptor()
    ensures Hash([97, 80, 1, 2, 3, 4], 0) == 0x0EB4A4A0
  {
    hide Hash, Tail, Stripes, Round, Converge, RotL, XorShift;
    var s := [97, 80, 1, 2, 3, 4];
    DictionaryDescriptorA(); DictionaryDescriptorB();
    ShortHash(s, 0, 0x165667B7);
    TailWord(s, 0, 0x165667B7, 0x02015061, 0xDABA7CD4, 0xF9A9B574, 0x8FC9CC4C);
    TailByte(s, 4, 0x8FC9CC4C, 3, 0xD2CD035F, 0x681AFE96, 0x0338EBB6);
    TailByte(s, 5, 0x0338EBB6, 4, 0x5C928A7A, 0x9453D2E4, 0x339E93A4);
    TailDone(s, 0x339E93A4, 0x339EF499, 0x71576D1F, 0x7154E7A4, 0x0EB4AA14, 0x0EB4A4A0);
  }
}
