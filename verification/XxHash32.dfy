/** XXH32 of xxhash.c: the one-shot hash and its streaming form. */
module XxHash32 {
  import opened BlockFormat
  import opened Memory

  const M32 := 0x1_0000_0000

  type u32 = x: int | 0 <= x < M32

  const PRIME32_1: u32 := 2654435761
  const PRIME32_2: u32 := 2246822519
  const PRIME32_3: u32 := 3266489917
  const PRIME32_4: u32 := 668265263
  const PRIME32_5: u32 := 374761393

  const STRIPE := 16

  /** Unsigned 32-bit arithmetic wraps. */
  function Wrap(n: int): u32 {
    n % M32
  }

  function RotLBits(b: bv32, r: nat): bv32
    requires 0 < r < 32
  {
    (b << r) | (b >> (32 - r))
  }

  function XorShiftBits(b: bv32, r: nat): bv32
    requires r < 32
  {
    b ^ (b >> r)
  }

  function RotL(x: u32, r: nat): u32
    requires 0 < r < 32
  {
    RotLBits(x as bv32, r) as int
  }

  function XorShift(x: u32, r: nat): u32
    requires r < 32
  {
    XorShiftBits(x as bv32, r) as int
  }

  function Round(seed: u32, input: u32): u32 {
    Wrap(RotL(Wrap(seed + input * PRIME32_2), 13) * PRIME32_1)
  }

  function Avalanche(h: u32): u32 {
    XorShift(Wrap(XorShift(Wrap(XorShift(h, 15) * PRIME32_2), 13) * PRIME32_3), 16)
  }

  function LE32(s: seq<byte>, p: nat): u32
    requires p + 4 <= |s|
  {
    s[p] + 0x100 * s[p + 1] as int + 0x1_0000 * s[p + 2] as int + 0x100_0000 * s[p + 3] as int
  }

  // ---------- What the hash of a byte sequence is ----------

  datatype Lanes = Lanes(v1: u32, v2: u32, v3: u32, v4: u32)

  function Init(seed: u32): Lanes {
    Lanes(Wrap(seed + PRIME32_1 + PRIME32_2), Wrap(seed + PRIME32_2), seed, Wrap(seed - PRIME32_1))
  }

  function Absorb(l: Lanes, s: seq<byte>, p: nat): Lanes
    requires p + STRIPE <= |s|
  {
    Lanes(Round(l.v1, LE32(s, p)), Round(l.v2, LE32(s, p + 4)), Round(l.v3, LE32(s, p + 8)), Round(l.v4, LE32(s, p + 12)))
  }

  /** The lanes after all whole stripes of s, from position p on. */
  function Stripes(s: seq<byte>, p: nat, l: Lanes): Lanes
    requires p <= |s|
    decreases |s| - p
  {
    if p + STRIPE > |s| then l else Stripes(s, p + STRIPE, Absorb(l, s, p))
  }

  function Converge(l: Lanes): u32 {
    Wrap(RotL(l.v1, 1) + RotL(l.v2, 7) + RotL(l.v3, 12) + RotL(l.v4, 18))
  }

  function Process1(h: u32, b: byte): u32 {
    Wrap(RotL(Wrap(h + b * PRIME32_5), 11) * PRIME32_1)
  }

  function Process4(h: u32, w: u32): u32 {
    Wrap(RotL(Wrap(h + w * PRIME32_3), 17) * PRIME32_4)
  }

  /** The rest of the input, whole words first, then single bytes. */
  function Tail(h: u32, s: seq<byte>, p: nat): u32
    requires p <= |s|
    decreases |s| - p
  {
    if p + 4 <= |s| then Tail(Process4(h, LE32(s, p)), s, p + 4)
    else if p < |s| then Tail(Process1(h, s[p]), s, p + 1)
    else Avalanche(h)
  }

  /** The hash of s, by its definition. */
  function Hash(s: seq<byte>, seed: u32): u32 {
    var h := if |s| >= STRIPE then Converge(Stripes(s, 0, Init(seed))) else Wrap(seed + PRIME32_5);
    Tail(Wrap(h + |s|), s, |s| - |s| % STRIPE)
  }

  // ---------- Splitting the input ----------

  lemma SameWord(s: seq<byte>, p: nat, t: seq<byte>, q: nat)
    requires p + 4 <= |s| && q + 4 <= |t| && forall i :: p <= i < p + 4 ==> s[i] == t[i - p + q]
    ensures LE32(s, p) == LE32(t, q)
  {
    assert s[p] == t[q] && s[p + 1] == t[q + 1] && s[p + 2] == t[q + 2] && s[p + 3] == t[q + 3];
  }

  lemma SameStripe(l: Lanes, s: seq<byte>, p: nat, t: seq<byte>, q: nat)
    requires p + STRIPE <= |s| && q + STRIPE <= |t| && s[p..p + STRIPE] == t[q..q + STRIPE]
    ensures Absorb(l, s, p) == Absorb(l, t, q)
  {
    hide LE32, Round;
    forall i | p <= i < p + STRIPE ensures s[i] == t[i - p + q] {
      assert s[p..p + STRIPE][i - p] == t[q..q + STRIPE][i - p];
    }
    SameWord(s, p, t, q);
    SameWord(s, p + 4, t, q + 4);
    SameWord(s, p + 8, t, q + 8);
    SameWord(s, p + 12, t, q + 12);
  }

  /** More input after whole stripes continues from the lanes reached so far. */
  lemma {:induction false} StripesAppend(s: seq<byte>, p: nat, more: seq<byte>, l: Lanes)
    requires p <= |s| && (|s| - p) % STRIPE == 0
    ensures Stripes(s + more, p, l) == Stripes(s + more, |s|, Stripes(s, p, l))
    decreases |s| - p
  {
    hide Absorb;
    if p < |s| {
      assert (s + more)[p..p + STRIPE] == s[p..p + STRIPE];
      SameStripe(l, s + more, p, s, p);
      StripesAppend(s, p + STRIPE, more, Absorb(l, s, p));
    }
  }

  /** A started stripe does not show in the lanes. */
  lemma {:induction false} StripesWhole(s: seq<byte>, p: nat, rest: seq<byte>, l: Lanes)
    requires p <= |s| && (|s| - p) % STRIPE == 0 && |rest| < STRIPE
    ensures Stripes(s + rest, p, l) == Stripes(s, p, l)
  {
    StripesAppend(s, p, rest, l);
  }

  lemma {:induction false} TailShift(h: u32, s: seq<byte>, p: nat, t: seq<byte>, q: nat)
    requires p <= |s| && q <= |t| && s[p..] == t[q..]
    ensures Tail(h, s, p) == Tail(h, t, q)
    decreases |s| - p
  {
    hide LE32, Process4, Process1, Avalanche;
    if p + 4 <= |s| {
      forall i | p <= i < p + 4 ensures s[i] == t[i - p + q] { assert s[p..][i - p] == t[q..][i - p]; }
      SameWord(s, p, t, q);
      assert s[p + 4..] == s[p..][4..] && t[q + 4..] == t[q..][4..];
      TailShift(Process4(h, LE32(s, p)), s, p + 4, t, q + 4);
    } else if p < |s| {
      assert s[p] == s[p..][0] && t[q] == t[q..][0];
      assert s[p + 1..] == s[p..][1..] && t[q + 1..] == t[q..][1..];
      TailShift(Process1(h, s[p]), s, p + 1, t, q + 1);
    }
  }

  // ---------- The code ----------

  lemma TailStep(h: u32, s: seq<byte>, p: nat)
    requires p < |s|
    ensures p + 4 <= |s| ==> Tail(h, s, p) == Tail(Process4(h, LE32(s, p)), s, p + 4)
    ensures p + 4 > |s| ==> Tail(h, s, p) == Tail(Process1(h, s[p]), s, p + 1)
  {
  }

  method Step1(h: u32, s: seq<byte>, p: nat) returns (h': u32, p': nat)
    requires p < |s| < p + 4
    ensures p' == p + 1 && Tail(h', s, p') == Tail(h, s, p)
  {
    hide Tail, RotL;
    TailStep(h, s, p);
    h', p' := Wrap(RotL(Wrap(h + s[p] * PRIME32_5), 11) * PRIME32_1), p + 1;
  }

  method Step4(h: u32, s: seq<byte>, p: nat) returns (h': u32, p': nat)
    requires p + 4 <= |s|
    ensures p' == p + 4 && Tail(h', s, p') == Tail(h, s, p)
  {
    hide Tail, RotL, LE32;
    TailStep(h, s, p);
    h', p' := Wrap(RotL(Wrap(h + LE32(s, p) * PRIME32_3), 17) * PRIME32_4), p + 4;
  }

  lemma TailEnd(h: u32, s: seq<byte>)
    ensures Tail(h, s, |s|) == Avalanche(h)
  {
  }

  /** The cases from + 8, from + 4 and from of the switch, each of which falls through to the next; then tail bytes. */
  method FallThrough(h0: u32, s: seq<byte>, from: nat, tail: nat) returns (h: u32)
    requires |s| in {from, from + 4, from + 8} && 4 <= from && from == 4 + tail < 8
    ensures h == Tail(h0, s, 0)
  {
    hide Tail, LE32, Avalanche;
    h := h0;
    var p, at := 0, |s|;
    if at == from + 8 { h, p := Step4(h, s, p); at := at - 4; }
    if at == from + 4 { h, p := Step4(h, s, p); at := at - 4; }
    h, p := Step4(h, s, p);
    if tail >= 1 { h, p := Step1(h, s, p); }
    if tail >= 2 { h, p := Step1(h, s, p); }
    if tail >= 3 { h, p := Step1(h, s, p); }
    TailEnd(h, s);
    return Avalanche(h);
  }

  /** XXH32_finalize: one switch over the 16 possible lengths. */
  method Finalize(h0: u32, s: seq<byte>, len: nat) returns (r: u32)
    requires |s| == len % STRIPE
    ensures r == Tail(h0, s, 0)
  {
    hide Tail, LE32, Avalanche;
    match len % STRIPE {
      case 12 | 8 | 4 => r := FallThrough(h0, s, 4, 0);
      case 13 | 9 | 5 => r := FallThrough(h0, s, 5, 1);
      case 14 | 10 | 6 => r := FallThrough(h0, s, 6, 2);
      case 15 | 11 | 7 => r := FallThrough(h0, s, 7, 3);
      case at =>
        var h, p := h0, 0;
        if at >= 3 { h, p := Step1(h, s, p); }
        if at >= 2 { h, p := Step1(h, s, p); }
        if at >= 1 { h, p := Step1(h, s, p); }
        TailEnd(h, s);
        r := Avalanche(h);
    }
  }

  /** XXH32, the one-shot form. */
  method OneShot(input: seq<byte>, seed: u32) returns (r: u32)
    ensures r == Hash(input, seed)
  {
    hide Tail, Avalanche, Round, LE32, Converge, Init;
    var p, bEnd := 0, |input|;
    var h;
    if bEnd >= 16 {
      var limit := bEnd - 15;
      var l := Init(seed);
      var first := true;
      while first || p < limit
        invariant 0 <= p <= bEnd && p % STRIPE == 0
        invariant first ==> p == 0
        invariant Stripes(input, p, l) == Stripes(input, 0, Init(seed))
        decreases bEnd - p, first
      {
        first := false;
        l := Lanes(Round(l.v1, LE32(input, p)), Round(l.v2, LE32(input, p + 4)),
                   Round(l.v3, LE32(input, p + 8)), Round(l.v4, LE32(input, p + 12)));
        p := p + 16;
      }
      h := Converge(l);
    } else {
      h := Wrap(seed + PRIME32_5);
    }
    h := Wrap(h + bEnd);
    assert p == bEnd - bEnd % STRIPE;
    TailShift(h, input[p..], 0, input, p);
    r := Finalize(h, input[p..], bEnd % 16);
  }

  /** The lanes after the first k bytes of text, all of which are whole stripes. */
  ghost predicate Reached(l: Lanes, text: seq<byte>, k: nat, seed: u32) {
    k <= |text| && k % STRIPE == 0 && l == Stripes(text[..k], 0, Init(seed))
  }

  lemma ReachedStart(l: Lanes, text: seq<byte>, input: seq<byte>, k: nat, seed: u32)
    requires Reached(l, text, k, seed)
    ensures Reached(l, text + input, k, seed)
  {
    assert (text + input)[..k] == text[..k];
  }

  lemma ReachedMore(l: Lanes, text: seq<byte>, k: nat, seed: u32, s: seq<byte>, p: nat)
    requires Reached(l, text, k, seed) && k + STRIPE <= |text| && p + STRIPE <= |s|
    requires s[p..p + STRIPE] == text[k..k + STRIPE]
    ensures Reached(Absorb(l, s, p), text, k + STRIPE, seed)
  {
    hide Absorb;
    var stripe := text[k..k + STRIPE];
    assert text[..k] + stripe == text[..k + STRIPE];
    StripesAppend(text[..k], 0, stripe, Init(seed));
    SameStripe(l, text[..k] + stripe, k, s, p);
    LastStripe(text[..k] + stripe, k, l);
  }

  lemma LastStripe(s: seq<byte>, p: nat, l: Lanes)
    requires p + STRIPE == |s|
    ensures Stripes(s, p, l) == Absorb(l, s, p)
  {
    hide Absorb;
  }

  /** total_len_32 and large_len after n bytes; only the former wraps. */
  predicate Counted(totalLen32: nat, largeLen: bool, n: nat) {
    totalLen32 == n % M32 && (largeLen <==> n >= STRIPE)
  }

  lemma CountedMore(totalLen32: nat, largeLen: bool, n: nat, len: nat)
    requires Counted(totalLen32, largeLen, n)
    ensures var total := Wrap(totalLen32 + len); Counted(total, largeLen || len >= 16 || total >= 16, n + len)
  {
  }

  /** Digesting from the lanes and the buffered rest is hashing the whole input. */
  lemma HashFromState(text: seq<byte>, seed: u32, rest: seq<byte>, l: Lanes, h: u32)
    requires |rest| < STRIPE && |rest| <= |text| && rest == text[|text| - |rest|..]
    requires Reached(l, text, |text| - |rest|, seed)
    requires h == if |text| >= STRIPE then Converge(l) else Wrap(l.v3 + PRIME32_5)
    ensures Tail(Wrap(h + |text|), rest, 0) == Hash(text, seed)
  {
    hide Tail, Converge, Stripes, Wrap, Init;
    var q := |text| - |rest|;
    assert q == |text| - |text| % STRIPE;
    StripesWhole(text[..q], 0, rest, Init(seed));
    assert text[..q] + rest == text;
    TailShift(Wrap(h + |text|), rest, 0, text, q);
    if |text| < STRIPE { SmallHash(text, seed, l); }
  }

  lemma SmallHash(text: seq<byte>, seed: u32, l: Lanes)
    requires |text| < STRIPE && Reached(l, text, 0, seed)
    ensures l.v3 == seed
  {
  }

  lemma WrapTwice(a: int, b: int)
    ensures Wrap(a + b % M32) == Wrap(a + b)
  {
  }

  /** The buffer of a state holds the end of text. */
  predicate Buffered(mem: seq<byte>, memsize: nat, text: seq<byte>) {
    memsize <= |mem| && memsize <= |text| && mem[..memsize] == text[|text| - memsize..]
  }

  class State {
    var totalLen32: nat
    var largeLen: bool
    var v1: u32
    var v2: u32
    var v3: u32
    var v4: u32
    const mem32: array<byte>
    var memsize: nat

    /** The state has taken in text since it was reset with seed. */
    ghost predicate Holds(seed: u32, text: seq<byte>)
      reads this, mem32
    {
      && mem32.Length == STRIPE && memsize < STRIPE && memsize <= |text|
      && Buffered(mem32[..], memsize, text)
      && Reached(Lanes(v1, v2, v3, v4), text, |text| - memsize, seed)
      && Counted(totalLen32, largeLen, |text|)
    }

    constructor ()
      ensures Holds(0, []) && fresh(mem32)
    {
      mem32 := new byte[STRIPE](_ => 0);
      totalLen32, largeLen, memsize := 0, false, 0;
      v1, v2, v3, v4 := Wrap(PRIME32_1 + PRIME32_2), PRIME32_2, 0, Wrap(0 - PRIME32_1);
    }

    /** XXH32_reset. */
    method Reset(seed: u32)
      requires mem32.Length == STRIPE
      modifies this
      ensures Holds(seed, [])
    {
      totalLen32, largeLen, memsize := 0, false, 0;
      v1, v2, v3, v4 := Wrap(seed + PRIME32_1 + PRIME32_2), Wrap(seed + PRIME32_2), seed, Wrap(seed - PRIME32_1);
    }

    /** The four rounds over one stripe. */
    method TakeStripe(s: seq<byte>, p: nat)
      requires p + STRIPE <= |s|
      modifies `v1, `v2, `v3, `v4
      ensures Lanes(v1, v2, v3, v4) == Absorb(old(Lanes(v1, v2, v3, v4)), s, p)
    {
      v1 := Round(v1, LE32(s, p));
      v2 := Round(v2, LE32(s, p + 4));
      v3 := Round(v3, LE32(s, p + 8));
      v4 := Round(v4, LE32(s, p + 12));
    }

    /** The end of XXH32_update: what does not fill a stripe waits in the buffer. */
    method KeepRest(input: seq<byte>, p: nat, ghost whole: seq<byte>)
      requires mem32.Length == STRIPE && p <= |input| < p + STRIPE && |input| <= |whole| && memsize == 0
      requires input == whole[|whole| - |input|..]
      modifies `memsize, mem32
      ensures memsize == |input| - p && Buffered(mem32[..], memsize, whole)
    {
      if p < |input| {
        CopyIn(mem32, 0, input, p, |input| - p);
        memsize := |input| - p;
      }
      assert input[p..] == whole[|whole| - memsize..];
    }

    /** fill in tmp buffer */
    method Buffer(input: seq<byte>, ghost text: seq<byte>)
      requires mem32.Length == STRIPE && Buffered(mem32[..], memsize, text) && memsize + |input| < STRIPE
      modifies `memsize, mem32
      ensures memsize == old(memsize) + |input| && Buffered(mem32[..], memsize, text + input)
    {
      ghost var kept := mem32[..memsize];
      CopyIn(mem32, memsize, input, 0, |input|);
      assert mem32[..memsize + |input|] == kept + input;
      memsize := memsize + |input|;
    }

    /** The stripe that the buffer and the beginning of the input fill together. */
    method FinishBuffered(input: seq<byte>, ghost seed: u32, ghost text: seq<byte>) returns (p: nat)
      requires mem32.Length == STRIPE && Buffered(mem32[..], memsize, text)
      requires memsize <= |text| && 0 < memsize < STRIPE <= memsize + |input|
      requires Reached(Lanes(v1, v2, v3, v4), text + input, |text| - memsize, seed)
      modifies `v1, `v2, `v3, `v4, `memsize, mem32
      ensures memsize == 0 && p == STRIPE - old(memsize)
      ensures Reached(Lanes(v1, v2, v3, v4), text + input, |text| + p, seed)
    {
      hide Reached, Absorb;
      ghost var whole, k := text + input, |text| - memsize;
      CopyIn(mem32, memsize, input, 0, STRIPE - memsize);
      assert mem32[..][0..STRIPE] == whole[k..k + STRIPE];
      ReachedMore(Lanes(v1, v2, v3, v4), whole, k, seed, mem32[..], 0);
      TakeStripe(mem32[..], 0);
      p := STRIPE - memsize;
      memsize := 0;
    }

    /** XXH32_update: any piece of input, of any length, in whatever pieces the rest came. */
    method Update(input: seq<byte>, ghost seed: u32, ghost text: seq<byte>)
      requires Holds(seed, text)
      modifies this, mem32
      ensures Holds(seed, text + input)
    {
      hide Reached, Counted, Wrap, Buffered;
      ReachedStart(Lanes(v1, v2, v3, v4), text, input, |text| - memsize, seed);
      Account(|input|, |text|);
      if memsize + |input| < 16 {
        Buffer(input, text);
      } else {
        Process(input, seed, text);
      }
    }

    /** The two counters. */
    method Account(len: nat, ghost n: nat)
      requires Counted(totalLen32, largeLen, n)
      modifies `totalLen32, `largeLen
      ensures Counted(totalLen32, largeLen, n + len)
    {
      hide Counted, Wrap;
      CountedMore(totalLen32, largeLen, n, len);
      totalLen32 := Wrap(totalLen32 + len);
      largeLen := largeLen || len >= 16 || totalLen32 >= 16;
    }

    /** XXH32_update when at least one stripe is complete. */
    method Process(input: seq<byte>, ghost seed: u32, ghost text: seq<byte>)
      requires mem32.Length == STRIPE && Buffered(mem32[..], memsize, text) && memsize <= |text|
      requires memsize < STRIPE <= memsize + |input|
      requires Reached(Lanes(v1, v2, v3, v4), text + input, |text| - memsize, seed)
      modifies `v1, `v2, `v3, `v4, `memsize, mem32
      ensures memsize < STRIPE && Buffered(mem32[..], memsize, text + input) && memsize <= |text + input|
      ensures Reached(Lanes(v1, v2, v3, v4), text + input, |text + input| - memsize, seed)
    {
      hide Reached, Buffered;
      ghost var whole := text + input;
      var p := 0;
      if memsize > 0 {
        p := FinishBuffered(input, seed, text);
      }
      assert input == whole[|whole| - |input|..];
      p := TakeStripes(input, p, seed, whole);
      KeepRest(input, p, whole);
    }

    /** All whole stripes of the input, from position p0 on. */
    method TakeStripes(input: seq<byte>, p0: nat, ghost seed: u32, ghost whole: seq<byte>) returns (p: nat)
      requires p0 <= |input| <= |whole| && input == whole[|whole| - |input|..]
      requires Reached(Lanes(v1, v2, v3, v4), whole, |whole| - |input| + p0, seed)
      modifies `v1, `v2, `v3, `v4
      ensures p <= |input| < p + STRIPE && Reached(Lanes(v1, v2, v3, v4), whole, |whole| - |input| + p, seed)
    {
      hide Reached, Absorb;
      ghost var at := |whole| - |input|;
      p := p0;
      while p + 16 <= |input|
        invariant p <= |input| && Reached(Lanes(v1, v2, v3, v4), whole, at + p, seed)
      {
        assert input[p..p + STRIPE] == whole[at + p..at + p + STRIPE];
        ReachedMore(Lanes(v1, v2, v3, v4), whole, at + p, seed, input, p);
        TakeStripe(input, p);
        p := p + 16;
      }
    }

    /** XXH32_digest. */
    method Digest(ghost seed: u32, ghost text: seq<byte>) returns (r: u32)
      requires Holds(seed, text)
      ensures r == Hash(text, seed)
    {
      hide Tail, Avalanche, Converge, Stripes, Wrap, Reached, Hash, Init;
      var h := if largeLen then Converge(Lanes(v1, v2, v3, v4)) else Wrap(v3 + PRIME32_5);
      WrapTwice(h, |text|);
      HashFromState(text, seed, mem32[..memsize], Lanes(v1, v2, v3, v4), h);
      r := Finalize(Wrap(h + totalLen32), mem32[..memsize], memsize);
    }
  }
}
