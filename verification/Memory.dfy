/** The C library's block moves, on byte arrays. */
module Memory {
  import opened BlockFormat

  /** memcpy from read-only memory. */
  method CopyIn(mem: array<byte>, d: nat, src: seq<byte>, s: nat, n: nat)
    requires d + n <= mem.Length && s + n <= |src|
    modifies mem
    ensures forall i :: d <= i < d + n ==> mem[i] == src[s + (i - d)]
    ensures forall i :: 0 <= i < mem.Length && !(d <= i < d + n) ==> mem[i] == old(mem[i])
  {
    forall i | 0 <= i < n { mem[d + i] := src[s + i]; }
  }

  /** memcpy inside one buffer, which must not overlap itself. */
  method Copy(mem: array<byte>, d: nat, s: nat, n: nat)
    requires d + n <= mem.Length && s + n <= mem.Length
    requires s + n <= d || d + n <= s
    modifies mem
    ensures forall i :: d <= i < d + n ==> mem[i] == old(mem[s + (i - d)])
    ensures forall i :: 0 <= i < mem.Length && !(d <= i < d + n) ==> mem[i] == old(mem[i])
  {
    forall i | 0 <= i < n { mem[d + i] := mem[s + i]; }
  }

  /** memmove, possibly inside one buffer. */
  method Move(dst: array<byte>, d: nat, src: array<byte>, s: nat, n: nat)
    requires d + n <= dst.Length && s + n <= src.Length
    modifies dst
    ensures dst[d..d + n] == old(src[s..s + n])
    ensures forall i :: 0 <= i < dst.Length && !(d <= i < d + n) ==> dst[i] == old(dst[i])
  {
    forall i | 0 <= i < n { dst[d + i] := src[s + i]; }
  }

  const WILDCOPYLENGTH := 8

  /** LZ4_wildCopy8 of literals: eight bytes at a time, up to 8 bytes past e. */
  method WildCopy(dst: array<byte>, d0: nat, src: seq<byte>, s0: nat, e: nat)
    requires d0 <= e && e + WILDCOPYLENGTH <= dst.Length + (if d0 < e then 1 else 0)
    requires s0 + (e - d0) + WILDCOPYLENGTH <= |src|
    modifies dst
    ensures dst[d0..e] == src[s0..s0 + (e - d0)]
    ensures forall i :: 0 <= i < dst.Length && !(d0 <= i < e + WILDCOPYLENGTH - (if d0 < e then 1 else 0)) ==> dst[i] == old(dst[i])
  {
    CopyIn(dst, d0, src, s0, 8);
    var d, s := d0 + 8, s0 + 8;
    while d < e
      invariant d0 < d < e + 8 || d == d0 + 8
      invariant s == s0 + (d - d0)
      invariant forall i :: d0 <= i < d ==> dst[i] == src[s0 + (i - d0)]
      invariant forall i :: 0 <= i < dst.Length && !(d0 <= i < d) ==> dst[i] == old(dst[i])
    {
      CopyIn(dst, d, src, s, 8);
      d, s := d + 8, s + 8;
    }
  }

  predicate Within(mem: array?<byte>, start: int, size: int) {
    0 <= start && 0 <= size && if mem == null then start == size == 0 else start + size <= mem.Length
  }

  /** The size bytes of memory, from start on; nothing when they are not there. */
  function Slice(mem: array?<byte>, start: int, size: int): (r: seq<byte>)
    reads mem
    ensures Within(mem, start, size) ==> |r| == size
  {
    if mem == null || !Within(mem, start, size) then [] else mem[start..start + size]
  }

  /** A part of a slice. */
  lemma SubSlice(mem: array?<byte>, start: nat, size: nat, i: nat, n: nat)
    requires Within(mem, start, size) && i + n <= size && mem != null
    ensures Slice(mem, start + i, n) == Slice(mem, start, size)[i..i + n]
  {
  }

  lemma SliceEnd(mem: array?<byte>, start: nat, size: nat, n: nat)
    requires Within(mem, start, size) && n <= size
    ensures Slice(mem, start + size - n, n) == Slice(mem, start, size)[size - n..]
  {
  }

  lemma SliceIs(mem: array<byte>, start: nat, size: nat)
    requires start + size <= mem.Length
    ensures Slice(mem, start, size) == mem[start..start + size]
  {
  }

  lemma EmptySlice(mem: array?<byte>, start: nat)
    requires Within(mem, start, 0)
    ensures Slice(mem, start, 0) == []
  {
  }

  /** Two slices that meet. */
  lemma JoinSlices(mem: array<byte>, start: nat, n: nat, m: nat)
    requires start + n + m <= mem.Length
    ensures Slice(mem, start, n) + Slice(mem, start + n, m) == Slice(mem, start, n + m)
  {
  }

  /** memmove of a slice; the slice of keep bytes at k is elsewhere and stays what it is. */
  method MoveSlice(dst: array<byte>, d: nat, mem: array?<byte>, start: nat, size: nat, ghost k: nat, ghost keep: nat)
    requires Within(mem, start, size)
    requires d + size <= dst.Length && k + keep <= dst.Length && (d + size <= k || k + keep <= d)
    modifies dst
    ensures Slice(dst, k, keep) == old(Slice(dst, k, keep))
    ensures Slice(dst, d, size) == old(Slice(mem, start, size))
    ensures forall i :: 0 <= i < dst.Length && !(d <= i < d + size) ==> dst[i] == old(dst[i])
  {
    ghost var kept := Slice(dst, k, keep);
    if size > 0 { Move(dst, d, mem, start, size); }
    assert Slice(dst, k, keep) == kept;
  }

  /** memcpy of a slice to the beginning of its buffer, without overlap. */
  method CopyToFront(mem: array<byte>, start: nat, size: nat)
    requires size <= start && start + size <= mem.Length
    modifies mem
    ensures Slice(mem, 0, size) == old(Slice(mem, start, size))
  {
    Copy(mem, 0, start, size);
  }

  /**
    memcpy of n bytes into a buffer that already holds something from d0 on; neither that nor the slice of keep bytes
    at k of mem is touched.
   */
  method Deliver(dst: array<byte>, ghost d0: nat, d: nat, src: seq<byte>, s: nat, n: nat,
                 ghost mem: array?<byte>, ghost k: nat, ghost keep: nat)
    requires d0 <= d && d + n <= dst.Length && s + n <= |src|
    requires Within(mem, k, keep) && (mem == dst ==> k + keep <= d || d + n <= k)
    modifies dst
    ensures Slice(dst, d, n) == src[s..s + n]
    ensures Slice(dst, d0, d - d0) == old(Slice(dst, d0, d - d0))
    ensures Slice(mem, k, keep) == old(Slice(mem, k, keep))
    ensures forall i :: 0 <= i < dst.Length && !(d <= i < d + n) ==> dst[i] == old(dst[i])
  {
    ghost var before, kept := Slice(dst, d0, d - d0), Slice(mem, k, keep);
    CopyIn(dst, d, src, s, n);
    assert Slice(dst, d0, d - d0) == before;
    assert Slice(mem, k, keep) == kept;
  }

  /** memcpy behind bytes that are already there. */
  method Append(mem: array<byte>, ghost lo: nat, d: nat, src: seq<byte>, s: nat, n: nat)
    requires lo <= d && d + n <= mem.Length && s + n <= |src|
    modifies mem
    ensures mem[lo..d + n] == old(mem[lo..d]) + src[s..s + n]
  {
    ghost var before := mem[lo..d];
    CopyIn(mem, d, src, s, n);
    assert mem[lo..d] == before;
    assert mem[d..d + n] == src[s..s + n];
    assert mem[lo..d + n] == mem[lo..d] + mem[d..d + n];
  }
}
