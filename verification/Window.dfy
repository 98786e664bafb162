/** The 64 KB of history that a block can refer to. */
module Window {
  import opened BlockFormat

  function Min(a: nat, b: nat): (r: nat) {
    if a < b then a else b
  }

  /** s ends with the bytes of tail. */
  predicate EndsWith(s: seq<byte>, tail: seq<byte>) {
    |tail| <= |s| && s[|s| - |tail|..] == tail
  }

  lemma EndsWithTrans(s: seq<byte>, t: seq<byte>, u: seq<byte>)
    requires EndsWith(s, t) && EndsWith(t, u)
    ensures EndsWith(s, u)
  {
    assert s[|s| - |u|..] == s[|s| - |t|..][|t| - |u|..];
  }

  lemma EndsWithMore(s: seq<byte>, t: seq<byte>, more: seq<byte>)
    requires EndsWith(s, t)
    ensures EndsWith(s + more, t + more) && EndsWith(s + more, more)
  {
    assert (s + more)[|s + more| - |t + more|..] == t + more;
  }

  /** The end of dict is the end of out, at least as far as the last n bytes of out go. */
  predicate Remembers(dict: seq<byte>, out: seq<byte>, n: nat) {
    |dict| >= Min(|out|, n) && EndsWith(dict, out[|out| - Min(|out|, n)..])
  }

  lemma RemembersLess(dict: seq<byte>, out: seq<byte>, n: nat, m: nat)
    requires Remembers(dict, out, n) && m <= n
    ensures Remembers(dict, out, m)
  {
    var t, u := out[|out| - Min(|out|, n)..], out[|out| - Min(|out|, m)..];
    assert t[|t| - |u|..] == u;
    EndsWithTrans(dict, t, u);
  }

  lemma RemembersMore(dict: seq<byte>, out: seq<byte>, n: nat, more: seq<byte>)
    requires Remembers(dict, out, n)
    ensures Remembers(dict + more, out + more, n + |more|)
  {
    var t := out[|out| - Min(|out|, n)..];
    EndsWithMore(dict, t, more);
    assert (out + more)[|out + more| - Min(|out + more|, n + |more|)..] == t + more;
  }

  lemma EndsWithDrop(s: seq<byte>, k: nat)
    requires k <= |s|
    ensures EndsWith(s, s[|s| - k..])
  {
  }

  /** A shorter end of s ends a longer one. */
  lemma EndsWithin(s: seq<byte>, t: seq<byte>, k: nat)
    requires EndsWith(s, t) && |t| <= k <= |s|
    ensures EndsWith(s[|s| - k..], t)
  {
    assert s[|s| - k..][k - |t|..] == s[|s| - |t|..];
  }

  /** Cutting the dictionary at the front does no harm as long as enough of it is left. */
  lemma RemembersTail(dict: seq<byte>, out: seq<byte>, n: nat, k: nat)
    requires Remembers(dict, out, n) && k <= |dict| && (k >= n || k >= |out|)
    ensures Remembers(dict[|dict| - k..], out, n)
  {
    EndsWithin(dict, out[|out| - Min(|out|, n)..], k);
  }

  /** A dictionary that is itself the end of the output, and long enough. */
  lemma RemembersSuffix(dict: seq<byte>, out: seq<byte>, n: nat)
    requires EndsWith(out, dict) && |dict| >= Min(|out|, n)
    ensures Remembers(dict, out, n)
  {
    var t := out[|out| - Min(|out|, n)..];
    assert dict[|dict| - |t|..] == t;
  }

  // ---------- Blocks only see the window ----------

  /** Matches reach at most 65535 bytes back, so nothing before the last 65535 bytes of the history matters. */
  lemma {:induction false} DecodeWindow(src: seq<byte>, ip: nat, far: seq<byte>, near: seq<byte>)
    requires ip <= |src| && Decode(src, ip, far + near).Decoded?
    requires far == [] || |near| >= MAXDISTANCE
    ensures Decode(src, ip, near).Decoded?
    ensures Decode(src, ip, far + near).out == far + Decode(src, ip, near).out
    decreases |src| - ip
  {
    hide Decode, Parse, CopyMatch;
    var s := Parse(src, ip);
    DecodableHasNext(src, ip, far + near);
    if s.Match? {
      ParsedOffset(src, ip);
      var lits := src[s.start..s.start + s.ll];
      assert far + near + lits == far + (near + lits);
      CopyMatchDrop(far, near + lits, s.offset, s.len);
      DecodeStep(src, ip, far + near, lits);
      DecodeStep(src, ip, near, lits);
      DecodeWindow(src, s.next, far, CopyMatch(near + lits, s.offset, s.len));
    } else {
      var lits := src[s.start..];
      assert far + near + lits == far + (near + lits);
      DecodeEnd(src, ip, far + near, lits);
      DecodeEnd(src, ip, near, lits);
    }
  }

  lemma ParsedOffset(src: seq<byte>, ip: nat)
    requires ip <= |src|
    ensures Parse(src, ip).Match? ==> Parse(src, ip).offset <= MAXDISTANCE
  {
  }

  /** A block means the same behind any dictionary that remembers the window. */
  lemma RepresentsBehindWindow(block: seq<byte>, dict: seq<byte>, out: seq<byte>, text: seq<byte>)
    requires Represents(block, out, text) && Remembers(dict, out, KB64)
    ensures Represents(block, dict, text)
  {
    hide Decode, Conforming;
    var w := Min(|out|, KB64);
    var far, near := out[..|out| - w], out[|out| - w..];
    var back := dict[..|dict| - w];
    assert out == far + near;
    DecodeWindow(block, 0, far, near);
    assert far + Decode(block, 0, near).out == far + (near + text);
    assert (far + Decode(block, 0, near).out)[|far|..] == (far + (near + text))[|far|..];
    DecodeDrop(block, 0, back, near);
    assert dict == back + near;
    assert back + (near + text) == back + near + text;
  }

  lemma SamePrefix(back: seq<byte>, s: seq<byte>, near: seq<byte>, text: seq<byte>)
    requires back + s == back + near + text
    ensures s == near + text
  {
    assert s == (back + s)[|back|..];
    assert near + text == (back + near + text)[|back|..];
  }

  lemma DecodedBehind(block: seq<byte>, back: seq<byte>, far: seq<byte>, near: seq<byte>, text: seq<byte>)
    requires Decode(block, 0, back + near) == Decoded(back + near + text) && (back == [] || |near| >= MAXDISTANCE)
    ensures Decode(block, 0, far + near) == Decoded(far + near + text)
  {
    hide Decode;
    DecodeWindow(block, 0, back, near);
    SamePrefix(back, Decode(block, 0, near).out, near, text);
    DecodeDrop(block, 0, far, near);
    assert far + (near + text) == far + near + text;
  }

  /** And so does a block that decodes behind such a dictionary, if that is not longer than the text it remembers. */
  lemma DecodedBehindWindow(block: seq<byte>, dict: seq<byte>, out: seq<byte>, text: seq<byte>)
    requires Decode(block, 0, dict) == Decoded(dict + text) && Remembers(dict, out, KB64) && |dict| <= |out|
    ensures Decode(block, 0, out) == Decoded(out + text)
  {
    hide Decode;
    var w := Min(|out|, KB64);
    var far, near := out[..|out| - w], out[|out| - w..];
    var back := dict[..|dict| - w];
    assert out == far + near && dict == back + near;
    DecodedBehind(block, back, far, near, text);
  }
}
