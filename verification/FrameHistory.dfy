/** Where the frame decoder keeps the window, and what each way of moving it there preserves. */
module FrameHistory {
  import opened BlockFormat
  import opened Window

  /** How much of the window must be in the dictionary while pending bytes of the last block wait behind it. */
  function Need(pending: nat): (r: nat) {
    if pending >= KB64 then 0 else KB64 - pending
  }

  /**
    The dictionary holds the window of out, the text delivered so far. In the decoder's own buffer it may have other
    bytes in front of the window, but is never longer than out; elsewhere it is a piece of the output itself. While a decoded block, of which tmpOutStart of
    tmpOutSize bytes have been delivered, waits at tmpOut, the dictionary either ends right before the rest of that
    block, or the space in front of the block is large enough for what belongs there.
   */
  ghost predicate HistoryKept(inTmp: bool, dict: seq<byte>, out: seq<byte>, flushing: bool, tmpOut: nat, tmpOutStart: nat, tmpOutSize: nat) {
    && (dict == [] ==> out == []) && |dict| <= |out|
    && (flushing ==>
      tmpOutStart <= tmpOutSize && tmpOutStart <= |out| && Min(|out| - tmpOutStart, KB64) <= tmpOut <= |out| - tmpOutStart)
    && (if inTmp then
          Remembers(dict, out, if flushing then Need(tmpOutSize - tmpOutStart) else KB64)
          && (flushing ==> |dict| == tmpOut + tmpOutStart)
        else
          EndsWith(out, dict) && |dict| >= Min(|out|, KB64)
          && (flushing ==> tmpOut + tmpOutStart <= |dict| || KB64 <= |dict|))
  }

  /** Outside a flush, the dictionary remembers the whole window. */
  lemma KeptRemembers(inTmp: bool, dict: seq<byte>, out: seq<byte>, tmpOut: nat, tmpOutStart: nat, tmpOutSize: nat)
    requires HistoryKept(inTmp, dict, out, false, tmpOut, tmpOutStart, tmpOutSize)
    ensures Remembers(dict, out, KB64) && |dict| <= |out|
  {
    if !inTmp { RemembersSuffix(dict, out, KB64); }
  }

  /** Outside a flush, nothing depends on the place of the waiting block. */
  lemma KeptIdle(inTmp: bool, dict: seq<byte>, out: seq<byte>, tmpOut: nat, tmpOutStart: nat, tmpOutSize: nat, tmpOutStart': nat)
    requires HistoryKept(inTmp, dict, out, false, tmpOut, tmpOutStart, tmpOutSize)
    ensures HistoryKept(inTmp, dict, out, false, tmpOut, tmpOutStart', tmpOutSize)
  {
  }

  // ---------- The branches of LZ4F_updateDict ----------

  /** An empty dictionary can be anywhere. */
  lemma KeptEmpty(inTmp: bool, out: seq<byte>, flushing: bool, tmpOut: nat, tmpOutStart: nat, tmpOutSize: nat)
    requires HistoryKept(inTmp, [], out, flushing, tmpOut, tmpOutStart, tmpOutSize)
    ensures HistoryKept(false, [], out, flushing, tmpOut, tmpOutStart, tmpOutSize)
  {
  }

  /** Prefix mode: everything within the destination buffer. */
  lemma KeptPrefix(dict: seq<byte>, out: seq<byte>, flushing: bool, tmpOut: nat, tmpOutStart: nat, tmpOutSize: nat, more: seq<byte>)
    requires HistoryKept(false, dict, out, flushing, tmpOut, tmpOutStart, tmpOutSize)
    requires flushing ==> tmpOutStart + |more| <= tmpOutSize
    ensures HistoryKept(false, dict + more, out + more, flushing, tmpOut, tmpOutStart + |more|, tmpOutSize)
  {
    hide EndsWith;
    EndsWithMore(out, dict, more);
  }

  /** History in the destination buffer becomes large enough to be the dictionary. */
  lemma KeptInDst(inTmp: bool, dict: seq<byte>, out: seq<byte>, flushing: bool, tmpOut: nat, tmpOutStart: nat, tmpOutSize: nat,
                  delivered: seq<byte>, more: seq<byte>)
    requires HistoryKept(inTmp, dict, out, flushing, tmpOut, tmpOutStart, tmpOutSize)
    requires flushing ==> tmpOutStart + |more| <= tmpOutSize
    requires EndsWith(out, delivered) && |delivered| + |more| >= KB64
    ensures HistoryKept(false, delivered + more, out + more, flushing, tmpOut, tmpOutStart + |more|, tmpOutSize)
  {
    hide EndsWith;
    EndsWithMore(out, delivered, more);
  }

  /** Continue history within the decoder's buffer: the bytes are already where they belong. */
  lemma KeptInTmp(dict: seq<byte>, out: seq<byte>, tmpOut: nat, tmpOutStart: nat, tmpOutSize: nat, more: seq<byte>)
    requires HistoryKept(true, dict, out, true, tmpOut, tmpOutStart, tmpOutSize)
    requires tmpOutStart + |more| <= tmpOutSize
    ensures HistoryKept(true, dict + more, out + more, true, tmpOut, tmpOutStart + |more|, tmpOutSize)
  {
    hide Remembers;
    var need := Need(tmpOutSize - tmpOutStart);
    RemembersMore(dict, out, need, more);
    RemembersLess(dict + more, out + more, need + |more|, Need(tmpOutSize - (tmpOutStart + |more|)));
  }

  lemma KeptInTmpSize(dict: seq<byte>, out: seq<byte>, tmpOut: nat, tmpOutStart: nat, tmpOutSize: nat)
    requires HistoryKept(true, dict, out, true, tmpOut, tmpOutStart, tmpOutSize)
    ensures |dict| == tmpOut + tmpOutStart
  {
  }

  /** How much of the dictionary is copied in front of a waiting block. */
  function CopySize(tmpOut: nat, tmpOutSize: nat): (r: nat)
    ensures r <= tmpOut
  {
    if tmpOutSize > KB64 then 0 else Min(KB64 - tmpOutSize, tmpOut)
  }

  /** The dictionary reaches far enough back for what is copied in front of the waiting block. */
  lemma CopyReaches(dict: seq<byte>, out: seq<byte>, tmpOut: nat, tmpOutStart: nat, tmpOutSize: nat)
    requires HistoryKept(false, dict, out, true, tmpOut, tmpOutStart, tmpOutSize)
    ensures CopySize(tmpOut, tmpOutSize) > 0 ==> tmpOutStart + CopySize(tmpOut, tmpOutSize) <= |dict|
  {
  }

  lemma SuffixSlice(s: seq<byte>, t: seq<byte>, i: nat, j: nat)
    requires EndsWith(s, t) && j <= i <= |t|
    ensures i <= |s| && t[|t| - i..|t| - j] == s[|s| - i..|s| - j]
  {
    assert s[|s| - |t|..][|t| - i..|t| - j] == s[|s| - i..|s| - j];
  }

  /**
    Copy relevant dictionary portion in front of the waiting block: tmp is the decoder's buffer up to and including the
    delivered part of the block.
   */
  lemma KeptMoved(dict: seq<byte>, out: seq<byte>, tmpOut: nat, tmpOutStart: nat, tmpOutSize: nat, tmp: seq<byte>)
    requires HistoryKept(false, dict, out, true, tmpOut, tmpOutStart, tmpOutSize)
    requires |tmp| == tmpOut + tmpOutStart && tmp[tmpOut..] == out[|out| - tmpOutStart..]
    requires
      var c := CopySize(tmpOut, tmpOutSize);
      c > 0 ==>
        tmpOutStart + c <= |dict| && tmp[tmpOut - c..tmpOut] == dict[|dict| - (tmpOutStart + c)..|dict| - tmpOutStart]
    ensures HistoryKept(true, tmp, out, true, tmpOut, tmpOutStart, tmpOutSize)
  {
    hide EndsWith, Remembers;
    var c := CopySize(tmpOut, tmpOutSize);
    var n, w := tmpOutStart + c, Min(|out|, Need(tmpOutSize - tmpOutStart));
    EnoughCopied(|out|, tmpOut, tmpOutStart, tmpOutSize);
    if c > 0 { SuffixSlice(out, dict, n, tmpOutStart); }
    TailOfBoth(tmp, tmpOut, out, c, tmpOutStart);
    SameEnd(tmp, out, n, w);
    MovedFromEnd(tmp, out, tmpOut, tmpOutStart, tmpOutSize);
  }

  lemma MovedFromEnd(tmp: seq<byte>, out: seq<byte>, tmpOut: nat, tmpOutStart: nat, tmpOutSize: nat)
    requires |tmp| == tmpOut + tmpOutStart <= |out| && tmpOutStart <= tmpOutSize
    requires Min(|out| - tmpOutStart, KB64) <= tmpOut <= |out| - tmpOutStart
    requires EndsWith(tmp, out[|out| - Min(|out|, Need(tmpOutSize - tmpOutStart))..])
    ensures HistoryKept(true, tmp, out, true, tmpOut, tmpOutStart, tmpOutSize)
  {
  }

  lemma EnoughCopied(n: nat, tmpOut: nat, tmpOutStart: nat, tmpOutSize: nat)
    requires tmpOutStart <= tmpOutSize && tmpOutStart <= n && tmpOut >= Min(n - tmpOutStart, KB64)
    ensures Min(n, Need(tmpOutSize - tmpOutStart)) <= tmpOutStart + CopySize(tmpOut, tmpOutSize)
  {
  }

  lemma TailOfBoth(tmp: seq<byte>, tmpOut: nat, out: seq<byte>, c: nat, start: nat)
    requires c <= tmpOut && |tmp| == tmpOut + start && start <= |out| && tmp[tmpOut..] == out[|out| - start..]
    requires c > 0 ==> start + c <= |out| && tmp[tmpOut - c..tmpOut] == out[|out| - (start + c)..|out| - start]
    ensures start + c <= |out| && tmp[|tmp| - (start + c)..] == out[|out| - (start + c)..]
  {
    if c > 0 {
      assert tmp[|tmp| - (start + c)..] == tmp[tmpOut - c..tmpOut] + tmp[tmpOut..];
      assert out[|out| - (start + c)..] == out[|out| - (start + c)..|out| - start] + out[|out| - start..];
    }
  }

  lemma SameEnd(s: seq<byte>, t: seq<byte>, n: nat, w: nat)
    requires w <= n <= |s| && n <= |t| && s[|s| - n..] == t[|t| - n..]
    ensures EndsWith(s, t[|t| - w..])
  {
    assert s[|s| - w..] == s[|s| - n..][n - w..];
    assert t[|t| - w..] == t[|t| - n..][n - w..];
  }

  /** Copy the new bytes behind a dictionary in the decoder's buffer, which may first lose its beginning. */
  lemma KeptAppended(inTmp: bool, dict: seq<byte>, out: seq<byte>, tmpOut: nat, tmpOutStart: nat, tmpOutSize: nat, k: nat, more: seq<byte>)
    requires HistoryKept(inTmp, dict, out, false, tmpOut, tmpOutStart, tmpOutSize)
    requires k == |dict| || (k < |dict| && k + |more| == KB64)
    ensures HistoryKept(true, dict[|dict| - k..] + more, out + more, false, tmpOut, tmpOutStart, tmpOutSize)
  {
    hide Remembers, EndsWith;
    KeptRemembers(inTmp, dict, out, tmpOut, tmpOutStart, tmpOutSize);
    var d := dict[|dict| - k..];
    if k == |dict| {
      assert d == dict;
      RemembersMore(dict, out, KB64, more);
      RemembersLess(d + more, out + more, KB64 + |more|, KB64);
    } else {
      RemembersLess(dict, out, KB64, k);
      RemembersTail(dict, out, k, k);
      RemembersMore(d, out, k, more);
    }
  }

  // ---------- A block is decoded ----------

  /** A dictionary of the decoder that has grown too large is cut to the window. */
  lemma KeptCut(dict: seq<byte>, out: seq<byte>, tmpOut: nat, tmpOutStart: nat, tmpOutSize: nat)
    requires HistoryKept(true, dict, out, false, tmpOut, tmpOutStart, tmpOutSize) && |dict| >= KB64
    ensures HistoryKept(true, dict[|dict| - KB64..], out, false, tmpOut, tmpOutStart, tmpOutSize)
  {
    hide Remembers;
    RemembersTail(dict, out, KB64, KB64);
  }

  lemma KeptMovedTmp(inTmp: bool, dict: seq<byte>, out: seq<byte>, tmpOut: nat, tmpOutStart: nat, tmpOutSize: nat, tmpOut': nat)
    requires HistoryKept(inTmp, dict, out, false, tmpOut, tmpOutStart, tmpOutSize)
    ensures HistoryKept(inTmp, dict, out, false, tmpOut', tmpOutStart, tmpOutSize)
  {
  }

  /** A block that has just been decoded waits behind the dictionary, or behind room for the window. */
  lemma KeptWaiting(inTmp: bool, dict: seq<byte>, out: seq<byte>, tmpOut: nat, tmpOutStart: nat, tmpOutSize: nat, at: nat, size: nat)
    requires HistoryKept(inTmp, dict, out, false, tmpOut, tmpOutStart, tmpOutSize)
    requires at == if inTmp then |dict| else Min(|dict|, KB64)
    ensures HistoryKept(inTmp, dict, out, true, at, 0, size)
  {
    if inTmp { RemembersLess(dict, out, KB64, Need(size)); }
  }

  /** Once the waiting block has been delivered completely, the dictionary holds the whole window again. */
  lemma KeptFlushed(inTmp: bool, dict: seq<byte>, out: seq<byte>, tmpOut: nat, size: nat)
    requires HistoryKept(inTmp, dict, out, true, tmpOut, size, size)
    ensures HistoryKept(inTmp, dict, out, false, tmpOut, size, size)
  {
  }

  // ---------- The end of a call ----------

  /** The window moves from the output to the decoder's buffer. */
  lemma KeptSaved(dict: seq<byte>, out: seq<byte>, tmpOut: nat, tmpOutStart: nat, tmpOutSize: nat, k: nat, tmpOut': nat)
    requires HistoryKept(false, dict, out, false, tmpOut, tmpOutStart, tmpOutSize) && k == Min(|dict|, KB64)
    ensures HistoryKept(true, dict[|dict| - k..], out, false, tmpOut', tmpOutStart, tmpOutSize)
  {
    hide Remembers;
    KeptRemembers(false, dict, out, tmpOut, tmpOutStart, tmpOutSize);
    if k == |dict| {
      assert dict[|dict| - k..] == dict;
    } else {
      RemembersTail(dict, out, KB64, k);
    }
  }
}
