/** What a caller of the frame functions relies on: any way of compressing and any way of decompressing fit together. */
module FrameRoundTrip {
  import opened BlockFormat
  import opened FrameFormat
  import opened FrameEncoder
  import FrameDecoder

  datatype Call = Update(input: seq<byte>) | Flush

  /** What the calls hand over. */
  function Inputs(calls: seq<Call>): seq<byte> {
    if calls == [] then []
    else Inputs(calls[..|calls| - 1]) + (if calls[|calls| - 1].Update? then calls[|calls| - 1].input else [])
  }

  /** LZ4F_compressBegin, with the documented room. */
  method Begin(ctx: CCtx, prefs: Preferences) returns (frame: seq<byte>)
    requires ctx.Usable() && ValidPreferences(Defaulted(prefs))
    modifies ctx.Repr()
    ensures fresh(ctx.Repr() - old(ctx.Repr())) && ctx.prefs == Defaulted(prefs)
    ensures ctx.Encoding(frame, []) && ctx.SelfContained()
  {
    hide CCtx.Encoding, CCtx.Usable;
    var dst := new byte[maxFHSize](_ => 0);
    var result := ctx.CompressBegin(dst, 0, maxFHSize, prefs);
    frame := dst[0..result.size];
  }

  /** One call with new buffers and the documented room. */
  method Make(ctx: CCtx, call: Call, frame: seq<byte>, ghost text: seq<byte>) returns (frame': seq<byte>)
    requires ctx.Encoding(frame, text) && ctx.SelfContained()
    modifies ctx.Repr()
    ensures ctx.Repr() == old(ctx.Repr()) && ctx.prefs == old(ctx.prefs)
    ensures ctx.Encoding(frame', text + if call.Update? then call.input else []) && ctx.SelfContained()
  {
    hide CCtx.Encoding, LZ4F_compressBound, CompressBoundInternal;
    ctx.InFrame(frame, text);
    if call.Update? {
      var n := |call.input|;
      var cap := LZ4F_compressBound(n, ctx.prefs);
      var src, dst := new byte[n](i requires 0 <= i < n => call.input[i]), new byte[cap](_ => 0);
      BoundSuffices(n, ctx.prefs, ctx.tmpInSize);
      var result := ctx.CompressUpdate(dst, 0, cap, src, 0, n, false, frame, text);
      assert src[0..n] == call.input;
      frame' := frame + dst[0..result.size];
    } else {
      var cap := ctx.tmpInSize + BHSize + BFSize;
      var dst := new byte[cap](_ => 0);
      var result := ctx.Flush(dst, 0, cap, frame, text);
      assert text + [] == text;
      frame' := frame + dst[0..result.size];
    }
  }

  /**
    Any input, cut into any pieces, with LZ4F_flush called anywhere, with any preferences: the frame that comes out
    decodes to the input, and the context can start another one.
   */
  method Encode(ctx: CCtx, prefs: Preferences, calls: seq<Call>) returns (frame: seq<byte>)
    requires ctx.Usable() && ValidPreferences(Defaulted(prefs))
    requires prefs.info.contentSize == 0 || prefs.info.contentSize == |Inputs(calls)|
    modifies ctx.Repr()
    ensures fresh(ctx.Repr() - old(ctx.Repr())) && ctx.Usable()
    ensures DecodeFrame(frame) == Decoded(Inputs(calls))
  {
    hide CCtx.Encoding, CCtx.Usable, LZ4F_compressBound, DecodeFrame;
    frame := Begin(ctx, prefs);
    var i := 0;
    while i < |calls|
      invariant i <= |calls| && ctx.prefs == Defaulted(prefs)
      invariant fresh(ctx.Repr() - old(ctx.Repr()))
      invariant ctx.Encoding(frame, Inputs(calls[..i])) && ctx.SelfContained()
    {
      assert calls[..i + 1][..i] == calls[..i];
      frame := Make(ctx, calls[i], frame, Inputs(calls[..i]));
      i := i + 1;
    }
    assert calls[..i] == calls;
    ctx.InFrame(frame, Inputs(calls));
    var cap := LZ4F_compressBound(0, ctx.prefs);
    var dst := new byte[cap](_ => 0);
    var result := ctx.CompressEnd(dst, 0, cap, frame, Inputs(calls));
    frame := frame + dst[0..result.size];
  }

  /** A frame in a new context. */
  method Decode(frame: seq<byte>, ins: nat -> nat, outs: nat -> nat) returns (text: seq<byte>)
    requires DecodeFrame(frame).Decoded? && forall i: nat :: ins(i) > 0 && outs(i) > 0
    ensures DecodeFrame(frame) == Decoded(text)
  {
    hide DecodeFrame;
    var dctx := new FrameDecoder.DCtx();
    assert frame == frame + [];
    var used;
    text, used := FrameDecoder.DecodeNext(dctx, frame, frame, [], ins, outs);
  }

  /** Compressing in any pieces and decompressing in any pieces gives the input back. */
  method RoundTrip(prefs: Preferences, calls: seq<Call>, ins: nat -> nat, outs: nat -> nat) returns (text: seq<byte>)
    requires ValidPreferences(Defaulted(prefs))
    requires prefs.info.contentSize == 0 || prefs.info.contentSize == |Inputs(calls)|
    requires forall i: nat :: ins(i) > 0 && outs(i) > 0
    ensures text == Inputs(calls)
  {
    hide CCtx.Usable, DecodeFrame;
    var cctx := new CCtx();
    var frame := Encode(cctx, prefs, calls);
    text := Decode(frame, ins, outs);
  }
}
