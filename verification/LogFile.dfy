/** lz4file.c: strings collected into chunks, compressed into frames, one frame a file. */
module LogFile {
  import opened BlockFormat
  import opened FrameFormat
  import opened FrameEncoder
  import Memory

  const CHUNKSIZE := 4096
  const BUFFERSIZE := 4200

  const kPrefs := Preferences(FrameInfo(true, false, false, 4, 0), 0, -1, true)

  datatype Status = Success | ErrCompress | ErrIO | ErrGeneric

  /** A C string, or NULL. */
  datatype CString = Null | Chars(chars: seq<byte>)

  /** The files of the device, whose operations succeed. */
  class FileSystem {
    var files: map<string, seq<byte>>

    constructor ()
      ensures files == map[]
    {
      files := map[];
    }
  }

  function TempName(path: string): string {
    path + ".tmp"
  }

  lemma TempNamesDiffer(path: string, other: string)
    requires path != other
    ensures TempName(path) != TempName(other)
  {
    assert TempName(path)[..|path|] == path && TempName(other)[..|other|] == other;
  }

  /** What one file has to hold: the strings, one after the other. */
  function Joined(strings: seq<seq<byte>>): seq<byte> {
    if strings == [] then [] else Joined(strings[..|strings| - 1]) + strings[|strings| - 1]
  }

  /** The room the log file layer sets aside: it holds the header, any chunk and the end of the frame, and fits into destbuf. */
  lemma CapSuffices(n: nat)
    requires n <= CHUNKSIZE
    ensures LZ4F_compressBound(CHUNKSIZE, kPrefs) == 4104 && LZ4F_compressBound(0, kPrefs) <= 4104
    ensures CompressBoundInternal(n, kPrefs, 0) <= 4104
  {
    RoomLast(CHUNKSIZE, kPrefs.info, true);
    RoomLast(n, kPrefs.info, true);
  }

  /** What a file holds; nothing if it is not there. */
  function Content(name: string, files: map<string, seq<byte>>): seq<byte> {
    if name in files then files[name] else []
  }

  /** A file that held stale and has been written from its beginning, without having been truncated. */
  function Over(stale: seq<byte>, bytes: seq<byte>): (r: seq<byte>)
    ensures |r| >= |bytes| && r[..|bytes|] == bytes
  {
    bytes + if |bytes| < |stale| then stale[|bytes|..] else []
  }

  /** One fs_write more. */
  lemma OverMore(stale: seq<byte>, bytes: seq<byte>, more: seq<byte>)
    ensures var f, n := Over(stale, bytes), |bytes| + |more|;
      bytes + more + (if n < |f| then f[n..] else []) == Over(stale, bytes + more)
  {
  }

  /** Left-overs spoil the file exactly if there are any. */
  lemma LeftOver(stale: seq<byte>, frame: seq<byte>, text: seq<byte>)
    requires DecodeFrame(frame) == Decoded(text)
    ensures DecodeFrame(Over(stale, frame)) == Decoded(text) <==> |stale| <= |frame|
  {
    hide DecodeFrame;
    if |stale| <= |frame| {
      assert Over(stale, frame) == frame;
    } else {
      FrameDelimited(frame, stale[|frame|..]);
    }
  }

  /** No file but the one with this name has changed, and that one is there. */
  ghost predicate Only(name: string, before: map<string, seq<byte>>, after: map<string, seq<byte>>) {
    name in after && after == before[name := after[name]]
  }

  lemma OnlyTwice(name: string, before: map<string, seq<byte>>, between: map<string, seq<byte>>, after: map<string, seq<byte>>)
    requires Only(name, before, between) && Only(name, between, after)
    ensures Only(name, before, after)
  {
  }

  /** The temporary file is gone, the file is there. */
  lemma Renamed(temp: string, before: map<string, seq<byte>>, after: map<string, seq<byte>>)
    requires Only(temp, before, after)
    ensures temp in after && after - {temp} == before - {temp}
    ensures temp !in before ==> after - {temp} == before
  {
  }

  /** lz4streamfile, used with reuseContext. */
  class LogStream {
    var ctx: CCtx?
    var cap: nat
    const destbuf: array<byte>
    const srcbuf: array<byte>
    var filename: string
    var nsrcdata: nat
    var isOpen: bool
    const fs: FileSystem
    /** How far the open file has been written, and what it held when it was opened. */
    var pos: nat
    ghost var stale: seq<byte>

    ghost function Repr(): set<object>
      reads `ctx, ctx
    {
      {this, destbuf, srcbuf, fs} + if ctx == null then {} else ctx.Repr()
    }

    ghost predicate Buffers()
      reads `ctx, ctx
    {
      && destbuf.Length == BUFFERSIZE && srcbuf.Length == CHUNKSIZE && destbuf != srcbuf
      && (ctx != null ==> destbuf !in ctx.Repr() && srcbuf !in ctx.Repr())
    }

    /** No file is open. */
    ghost predicate Closed()
      reads Repr()
    {
      Buffers() && !isOpen && nsrcdata == 0 && (ctx != null ==> ctx.Usable())
    }

    /** The compressor works on the open file, and fits its buffers. */
    ghost predicate Ready()
      reads Repr()
    {
      && Buffers() && isOpen && cap == LZ4F_compressBound(CHUNKSIZE, kPrefs)
      && ctx != null && ctx.prefs == kPrefs && ctx.SelfContained() && FileOk()
    }

    /** What has been written to the open file. */
    ghost function Emitted(): seq<byte>
      reads `filename, `pos, fs
    {
      if TempName(filename) in fs.files && pos <= |fs.files[TempName(filename)]| then fs.files[TempName(filename)][..pos] else []
    }

    ghost predicate FileOk()
      reads `filename, `pos, `stale, fs
    {
      TempName(filename) in fs.files && pos == |Emitted()| && fs.files[TempName(filename)] == Over(stale, Emitted())
    }

    /** A file is open and text has been written to it; the last nsrcdata bytes of text are still in srcbuf. */
    ghost predicate Writing(text: seq<byte>)
      reads Repr()
    {
      && Ready() && nsrcdata <= CHUNKSIZE && nsrcdata <= |text|
      && srcbuf[..nsrcdata] == text[|text| - nsrcdata..]
      && ctx.Encoding(Emitted(), text[..|text| - nsrcdata])
    }

    /** init_lz4stream. */
    constructor (fs: FileSystem)
      ensures Closed() && this.fs == fs && fresh(Repr() - {fs})
    {
      ctx, filename, nsrcdata, isOpen, cap, pos := null, "", 0, false, 0, 0;
      destbuf := new byte[BUFFERSIZE](_ => 0);
      srcbuf := new byte[CHUNKSIZE](_ => 0);
      this.fs := fs;
    }

    /** fs_write to the open file. */
    method WriteOut(n: nat)
      requires n <= destbuf.Length && FileOk()
      modifies `pos, fs
      ensures FileOk() && Emitted() == old(Emitted()) + destbuf[0..n]
      ensures Only(TempName(filename), old(fs.files), fs.files)
    {
      ghost var emitted := Emitted();
      var bytes, file := destbuf[0..n], fs.files[TempName(filename)];
      OverMore(stale, emitted, bytes);
      file := file[..pos] + bytes + if pos + n < |file| then file[pos + n..] else [];
      pos := pos + n;
      fs.files := fs.files[TempName(filename) := file];
      assert Emitted() == emitted + bytes;
    }

    /** LZ4F_compressBegin into the new file. */
    method WriteHeader() returns (result: Result)
      requires Buffers() && nsrcdata == 0 && ctx != null && ctx.Usable() && cap == LZ4F_compressBound(CHUNKSIZE, kPrefs)
      requires FileOk() && pos == 0
      modifies Repr()
      ensures result.Size? && isOpen && Writing([]) && ctx == old(ctx) && fresh(Repr() - old(Repr()))
      ensures Only(TempName(filename), old(fs.files), fs.files) && filename == old(filename) && stale == old(stale)
    {
      hide CCtx.Usable, CCtx.Encoding, LZ4F_compressBound, HeaderBytes;
      CapSuffices(0);
      result := ctx.CompressBegin(destbuf, 0, cap, kPrefs);
      assert [] + destbuf[0..result.size] == destbuf[0..result.size];
      WriteOut(result.size);
      isOpen := true;
      ghost var none: seq<byte> := [];
      assert none[..0] == none && srcbuf[..0] == none[0..];
    }

    /** fs_open of the temporary file, without truncation. */
    method OpenTemp(path: string)
      modifies `filename, `stale, `pos, fs
      ensures filename == path && pos == 0 && FileOk() && stale == Content(TempName(path), old(fs.files))
      ensures Only(TempName(path), old(fs.files), fs.files)
    {
      filename := path;
      stale := Content(TempName(path), fs.files);
      if TempName(path) !in fs.files { fs.files := fs.files[TempName(path) := []]; }
      pos := 0;
      assert Emitted() == [] && Over(stale, []) == stale;
    }

    /**
      lz4open: the header of a frame in a temporary file, which is created if it is not there. If it is, what it holds stays
      until it is overwritten.
     */
    method Lz4Open(path: string) returns (status: Status)
      requires Closed()
      modifies Repr()
      ensures status == Success && isOpen && Writing([]) && filename == path && fresh(Repr() - old(Repr()))
      ensures Only(TempName(path), old(fs.files), fs.files) && stale == Content(TempName(path), old(fs.files))
    {
      hide CCtx.Usable, Writing, LZ4F_compressBound, FileOk, Only;
      ghost var before := fs.files;
      OpenTemp(path);
      cap := LZ4F_compressBound(CHUNKSIZE, kPrefs);
      if ctx == null { ctx := new CCtx(); }
      ghost var between := fs.files;
      var header := WriteHeader();
      OnlyTwice(TempName(path), before, between, fs.files);
      status := if header.Err? then ErrIO else Success;
    }

    /** LZ4F_compressUpdate of the chunk. */
    method CompressChunk(ghost text: seq<byte>) returns (result: Result)
      requires Writing(text)
      modifies ctx, ctx.Repr(), destbuf
      ensures result.Size? && result.size < BUFFERSIZE && Ready() && Repr() == old(Repr()) && Emitted() == old(Emitted())
      ensures ctx.Encoding(Emitted() + destbuf[0..result.size], text)
    {
      hide CCtx.Encoding, LZ4F_compressBound, CompressBoundInternal, Over;
      ghost var before := text[..|text| - nsrcdata];
      CapSuffices(nsrcdata);
      ctx.InFrame(Emitted(), before);
      result := ctx.CompressUpdate(destbuf, 0, cap, srcbuf, 0, nsrcdata, false, Emitted(), before);
      assert before + srcbuf[0..nsrcdata] == text;
    }

    /** The chunk goes to the compressor, and what comes out of it to the file. */
    method WriteChunk(ghost text: seq<byte>) returns (result: Result)
      requires Writing(text)
      modifies Repr()
      ensures result.Size? && result.size < BUFFERSIZE && isOpen && Writing(text) && nsrcdata == 0
      ensures filename == old(filename) && Repr() == old(Repr()) && stale == old(stale)
      ensures Only(TempName(filename), old(fs.files), fs.files)
    {
      hide CCtx.Encoding, CCtx.SelfContained, LZ4F_compressBound, Over, Only;
      result := CompressChunk(text);
      nsrcdata := 0;
      WriteOut(result.size);
      NothingCollected(text);
    }

    lemma NothingCollected(text: seq<byte>)
      requires Ready() && nsrcdata == 0 && ctx.Encoding(Emitted(), text)
      ensures Writing(text)
    {
      hide CCtx.Encoding, CCtx.SelfContained, LZ4F_compressBound, Over;
      assert srcbuf[..0] == text[|text| - 0..] && text[..|text| - 0] == text;
    }

    /** A string goes to the end of srcbuf. */
    method Collect(chars: seq<byte>, ghost text: seq<byte>)
      requires Writing(text) && nsrcdata + |chars| <= CHUNKSIZE
      modifies `nsrcdata, srcbuf
      ensures Writing(text + chars) && nsrcdata == old(nsrcdata) + |chars|
    {
      hide CCtx.Encoding, LZ4F_compressBound;
      ghost var all := text + chars;
      Memory.Append(srcbuf, 0, nsrcdata, chars, 0, |chars|);
      nsrcdata := nsrcdata + |chars|;
      assert srcbuf[..nsrcdata] == srcbuf[0..nsrcdata] == all[|all| - nsrcdata..];
      assert all[..|all| - nsrcdata] == text[..|text| - (nsrcdata - |chars|)];
    }

    /** The frame has been ended, and stands for text. */
    ghost predicate Ended(text: seq<byte>)
      reads Repr()
    {
      && Buffers() && isOpen && nsrcdata == 0 && ctx != null && ctx.Usable()
      && FileOk() && DecodeFrame(Emitted()) == Decoded(text)
    }

    /** The end of the frame goes to the file. */
    method WriteEnd(ghost text: seq<byte>) returns (result: Result)
      requires Writing(text) && nsrcdata == 0
      modifies Repr()
      ensures result.Size? && result.size < BUFFERSIZE && isOpen && Ended(text)
      ensures filename == old(filename) && Repr() == old(Repr()) && stale == old(stale)
      ensures Only(TempName(filename), old(fs.files), fs.files)
    {
      hide CCtx.Encoding, CCtx.Usable, LZ4F_compressBound, CompressBoundInternal, DecodeFrame;
      assert text[..|text| - nsrcdata] == text;
      CapSuffices(0);
      ctx.InFrame(Emitted(), text);
      result := ctx.CompressEnd(destbuf, 0, cap, Emitted(), text);
      WriteOut(result.size);
    }

    /**
      lz4write: a string is collected, after the chunk has been written if it would not fit any more; NULL ends the
      frame. Nothing fails, and nsrcdata stays within the chunk.
     */
    method Lz4Write(data: CString, ghost text: seq<byte>) returns (status: Status)
      requires Writing(text) && (data.Chars? ==> |data.chars| < CHUNKSIZE)
      modifies Repr()
      ensures status == Success && isOpen && filename == old(filename) && Repr() == old(Repr()) && stale == old(stale)
      ensures if data.Chars? then Writing(text + data.chars) else Ended(text)
      ensures data.Chars? ==>
        if old(nsrcdata) + |data.chars| <= CHUNKSIZE then nsrcdata == old(nsrcdata) + |data.chars| && fs.files == old(fs.files)
        else nsrcdata == |data.chars|
      ensures Only(TempName(filename), old(fs.files), fs.files)
    {
      assert isOpen && Only(TempName(filename), fs.files, fs.files);
      hide Writing, Ended, Only, Repr, Over;
      ghost var before := fs.files;
      var result, ndata := Size(0), if data.Chars? then |data.chars| else 0;
      if CHUNKSIZE < ndata + nsrcdata || (data.Null? && nsrcdata > 0) {
        result := WriteChunk(text);
      }
      ghost var between := fs.files;
      if data.Chars? {
        Collect(data.chars, text);
      } else {
        result := WriteEnd(text);
        OnlyTwice(TempName(filename), before, between, fs.files);
      }
      status := if result.Err? then ErrCompress else Success;
    }

    /** fs_rename of the temporary file. */
    method Finish(ghost text: seq<byte>) returns (ghost frame: seq<byte>)
      requires Ended(text)
      modifies `isOpen, `filename, fs
      ensures Closed() && Repr() == old(Repr()) && DecodeFrame(frame) == Decoded(text)
      ensures fs.files == (old(fs.files) - {TempName(old(filename))})[old(filename) := Over(stale, frame)]
    {
      hide CCtx.Usable, DecodeFrame, Over;
      frame := Emitted();
      var pathtmp := TempName(filename);
      fs.files := (fs.files - {pathtmp})[filename := fs.files[pathtmp]];
      isOpen := false;
      filename := "";
    }

    /**
      lz4close: the finished file gets its name. It starts with a frame that decodes to everything that was written to it;
      what is left of an older temporary file follows.
     */
    method Lz4Close(ghost text: seq<byte>) returns (status: Status, ghost frame: seq<byte>)
      requires isOpen ==> Writing(text)
      modifies Repr()
      ensures !old(isOpen) ==> status == ErrGeneric && !isOpen && fs.files == old(fs.files)
      ensures old(isOpen) ==>
        && status == Success && Closed() && Repr() == old(Repr()) && DecodeFrame(frame) == Decoded(text)
        && fs.files == (old(fs.files) - {TempName(old(filename))})[old(filename) := Over(old(stale), frame)]
    {
      hide Writing, Ended, DecodeFrame, Only, Over, TempName;
      if !isOpen { return ErrGeneric, []; }
      ghost var before := fs.files;
      status := Lz4Write(Null, text);
      Renamed(TempName(filename), before, fs.files);
      frame := Finish(text);
      status := Success;
    }

    /** One file: open, any strings, close. */
    method WriteFile(path: string, strings: seq<seq<byte>>) returns (ghost frame: seq<byte>)
      requires Closed() && forall i :: 0 <= i < |strings| ==> |strings[i]| < CHUNKSIZE
      modifies Repr()
      ensures Closed() && fresh(Repr() - old(Repr())) && DecodeFrame(frame) == Decoded(Joined(strings))
      ensures fs.files == (old(fs.files) - {TempName(path)})[path := Over(Content(TempName(path), old(fs.files)), frame)]
    {
      hide Closed, Writing, DecodeFrame, Over;
      ghost var before := fs.files;
      var status := Lz4Open(path);
      var i := 0;
      while i < |strings|
        invariant i <= |strings| && isOpen && Writing(Joined(strings[..i])) && filename == path
        invariant fresh(Repr() - old(Repr())) && stale == Content(TempName(path), before)
        invariant Only(TempName(path), before, fs.files)
      {
        assert strings[..i + 1][..i] == strings[..i];
        ghost var between := fs.files;
        status := Lz4Write(Chars(strings[i]), Joined(strings[..i]));
        OnlyTwice(TempName(path), before, between, fs.files);
        i := i + 1;
      }
      assert strings[..i] == strings;
      Renamed(TempName(path), before, fs.files);
      status, frame := Lz4Close(Joined(strings));
    }
  }

  /** What one file of a log holds afterwards. */
  ghost predicate FileHolds(path: string, before: map<string, seq<byte>>, after: map<string, seq<byte>>, text: seq<byte>) {
    && path in after
    && exists frame :: DecodeFrame(frame) == Decoded(text) && after[path] == Over(Content(TempName(path), before), frame)
  }

  /** Without a temporary file from an interrupted run, the file is a frame that decodes to the text. */
  lemma CleanFile(path: string, before: map<string, seq<byte>>, after: map<string, seq<byte>>, text: seq<byte>)
    requires FileHolds(path, before, after, text) && Content(TempName(path), before) == []
    ensures DecodeFrame(after[path]) == Decoded(text)
  {
    hide DecodeFrame;
    var frame :| DecodeFrame(frame) == Decoded(text) && after[path] == Over(Content(TempName(path), before), frame);
    LeftOver([], frame, text);
  }

  /** No path is the temporary file of another, and no path comes twice. */
  ghost predicate Distinct(paths: seq<string>) {
    && (forall i, j :: 0 <= i < j < |paths| ==> paths[i] != paths[j])
    && (forall i :: 0 <= i < |paths| ==> TempName(paths[i]) !in paths)
  }

  /** The first k files are written, and nothing else has changed but their temporary files. */
  ghost predicate FilesWritten(paths: seq<string>, contents: seq<seq<seq<byte>>>, k: nat, before: map<string, seq<byte>>,
                               after: map<string, seq<byte>>)
    requires k <= |paths| && k <= |contents|
  {
    && (forall j :: 0 <= j < k ==> FileHolds(paths[j], before, after, Joined(contents[j])))
    && OthersKept(paths, k, before, after)
  }

  /** Only the first k files and their temporary files may have changed. */
  ghost predicate OthersKept(paths: seq<string>, k: nat, before: map<string, seq<byte>>, after: map<string, seq<byte>>)
    requires k <= |paths|
  {
    forall path :: path !in paths[..k] && (forall j :: 0 <= j < k ==> path != TempName(paths[j])) ==>
      (path in after <==> path in before) && (path in after ==> after[path] == before[path])
  }

  lemma OneMoreChanged(paths: seq<string>, k: nat, before: map<string, seq<byte>>, between: map<string, seq<byte>>,
                       content: seq<byte>)
    requires k < |paths| && OthersKept(paths, k, before, between)
    ensures OthersKept(paths, k + 1, before, (between - {TempName(paths[k])})[paths[k] := content])
  {
    hide TempName;
    assert paths[..k + 1] == paths[..k] + [paths[k]];
  }

  lemma HoldsStill(path: string, before: map<string, seq<byte>>, between: map<string, seq<byte>>, after: map<string, seq<byte>>,
                   text: seq<byte>)
    requires FileHolds(path, before, between, text) && (path in between ==> path in after && after[path] == between[path])
    ensures FileHolds(path, before, after, text)
  {
    hide DecodeFrame, Over;
  }

  lemma HoldsNow(path: string, before: map<string, seq<byte>>, after: map<string, seq<byte>>, frame: seq<byte>, text: seq<byte>)
    requires DecodeFrame(frame) == Decoded(text)
    requires path in after && after[path] == Over(Content(TempName(path), before), frame)
    ensures FileHolds(path, before, after, text)
  {
    hide DecodeFrame, Over;
  }

  lemma NoFiles(paths: seq<string>, contents: seq<seq<seq<byte>>>, files: map<string, seq<byte>>)
    ensures FilesWritten(paths, contents, 0, files, files)
  {
  }

  lemma OneMoreFile(paths: seq<string>, contents: seq<seq<seq<byte>>>, k: nat, before: map<string, seq<byte>>,
                    between: map<string, seq<byte>>, after: map<string, seq<byte>>, frame: seq<byte>)
    requires k < |paths| && k < |contents| && Distinct(paths) && FilesWritten(paths, contents, k, before, between)
    requires DecodeFrame(frame) == Decoded(Joined(contents[k]))
    requires after == (between - {TempName(paths[k])})[paths[k] := Over(Content(TempName(paths[k]), between), frame)]
    ensures FilesWritten(paths, contents, k + 1, before, after)
  {
    hide DecodeFrame, Over, FileHolds;
    var temp := TempName(paths[k]);
    forall j | 0 <= j < k ensures temp != TempName(paths[j]) { TempNamesDiffer(paths[j], paths[k]); }
    assert temp !in paths[..k] && Content(temp, between) == Content(temp, before);
    OneMoreChanged(paths, k, before, between, Over(Content(temp, between), frame));
    hide OthersKept;
    forall j | 0 <= j < k + 1 ensures FileHolds(paths[j], before, after, Joined(contents[j])) {
      if j < k {
        HoldsStill(paths[j], before, between, after, Joined(contents[j]));
      } else {
        HoldsNow(paths[k], before, after, frame, Joined(contents[k]));
      }
    }
  }

  /**
    One log stream writes any number of files with one compression context. Each file decodes to its strings, unless
    an interrupted run has left a temporary file for it that is longer than the new frame.
   */
  method WriteFiles(fs: FileSystem, paths: seq<string>, contents: seq<seq<seq<byte>>>)
    requires |paths| == |contents| && Distinct(paths)
    requires forall k, i :: 0 <= k < |contents| && 0 <= i < |contents[k]| ==> |contents[k][i]| < CHUNKSIZE
    modifies fs
    ensures FilesWritten(paths, contents, |paths|, old(fs.files), fs.files)
  {
    hide LogStream.Closed, DecodeFrame, FilesWritten, Over, Distinct;
    NoFiles(paths, contents, fs.files);
    var lz4id := new LogStream(fs);
    var k := 0;
    while k < |paths|
      invariant k <= |paths| && lz4id.Closed() && lz4id.fs == fs && fresh(lz4id.Repr() - {fs})
      invariant FilesWritten(paths, contents, k, old(fs.files), fs.files)
    {
      ghost var between := fs.files;
      ghost var frame := lz4id.WriteFile(paths[k], contents[k]);
      OneMoreFile(paths, contents, k, old(fs.files), between, fs.files, frame);
      k := k + 1;
    }
  }
}
