/** The write context of src/writer.c: a growable table of open output
    files keyed by filename, with a "last used" fast path; the output path
    each file is opened at; and the local mode, which appends to a growable,
    NUL-terminated buffer instead of writing files. The global `extension`
    of writer.h is a parameter here. */
module WriteContexts {
  import opened Basics


  const Nul: Byte := 0

  /** A `FILE *` returned by `fopen(path, "w")`, with the bytes written to it. */
  datatype OpenFile = OpenFile(path: string, data: Bytes)

  /** The caller's `STRING` (its `str`, whose length is the capacity `n`)
      together with the context's `localBufferPosition`. */
  datatype LocalBuffer = LocalBuffer(str: Bytes, pos: nat) {
    /** The position lies inside the allocation and holds the terminator. */
    predicate Valid() {
      pos < |str| && str[pos] == Nul
    }

    /** What has been written since the buffer was reset. */
    function Text(): Bytes
      requires Valid()
    {
      str[..pos]
    }
  }

  /** `WRITE_CONTEXT`. `nfiles` is `|filenames|`; `lastfile` is the index in
      `files` of the handle the C code keeps a pointer to. */
  datatype WriteContext = WriteContext(
    outputDirectory: string,
    filingId: string,
    filenames: seq<string>,
    files: seq<OpenFile>,
    lastname: Option<string>,
    lastfile: Option<nat>,
    local: bool,
    localBuffer: Option<LocalBuffer>)

  /** The path `getFile` opens: output directory, filename, `/`, filing id,
      extension. */
  function FullPath(outputDirectory: string, filename: string, filingId: string, extension: string): string {
    outputDirectory + filename + "/" + filingId + extension
  }

  /** The `malloc` size `getFile` computes for that path. */
  function AllocSize(outputDirectory: string, filename: string, filingId: string, extension: string): nat {
    |outputDirectory| + |filename| + 1 + |filingId| + |extension| + 1
  }

  /** A C string: no terminator inside. */
  predicate NoNul(s: string) {
    '\0' !in s
  }

  /** `strcat(a, src)` where `a` currently holds the C string `cur`: the
      terminator is found by scanning, then `src` and a new terminator are
      copied over it. */
  method StrCat(a: array<char>, ghost cur: string, src: string)
    requires NoNul(cur) && NoNul(src)
    requires |cur| + |src| + 1 <= a.Length && a[..|cur| + 1] == cur + ['\0']
    modifies a
    ensures a[..|cur| + |src| + 1] == cur + src + ['\0']
  {
    var n := 0;
    while a[n] != '\0'
      invariant 0 <= n <= |cur|
      invariant a[..|cur| + 1] == cur + ['\0']
      decreases |cur| - n
    {
      assert a[n] == (cur + ['\0'])[n];
      n := n + 1;
    }
    assert a[n] == (cur + ['\0'])[n];
    var k := 0;
    while k < |src|
      invariant 0 <= k <= |src|
      invariant a[..n] == cur
      invariant a[n..n + k] == src[..k]
    {
      a[n + k] := src[k];
      assert a[n..n + k + 1] == a[n..n + k] + [src[k]];
      assert src[..k + 1] == src[..k] + [src[k]];
      k := k + 1;
    }
    a[n + k] := '\0';
    assert a[..n + k + 1] == a[..n] + a[n..n + k] + [a[n + k]];
  }

  /** The `malloc`, `strcpy` and `strcat` calls of `getFile`: the buffer is
      filled exactly, with the full path and its terminator. */
  method AssemblePath(outputDirectory: string, filename: string, filingId: string, extension: string)
    returns (buf: string)
    requires NoNul(outputDirectory) && NoNul(filename) && NoNul(filingId) && NoNul(extension)
    ensures |buf| == AllocSize(outputDirectory, filename, filingId, extension)
    ensures buf == FullPath(outputDirectory, filename, filingId, extension) + ['\0']
  {
    var a := new char[AllocSize(outputDirectory, filename, filingId, extension)];
    a[0] := '\0';
    assert a[..1] == [] + ['\0'];
    StrCat(a, [], outputDirectory);
    assert [] + outputDirectory == outputDirectory;
    StrCat(a, outputDirectory, filename);
    StrCat(a, outputDirectory + filename, "/");
    StrCat(a, outputDirectory + filename + "/", filingId);
    StrCat(a, outputDirectory + filename + "/" + filingId, extension);
    buf := a[..];
  }

  /** The bookkeeping every reachable context keeps. */
  predicate Valid(ctx: WriteContext, extension: string) {
    && |ctx.filenames| == |ctx.files|
    && Distinct(ctx.filenames)
    && (forall i :: 0 <= i < |ctx.files| ==>
          ctx.files[i].path == FullPath(ctx.outputDirectory, ctx.filenames[i], ctx.filingId, extension))
    && (ctx.lastname.Some? <==> ctx.lastfile.Some?)
    && (ctx.lastfile.Some? ==>
          ctx.lastfile.value < |ctx.files| && ctx.filenames[ctx.lastfile.value] == ctx.lastname.value)
    && (ctx.local ==> ctx.localBuffer.Some? && ctx.localBuffer.value.Valid())
  }

  /** The text of the local buffer; empty when there is none. */
  function LocalText(ctx: WriteContext): Bytes {
    if ctx.localBuffer.Some? && ctx.localBuffer.value.Valid() then ctx.localBuffer.value.Text() else []
  }

  /** `newWriteContext(outputDirectory, filingId)`: no files, no last name,
      file mode. */
  function NewWriteContext(outputDirectory: string, filingId: string): (r: WriteContext)
    ensures forall extension :: Valid(r, extension)
    ensures |r.filenames| == 0 && r.lastname.None? && r.lastfile.None? && !r.local
    ensures r.outputDirectory == outputDirectory && r.filingId == filingId
  {
    WriteContext(outputDirectory, filingId, [], [], None, None, false, None)
  }

  /** `initializeLocalWriteContext(writeContext, line)`: switches to local
      mode on the caller's buffer, at position 0, with the buffer emptied.
      The caller's `STRING` always has room for the terminator. */
  function InitializeLocalWriteContext(ctx: WriteContext, line: Bytes): (r: WriteContext)
    requires |line| >= 1
    ensures r.local && r.localBuffer.Some? && r.localBuffer.value.Valid()
    ensures r.localBuffer.value.pos == 0 && r.localBuffer.value.str[0] == Nul
    ensures r.localBuffer.value.Text() == []
    ensures r.localBuffer.value.str[1..] == line[1..]
    ensures r.filenames == ctx.filenames && r.files == ctx.files
    ensures forall extension :: Valid(ctx, extension) ==> Valid(r, extension)
  {
    ctx.(local := true, localBuffer := Some(LocalBuffer(line[0 := Nul], 0)))
  }

  /** The index of `filename` in the table: the loop of `getFile`. */
  function IndexOf(filenames: seq<string>, filename: string): (r: Option<nat>)
    ensures r.Some? <==> filename in filenames
    ensures r.Some? ==> r.value < |filenames| && filenames[r.value] == filename
  {
    if |filenames| == 0 then None
    else if filenames[0] == filename then Some(0)
    else
      match IndexOf(filenames[1..], filename)
      case Some(i) => Some(i + 1)
      case None => None
  }

  /** `getFile(context, filename)`. The same name as last time changes
      nothing; a name already in the table only moves the fast path to it;
      a new name is appended, opened at its full path, and becomes the last
      one. Directory creation (`mkdir_p`) is not modelled. */
  function GetFile(ctx: WriteContext, filename: string, extension: string): (r: WriteContext)
    requires Valid(ctx, extension)
    ensures Valid(r, extension)
    ensures r.lastname == Some(filename) && r.filenames[r.lastfile.value] == filename
    ensures ctx.lastname == Some(filename) ==> r == ctx
    ensures filename in ctx.filenames ==>
              r == ctx.(lastname := Some(filename), lastfile := IndexOf(ctx.filenames, filename))
    ensures filename !in ctx.filenames ==>
              && r.filenames == ctx.filenames + [filename]
              && r.files == ctx.files + [OpenFile(FullPath(ctx.outputDirectory, filename, ctx.filingId, extension), [])]
              && r.lastfile == Some(|ctx.files|)
    ensures r.outputDirectory == ctx.outputDirectory && r.filingId == ctx.filingId
    ensures r.local == ctx.local && r.localBuffer == ctx.localBuffer
  {
    if ctx.lastname.Some? && ctx.lastname.value == filename then
      ctx
    else
      match IndexOf(ctx.filenames, filename)
      case Some(i) => ctx.(lastname := Some(filename), lastfile := Some(i))
      case None =>
        var n := |ctx.files|;
        var file := OpenFile(FullPath(ctx.outputDirectory, filename, ctx.filingId, extension), []);
        ctx.(filenames := ctx.filenames + [filename], files := ctx.files + [file],
             lastname := Some(filename), lastfile := Some(n))
  }

  /** The bytes written so far to the file for `filename`. */
  function FileData(ctx: WriteContext, filename: string): Bytes
    requires |ctx.filenames| == |ctx.files|
  {
    match IndexOf(ctx.filenames, filename)
    case Some(i) => ctx.files[i].data
    case None => []
  }

  /** The filename determines the path: two table entries never share a
      file, whatever the directory, filing id and extension. */
  lemma FullPathInjective(dir: string, a: string, b: string, filingId: string, extension: string)
    requires FullPath(dir, a, filingId, extension) == FullPath(dir, b, filingId, extension)
    ensures a == b
  {
    var p := FullPath(dir, a, filingId, extension);
    assert |a| == |b|;
    assert p[|dir|..|dir| + |a|] == a;
    assert FullPath(dir, b, filingId, extension)[|dir|..|dir| + |b|] == b;
  }

  /** The allocation holds the path and its terminator exactly. */
  lemma AllocSizeFits(dir: string, filename: string, filingId: string, extension: string)
    ensures AllocSize(dir, filename, filingId, extension) == |FullPath(dir, filename, filingId, extension)| + 1
  {
  }

  /** `growStringTo(s, n)`: memory.h is not part of this model; all that is
      relied on is a capacity of at least `n` with the old contents kept.
      New cells are taken to hold zero. */
  function GrowStringTo(str: Bytes, n: nat): (r: Bytes)
    requires n >= |str|
    ensures |r| == n && r[..|str|] == str
  {
    str + seq(n - |str|, _ => Nul)
  }

  /** Local-mode `writeN`: the text grows by exactly the `nchars` bytes
      given, bytes before the old position are untouched, the new position
      holds the terminator, and the capacity never shrinks. */
  function LocalWriteN(b: LocalBuffer, s: Bytes, nchars: int): (r: LocalBuffer)
    requires b.Valid() && 0 <= nchars <= |s|
    ensures r.Valid()
    ensures r.pos == b.pos + nchars
    ensures r.str[..b.pos] == b.str[..b.pos]
    ensures r.str[b.pos..r.pos] == s[..nchars]
    ensures r.Text() == b.Text() + s[..nchars]
    ensures |r.str| >= |b.str|
  {
    var newPosition := b.pos + nchars;
    var grown := if newPosition + 1 > |b.str| then GrowStringTo(b.str, newPosition + 1) else b.str;
    var copied := grown[..b.pos] + s[..nchars] + grown[newPosition..];
    var r := LocalBuffer(copied[newPosition := Nul], newPosition);
    assert r.str[..b.pos] == copied[..b.pos];
    assert r.str[b.pos..r.pos] == copied[b.pos..newPosition];
    assert r.Text() == r.str[..b.pos] + r.str[b.pos..r.pos];
    r
  }

  /** `memcpy(dst + pos, src, n)` on a buffer with room for it, one byte at
      a time: only the `n` bytes from `pos` on change. */
  method MemCopy(dst: Bytes, pos: nat, src: Bytes, n: nat) returns (r: Bytes)
    requires pos + n <= |dst| && n <= |src|
    ensures r == dst[..pos] + src[..n] + dst[pos + n..]
  {
    var buf := new Byte[|dst|](i requires 0 <= i < |dst| => dst[i]);
    var k := 0;
    while k < n
      invariant 0 <= k <= n
      invariant buf.Length == |dst|
      invariant forall j :: 0 <= j < buf.Length ==>
                  buf[j] == (if pos <= j < pos + k then src[j - pos] else dst[j])
    {
      buf[pos + k] := src[k];
      k := k + 1;
    }
    r := buf[..];
  }

  /** The same step as the C code performs it: grow if needed, `memcpy`
      into the buffer, then store the terminator. */
  method WriteNLocal(b: LocalBuffer, s: Bytes, nchars: int) returns (r: LocalBuffer)
    requires b.Valid() && 0 <= nchars <= |s|
    ensures r == LocalWriteN(b, s, nchars)
  {
    var newPosition := b.pos + nchars;
    var str := b.str;
    if newPosition + 1 > |str| {
      str := GrowStringTo(str, newPosition + 1);
    }
    var copied := MemCopy(str, b.pos, s, nchars);
    r := LocalBuffer(copied[newPosition := Nul], newPosition);
  }

  /** `getFile` followed by `fwrite` or `fputc` on the handle it leaves in
      `lastfile`: the bytes go to the file for `filename` and to no other. */
  function AppendToFile(ctx: WriteContext, filename: string, data: Bytes, extension: string): (r: WriteContext)
    requires Valid(ctx, extension)
    ensures Valid(r, extension)
    ensures r.filenames == (if filename in ctx.filenames then ctx.filenames else ctx.filenames + [filename])
    ensures FileData(r, filename) == FileData(ctx, filename) + data
    ensures forall f :: f != filename ==> FileData(r, f) == FileData(ctx, f)
    ensures r.lastname == Some(filename)
    ensures r.local == ctx.local && r.localBuffer == ctx.localBuffer
  {
    var c := GetFile(ctx, filename, extension);
    var i := c.lastfile.value;
    var r := c.(files := c.files[i := OpenFile(c.files[i].path, c.files[i].data + data)]);
    assert IndexOf(r.filenames, filename) == Some(i);
    GetFileKeepsData(ctx, filename, extension);
    assert forall f :: f != filename ==> FileData(r, f) == FileData(c, f) by {
      forall f | f != filename
        ensures FileData(r, f) == FileData(c, f)
      {
        if f in c.filenames {
          assert IndexOf(c.filenames, f).value != i;
        }
      }
    }
    r
  }

  /** Opening a file does not change what any file holds: a new file
      starts empty. */
  lemma GetFileKeepsData(ctx: WriteContext, filename: string, extension: string)
    requires Valid(ctx, extension)
    ensures forall f :: FileData(GetFile(ctx, filename, extension), f) == FileData(ctx, f)
  {
    var c := GetFile(ctx, filename, extension);
    forall f
      ensures FileData(c, f) == FileData(ctx, f)
    {
      if f in ctx.filenames {
        IndexOfPrefix(ctx.filenames, c.filenames, f);
      } else if f == filename {
        assert IndexOf(c.filenames, f) == Some(|ctx.files|) by {
          IndexOfLast(ctx.filenames, f);
        }
      } else {
        assert f !in c.filenames;
      }
    }
  }

  /** A name appended to a table without it is found at the end. */
  lemma IndexOfLast(a: seq<string>, f: string)
    requires f !in a
    ensures IndexOf(a + [f], f) == Some(|a|)
  {
    if |a| > 0 {
      assert (a + [f])[1..] == a[1..] + [f];
      IndexOfLast(a[1..], f);
    }
  }

  /** `writeN(context, filename, string, nchars)`. In file mode the first
      `nchars` bytes go to the file for `filename`; in local mode `filename`
      is ignored and they are appended to the buffer. */
  function WriteN(ctx: WriteContext, filename: string, s: Bytes, nchars: int, extension: string): (r: WriteContext)
    requires Valid(ctx, extension) && 0 <= nchars <= |s|
    ensures Valid(r, extension)
    ensures r.local == ctx.local
    ensures !ctx.local ==>
              && r.filenames == (if filename in ctx.filenames then ctx.filenames else ctx.filenames + [filename])
              && FileData(r, filename) == FileData(ctx, filename) + s[..nchars]
              && (forall f :: f != filename ==> FileData(r, f) == FileData(ctx, f))
              && r.lastname == Some(filename)
    ensures ctx.local ==>
              && r.filenames == ctx.filenames && r.files == ctx.files && r.lastname == ctx.lastname
              && LocalText(r) == LocalText(ctx) + s[..nchars]
  {
    if !ctx.local then AppendToFile(ctx, filename, s[..nchars], extension)
    else ctx.(localBuffer := Some(LocalWriteN(ctx.localBuffer.value, s, nchars)))
  }

  /** Appending to a table does not move an entry already in it. */
  lemma IndexOfPrefix(a: seq<string>, b: seq<string>, f: string)
    requires f in a && |a| <= |b| && b[..|a|] == a
    ensures IndexOf(b, f) == IndexOf(a, f)
  {
    if a[0] != f {
      assert b[1..][..|a| - 1] == a[1..];
      IndexOfPrefix(a[1..], b[1..], f);
    }
  }

  /** `strlen`: the position of the first NUL. */
  function Strlen(s: Bytes): (n: nat)
    requires Nul in s
    ensures n < |s| && s[n] == Nul
    ensures forall j :: 0 <= j < n ==> s[j] != Nul
  {
    if s[0] == Nul then 0 else 1 + Strlen(s[1..])
  }

  /** `write(context, filename, string)`: `writeN` with `strlen(string)`. */
  function Write(ctx: WriteContext, filename: string, s: Bytes, extension: string): (r: WriteContext)
    requires Valid(ctx, extension) && Nul in s
    ensures Valid(r, extension)
    ensures ctx.local ==> LocalText(r) == LocalText(ctx) + s[..Strlen(s)]
    ensures !ctx.local ==> FileData(r, filename) == FileData(ctx, filename) + s[..Strlen(s)]
    ensures Nul !in s[..Strlen(s)]
  {
    WriteN(ctx, filename, s, Strlen(s), extension)
  }

  /** `writeChar(context, filename, c)`: `fputc` after `getFile` in file
      mode, `writeN` of a one-byte string in local mode. */
  function WriteChar(ctx: WriteContext, filename: string, c: Byte, extension: string): (r: WriteContext)
    requires Valid(ctx, extension)
    ensures Valid(r, extension)
    ensures ctx.local ==> LocalText(r) == LocalText(ctx) + [c]
    ensures !ctx.local ==> FileData(r, filename) == FileData(ctx, filename) + [c]
    ensures r == WriteN(ctx, filename, [c], 1, extension)
  {
    assert [c][..1] == [c];
    if !ctx.local then AppendToFile(ctx, filename, [c], extension)
    else
      WriteN(ctx, filename, [c], 1, extension)
  }

  /** In local mode the filename plays no part. */
  lemma LocalIgnoresFilename(ctx: WriteContext, f1: string, f2: string, s: Bytes, nchars: int, extension: string)
    requires Valid(ctx, extension) && ctx.local && 0 <= nchars <= |s|
    ensures WriteN(ctx, f1, s, nchars, extension) == WriteN(ctx, f2, s, nchars, extension)
  {
  }

  /** The last occurrence of a name in a duplicate-free table is its only
      one, so the fast path and the search agree on the handle. */
  lemma FastPathAgreesWithSearch(ctx: WriteContext, extension: string)
    requires Valid(ctx, extension) && ctx.lastname.Some?
    ensures IndexOf(ctx.filenames, ctx.lastname.value) == ctx.lastfile
  {
    var f := ctx.lastname.value;
    var i := IndexOf(ctx.filenames, f).value;
    assert ctx.filenames[i] == ctx.filenames[ctx.lastfile.value];
  }

  /** One `writeN` call of an engine session. */
  datatype WriteCall = WriteCall(filename: string, s: Bytes, nchars: int)

  predicate WellFormedCalls(calls: seq<WriteCall>) {
    forall i :: 0 <= i < |calls| ==> 0 <= calls[i].nchars <= |calls[i].s|
  }

  function CallNames(calls: seq<WriteCall>): (names: seq<string>)
    ensures |names| == |calls|
    ensures forall i :: 0 <= i < |calls| ==> names[i] == calls[i].filename
  {
    seq(|calls|, i requires 0 <= i < |calls| => calls[i].filename)
  }

  lemma CallNamesSnoc(calls: seq<WriteCall>)
    requires |calls| > 0
    ensures CallNames(calls) == CallNames(calls[..|calls| - 1]) + [calls[|calls| - 1].filename]
  {
  }

  /** The bytes of the calls addressed to `filename`, concatenated in call
      order: what `<dir><filename>/<filingId><extension>` should contain. */
  function BytesFor(calls: seq<WriteCall>, filename: string): Bytes
    requires WellFormedCalls(calls)
  {
    if |calls| == 0 then []
    else
      var c := calls[|calls| - 1];
      BytesFor(calls[..|calls| - 1], filename) + (if c.filename == filename then c.s[..c.nchars] else [])
  }

  /** `writeN` applied to a sequence of calls in order. */
  function RunCalls(ctx: WriteContext, calls: seq<WriteCall>, extension: string): (r: WriteContext)
    requires Valid(ctx, extension) && WellFormedCalls(calls)
    ensures Valid(r, extension) && r.local == ctx.local
  {
    if |calls| == 0 then ctx
    else
      var c := calls[|calls| - 1];
      WriteN(RunCalls(ctx, calls[..|calls| - 1], extension), c.filename, c.s, c.nchars, extension)
  }

  /** In file mode a fresh context opens one file per distinct filename, in
      the order of first use. */
  lemma {:induction false} FileModeOpens(outputDirectory: string, filingId: string, calls: seq<WriteCall>, extension: string)
    requires WellFormedCalls(calls)
    ensures var r := RunCalls(NewWriteContext(outputDirectory, filingId), calls, extension);
            !r.local && r.filenames == Dedup(CallNames(calls))
  {
    if |calls| > 0 {
      var n := |calls|;
      var init, c := calls[..n - 1], calls[n - 1];
      assert WellFormedCalls(init);
      FileModeOpens(outputDirectory, filingId, init, extension);
      var prev := RunCalls(NewWriteContext(outputDirectory, filingId), init, extension);
      assert RunCalls(NewWriteContext(outputDirectory, filingId), calls, extension)
             == WriteN(prev, c.filename, c.s, c.nchars, extension);
      CallNamesSnoc(calls);
      DedupSnoc(CallNames(init), c.filename);
    }
  }

  /** Each file receives exactly the bytes addressed to it, in call order;
      a filename never written has no file. */
  lemma {:induction false} FileModeContents(outputDirectory: string, filingId: string, calls: seq<WriteCall>,
                                            extension: string, f: string)
    requires WellFormedCalls(calls)
    ensures FileData(RunCalls(NewWriteContext(outputDirectory, filingId), calls, extension), f) == BytesFor(calls, f)
  {
    if |calls| > 0 {
      var n := |calls|;
      var init, c := calls[..n - 1], calls[n - 1];
      assert WellFormedCalls(init);
      FileModeContents(outputDirectory, filingId, init, extension, f);
      FileModeOpens(outputDirectory, filingId, init, extension);
      var prev := RunCalls(NewWriteContext(outputDirectory, filingId), init, extension);
      var r := WriteN(prev, c.filename, c.s, c.nchars, extension);
      assert RunCalls(NewWriteContext(outputDirectory, filingId), calls, extension) == r;
      assert BytesFor(calls, f) == BytesFor(init, f) + (if c.filename == f then c.s[..c.nchars] else []);
      if c.filename == f {
        assert FileData(r, f) == FileData(prev, f) + c.s[..c.nchars];
      } else {
        assert FileData(r, f) == FileData(prev, f);
      }
    }
  }

  /** The bytes of every call, concatenated in call order. */
  function AllBytes(calls: seq<WriteCall>): Bytes
    requires WellFormedCalls(calls)
  {
    if |calls| == 0 then []
    else
      var c := calls[|calls| - 1];
      AllBytes(calls[..|calls| - 1]) + c.s[..c.nchars]
  }

  /** Local-mode writes applied to a buffer alone, in call order. */
  function RunLocal(b: LocalBuffer, calls: seq<WriteCall>): (r: LocalBuffer)
    requires b.Valid() && WellFormedCalls(calls)
    ensures r.Valid()
  {
    if |calls| == 0 then b
    else
      var c := calls[|calls| - 1];
      LocalWriteN(RunLocal(b, calls[..|calls| - 1]), c.s, c.nchars)
  }

  /** A run of local writes leaves the buffer holding its old text followed
      by every call's bytes in call order. */
  lemma {:induction false} RunLocalText(b: LocalBuffer, calls: seq<WriteCall>)
    requires b.Valid() && WellFormedCalls(calls)
    ensures RunLocal(b, calls).Text() == b.Text() + AllBytes(calls)
  {
    if |calls| > 0 {
      var n := |calls|;
      var init, c := calls[..n - 1], calls[n - 1];
      assert WellFormedCalls(init);
      RunLocalText(b, init);
      assert b.Text() + AllBytes(calls) == (b.Text() + AllBytes(init)) + c.s[..c.nchars];
    }
  }

  /** In local mode the context's writes are exactly the buffer's writes. */
  lemma {:induction false} RunCallsLocal(ctx: WriteContext, calls: seq<WriteCall>, extension: string)
    requires Valid(ctx, extension) && ctx.local && WellFormedCalls(calls)
    ensures RunCalls(ctx, calls, extension) == ctx.(localBuffer := Some(RunLocal(ctx.localBuffer.value, calls)))
  {
    if |calls| > 0 {
      assert WellFormedCalls(calls[..|calls| - 1]);
      RunCallsLocal(ctx, calls[..|calls| - 1], extension);
    }
  }

  /** In local mode a whole line is assembled in the buffer: every call's
      bytes, in call order, whatever filenames they name. */
  lemma LocalModeSession(ctx: WriteContext, calls: seq<WriteCall>, extension: string)
    requires Valid(ctx, extension) && ctx.local && WellFormedCalls(calls)
    ensures LocalText(RunCalls(ctx, calls, extension)) == LocalText(ctx) + AllBytes(calls)
  {
    RunCallsLocal(ctx, calls, extension);
    RunLocalText(ctx.localBuffer.value, calls);
  }

  /** In local mode no file is opened or written. */
  lemma {:induction false} LocalModeOpensNothing(ctx: WriteContext, calls: seq<WriteCall>, extension: string)
    requires Valid(ctx, extension) && ctx.local && WellFormedCalls(calls)
    ensures RunCalls(ctx, calls, extension).filenames == ctx.filenames
    ensures RunCalls(ctx, calls, extension).files == ctx.files
  {
    if |calls| > 0 {
      assert WellFormedCalls(calls[..|calls| - 1]);
      LocalModeOpensNothing(ctx, calls[..|calls| - 1], extension);
    }
  }

  /** The bookkeeping of `freeWriteContext`: each of the `nfiles` entries is
      visited once, in table order, and closed; no file is closed twice. */
  method FreeWriteContext(ctx: WriteContext, extension: string) returns (closed: seq<string>)
    requires Valid(ctx, extension)
    ensures |closed| == |ctx.files|
    ensures forall i :: 0 <= i < |closed| ==> closed[i] == ctx.files[i].path
    ensures Distinct(closed)
  {
    closed := [];
    var i := 0;
    while i < |ctx.files|
      invariant 0 <= i <= |ctx.files|
      invariant |closed| == i
      invariant forall j :: 0 <= j < i ==> closed[j] == ctx.files[j].path
    {
      closed := closed + [ctx.files[i].path];
      i := i + 1;
    }
    forall j, k | 0 <= j < k < |closed|
      ensures closed[j] != closed[k]
    {
      if closed[j] == closed[k] {
        FullPathInjective(ctx.outputDirectory, ctx.filenames[j], ctx.filenames[k], ctx.filingId, extension);
      }
    }
  }
}
