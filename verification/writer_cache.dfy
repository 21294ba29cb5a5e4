/** `WriterCache`, `write_callback` and the `close` handed back by
    `provide_write_callback` (python/src/fastfec/utils.py): one writer per
    key `filename + extension`, opened on first use and closed at teardown.
    A writer is modelled by the bytes written to it; `open_function` is
    modelled by reporting the path it is called with. */
module PyWriterCache {
  import opened Basics
  import opened OrderedDicts

  /** `WriterCache._writers`: every opened path, in opening order, with the
      bytes written to its writer so far. */
  datatype WriterCache = WriterCache(writers: Dict<Bytes, Bytes>)

  /** `WriterCache(open_function)`. */
  const NewWriterCache: WriterCache := WriterCache([])

  /** The dict key: the two byte strings simply concatenated. */
  function WriterKey(filename: Bytes, extension: Bytes): Bytes {
    filename + extension
  }

  /** The cache after a call, and the path `open_function` was called with,
      if it was called. */
  datatype Lookup = Lookup(cache: WriterCache, openedPath: Option<Bytes>)

  /** `get_writer(filename, extension)`: opens a writer only for a key not in
      the dict, and appends it there; a known key changes nothing. */
  function GetWriter(c: WriterCache, filename: Bytes, extension: Bytes): (r: Lookup)
    requires Valid(c.writers)
    ensures Valid(r.cache.writers)
    ensures WriterKey(filename, extension) in Keys(r.cache.writers)
    ensures r.openedPath.Some? <==> WriterKey(filename, extension) !in Keys(c.writers)
    ensures r.openedPath.Some? ==>
              && r.openedPath.value == WriterKey(filename, extension)
              && r.cache.writers == c.writers + [Entry(WriterKey(filename, extension), [])]
    ensures r.openedPath.None? ==> r.cache == c
  {
    var path := WriterKey(filename, extension);
    if path !in Keys(c.writers) then
      PutAppends(c.writers, path, []);
      Lookup(WriterCache(Put(c.writers, path, [])), Some(path))
    else Lookup(c, None)
  }

  /** `contents[:num_bytes]` on the engine's buffer: nothing for a
      non-positive count, at most the bytes the buffer holds. */
  function Prefix(contents: Bytes, numBytes: int): (r: Bytes)
    ensures r <= contents
    ensures var m := if numBytes <= 0 then 0 else if numBytes <= |contents| then numBytes else |contents|;
            r == contents[..m]
  {
    if numBytes <= 0 then [] else if numBytes <= |contents| then contents[..numBytes] else contents
  }

  /** The bytes written to the writer for `path` so far. */
  function Written(c: WriterCache, path: Bytes): Bytes {
    match Get(c.writers, path)
    case Some(b) => b
    case None => []
  }

  /** `write_callback(filename, extension, contents, num_bytes)`: the
      payload is appended to the writer for the concatenated key, and to no
      other. */
  function WriteCallback(c: WriterCache, filename: Bytes, extension: Bytes, contents: Bytes, numBytes: int): (r: Lookup)
    requires Valid(c.writers)
    ensures Valid(r.cache.writers)
    ensures Keys(r.cache.writers) == Keys(GetWriter(c, filename, extension).cache.writers)
    ensures r.openedPath == GetWriter(c, filename, extension).openedPath
    ensures Written(r.cache, WriterKey(filename, extension))
            == Written(c, WriterKey(filename, extension)) + Prefix(contents, numBytes)
    ensures forall p :: p != WriterKey(filename, extension) ==> Get(r.cache.writers, p) == Get(c.writers, p)
  {
    var path := WriterKey(filename, extension);
    var lookup := GetWriter(c, filename, extension);
    var writers := lookup.cache.writers;
    var before := Get(writers, path).value;
    assert before == Written(c, path);
    var r := Lookup(WriterCache(Put(writers, path, before + Prefix(contents, numBytes))), lookup.openedPath);
    assert forall p :: p != path ==> Get(r.cache.writers, p) == Get(writers, p) by {
      forall p | p != path
        ensures Get(r.cache.writers, p) == Get(writers, p)
      {
        PutOther(writers, path, before + Prefix(contents, numBytes), p);
      }
    }
    assert forall p :: p != path ==> Get(writers, p) == Get(c.writers, p) by {
      forall p | p != path
        ensures Get(writers, p) == Get(c.writers, p)
      {
        if lookup.openedPath.Some? {
          PutOther(c.writers, path, [], p);
        }
      }
    }
    r
  }

  /** `close()`: the paths whose writers are closed, in dict order; each
      opened writer exactly once. */
  function Close(c: WriterCache): (closed: seq<Bytes>)
    requires Valid(c.writers)
    ensures Distinct(closed)
    ensures forall p :: p in closed <==> Get(c.writers, p).Some?
  {
    Keys(c.writers)
  }

  /** One write event from the engine. */
  datatype WriteEvent = WriteEvent(filename: Bytes, extension: Bytes, contents: Bytes, numBytes: int)

  function EventKeys(evs: seq<WriteEvent>): (ks: seq<Bytes>)
    ensures |ks| == |evs|
    ensures forall i :: 0 <= i < |evs| ==> ks[i] == WriterKey(evs[i].filename, evs[i].extension)
  {
    seq(|evs|, i requires 0 <= i < |evs| => WriterKey(evs[i].filename, evs[i].extension))
  }

  lemma EventKeysSnoc(evs: seq<WriteEvent>)
    requires |evs| > 0
    ensures EventKeys(evs)
            == EventKeys(evs[..|evs| - 1]) + [WriterKey(evs[|evs| - 1].filename, evs[|evs| - 1].extension)]
  {
  }

  /** The payloads of the events addressed to `path`, concatenated in call
      order: what the output file `<name><extension>` should contain. */
  function PayloadsFor(evs: seq<WriteEvent>, path: Bytes): Bytes {
    if |evs| == 0 then []
    else
      var ev := evs[|evs| - 1];
      PayloadsFor(evs[..|evs| - 1], path)
        + (if WriterKey(ev.filename, ev.extension) == path then Prefix(ev.contents, ev.numBytes) else [])
  }

  function OpenedPaths(o: Option<Bytes>): seq<Bytes> {
    match o
    case None => []
    case Some(p) => [p]
  }

  datatype WriteTrace = WriteTrace(cache: WriterCache, opens: seq<Bytes>)

  /** `write_callback` applied to a stream of write events in order,
      collecting the paths `open_function` was called with. */
  function RunWrites(evs: seq<WriteEvent>): (t: WriteTrace)
    ensures Valid(t.cache.writers)
  {
    if |evs| == 0 then WriteTrace(NewWriterCache, [])
    else
      var prev := RunWrites(evs[..|evs| - 1]);
      var ev := evs[|evs| - 1];
      var r := WriteCallback(prev.cache, ev.filename, ev.extension, ev.contents, ev.numBytes);
      WriteTrace(r.cache, prev.opens + OpenedPaths(r.openedPath))
  }

  /** `open_function` is called exactly once per distinct key, in the order
      of first use, and the dict holds exactly those keys in that order. */
  lemma {:induction false} OpenedOncePerKey(evs: seq<WriteEvent>)
    ensures RunWrites(evs).opens == Dedup(EventKeys(evs))
    ensures Keys(RunWrites(evs).cache.writers) == Dedup(EventKeys(evs))
  {
    if |evs| > 0 {
      var n := |evs|;
      var init, ev := evs[..n - 1], evs[n - 1];
      OpenedOncePerKey(init);
      OpensStep(evs);
      EventKeysSnoc(evs);
      DedupSnoc(EventKeys(init), WriterKey(ev.filename, ev.extension));
    }
  }

  /** One more event opens its key exactly when the key is new, and then
      appends it to the dict's keys. */
  lemma OpensStep(evs: seq<WriteEvent>)
    requires |evs| > 0
    ensures var prev := RunWrites(evs[..|evs| - 1]);
            var k := WriterKey(evs[|evs| - 1].filename, evs[|evs| - 1].extension);
            var added := if k in Keys(prev.cache.writers) then [] else [k];
            && RunWrites(evs).opens == prev.opens + added
            && Keys(RunWrites(evs).cache.writers) == Keys(prev.cache.writers) + added
  {
    var ev := evs[|evs| - 1];
    var prev := RunWrites(evs[..|evs| - 1]);
    var r := WriteCallback(prev.cache, ev.filename, ev.extension, ev.contents, ev.numBytes);
    assert RunWrites(evs) == WriteTrace(r.cache, prev.opens + OpenedPaths(r.openedPath));
    var g := GetWriter(prev.cache, ev.filename, ev.extension);
    if WriterKey(ev.filename, ev.extension) in Keys(prev.cache.writers) {
      assert g.openedPath.None? && g.cache == prev.cache;
    } else {
      assert g.openedPath == Some(WriterKey(ev.filename, ev.extension));
    }
  }

  /** Each writer holds exactly the payloads addressed to its key, in call
      order; no writer exists for a key never written. */
  lemma {:induction false} WrittenInCallOrder(evs: seq<WriteEvent>, path: Bytes)
    ensures Written(RunWrites(evs).cache, path) == PayloadsFor(evs, path)
    ensures Get(RunWrites(evs).cache.writers, path).Some? <==> path in EventKeys(evs)
  {
    OpenedOncePerKey(evs);
    if |evs| > 0 {
      WrittenInCallOrder(evs[..|evs| - 1], path);
      WrittenStep(evs, path);
    }
  }

  /** One more event appends its payload to its own key's writer only. */
  lemma WrittenStep(evs: seq<WriteEvent>, path: Bytes)
    requires |evs| > 0
    ensures var ev := evs[|evs| - 1];
            Written(RunWrites(evs).cache, path)
            == Written(RunWrites(evs[..|evs| - 1]).cache, path)
               + (if WriterKey(ev.filename, ev.extension) == path then Prefix(ev.contents, ev.numBytes) else [])
  {
    var ev := evs[|evs| - 1];
    var prev := RunWrites(evs[..|evs| - 1]);
    var r := WriteCallback(prev.cache, ev.filename, ev.extension, ev.contents, ev.numBytes);
    assert RunWrites(evs).cache == r.cache;
    if WriterKey(ev.filename, ev.extension) != path {
      assert Get(r.cache.writers, path) == Get(prev.cache.writers, path);
    }
  }

  /** Teardown closes every writer the session opened, each once, in the
      order they were opened; with no writes it closes nothing. */
  lemma CloseAfterRun(evs: seq<WriteEvent>)
    ensures Close(RunWrites(evs).cache) == Dedup(EventKeys(evs))
    ensures |evs| == 0 ==> Close(RunWrites(evs).cache) == []
  {
    OpenedOncePerKey(evs);
  }

  /** Distinct `(filename, extension)` pairs can share one writer:
      `("a", "b.csv")` and `("ab", ".csv")` both write to `ab.csv`. */
  lemma KeyCollision(a: Bytes, b: Bytes, x: Bytes, y: Bytes, evs: seq<WriteEvent>)
    requires a + b == x + y
    requires |evs| == 2 && evs[0].filename == a && evs[0].extension == b
    requires evs[1].filename == x && evs[1].extension == y
    ensures |RunWrites(evs).opens| == 1
    ensures Written(RunWrites(evs).cache, a + b)
            == Prefix(evs[0].contents, evs[0].numBytes) + Prefix(evs[1].contents, evs[1].numBytes)
  {
    var k := a + b;
    assert EventKeys(evs) == [k, k];
    assert |RunWrites(evs).opens| == 1 by {
      OpenedOncePerKey(evs);
      DedupPair(k);
    }
    WrittenInCallOrder(evs, k);
    var noEvents: seq<WriteEvent> := [];
    assert evs[..1][..0] == noEvents;
    assert PayloadsFor(evs[..1], k) == Prefix(evs[0].contents, evs[0].numBytes);
  }

  lemma DedupPair(k: Bytes)
    ensures Dedup([k, k]) == [k]
  {
    var one, two := [k], [k, k];
    assert one[..0] == [];
    assert Dedup(one) == [k];
    assert two[..1] == one;
  }
}
