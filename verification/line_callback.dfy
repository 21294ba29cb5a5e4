/** `LineCache` and the body of `line_callback` inside `provide_line_callback`
    (python/src/fastfec/utils.py). The queue hand-off to the consuming
    thread is replaced by returning the `(form_type, record)` pair the
    callback would have put on the queue. */
module LineCallbacks {
  import opened Basics
  import opened LineFormat

  /** `LineCache`: the headers of every form type seen so far, and the
      one-entry fast path `last_form_type` / `last_headers`. */
  datatype LineCache = LineCache(
    headers: map<string, seq<string>>,
    lastFormType: Option<string>,
    lastHeaders: Option<seq<string>>)

  /** `LineCache()`. */
  const NewLineCache: LineCache := LineCache(map[], None, None)

  /** The fast-path entry is always a copy of the map's entry for the same
      form type. */
  predicate Consistent(c: LineCache) {
    && (c.lastFormType.Some? <==> c.lastHeaders.Some?)
    && (c.lastFormType.Some? ==>
          c.lastFormType.value in c.headers && c.lastHeaders.value == c.headers[c.lastFormType.value])
  }

  /** What the session fixes: the formatting switches and `parse_csv_line`,
      which delegates to Python's `csv` module and is kept abstract. */
  datatype Session = Session(opts: FormatOptions, parseCsvLine: string -> seq<string>)

  /** One `(form_type, record)` pair handed to the consumer. */
  datatype Emitted = Emitted(formType: string, record: Record)

  datatype Step = Step(cache: LineCache, emitted: Option<Emitted>)

  /** The truth value of `line_cache.headers.get(form_type)`: a missing entry
      and an empty header list both count as "no headers yet". */
  predicate HasHeaders(c: LineCache, formType: string) {
    formType in c.headers && |c.headers[formType]| > 0
  }

  /** `line_callback(form_type, line, types)`. A line is taken as the header
      line of its form type exactly when it misses the fast path and no
      (non-empty) headers are stored; it is then stored and nothing is
      emitted. Every other line emits one record built from the headers the
      map holds for its form type, whichever path found them. */
  function LineCallback(c: LineCache, formType: string, line: string, types: Option<seq<Byte>>, s: Session): (r: Step)
    requires Consistent(c)
    ensures Consistent(r.cache)
    ensures r.cache.lastFormType == Some(formType)
    ensures r.emitted.None? <==> c.lastFormType != Some(formType) && !HasHeaders(c, formType)
    ensures r.emitted.None? ==> r.cache.headers == c.headers[formType := s.parseCsvLine(line)]
    ensures r.emitted.Some? ==> r.cache.headers == c.headers && formType in c.headers
    ensures r.emitted.Some? ==>
              r.emitted.value == Emitted(formType, LineResult(c.headers[formType], s.parseCsvLine(line), types, s.opts))
    ensures c.lastFormType == Some(formType) ==> r.cache == c
    ensures forall f :: HasHeaders(c, f) ==> f in r.cache.headers && r.cache.headers[f] == c.headers[f]
  {
    if Some(formType) == c.lastFormType then
      Step(c, Some(Emitted(formType, LineResult(c.lastHeaders.value, s.parseCsvLine(line), types, s.opts))))
    else
      var stored := if formType in c.headers then c.headers[formType] else [];
      if |stored| == 0 then
        var headers := s.parseCsvLine(line);
        Step(LineCache(c.headers[formType := headers], Some(formType), Some(headers)), None)
      else
        Step(LineCache(c.headers, Some(formType), Some(stored)),
             Some(Emitted(formType, LineResult(stored, s.parseCsvLine(line), types, s.opts))))
  }

  /** One line event from the engine. */
  datatype LineEvent = LineEvent(formType: string, line: string, types: Option<seq<Byte>>)

  datatype Trace = Trace(cache: LineCache, emitted: seq<Emitted>)

  function EmittedSeq(e: Option<Emitted>): seq<Emitted> {
    match e
    case None => []
    case Some(x) => [x]
  }

  /** The callback applied to a stream of line events in order, collecting
      what it hands to the consumer. */
  function Run(c: LineCache, evs: seq<LineEvent>, s: Session): (t: Trace)
    requires Consistent(c)
    ensures Consistent(t.cache)
    ensures |t.emitted| <= |evs|
  {
    if |evs| == 0 then Trace(c, [])
    else
      var prev := Run(c, evs[..|evs| - 1], s);
      var ev := evs[|evs| - 1];
      var st := LineCallback(prev.cache, ev.formType, ev.line, ev.types, s);
      Trace(st.cache, prev.emitted + EmittedSeq(st.emitted))
  }

  /** A form type no event has carried is neither in the map nor on the
      fast path. */
  lemma {:induction false} UnseenFormType(evs: seq<LineEvent>, f: string, s: Session)
    requires forall k :: 0 <= k < |evs| ==> evs[k].formType != f
    ensures f !in Run(NewLineCache, evs, s).cache.headers
    ensures Run(NewLineCache, evs, s).cache.lastFormType != Some(f)
  {
    if |evs| > 0 {
      UnseenFormType(evs[..|evs| - 1], f, s);
    }
  }

  /** The first line ever seen for a form type is never emitted: it becomes
      that form type's header list. */
  lemma FirstLineIsHeader(evs: seq<LineEvent>, j: nat, s: Session)
    requires j < |evs|
    requires forall k :: 0 <= k < j ==> evs[k].formType != evs[j].formType
    ensures var c := Run(NewLineCache, evs[..j], s).cache;
            var st := LineCallback(c, evs[j].formType, evs[j].line, evs[j].types, s);
            st.emitted.None? && st.cache.headers[evs[j].formType] == s.parseCsvLine(evs[j].line)
  {
    UnseenFormType(evs[..j], evs[j].formType, s);
  }

  /** Once a form type holds a non-empty header list, later events never
      change it. */
  lemma {:induction false} CapturedHeadersStable(c: LineCache, evs: seq<LineEvent>, f: string, s: Session)
    requires Consistent(c) && HasHeaders(c, f)
    ensures f in Run(c, evs, s).cache.headers
    ensures Run(c, evs, s).cache.headers[f] == c.headers[f]
  {
    if |evs| > 0 {
      CapturedHeadersStable(c, evs[..|evs| - 1], f, s);
    }
  }

  /** The line right after any line of the same form type takes the fast
      path: the cache does not change and the record uses the headers the
      previous call left for that form type. */
  lemma ConsecutiveSameFormType(c: LineCache, f: string, line1: string, line2: string,
                                t1: Option<seq<Byte>>, t2: Option<seq<Byte>>, s: Session)
    requires Consistent(c)
    ensures var c1 := LineCallback(c, f, line1, t1, s).cache;
            LineCallback(c1, f, line2, t2, s)
              == Step(c1, Some(Emitted(f, LineResult(c1.headers[f], s.parseCsvLine(line2), t2, s.opts))))
  {
  }

  /** An empty header line is handled differently by the two paths: the
      next line of the same form type is emitted with no headers at all (the
      fast path), but after a line of another form type it is captured as
      the header list instead (the map lookup finds an empty, false list). */
  lemma EmptyHeaderLine(f: string, g: string, line1: string, line2: string, lineG: string,
                        t: Option<seq<Byte>>, s: Session)
    requires f != g
    requires s.parseCsvLine(line1) == []
    ensures var c1 := LineCallback(NewLineCache, f, line1, t, s).cache;
            LineCallback(c1, f, line2, t, s).emitted
              == Some(Emitted(f, LineResult([], s.parseCsvLine(line2), t, s.opts)))
    ensures var c1 := LineCallback(NewLineCache, f, line1, t, s).cache;
            var c2 := LineCallback(c1, g, lineG, t, s).cache;
            LineCallback(c2, f, line2, t, s).emitted.None?
  {
    var c1 := LineCallback(NewLineCache, f, line1, t, s).cache;
    assert c1.headers[f] == [];
    var c2 := LineCallback(c1, g, lineG, t, s).cache;
    assert f in c2.headers && c2.headers[f] == [];
  }
}
