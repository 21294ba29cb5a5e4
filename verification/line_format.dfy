/** `array_get`, `convert_item` and `line_result`
    (python/src/fastfec/utils.py): one line's raw fields, zipped with the
    headers of its form type and coerced by one-byte type codes, become an
    insertion-ordered record. */
module LineFormat {
  import opened Basics
  import opened Decimal
  import opened FieldValues
  import opened OrderedDicts

  /** A formatted line: the Python dict `line_result` returns. */
  type Record = Dict<string, Value>

  /** The type codes `ord(b"s")`, `ord(b"d")` and `ord(b"f")`. */
  const TypeString: Byte := 115
  const TypeDate: Byte := 100
  const TypeFloat: Byte := 102

  /** The switches of a parse session, and `float(item)`, kept abstract: it
      yields a number or raises `ValueError` (`None`). */
  datatype FormatOptions = FormatOptions(
    filingIdIncluded: bool,
    shouldParseDate: bool,
    parseFloat: string -> Option<real>)

  /** `array_get(array, idx, fallback)`: Python indexing, in which a negative
      index counts from the end, with `fallback` for an `IndexError`. */
  function ArrayGet<T>(a: seq<T>, idx: int, fallback: T): (r: T)
    ensures 0 <= idx < |a| ==> r == a[idx]
    ensures -|a| <= idx < 0 ==> r == a[|a| + idx]
    ensures idx < -|a| || |a| <= idx ==> r == fallback
  {
    var j := if idx < 0 then idx + |a| else idx;
    if 0 <= j < |a| then a[j] else fallback
  }

  /** The type dispatch of `convert_item` for a present field: a float or
      a date only where the code asks for one and the conversion succeeds,
      the raw string otherwise (an unknown code only logs a warning). */
  function Coerce(item: string, code: Byte, opts: FormatOptions): (r: Value)
    ensures r == Str(item) || r.Num? || r.Day?
    ensures r.Num? <==> code == TypeFloat && opts.parseFloat(item).Some?
    ensures r.Num? ==> r.x == opts.parseFloat(item).value
    ensures r.Day? ==> code == TypeDate && opts.shouldParseDate
    ensures code == TypeDate && opts.shouldParseDate ==> r == ParseDate(Some(item))
  {
    if code == TypeString then Str(item)
    else if code == TypeDate then
      if opts.shouldParseDate then ParseDate(Some(item)) else Str(item)
    else if code == TypeFloat then
      match opts.parseFloat(item)
      case Some(x) => Num(x)
      case None => Str(item)
    else Str(item)
  }

  /** The code `convert_item` looks up for position `i`: `types[i - 1]`
      when the filing id is included, `types[i]` otherwise, with Python
      indexing and `s` as the fallback. */
  function TypeCodeAt(types: seq<Byte>, i: nat, filingIdIncluded: bool): Byte {
    ArrayGet(types, i - (if filingIdIncluded then 1 else 0), TypeString)
  }

  /** `convert_item(i)`: `None` past the field list, the raw string when the
      engine supplied no type codes, the coerced field otherwise. */
  function ConvertItem(items: seq<string>, types: Option<seq<Byte>>, i: nat, opts: FormatOptions): (r: Value)
    ensures r.Null? <==> i >= |items|
    ensures r.Str? ==> r.s == items[i]
    ensures i < |items| && types.None? ==> r == Str(items[i])
    ensures r.Num? ==> types.Some? && TypeCodeAt(types.value, i, opts.filingIdIncluded) == TypeFloat
    ensures r.Day? ==> types.Some? && TypeCodeAt(types.value, i, opts.filingIdIncluded) == TypeDate
                       && opts.shouldParseDate
    ensures i < |items| && types.Some? && TypeCodeAt(types.value, i, opts.filingIdIncluded) == TypeFloat
            ==> (opts.parseFloat(items[i]).Some? ==> r == Num(opts.parseFloat(items[i]).value))
    ensures i < |items| && types.Some? && TypeCodeAt(types.value, i, opts.filingIdIncluded) == TypeDate
            ==> (opts.shouldParseDate ==> r == ParseDate(Some(items[i])))
  {
    var item := ArrayGet(seq(|items|, j requires 0 <= j < |items| => Some(items[j])), i, None);
    match item
    case None => Null
    case Some(s) =>
      match types
      case None => Str(s)
      case Some(t) => Coerce(s, TypeCodeAt(t, i, opts.filingIdIncluded), opts)
  }

  /** With the filing id included, field 0 reads `types[-1]`: the last type
      code, not the `s` fallback, whenever any code is present. */
  lemma FilingIdFieldUsesLastCode(items: seq<string>, t: seq<Byte>, opts: FormatOptions)
    requires opts.filingIdIncluded && |t| > 0 && |items| > 0
    ensures ConvertItem(items, Some(t), 0, opts) == Coerce(items[0], t[|t| - 1], opts)
  {
  }

  /** Field `i >= 1` reads code `i - 1` when the filing id is included, and
      code `i` otherwise; a field past the codes is a plain string. */
  lemma TypeCodeOffset(items: seq<string>, t: seq<Byte>, i: nat, opts: FormatOptions)
    requires i < |items|
    ensures opts.filingIdIncluded && 1 <= i <= |t| ==> ConvertItem(items, Some(t), i, opts) == Coerce(items[i], t[i - 1], opts)
    ensures !opts.filingIdIncluded && i < |t| ==> ConvertItem(items, Some(t), i, opts) == Coerce(items[i], t[i], opts)
    ensures var j := i - (if opts.filingIdIncluded then 1 else 0);
            j >= |t| || j < -|t| ==> ConvertItem(items, Some(t), i, opts) == Str(items[i])
  {
  }

  /** So the filing id is not always kept as a string: a numeric id with a
      trailing float code becomes a number. */
  lemma FilingIdCanBecomeFloat(items: seq<string>, opts: FormatOptions)
    requires items == ["1234567"] && opts.filingIdIncluded
    requires opts.parseFloat(items[0]) == Some(1234567.0)
    ensures ConvertItem(items, Some([TypeFloat]), 0, opts) == Num(1234567.0)
  {
  }

  const MissingHeaderPrefix: string := "__missing_header_"

  /** `f"__missing_header_{k}"`. */
  function MissingHeader(k: nat): string {
    MissingHeaderPrefix + NatToString(k)
  }

  predicate IsMissingHeaderName(h: string) {
    |MissingHeaderPrefix| <= |h| && h[..|MissingHeaderPrefix|] == MissingHeaderPrefix
  }

  /** The number of iterations of `line_result`'s loop. */
  function Width(headers: seq<string>, items: seq<string>): nat {
    if |headers| < |items| then |items| else |headers|
  }

  /** The key assigned at position `i`: the header there, or, past the
      headers, the next synthesized name, numbered from 1. */
  function KeyAt(headers: seq<string>, i: nat): string {
    if i < |headers| then headers[i] else MissingHeader(i - |headers| + 1)
  }

  /** The keys assigned, in loop order: the headers themselves, then
      `__missing_header_1`, `__missing_header_2`, ... for the fields past
      them, one iteration per field or header, whichever list is longer. */
  function AssignedKeys(headers: seq<string>, items: seq<string>): (ks: seq<string>)
    ensures |headers| <= |ks| && |items| <= |ks|
    ensures |ks| == |headers| || |ks| == |items|
    ensures ks[..|headers|] == headers
    ensures forall i :: |headers| <= i < |ks| ==> ks[i] == MissingHeader(i - |headers| + 1)
  {
    seq(Width(headers, items), i requires 0 <= i => KeyAt(headers, i))
  }

  /** The values assigned, in loop order. */
  function AssignedValues(headers: seq<string>, items: seq<string>, types: Option<seq<Byte>>, opts: FormatOptions): (vs: seq<Value>)
    ensures |vs| == Width(headers, items)
    ensures forall i :: 0 <= i < |vs| ==> vs[i] == ConvertItem(items, types, i, opts)
  {
    seq(Width(headers, items), i requires 0 <= i => ConvertItem(items, types, i, opts))
  }

  /** The loop of `line_result` from iteration `i` on, with the counter
      `missing_header` and the dict built so far. `convert_item` depends on
      nothing but `i`, so its results are given as `vs`, one per iteration. */
  function Fill(headers: seq<string>, vs: seq<Value>, i: nat, missing: nat, acc: Record): (r: Record)
    requires i <= |vs|
    ensures Keys(acc) <= Keys(r)
    decreases |vs| - i
  {
    if i == |vs| then acc
    else if i < |headers| then Fill(headers, vs, i + 1, missing, Put(acc, headers[i], vs[i]))
    else Fill(headers, vs, i + 1, missing + 1, Put(acc, MissingHeader(missing), vs[i]))
  }

  /** One more assignment extends a run of assignments by one `Put`. */
  lemma PutAllStep(ks: seq<string>, vs: seq<Value>, i: nat)
    requires |ks| == |vs| && i < |ks|
    ensures PutAll([], ks[..i + 1], vs[..i + 1]) == Put(PutAll([], ks[..i], vs[..i]), ks[i], vs[i])
  {
    assert ks[..i + 1][..i] == ks[..i] && vs[..i + 1][..i] == vs[..i];
  }

  /** The loop run from iteration `i`, with the counter and dict it has
      reached there, assigns the remaining keys and values in order. */
  lemma {:induction false} FillIsPutAll(headers: seq<string>, ks: seq<string>, vs: seq<Value>,
                                        i: nat, missing: nat, acc: Record)
    requires |ks| == |vs| && |headers| <= |vs|
    requires ks[..|headers|] == headers
    requires forall j :: |headers| <= j < |ks| ==> ks[j] == MissingHeader(j - |headers| + 1)
    requires i <= |vs|
    requires missing == (if i <= |headers| then 1 else i - |headers| + 1)
    requires acc == PutAll([], ks[..i], vs[..i])
    ensures Fill(headers, vs, i, missing, acc) == PutAll([], ks, vs)
    decreases |vs| - i
  {
    if i == |vs| {
      assert ks[..i] == ks && vs[..i] == vs;
      assert Fill(headers, vs, i, missing, acc) == acc;
    } else {
      PutAllStep(ks, vs, i);
      var next := Put(acc, ks[i], vs[i]);
      if i < |headers| {
        assert ks[i] == ks[..|headers|][i];
        FillIsPutAll(headers, ks, vs, i + 1, missing, next);
        assert Fill(headers, vs, i, missing, acc) == Fill(headers, vs, i + 1, missing, next);
        assert Fill(headers, vs, i, missing, acc) == PutAll([], ks, vs);
      } else {
        assert ks[i] == MissingHeader(missing);
        FillIsPutAll(headers, ks, vs, i + 1, missing + 1, next);
        assert Fill(headers, vs, i, missing, acc) == Fill(headers, vs, i + 1, missing + 1, next);
        assert Fill(headers, vs, i, missing, acc) == PutAll([], ks, vs);
      }
    }
  }

  /** `line_result(headers, items, types, filing_id_included, should_parse_date)`:
      a dict whose keys are the assigned keys in order of first assignment. */
  function LineResult(headers: seq<string>, items: seq<string>, types: Option<seq<Byte>>, opts: FormatOptions): (r: Record)
    ensures Valid(r)
    ensures Keys(r) == Dedup(AssignedKeys(headers, items))
    ensures r == PutAll([], AssignedKeys(headers, items), AssignedValues(headers, items, types, opts))
  {
    var ks, vs := AssignedKeys(headers, items), AssignedValues(headers, items, types, opts);
    assert ks[..0] == [] && vs[..0] == [];
    FillIsPutAll(headers, ks, vs, 0, 1, []);
    PutAllKeys([], ks, vs);
    var empty: Record := [];
    assert Keys(empty) + ks == ks;
    Fill(headers, vs, 0, 1, [])
  }

  /** The value under each key is the conversion of the LAST position that
      assigned it; no other key is present. */
  lemma LineResultValues(headers: seq<string>, items: seq<string>, types: Option<seq<Byte>>, opts: FormatOptions, k: string)
    ensures var ks := AssignedKeys(headers, items);
            k in ks ==> Get(LineResult(headers, items, types, opts), k)
                        == Some(ConvertItem(items, types, LastIndex(ks, k), opts))
    ensures k !in AssignedKeys(headers, items) ==> Get(LineResult(headers, items, types, opts), k) == None
  {
    var ks, vs := AssignedKeys(headers, items), AssignedValues(headers, items, types, opts);
    PutAllGet([], ks, vs, k);
  }

  /** Distinct synthesized names: `__missing_header_j` and `__missing_header_k`
      differ whenever `j != k`. */
  lemma MissingHeaderInjective(j: nat, k: nat)
    requires MissingHeader(j) == MissingHeader(k)
    ensures j == k
  {
    var p := MissingHeaderPrefix;
    assert NatToString(j) == MissingHeader(j)[|p|..];
    assert NatToString(k) == MissingHeader(k)[|p|..];
  }

  /** The same fact read forwards: distinct counters, distinct names. */
  lemma MissingHeaderDistinct(j: nat, k: nat)
    requires j != k
    ensures MissingHeader(j) != MissingHeader(k)
  {
    var p := MissingHeaderPrefix;
    assert NatToString(j) == MissingHeader(j)[|p|..];
    assert NatToString(k) == MissingHeader(k)[|p|..];
  }

  /** When the headers are distinct and none looks like a synthesized name,
      every position gets its own key: the record has exactly one entry per
      iteration, the key at position `i` and the conversion of field `i`. */
  lemma {:induction false} LineResultDistinct(headers: seq<string>, items: seq<string>, types: Option<seq<Byte>>, opts: FormatOptions)
    requires Distinct(headers)
    requires forall i :: 0 <= i < |headers| ==> !IsMissingHeaderName(headers[i])
    ensures |LineResult(headers, items, types, opts)| == Width(headers, items)
    ensures forall i :: 0 <= i < Width(headers, items) ==>
              LineResult(headers, items, types, opts)[i] == Entry(KeyAt(headers, i), ConvertItem(items, types, i, opts))
  {
    var ks, vs := AssignedKeys(headers, items), AssignedValues(headers, items, types, opts);
    forall i, j | 0 <= i < j < |ks|
      ensures ks[i] != ks[j]
    {
      if j < |headers| {
      } else if i < |headers| {
        assert IsMissingHeaderName(MissingHeader(j - |headers| + 1));
      } else {
        MissingHeaderDistinct(i - |headers| + 1, j - |headers| + 1);
      }
    }
    PutAllDistinct(ks, vs);
  }

  /** Headers `h1, h2` and fields `A, B` without type codes give
      `{h1: "A", h2: "B"}`. */
  lemma LineResultExamplePlain(headers: seq<string>, items: seq<string>, opts: FormatOptions)
    requires headers == ["h1", "h2"] && items == ["A", "B"]
    ensures LineResult(headers, items, None, opts) == [Entry("h1", Str("A")), Entry("h2", Str("B"))]
  {
    assert !IsMissingHeaderName(headers[0]) && !IsMissingHeaderName(headers[1]);
    LineResultDistinct(headers, items, None, opts);
  }

  /** Header `h1` and fields `A, B, C` give
      `{h1: "A", __missing_header_1: "B", __missing_header_2: "C"}`. */
  lemma LineResultExampleMissing(headers: seq<string>, items: seq<string>, opts: FormatOptions)
    requires headers == ["h1"] && items == ["A", "B", "C"]
    ensures LineResult(headers, items, None, opts)
            == [Entry("h1", Str("A")), Entry("__missing_header_1", Str("B")), Entry("__missing_header_2", Str("C"))]
  {
    assert !IsMissingHeaderName(headers[0]);
    LineResultDistinct(headers, items, None, opts);
    assert NatToString(1) == "1" && NatToString(2) == "2";
    assert KeyAt(headers, 1) == "__missing_header_1";
    assert KeyAt(headers, 2) == "__missing_header_2";
  }

  /** A repeated header keeps one key, at its first position, holding the
      last value. */
  lemma LineResultExampleRepeated(headers: seq<string>, items: seq<string>, opts: FormatOptions)
    requires headers == ["x", "y", "x"] && items == ["A", "B", "C"]
    ensures LineResult(headers, items, None, opts) == [Entry("x", Str("C")), Entry("y", Str("B"))]
  {
    var ks, vs := AssignedKeys(headers, items), AssignedValues(headers, items, None, opts);
    assert ks == headers;
    assert vs == [Str("A"), Str("B"), Str("C")];
    assert ks[..2][..1] == ["x"] && vs[..2][..1] == [Str("A")];
    assert ks[..2] == ["x", "y"] && vs[..2] == [Str("A"), Str("B")];
    assert ks[..1][..0] == [] && vs[..1][..0] == [];
    assert PutAll([], ks[..1], vs[..1]) == [Entry("x", Str("A"))];
    assert PutAll([], ks[..2], vs[..2]) == [Entry("x", Str("A")), Entry("y", Str("B"))];
  }
}
