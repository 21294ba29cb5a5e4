/** Small vocabulary shared by every other module: an option type, bytes,
    and the two sequence notions (distinctness, first-occurrence order) that
    Python dictionaries and the C file table both rely on. */
module Basics {

  /** Python's `None` / a present value; C's `NULL` / a pointer. */
  datatype Option<T> = None | Some(value: T)

  /** One element of a Python `bytes` object or of a C `char` buffer. */
  type Byte = b: int | 0 <= b < 256

  /** A byte string: C's `char *` contents, Python's `bytes`. */
  type Bytes = seq<Byte>

  /** No element occurs twice. */
  predicate Distinct<T(==)>(s: seq<T>) {
    forall i, j :: 0 <= i < j < |s| ==> s[i] != s[j]
  }

  /** The elements of `s`, each once, in the order of their first occurrence. */
  function Dedup<T(==, !new)>(s: seq<T>): (r: seq<T>)
    ensures Distinct(r)
    ensures forall x :: x in r <==> x in s
    ensures |r| <= |s|
  {
    if |s| == 0 then []
    else
      var p := Dedup(s[..|s| - 1]);
      if s[|s| - 1] in p then p else p + [s[|s| - 1]]
  }

  /** Deduplicating one more element: it is appended exactly when new. */
  lemma DedupSnoc<T(!new)>(s: seq<T>, x: T)
    ensures Dedup(s + [x]) == if x in Dedup(s) then Dedup(s) else Dedup(s) + [x]
  {
    assert (s + [x])[..|s|] == s;
  }

  /** Splitting off the last element of the right operand. */
  lemma AppendSnoc<T>(a: seq<T>, s: seq<T>)
    requires |s| > 0
    ensures a + s == (a + s[..|s| - 1]) + [s[|s| - 1]]
  {
  }

  /** Removing duplicates from a duplicate-free sequence changes nothing. */
  lemma {:induction false} DedupOfDistinct<T(!new)>(s: seq<T>)
    requires Distinct(s)
    ensures Dedup(s) == s
  {
    if |s| > 0 {
      var init := s[..|s| - 1];
      assert Distinct(init);
      DedupOfDistinct(init);
      assert s[|s| - 1] !in init;
      assert init + [s[|s| - 1]] == s;
    }
  }

  /** Position of the last occurrence of `x` in `s`. */
  function LastIndex<T(==)>(s: seq<T>, x: T): (r: nat)
    requires x in s
    ensures r < |s| && s[r] == x
    ensures forall j :: r < j < |s| ==> s[j] != x
  {
    if s[|s| - 1] == x then |s| - 1
    else
      assert x in s[..|s| - 1] by {
        var k :| 0 <= k < |s| && s[k] == x;
        assert s[..|s| - 1][k] == x;
      }
      LastIndex(s[..|s| - 1], x)
  }
}
