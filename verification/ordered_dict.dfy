/** Python's `dict` as the source uses it: an insertion-ordered table in
    which assigning to a present key keeps the key at its first position and
    replaces its value, and assigning to a new key appends it. */
module OrderedDicts {
  import opened Basics

  datatype Entry<K, V> = Entry(key: K, value: V)

  type Dict<K, V> = seq<Entry<K, V>>

  function Keys<K, V>(d: Dict<K, V>): seq<K> {
    seq(|d|, i requires 0 <= i < |d| => d[i].key)
  }

  /** Every key occurs once: the shape every Python dict has. */
  predicate Valid<K(==), V>(d: Dict<K, V>) {
    Distinct(Keys(d))
  }

  /** `d.get(k)`. */
  function Get<K(==), V>(d: Dict<K, V>, k: K): (r: Option<V>)
    ensures r.None? <==> k !in Keys(d)
    ensures r.Some? ==> Entry(k, r.value) in d
  {
    if |d| == 0 then None
    else if d[0].key == k then
      assert Keys(d)[0] == k;
      Some(d[0].value)
    else
      assert Keys(d) == [d[0].key] + Keys(d[1..]);
      Get(d[1..], k)
  }

  /** `d[k] = v`. */
  function Put<K(==, !new), V>(d: Dict<K, V>, k: K, v: V): (r: Dict<K, V>)
    ensures k in Keys(d) ==> Keys(r) == Keys(d)
    ensures k !in Keys(d) ==> Keys(r) == Keys(d) + [k]
    ensures Get(r, k) == Some(v)
  {
    if |d| == 0 then [Entry(k, v)]
    else if d[0].key == k then
      assert Keys(d) == [k] + Keys(d[1..]);
      assert Keys([Entry(k, v)] + d[1..]) == [k] + Keys(d[1..]);
      assert ([Entry(k, v)] + d[1..])[1..] == d[1..];
      [Entry(k, v)] + d[1..]
    else
      var rest := Put(d[1..], k, v);
      assert Keys(d) == [d[0].key] + Keys(d[1..]);
      assert Keys([d[0]] + rest) == [d[0].key] + Keys(rest);
      assert ([d[0]] + rest)[1..] == rest;
      [d[0]] + rest
  }

  /** Assigning one key leaves every other key's value alone. */
  lemma {:induction false} PutOther<K(!new), V>(d: Dict<K, V>, k: K, v: V, k': K)
    requires k' != k
    ensures Get(Put(d, k, v), k') == Get(d, k')
  {
    if |d| > 0 && d[0].key != k {
      PutOther(d[1..], k, v, k');
      assert (Put(d, k, v))[1..] == Put(d[1..], k, v);
    }
  }

  /** Assigning `vs[i]` to `ks[i]` for i = 0, 1, ... in turn, starting from `d`. */
  function PutAll<K(==, !new), V>(d: Dict<K, V>, ks: seq<K>, vs: seq<V>): Dict<K, V>
    requires |ks| == |vs|
  {
    if |ks| == 0 then d
    else Put(PutAll(d, ks[..|ks| - 1], vs[..|vs| - 1]), ks[|ks| - 1], vs[|vs| - 1])
  }

  /** The pairs `(ks[i], vs[i])` in order, as a dict literal would list them. */
  function Zip<K, V>(ks: seq<K>, vs: seq<V>): (d: Dict<K, V>)
    requires |ks| == |vs|
  {
    seq(|ks|, i requires 0 <= i < |ks| => Entry(ks[i], vs[i]))
  }

  /** Key order of a dict built by successive assignments: existing keys
      first, then every new key at the position of its first assignment. */
  lemma {:induction false} PutAllKeys<K(!new), V>(d: Dict<K, V>, ks: seq<K>, vs: seq<V>)
    requires |ks| == |vs| && Valid(d)
    ensures Keys(PutAll(d, ks, vs)) == Dedup(Keys(d) + ks)
  {
    if |ks| == 0 {
      assert Keys(d) + ks == Keys(d);
      DedupOfDistinct(Keys(d));
    } else {
      var n := |ks|;
      PutAllKeys(d, ks[..n - 1], vs[..n - 1]);
      PutAllKeysStep(d, ks, vs);
    }
  }

  /** One more assignment extends the first-occurrence key order by one. */
  lemma PutAllKeysStep<K(!new), V>(d: Dict<K, V>, ks: seq<K>, vs: seq<V>)
    requires |ks| == |vs| && |ks| > 0
    requires Keys(PutAll(d, ks[..|ks| - 1], vs[..|vs| - 1])) == Dedup(Keys(d) + ks[..|ks| - 1])
    ensures Keys(PutAll(d, ks, vs)) == Dedup(Keys(d) + ks)
  {
    var n := |ks|;
    var init, last := ks[..n - 1], ks[n - 1];
    AppendSnoc(Keys(d), ks);
    PutKeysDedup(PutAll(d, init, vs[..n - 1]), Keys(d) + init, last, vs[n - 1]);
  }

  /** ... and so does one assignment on its own. */
  lemma PutKeysDedup<K(!new), V>(d: Dict<K, V>, ks: seq<K>, k: K, v: V)
    requires Keys(d) == Dedup(ks)
    ensures Keys(Put(d, k, v)) == Dedup(ks + [k])
  {
    DedupSnoc(ks, k);
  }

  /** The value a dict built by successive assignments holds for a key is
      the one assigned last; keys never assigned keep their old value. */
  lemma {:induction false} PutAllGet<K(!new), V>(d: Dict<K, V>, ks: seq<K>, vs: seq<V>, k: K)
    requires |ks| == |vs|
    ensures k in ks ==> Get(PutAll(d, ks, vs), k) == Some(vs[LastIndex(ks, k)])
    ensures k !in ks ==> Get(PutAll(d, ks, vs), k) == Get(d, k)
  {
    if |ks| > 0 {
      var n := |ks|;
      var init, last := ks[..n - 1], ks[n - 1];
      var prev := PutAll(d, init, vs[..n - 1]);
      assert PutAll(d, ks, vs) == Put(prev, last, vs[n - 1]);
      if last == k {
        assert LastIndex(ks, k) == n - 1;
      } else {
        PutAllGet(d, init, vs[..n - 1], k);
        PutOther(prev, last, vs[n - 1], k);
        InInit(ks, k);
        if k in init {
          assert LastIndex(ks, k) == LastIndex(init, k);
        }
      }
    }
  }

  /** An element other than the last occurs in a sequence exactly when it
      occurs before the last position. */
  lemma InInit<T>(s: seq<T>, x: T)
    requires |s| > 0 && s[|s| - 1] != x
    ensures x in s <==> x in s[..|s| - 1]
  {
    assert s == s[..|s| - 1] + [s[|s| - 1]];
  }

  /** When no key repeats, successive assignments give exactly the pairs in
      order: one entry per assignment. */
  lemma {:induction false} PutAllDistinct<K(!new), V>(ks: seq<K>, vs: seq<V>)
    requires |ks| == |vs| && Distinct(ks)
    ensures PutAll([], ks, vs) == Zip(ks, vs)
  {
    if |ks| > 0 {
      var n := |ks|;
      assert Distinct(ks[..n - 1]);
      PutAllDistinct(ks[..n - 1], vs[..n - 1]);
      var z := Zip(ks[..n - 1], vs[..n - 1]);
      ZipKeys(ks[..n - 1], vs[..n - 1]);
      assert ks[n - 1] !in ks[..n - 1];
      ZipSnoc(ks, vs);
      PutAppends(z, ks[n - 1], vs[n - 1]);
    }
  }

  lemma ZipKeys<K, V>(ks: seq<K>, vs: seq<V>)
    requires |ks| == |vs|
    ensures Keys(Zip(ks, vs)) == ks
  {
  }

  lemma ZipSnoc<K, V>(ks: seq<K>, vs: seq<V>)
    requires |ks| == |vs| && |ks| > 0
    ensures Zip(ks, vs) == Zip(ks[..|ks| - 1], vs[..|vs| - 1]) + [Entry(ks[|ks| - 1], vs[|vs| - 1])]
  {
  }

  /** Assigning a new key appends exactly one entry. */
  lemma {:induction false} PutAppends<K(!new), V>(d: Dict<K, V>, k: K, v: V)
    requires k !in Keys(d)
    ensures Put(d, k, v) == d + [Entry(k, v)]
  {
    if |d| > 0 {
      assert Keys(d) == [d[0].key] + Keys(d[1..]);
      PutAppends(d[1..], k, v);
      assert [d[0]] + (d[1..] + [Entry(k, v)]) == d + [Entry(k, v)];
    }
  }
}
