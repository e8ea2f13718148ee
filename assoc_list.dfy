/** Insertion-ordered dictionaries, the way the tool's Python dicts behave:
    a sequence of (key, value) pairs in which a new key is appended at the
    end and an existing key is updated where it stands. */
module AssocList {

  datatype Option<T> = None | Some(value: T)

  type Assoc<K, V> = seq<(K, V)>

  /** The keys in insertion order (`d.keys()`). */
  function Keys<K, V>(m: Assoc<K, V>): (ks: seq<K>)
    ensures |ks| == |m|
    ensures forall i :: 0 <= i < |m| ==> ks[i] == m[i].0
  {
    if m == [] then [] else [m[0].0] + Keys(m[1..])
  }

  /** The values in insertion order (`d.values()`). */
  function Values<K, V>(m: Assoc<K, V>): (vs: seq<V>)
    ensures |vs| == |m|
    ensures forall i :: 0 <= i < |m| ==> vs[i] == m[i].1
  {
    seq(|m|, i requires 0 <= i < |m| => m[i].1)
  }

  /** Appending an entry appends its key. */
  lemma KeysSnoc<K, V>(m: Assoc<K, V>, p: (K, V))
    ensures Keys(m + [p]) == Keys(m) + [p.0]
  {
    var l, r := Keys(m + [p]), Keys(m) + [p.0];
    forall i | 0 <= i < |l| ensures l[i] == r[i] {
      if i < |m| {
        assert (m + [p])[i] == m[i];
      }
    }
  }

  /** What every Python dict guarantees: no key occurs twice. */
  ghost predicate DistinctKeys<K, V>(m: Assoc<K, V>) {
    forall i, j :: 0 <= i < j < |m| ==> m[i].0 != m[j].0
  }

  /** In a dict with distinct keys, a key has only one value. */
  lemma SameKeySameValue<K, V>(m: Assoc<K, V>, k: K, v: V, v': V)
    requires DistinctKeys(m) && (k, v) in m && (k, v') in m
    ensures v == v'
  {
    var i :| 0 <= i < |m| && m[i] == (k, v);
    var j :| 0 <= j < |m| && m[j] == (k, v');
    assert i == j;
  }

  /** `d.get(k)`: the value stored under `k`, if any (the first entry with
      that key; a dict has only one). */
  function Get<K(==), V>(m: Assoc<K, V>, k: K): Option<V> {
    if m == [] then None
    else if m[0].0 == k then Some(m[0].1)
    else Get(m[1..], k)
  }

  /** `k in d` exactly when `d.get(k)` finds a value. */
  lemma {:induction false} GetFindsKeys<K, V>(m: Assoc<K, V>, k: K)
    ensures Get(m, k).Some? <==> k in Keys(m)
  {
    if m != [] && m[0].0 != k {
      GetFindsKeys(m[1..], k);
      assert Keys(m) == [m[0].0] + Keys(m[1..]);
    }
  }

  /** A value found by `d.get(k)` is stored under `k`. */
  lemma {:induction false} GetSome<K, V>(m: Assoc<K, V>, k: K)
    requires Get(m, k).Some?
    ensures (k, Get(m, k).value) in m
  {
    if m[0].0 != k {
      GetSome(m[1..], k);
    }
  }

  /** In a dict with distinct keys, looking up the key at position i gives
      the value at position i. */
  lemma {:induction false} GetAt<K, V>(m: Assoc<K, V>, i: nat)
    requires DistinctKeys(m) && i < |m|
    ensures Get(m, m[i].0) == Some(m[i].1)
  {
    if i > 0 {
      GetAt(m[1..], i - 1);
    }
  }

  /** `d[k] = v`: overwrite in place when `k` is present, otherwise append. */
  function Put<K(==, !new), V>(m: Assoc<K, V>, k: K, v: V): (r: Assoc<K, V>)
    ensures forall k' :: Get(r, k') == if k' == k then Some(v) else Get(m, k')
  {
    if m == [] then [(k, v)]
    else if m[0].0 == k then
      var r := [(k, v)] + m[1..];
      assert r[1..] == m[1..];
      r
    else
      var rest := Put(m[1..], k, v);
      var r := [m[0]] + rest;
      assert r[1..] == rest;
      r
  }

  /** Writing a key keeps every key where it stands; a new key goes last. */
  lemma {:induction false} PutKeys<K(!new), V>(m: Assoc<K, V>, k: K, v: V)
    ensures Keys(Put(m, k, v)) == if k in Keys(m) then Keys(m) else Keys(m) + [k]
  {
    var r := Put(m, k, v);
    if m != [] {
      assert Keys(m) == [m[0].0] + Keys(m[1..]);
      if m[0].0 == k {
        assert r[1..] == m[1..];
        assert Keys(r) == [k] + Keys(m[1..]);
      } else {
        PutKeys(m[1..], k, v);
        assert r[1..] == Put(m[1..], k, v);
        assert Keys(r) == [m[0].0] + Keys(r[1..]);
      }
    }
  }

  /** Writing a key leaves the key at each old position where it was. */
  lemma PutKeyAt<K(!new), V>(m: Assoc<K, V>, k: K, v: V, i: nat)
    requires i < |m|
    ensures i < |Put(m, k, v)| && Put(m, k, v)[i].0 == m[i].0
  {
    PutKeys(m, k, v);
    assert Keys(Put(m, k, v))[i] == Keys(m)[i];
  }

  /** A position past the old entries holds the written key, which was new. */
  lemma PutKeyPast<K(!new), V>(m: Assoc<K, V>, k: K, v: V, j: nat)
    requires |m| <= j < |Put(m, k, v)|
    ensures Put(m, k, v)[j].0 == k && k !in Keys(m)
  {
    PutKeys(m, k, v);
    assert Keys(Put(m, k, v))[j] == Put(m, k, v)[j].0;
  }

  /** Writing a key that is not present appends it. */
  lemma {:induction false} PutNew<K(!new), V>(m: Assoc<K, V>, k: K, v: V)
    requires k !in Keys(m)
    ensures Put(m, k, v) == m + [(k, v)]
  {
    if m != [] {
      assert Keys(m) == [m[0].0] + Keys(m[1..]);
      assert m[0].0 != k;
      PutNew(m[1..], k, v);
      assert Put(m, k, v) == [m[0]] + Put(m[1..], k, v);
      assert m + [(k, v)] == [m[0]] + (m[1..] + [(k, v)]);
    }
  }

  /** Writing a key keeps the keys of a dict distinct. */
  lemma PutDistinct<K(!new), V>(m: Assoc<K, V>, k: K, v: V)
    requires DistinctKeys(m)
    ensures DistinctKeys(Put(m, k, v))
  {
    var r := Put(m, k, v);
    PutKeys(m, k, v);
    forall i, j | 0 <= i < j < |r| ensures r[i].0 != r[j].0 {
      assert r[i].0 == Keys(r)[i] && r[j].0 == Keys(r)[j];
      if k in Keys(m) {
        assert Keys(m)[i] == m[i].0 && Keys(m)[j] == m[j].0;
      } else if j < |m| {
        assert Keys(m)[i] == m[i].0 && Keys(m)[j] == m[j].0;
      } else {
        assert Keys(m)[i] == m[i].0;
      }
    }
  }

  /** After `d[k] = v` every entry is the new one or an old one. */
  lemma {:induction false} PutEntries<K(!new), V>(m: Assoc<K, V>, k: K, v: V)
    ensures forall p :: p in Put(m, k, v) ==> p == (k, v) || p in m
  {
    if m != [] && m[0].0 != k {
      PutEntries(m[1..], k, v);
    }
  }

  /** `d.get(k, default)`. */
  function GetOr<K(==), V>(m: Assoc<K, V>, k: K, default: V): V {
    match Get(m, k)
    case None => default
    case Some(v) => v
  }
}
