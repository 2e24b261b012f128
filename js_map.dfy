/**
 * A JavaScript `Map` as the sequence of its entries in insertion order.
 * `new Map(m)` copies the entries in order, so a copy is the same value here.
 * `set` on a key already present overwrites the value in the key's original
 * position; `set` on a new key appends it (section 24.1.3.9 of ECMA-262, 2023).
 */
module JsMap {
  import opened Wrappers

  function Keys<K, V>(m: seq<(K, V)>): (ks: seq<K>)
    ensures |ks| == |m|
    ensures forall i :: 0 <= i < |m| ==> ks[i] == m[i].0
  {
    seq(|m|, i requires 0 <= i < |m| => m[i].0)
  }

  function Values<K, V>(m: seq<(K, V)>): (vs: seq<V>)
    ensures |vs| == |m|
    ensures forall i :: 0 <= i < |m| ==> vs[i] == m[i].1
  {
    seq(|m|, i requires 0 <= i < |m| => m[i].1)
  }

  lemma KeysAppend<K, V>(m: seq<(K, V)>, k: K, v: V)
    ensures Keys(m + [(k, v)]) == Keys(m) + [k]
  {
  }

  /** Every key occurs once: what a `Map` guarantees of its entries. */
  ghost predicate DistinctKeys<K, V>(m: seq<(K, V)>) {
    forall i, j :: 0 <= i < j < |m| ==> m[i].0 != m[j].0
  }

  /** The position of key `k`, if it is present. */
  function IndexOfKey<K(==), V>(m: seq<(K, V)>, k: K): (r: Option<nat>)
    ensures r.Some? ==> r.value < |m| && m[r.value].0 == k
    ensures r.Some? ==> forall j :: 0 <= j < r.value ==> m[j].0 != k
    ensures r.None? ==> forall j :: 0 <= j < |m| ==> m[j].0 != k
  {
    if m == [] then None
    else if m[0].0 == k then Some(0)
    else
      match IndexOfKey(m[1..], k)
      case None => None
      case Some(i) => Some(i + 1)
  }

  /** `m.has(k)`. */
  predicate Has<K(==), V>(m: seq<(K, V)>, k: K)
    ensures Has(m, k) <==> k in Keys(m)
  {
    IndexOfKey(m, k).Some?
  }

  /** `m.get(k)`, with `None` for `undefined`. */
  function Get<K(==), V>(m: seq<(K, V)>, k: K): (r: Option<V>)
    ensures r.Some? <==> k in Keys(m)
    ensures r.Some? ==> exists i :: 0 <= i < |m| && m[i] == (k, r.value)
  {
    match IndexOfKey(m, k)
    case None => None
    case Some(i) => assert m[i] == (k, m[i].1); Some(m[i].1)
  }

  /** `m.set(k, v)` on a copy of `m`. */
  function Set<K(==), V>(m: seq<(K, V)>, k: K, v: V): (r: seq<(K, V)>)
    ensures k in Keys(m) ==> Keys(r) == Keys(m)
    ensures k !in Keys(m) ==> r == m + [(k, v)]
    ensures forall i :: 0 <= i < |m| && m[i].0 != k ==> r[i] == m[i]
    ensures DistinctKeys(m) ==> DistinctKeys(r)
    ensures Get(r, k) == Some(v)
  {
    match IndexOfKey(m, k)
    case None =>
      var r := m + [(k, v)];
      assert r[|m|] == (k, v);
      r
    case Some(i) =>
      var r := m[i := (k, v)];
      assert Keys(r) == Keys(m);
      assert IndexOfKey(r, k) == Some(i);
      r
  }

  /** Setting a key to the value it already holds leaves the map as it was. */
  lemma SetSameValue<K, V>(m: seq<(K, V)>, i: nat)
    requires DistinctKeys(m) && i < |m|
    ensures Set(m, m[i].0, m[i].1) == m
  {
    var r := Set(m, m[i].0, m[i].1);
    assert m[i].0 in Keys(m);
    assert |r| == |m|;
    forall j | 0 <= j < |m| ensures r[j] == m[j] {
      if m[j].0 == m[i].0 {
        assert j == i;
      }
    }
  }

  /** Lookup agrees with any entry, when keys are distinct. */
  lemma GetEntry<K, V>(m: seq<(K, V)>, i: nat)
    requires DistinctKeys(m) && i < |m|
    ensures Get(m, m[i].0) == Some(m[i].1)
  {
    var r := Get(m, m[i].0);
    assert m[i].0 in Keys(m);
    var j :| 0 <= j < |m| && m[j] == (m[i].0, r.value);
    assert j == i;
  }

  /** `set` on a present key overwrites its entry where it stands. */
  lemma SetInPlace<K, V>(m: seq<(K, V)>, k: K, v: V)
    requires DistinctKeys(m) && k in Keys(m)
    ensures exists i :: 0 <= i < |m| && m[i].0 == k && Set(m, k, v) == m[i := (k, v)]
  {
    var r := Set(m, k, v);
    var i :| 0 <= i < |m| && m[i].0 == k;
    GetEntry(r, i);
    forall j | 0 <= j < |m| ensures r[j] == m[i := (k, v)][j] {
      if j != i {
        assert m[j].0 != k;
      }
    }
    assert r == m[i := (k, v)];
  }

  /** `set` on one key leaves every other key's lookup as it was. */
  lemma GetSetOther<K, V>(m: seq<(K, V)>, k: K, v: V, k': K)
    requires DistinctKeys(m) && k != k'
    ensures Get(Set(m, k, v), k') == Get(m, k')
  {
    var r := Set(m, k, v);
    if k' in Keys(m) {
      var i :| 0 <= i < |m| && m[i].0 == k';
      GetEntry(m, i);
      GetEntry(r, i);
    } else {
      assert k' !in Keys(r);
    }
  }
}
