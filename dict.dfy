/**
 * Python dictionaries as insertion-ordered association lists. Iterating a
 * Python dict visits keys in the order they were first inserted, and
 * assigning to an existing key keeps its position; both matter to the
 * deanonymizer, whose replacement order is the iteration order of a dict.
 */
module Dict {
  import opened Wrappers

  type Dict<K, V> = seq<(K, V)>

  /** No key occurs twice: every value built by Put from [] has this shape. */
  predicate KeysUnique<K(==), V>(d: Dict<K, V>)
  {
    forall i, j :: 0 <= i < j < |d| ==> d[i].0 != d[j].0
  }

  /** `d.get(k)`: the value of the first entry whose key is k. */
  function Get<K(==), V>(d: Dict<K, V>, k: K): (r: Option<V>)
    ensures r.None? <==> forall i :: 0 <= i < |d| ==> d[i].0 != k
    ensures r.Some? ==> (k, r.value) in d
  {
    if d == [] then None
    else if d[0].0 == k then Some(d[0].1)
    else
      var r := Get(d[1..], k);
      assert forall i :: 1 <= i < |d| ==> d[i] == d[1..][i - 1];
      r
  }

  /** `d[k] = v`: overwrite the value in place when k is present, append otherwise. */
  function Put<K(==), V>(d: Dict<K, V>, k: K, v: V): (r: Dict<K, V>)
    ensures Get(r, k) == Some(v)
    ensures Get(d, k).None? ==> r == d + [(k, v)]
    ensures Get(d, k).Some? ==> |r| == |d| && forall i :: 0 <= i < |d| ==> r[i].0 == d[i].0
  {
    if d == [] then [(k, v)]
    else if d[0].0 == k then [(k, v)] + d[1..]
    else [d[0]] + Put(d[1..], k, v)
  }

  /** Assigning to k leaves every other key's value alone. */
  lemma {:induction false} PutOther<K, V>(d: Dict<K, V>, k: K, v: V, k': K)
    requires k' != k
    ensures Get(Put(d, k, v), k') == Get(d, k')
  {
    if d != [] && d[0].0 != k {
      PutOther(d[1..], k, v, k');
    }
  }

  /** Under unique keys, the entry at index i is what Get finds for its key. */
  lemma {:induction false} GetAt<K, V>(d: Dict<K, V>, i: nat)
    requires KeysUnique(d) && i < |d|
    ensures Get(d, d[i].0) == Some(d[i].1)
  {
    if i > 0 {
      GetAt(d[1..], i - 1);
    }
  }

  /** Under unique keys, a value Get finds sits at the index of its key. */
  lemma GetIndex<K, V>(d: Dict<K, V>, k: K) returns (i: nat)
    requires KeysUnique(d) && Get(d, k).Some?
    ensures i < |d| && d[i] == (k, Get(d, k).value)
  {
    var v := Get(d, k).value;
    i :| 0 <= i < |d| && d[i] == (k, v);
  }

  /** Assigning to a present key rewrites that one entry in place. */
  lemma {:induction false} PutAt<K, V>(d: Dict<K, V>, i: nat, v: V)
    requires KeysUnique(d) && i < |d|
    ensures Put(d, d[i].0, v) == d[i := (d[i].0, v)]
  {
    if i > 0 {
      PutAt(d[1..], i - 1, v);
      assert [d[0]] + d[1..][i - 1 := (d[i].0, v)] == d[i := (d[i].0, v)];
    }
  }

  /** Assignment keeps keys unique. */
  lemma PutKeysUnique<K, V>(d: Dict<K, V>, k: K, v: V)
    requires KeysUnique(d)
    ensures KeysUnique(Put(d, k, v))
  {
    var r := Put(d, k, v);
    if Get(d, k).None? {
      assert r == d + [(k, v)];
    }
  }

  /** Assignment adds the assigned entry and otherwise keeps entries of d. */
  lemma {:induction false} PutEntries<K, V>(d: Dict<K, V>, k: K, v: V, x: (K, V))
    requires x in Put(d, k, v)
    ensures x in d || x == (k, v)
  {
    if d != [] && d[0].0 != k && x != d[0] {
      PutEntries(d[1..], k, v, x);
    }
  }
}
