/** Python dictionaries keep insertion order; the model represents one as a
    sequence of (key, value) pairs whose keys are distinct. */
module Dicts {
  import opened Wrappers

  type Dict<K, V> = seq<(K, V)>

  function Keys<K, V>(d: Dict<K, V>): (r: seq<K>)
    ensures |r| == |d| && forall i :: 0 <= i < |d| ==> r[i] == d[i].0
  {
    seq(|d|, i requires 0 <= i < |d| => d[i].0)
  }

  function Values<K, V>(d: Dict<K, V>): (r: seq<V>)
    ensures |r| == |d| && forall i :: 0 <= i < |d| ==> r[i] == d[i].1
  {
    seq(|d|, i requires 0 <= i < |d| => d[i].1)
  }

  predicate HasKey<K(==), V>(d: Dict<K, V>, k: K) {
    k in Keys(d)
  }

  /** The position of the pair with key `k`: the first one, the only one
      when keys are distinct. */
  function IndexOf<K(==), V>(d: Dict<K, V>, k: K): (i: nat)
    requires HasKey(d, k)
    ensures i < |d| && d[i].0 == k
    ensures forall j :: 0 <= j < i ==> d[j].0 != k
  {
    if d[0].0 == k then 0
    else
      assert Keys(d) == [d[0].0] + Keys(d[1..]);
      IndexOf(d[1..], k) + 1
  }

  /** `d.get(k)`: the value paired with `k`, `None` when `k` is no key. */
  function Get<K(==), V>(d: Dict<K, V>, k: K): (r: Option<V>)
    ensures r.None? <==> !HasKey(d, k)
    ensures r.Some? ==> exists i :: 0 <= i < |d| && d[i] == (k, r.value)
  {
    if HasKey(d, k) then Some(d[IndexOf(d, k)].1) else None
  }

  /** `d[k] = v`: an existing key keeps its position and takes the new
      value, a new key goes last. */
  function Set<K(==), V>(d: Dict<K, V>, k: K, v: V): (r: Dict<K, V>)
    ensures HasKey(r, k)
    ensures HasKey(d, k) ==> |r| == |d| && Keys(r) == Keys(d)
    ensures !HasKey(d, k) ==> Keys(r) == Keys(d) + [k]
    ensures forall i :: 0 <= i < |r| ==> r[i] == (k, v) || (i < |d| && r[i] == d[i])
  {
    if HasKey(d, k) then
      var i := IndexOf(d, k);
      assert Keys(d[i := (k, v)]) == Keys(d);
      d[i := (k, v)]
    else
      assert Keys(d + [(k, v)]) == Keys(d) + [k];
      d + [(k, v)]
  }

  /** Two positions holding the same key, neither preceded by it, are one. */
  lemma FirstIndexUnique<K, V>(d: Dict<K, V>, k: K, i: nat, j: nat)
    requires i < |d| && j < |d| && d[i].0 == k && d[j].0 == k
    requires forall m :: 0 <= m < i ==> d[m].0 != k
    requires forall m :: 0 <= m < j ==> d[m].0 != k
    ensures i == j
  {
  }

  /** Reading a key after setting it gives the value set; every other key reads as before. */
  lemma SetGet<K, V>(d: Dict<K, V>, k: K, v: V)
    ensures Get(Set(d, k, v), k) == Some(v)
    ensures forall k' :: k' != k ==> Get(Set(d, k, v), k') == Get(d, k')
  {
    var r := Set(d, k, v);
    var i := IndexOf(r, k);
    if HasKey(d, k) {
      FirstIndexUnique(r, k, i, IndexOf(d, k));
    }
    forall k' | k' != k ensures Get(r, k') == Get(d, k') {
      if HasKey(d, k') {
        var a := IndexOf(d, k');
        assert r[a] == d[a];
        assert HasKey(r, k');
        FirstIndexUnique(r, k', a, IndexOf(r, k'));
      }
    }
  }
}
