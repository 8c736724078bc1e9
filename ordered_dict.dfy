/**
 * A JavaScript `Map` as a value: the entries in the order their keys were first
 * set. `set` on a present key replaces its value where it stands, `set` on an
 * absent key appends, `delete` removes the entry, and `values()` yields the values
 * in entry order.
 */
module OrderedDict {
  import opened Wrappers

  type Dict<K, V> = seq<(K, V)>

  /** The keys present in `d` (what `has` answers true for). */
  function Keys<K(==), V>(d: Dict<K, V>): set<K>
  {
    if d == [] then {} else {d[0].0} + Keys(d[1..])
  }

  /** No key occurs in two entries: the shape every JavaScript `Map` has. */
  predicate UniqueKeys<K(==), V>(d: Dict<K, V>)
  {
    d == [] || (d[0].0 !in Keys(d[1..]) && UniqueKeys(d[1..]))
  }

  /** `map.get(k)`: the value stored under `k`, if any. */
  function Get<K(==), V>(d: Dict<K, V>, k: K): (r: Option<V>)
    ensures r.Some? <==> k in Keys(d)
    ensures r.Some? ==> (k, r.value) in d
  {
    if d == [] then None
    else if d[0].0 == k then Some(d[0].1)
    else Get(d[1..], k)
  }

  /** `map.set(k, v)`: replace the value of a present key in place, or append a new entry. */
  function Set<K(==,!new), V>(d: Dict<K, V>, k: K, v: V): (r: Dict<K, V>)
    ensures Keys(r) == Keys(d) + {k}
    ensures UniqueKeys(d) ==> UniqueKeys(r)
    ensures Get(r, k) == Some(v)
    ensures forall k' :: k' != k ==> Get(r, k') == Get(d, k')
    ensures k in Keys(d) ==> KeyOrder(r) == KeyOrder(d)
    ensures k !in Keys(d) ==> r == d + [(k, v)]
    ensures forall i :: 0 <= i < |r| ==> r[i] == (k, v) || r[i] in d
  {
    if d == [] then [(k, v)]
    else if d[0].0 == k then [(k, v)] + d[1..]
    else
      var rest := Set(d[1..], k, v);
      assert d == [d[0]] + d[1..];
      [d[0]] + rest
  }

  /** `map.delete(k)`: drop the entry of `k`, keeping the others in order. */
  function Delete<K(==,!new), V>(d: Dict<K, V>, k: K): (r: Dict<K, V>)
    ensures UniqueKeys(d) ==> UniqueKeys(r) && Keys(r) == Keys(d) - {k} && Get(r, k) == None
    ensures forall k' :: k' != k ==> Get(r, k') == Get(d, k')
    ensures k in Keys(d) ==> |r| == |d| - 1
    ensures k !in Keys(d) ==> r == d
    ensures forall i :: 0 <= i < |r| ==> r[i] in d
  {
    if d == [] then []
    else if d[0].0 == k then d[1..]
    else [d[0]] + Delete(d[1..], k)
  }

  /** The keys in entry order (`Array.from(map.keys())`). */
  function KeyOrder<K(==), V>(d: Dict<K, V>): (ks: seq<K>)
    ensures |ks| == |d| && forall i :: 0 <= i < |d| ==> ks[i] == d[i].0
  {
    seq(|d|, i requires 0 <= i < |d| => d[i].0)
  }

  /** `Array.from(map.values())`. */
  function Values<K(==), V>(d: Dict<K, V>): (vs: seq<V>)
    ensures |vs| == |d| && forall i :: 0 <= i < |d| ==> vs[i] == d[i].1
  {
    seq(|d|, i requires 0 <= i < |d| => d[i].1)
  }

  /** A dictionary with unique keys never holds the same key at two positions. */
  lemma {:induction false} UniqueKeysDistinct<K, V>(d: Dict<K, V>, i: nat, j: nat)
    requires UniqueKeys(d)
    requires i < j < |d|
    ensures d[i].0 != d[j].0
  {
    if i == 0 {
      KeysContains(d[1..], j - 1);
    } else {
      UniqueKeysDistinct(d[1..], i - 1, j - 1);
    }
  }

  /** Every entry's key is among the keys. */
  lemma {:induction false} KeysContains<K, V>(d: Dict<K, V>, i: nat)
    requires i < |d|
    ensures d[i].0 in Keys(d)
  {
    if i > 0 {
      KeysContains(d[1..], i - 1);
    }
  }

  /** Every key stands at some position. */
  lemma {:induction false} KeysWitness<K, V>(d: Dict<K, V>, k: K) returns (i: nat)
    requires k in Keys(d)
    ensures i < |d| && d[i].0 == k
  {
    if d[0].0 == k {
      i := 0;
    } else {
      var j := KeysWitness(d[1..], k);
      i := j + 1;
    }
  }

  /** Only the empty dictionary has no keys (`map.size === 0`). */
  lemma EmptyIffNoKeys<K, V>(d: Dict<K, V>)
    ensures d == [] <==> Keys(d) == {}
  {
    if d != [] {
      assert d[0].0 in Keys(d);
    }
  }
}
