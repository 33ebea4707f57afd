/**
 * PHP arrays with string keys, and the objects json_decode builds, are
 * ordered hash maps: a lookup goes by key, iteration follows insertion
 * order, and writing to a key that is already present replaces its value
 * without moving it. This module models such a map as a sequence of
 * (key, value) pairs.
 */
module OrderedMap {
  import opened Wrappers

  type OMap<V> = seq<(string, V)>

  predicate HasKey<V>(m: OMap<V>, key: string) {
    exists i :: 0 <= i < |m| && m[i].0 == key
  }

  predicate KeysDistinct<V>(m: OMap<V>) {
    forall i, j :: 0 <= i < j < |m| ==> m[i].0 != m[j].0
  }

  /** The position of the first pair whose key is `key`. */
  function IndexOf<V>(m: OMap<V>, key: string): (r: Option<nat>)
    ensures r.None? <==> !HasKey(m, key)
    ensures r.Some? ==> r.value < |m| && m[r.value].0 == key
    ensures r.Some? ==> forall i :: 0 <= i < r.value ==> m[i].0 != key
  {
    if m == [] then None
    else if m[0].0 == key then Some(0)
    else match IndexOf(m[1..], key)
      case None => None
      case Some(i) => Some(i + 1)
  }

  /** Reading `$m[$key]`: the value stored under `key`, if any. */
  function Get<V>(m: OMap<V>, key: string): (r: Option<V>)
    ensures r.None? <==> !HasKey(m, key)
    ensures r.Some? ==> exists i :: 0 <= i < |m| && m[i].0 == key && m[i].1 == r.value
  {
    match IndexOf(m, key)
    case None => None
    case Some(i) => Some(m[i].1)
  }

  /** The first pair holding `key` is the one IndexOf finds. */
  lemma IndexOfFirst<V>(m: OMap<V>, key: string, j: nat)
    requires j < |m| && m[j].0 == key
    requires forall i :: 0 <= i < j ==> m[i].0 != key
    ensures IndexOf(m, key) == Some(j)
  {
    assert HasKey(m, key);
  }

  /** In a map without repeated keys, every stored pair is what a lookup of its key finds. */
  lemma GetDistinct<V>(m: OMap<V>, i: nat)
    requires KeysDistinct(m) && i < |m|
    ensures Get(m, m[i].0) == Some(m[i].1)
  {
    IndexOfFirst(m, m[i].0, i);
  }

  /** Writing `$m[$key] = $value`: an existing key keeps its place, a new key goes at the end. */
  function Put<V>(m: OMap<V>, key: string, value: V): (r: OMap<V>)
    ensures Get(r, key) == Some(value)
    ensures forall k :: k != key ==> Get(r, k) == Get(m, k)
    ensures HasKey(m, key) ==> |r| == |m|
    ensures !HasKey(m, key) ==> |r| == |m| + 1 && r[|m|] == (key, value)
    ensures forall i :: 0 <= i < |m| ==> r[i].0 == m[i].0
    ensures KeysDistinct(m) ==> KeysDistinct(r)
  {
    match IndexOf(m, key)
    case None =>
      var r := m + [(key, value)];
      IndexOfFirst(r, key, |m|);
      forall k | k != key
        ensures Get(r, k) == Get(m, k)
      {
        IndexOfUnchanged(m, r, k);
      }
      r
    case Some(i) =>
      var r := m[i := (key, value)];
      IndexOfFirst(r, key, i);
      forall k | k != key
        ensures Get(r, k) == Get(m, k)
      {
        IndexOfUnchanged(m, r, k);
      }
      r
  }

  /**
   * A write that leaves every pair whose key is `k` where it was, adds none
   * and keeps the values of those pairs, does not change a lookup of `k`.
   */
  lemma IndexOfUnchanged<V>(m: OMap<V>, r: OMap<V>, k: string)
    requires |m| <= |r|
    requires forall i :: 0 <= i < |m| ==> (m[i].0 == k <==> r[i].0 == k)
    requires forall i :: 0 <= i < |m| && m[i].0 == k ==> r[i].1 == m[i].1
    requires forall i :: |m| <= i < |r| ==> r[i].0 != k
    ensures Get(r, k) == Get(m, k)
  {
    match IndexOf(m, k)
    case None =>
      assert !HasKey(r, k);
    case Some(n) =>
      IndexOfFirst(r, k, n);
  }
}
