/**
 * A Python dictionary filled by `d[key] = value` in a loop: a later pair
 * overwrites an earlier one with the same key. Both catalogs build their maps
 * this way.
 */
module LastWins {

  /** The map after assigning every pair of `pairs` in order, starting from an empty map. */
  function Assign<K, V>(pairs: seq<(K, V)>): (m: map<K, V>)
    ensures forall i | 0 <= i < |pairs| :: pairs[i].0 in m
    decreases |pairs|
  {
    if pairs == [] then map[]
    else
      var last := pairs[|pairs| - 1];
      Assign(pairs[..|pairs| - 1])[last.0 := last.1]
  }

  /** Assigning one more pair updates the map at that pair's key. */
  lemma AssignPrefixStep<K, V>(pairs: seq<(K, V)>, n: nat, m: map<K, V>, k: K, v: V)
    requires n < |pairs| && m == Assign(pairs[..n]) && pairs[n] == (k, v)
    ensures m[k := v] == Assign(pairs[..n + 1])
  {
    assert pairs[..n + 1][..n] == pairs[..n];
  }

  /** Position `i` holds the last pair of `pairs` whose key is `k`. */
  ghost predicate IsLastFor<K, V>(pairs: seq<(K, V)>, k: K, i: int) {
    0 <= i < |pairs| && pairs[i].0 == k &&
    forall j | i < j < |pairs| :: pairs[j].0 != k
  }

  /**
   * The position of the last pair whose key is `k`, or -1 when no pair has
   * that key: the reference definition of "the last entry wins".
   */
  function LastIndexOf<K(==), V>(pairs: seq<(K, V)>, k: K): (i: int)
    ensures -1 <= i < |pairs|
    ensures i == -1 <==> forall j | 0 <= j < |pairs| :: pairs[j].0 != k
    ensures i != -1 ==> IsLastFor(pairs, k, i)
    decreases |pairs|
  {
    if pairs == [] then -1
    else if pairs[|pairs| - 1].0 == k then |pairs| - 1
    else LastIndexOf(pairs[..|pairs| - 1], k)
  }

  /** A key is in the assigned map exactly when some pair has it, and maps to the last such pair's value. */
  lemma {:induction false} AssignLastWins<K, V>(pairs: seq<(K, V)>, k: K)
    ensures k in Assign(pairs) <==> LastIndexOf(pairs, k) != -1
    ensures k in Assign(pairs) ==> Assign(pairs)[k] == pairs[LastIndexOf(pairs, k)].1
    decreases |pairs|
  {
    if pairs != [] {
      AssignLastWins(pairs[..|pairs| - 1], k);
    }
  }
}
