/**
 * `registry[key] = value` for a run of key/value pairs in order, the pattern both importers
 * use to fill their mesh and node registries.
 */
module KeyedStore {
  /** The registry after storing vals[i] under keys[i] for i = 0, 1, ... in order. */
  function Stored<K(==), V>(m: map<K, V>, keys: seq<K>, vals: seq<V>): map<K, V>
    requires |keys| == |vals|
    decreases |keys|
  {
    if keys == [] then m
    else Stored(m, keys[..|keys| - 1], vals[..|vals| - 1])[keys[|keys| - 1] := vals[|vals| - 1]]
  }

  /** Storing one more pair is one more map update. */
  lemma StoredSnoc<K, V>(m: map<K, V>, keys: seq<K>, vals: seq<V>, i: nat)
    requires |keys| == |vals| && i < |keys|
    ensures Stored(m, keys[..i + 1], vals[..i + 1]) == Stored(m, keys[..i], vals[..i])[keys[i] := vals[i]]
  {
    assert keys[..i + 1][..i] == keys[..i];
    assert vals[..i + 1][..i] == vals[..i];
  }

  /** The keys afterwards: the old ones and every stored key. */
  lemma {:induction false} StoredKeys<K, V>(m: map<K, V>, keys: seq<K>, vals: seq<V>, k: K)
    requires |keys| == |vals|
    ensures k in Stored(m, keys, vals) <==> k in m || k in keys
    decreases |keys|
  {
    if keys != [] {
      assert keys == keys[..|keys| - 1] + [keys[|keys| - 1]];
      StoredKeys(m, keys[..|keys| - 1], vals[..|vals| - 1], k);
    }
  }

  /** Of several pairs with one key, the last one's value is the one stored. */
  lemma {:induction false} StoredLastWins<K, V>(m: map<K, V>, keys: seq<K>, vals: seq<V>, i: nat)
    requires |keys| == |vals| && i < |keys|
    requires forall j | i < j < |keys| :: keys[j] != keys[i]
    ensures keys[i] in Stored(m, keys, vals) && Stored(m, keys, vals)[keys[i]] == vals[i]
    decreases |keys|
  {
    if i < |keys| - 1 {
      var ks, vs := keys[..|keys| - 1], vals[..|vals| - 1];
      assert ks[i] == keys[i] && vs[i] == vals[i];
      assert forall j | i < j < |ks| :: ks[j] == keys[j];
      StoredLastWins(m, ks, vs, i);
    }
  }

  /** A key no pair carries keeps its old value. */
  lemma {:induction false} StoredUntouched<K, V>(m: map<K, V>, keys: seq<K>, vals: seq<V>, k: K)
    requires |keys| == |vals| && k in m && k !in keys
    ensures k in Stored(m, keys, vals) && Stored(m, keys, vals)[k] == m[k]
    decreases |keys|
  {
    if keys != [] {
      assert keys == keys[..|keys| - 1] + [keys[|keys| - 1]];
      StoredUntouched(m, keys[..|keys| - 1], vals[..|vals| - 1], k);
    }
  }

  /** An iteration order of a hash map: each of its keys exactly once, in some order. */
  predicate Enumerates<K(==)>(order: seq<K>, keys: set<K>) {
    && (forall i | 0 <= i < |order| :: order[i] in keys)
    && (forall x | x in keys :: x in order)
    && (forall i, j | 0 <= i < j < |order| :: order[i] != order[j])
  }

  /** An iteration order is as long as the map has keys. */
  lemma {:induction false} EnumeratesSize<K>(order: seq<K>, keys: set<K>)
    requires Enumerates(order, keys)
    ensures |order| == |keys|
    decreases |order|
  {
    if order != [] {
      var init, last := order[..|order| - 1], order[|order| - 1];
      assert forall i | 0 <= i < |init| :: init[i] != last;
      assert forall x | x in keys - {last} :: x in init by {
        forall x | x in keys - {last} ensures x in init {
          var i :| 0 <= i < |order| && order[i] == x;
          assert i < |init|;
        }
      }
      EnumeratesSize(init, keys - {last});
    } else {
      assert forall x :: x !in keys;
      assert keys == {};
    }
  }

  /**
   * Partway through an iteration over a map with keys `keys`: `order` lists the keys visited
   * so far, each once, and `rest` holds those still to come.
   */
  predicate Visiting<K(==)>(order: seq<K>, rest: set<K>, keys: set<K>) {
    && rest <= keys
    && (forall i | 0 <= i < |order| :: order[i] in keys && order[i] !in rest)
    && (forall x | x in keys && x !in rest :: x in order)
    && (forall i, j | 0 <= i < j < |order| :: order[i] != order[j])
  }

  lemma VisitingStart<K>(keys: set<K>)
    ensures Visiting([], keys, keys)
  {
  }

  /** Visiting one more key. */
  lemma VisitingStep<K>(order: seq<K>, rest: set<K>, keys: set<K>, k: K)
    requires Visiting(order, rest, keys) && k in rest
    ensures Visiting(order + [k], rest - {k}, keys)
    ensures forall x | x in order + [k] :: x in keys
  {
  }

  /** Once nothing is left, the visiting order is an iteration order of the map. */
  lemma VisitingDone<K>(order: seq<K>, keys: set<K>)
    requires Visiting(order, {}, keys)
    ensures Enumerates(order, keys)
  {
  }
}
