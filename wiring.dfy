/**
 * The parent/child wiring step both importers run for each (parent, child) pair they find:
 * `nodes[child].parent = &nodes[parent]; nodes[parent].children.push_back(&nodes[child])`,
 * with node references modelled as registry keys.
 */
module Wiring {
  import opened Wrappers
  import opened SceneGraph

  /** One wiring step; the child's parent is written first, then the parent's list grows. */
  function Link<K, P>(nodes: Registry<K, P>, parent: K, child: K): (r: Registry<K, P>)
    requires parent in nodes && child in nodes
    ensures r.Keys == nodes.Keys
  {
    var n1 := nodes[child := nodes[child].(parent := Some(parent))];
    n1[parent := n1[parent].(children := n1[parent].children + [child])]
  }

  /** Both ends of every pair are registry keys. */
  predicate PairsIn<K, P>(pairs: seq<(K, K)>, nodes: Registry<K, P>) {
    forall e | 0 <= e < |pairs| :: pairs[e].0 in nodes && pairs[e].1 in nodes
  }

  /** The registry after wiring every pair in order. */
  function LinkPairs<K, P>(nodes: Registry<K, P>, pairs: seq<(K, K)>): (r: Registry<K, P>)
    requires PairsIn(pairs, nodes)
    ensures r.Keys == nodes.Keys
    decreases |pairs|
  {
    if pairs == [] then nodes
    else
      var e := pairs[|pairs| - 1];
      assert PairsIn(pairs[..|pairs| - 1], nodes) by {
        assert forall t | 0 <= t < |pairs| - 1 :: pairs[..|pairs| - 1][t] == pairs[t];
      }
      Link(LinkPairs(nodes, pairs[..|pairs| - 1]), e.0, e.1)
  }

  /** Wiring one more pair is one more Link. */
  lemma LinkPairsSnoc<K, P>(nodes: Registry<K, P>, pairs: seq<(K, K)>, e: (K, K))
    requires PairsIn(pairs, nodes) && e.0 in nodes && e.1 in nodes
    ensures PairsIn(pairs + [e], nodes)
    ensures LinkPairs(nodes, pairs + [e]) == Link(LinkPairs(nodes, pairs), e.0, e.1)
  {
    assert (pairs + [e])[..|pairs|] == pairs;
  }

  /** The children appended to `key`, in order: the child of every pair whose parent is key. */
  function ChildrenAdded<K(==)>(pairs: seq<(K, K)>, key: K): seq<K>
    decreases |pairs|
  {
    if pairs == [] then []
    else
      var e := pairs[|pairs| - 1];
      ChildrenAdded(pairs[..|pairs| - 1], key) + (if e.0 == key then [e.1] else [])
  }

  /** The parent of the last pair whose child is `key`, if there is one. */
  function LastParent<K(==)>(pairs: seq<(K, K)>, key: K): Option<K>
    decreases |pairs|
  {
    if pairs == [] then None
    else
      var e := pairs[|pairs| - 1];
      if e.1 == key then Some(e.0) else LastParent(pairs[..|pairs| - 1], key)
  }

  /** LastParent names the parent of a pair with that child, and no later pair has that child. */
  lemma {:induction false} LastParentMeaning<K>(pairs: seq<(K, K)>, key: K)
    ensures LastParent(pairs, key).None? <==> forall e | 0 <= e < |pairs| :: pairs[e].1 != key
    ensures LastParent(pairs, key).Some? ==> exists e | 0 <= e < |pairs| ::
      pairs[e] == (LastParent(pairs, key).value, key) && forall t | e < t < |pairs| :: pairs[t].1 != key
    decreases |pairs|
  {
    if pairs != [] {
      var init := pairs[..|pairs| - 1];
      LastParentMeaning(init, key);
      assert forall t | 0 <= t < |init| :: init[t] == pairs[t];
      if pairs[|pairs| - 1].1 == key {
        assert pairs[|pairs| - 1] == (LastParent(pairs, key).value, key);
      }
    }
  }

  lemma {:induction false} ChildrenAddedAppend<K>(a: seq<(K, K)>, b: seq<(K, K)>, key: K)
    ensures ChildrenAdded(a + b, key) == ChildrenAdded(a, key) + ChildrenAdded(b, key)
    decreases |b|
  {
    if b == [] {
      assert a + b == a;
    } else {
      var init := b[..|b| - 1];
      assert (a + b)[..|a + b| - 1] == a + init;
      assert (a + b)[|a + b| - 1] == b[|b| - 1];
      ChildrenAddedAppend(a, init, key);
    }
  }

  /**
   * Wiring, node by node: a node's children gain, in order, the child of every pair naming it
   * as parent; its parent becomes that of the last pair naming it as child, or stays; its
   * payload and matrices do not change.
   */
  lemma {:induction false} LinkPairsEffect<K, P>(nodes: Registry<K, P>, pairs: seq<(K, K)>, key: K)
    requires PairsIn(pairs, nodes) && key in nodes
    ensures LinkPairs(nodes, pairs)[key].children == nodes[key].children + ChildrenAdded(pairs, key)
    ensures LinkPairs(nodes, pairs)[key].parent ==
      if LastParent(pairs, key).Some? then LastParent(pairs, key) else nodes[key].parent
    ensures LinkPairs(nodes, pairs)[key].payload == nodes[key].payload
    ensures LinkPairs(nodes, pairs)[key].local == nodes[key].local
    ensures LinkPairs(nodes, pairs)[key].world == nodes[key].world
    decreases |pairs|
  {
    if pairs != [] {
      var init := pairs[..|pairs| - 1];
      assert PairsIn(init, nodes) by { assert forall t | 0 <= t < |init| :: init[t] == pairs[t]; }
      LinkPairsEffect(nodes, init, key);
    }
  }
}
