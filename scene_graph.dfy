/**
 * Scene-graph transform propagation (MeshNode::reassign_transforms).
 *
 * The source links nodes by raw or shared pointers into a hash map of nodes. Here a node
 * refers to its parent and children by key, resolved through the registry, a map from key to
 * node. The key type K is a node name for the importers and an opaque id for the legacy
 * scene; P is whatever else a node carries (its name and mesh references).
 */
module SceneGraph {
  import opened Wrappers
  import opened LinAlg

  datatype Node<K, P> = Node(parent: Option<K>, children: seq<K>, payload: P, local: Mat4, world: Mat4)

  type Registry<K(==), P> = map<K, Node<K, P>>

  /** A node as the importers create it: no parent, no children (a root and a leaf at once). */
  function NewNode<K, P>(payload: P, local: Mat4): (n: Node<K, P>)
    ensures n.parent == None && n.children == [] && n.payload == payload && n.local == local
  {
    Node(None, [], payload, local, Identity())
  }

  /** Everything but the world transforms agrees: same keys, links, payloads and locals. */
  ghost predicate SameShape<K, P>(a: Registry<K, P>, b: Registry<K, P>) {
    && a.Keys == b.Keys
    && forall x | x in a ::
         a[x].parent == b[x].parent && a[x].children == b[x].children &&
         a[x].payload == b[x].payload && a[x].local == b[x].local
  }

  // ---------------------------------------------------------------------------
  // The walk

  /**
   * reassign_transforms called on node k with parent_matrix pm: the node's world becomes
   * pm * local, then every child, in list order, is walked with that world. A missing key is
   * skipped. The source recurses without bound; `fuel` caps the depth (a cyclic child list is
   * the only way to exhaust a fuel of |nodes|).
   */
  function Reassign<K, P>(mul: (Mat4, Mat4) -> Mat4, nodes: Registry<K, P>, k: K, pm: Mat4, fuel: nat): (r: Registry<K, P>)
    ensures r.Keys == nodes.Keys
    decreases fuel, 0
  {
    if fuel == 0 || k !in nodes then nodes
    else
      var n := nodes[k];
      var w := mul(pm, n.local);
      ReassignAll(mul, nodes[k := n.(world := w)], n.children, w, fuel - 1)
  }

  /** Walks each key of `cs`, in order, with the same parent matrix. */
  function ReassignAll<K, P>(mul: (Mat4, Mat4) -> Mat4, nodes: Registry<K, P>, cs: seq<K>, pm: Mat4, fuel: nat): (r: Registry<K, P>)
    ensures r.Keys == nodes.Keys
    decreases fuel, 1, |cs|
  {
    if cs == [] then nodes else ReassignAll(mul, Reassign(mul, nodes, cs[0], pm, fuel), cs[1..], pm, fuel)
  }

  lemma {:induction false} ReassignAllAppend<K, P>(mul: (Mat4, Mat4) -> Mat4, nodes: Registry<K, P>, cs: seq<K>, c: K, pm: Mat4, fuel: nat)
    ensures ReassignAll(mul, nodes, cs + [c], pm, fuel) == Reassign(mul, ReassignAll(mul, nodes, cs, pm, fuel), c, pm, fuel)
    decreases |cs|
  {
    if cs == [] {
      assert [c][1..] == [];
    } else {
      assert (cs + [c])[1..] == cs[1..] + [c];
      ReassignAllAppend(mul, Reassign(mul, nodes, cs[0], pm, fuel), cs[1..], c, pm, fuel);
    }
  }

  /** A walk changes world transforms only: keys, links, payloads and locals stay. */
  lemma {:induction false} ReassignShape<K, P>(mul: (Mat4, Mat4) -> Mat4, nodes: Registry<K, P>, k: K, pm: Mat4, fuel: nat)
    ensures SameShape(nodes, Reassign(mul, nodes, k, pm, fuel))
    decreases fuel, 0
  {
    if fuel > 0 && k in nodes {
      var n := nodes[k];
      var w := mul(pm, n.local);
      ReassignAllShape(mul, nodes[k := n.(world := w)], n.children, w, fuel - 1);
    }
  }

  lemma {:induction false} ReassignAllShape<K, P>(mul: (Mat4, Mat4) -> Mat4, nodes: Registry<K, P>, cs: seq<K>, pm: Mat4, fuel: nat)
    ensures SameShape(nodes, ReassignAll(mul, nodes, cs, pm, fuel))
    decreases fuel, 1, |cs|
  {
    if cs != [] {
      ReassignShape(mul, nodes, cs[0], pm, fuel);
      ReassignAllShape(mul, Reassign(mul, nodes, cs[0], pm, fuel), cs[1..], pm, fuel);
    }
  }

  lemma ParentKept<K, P>(mul: (Mat4, Mat4) -> Mat4, nodes: Registry<K, P>, cs: seq<K>, pm: Mat4, fuel: nat, k: K)
    requires k in nodes
    ensures ReassignAll(mul, nodes, cs, pm, fuel)[k].parent == nodes[k].parent
  {
    ReassignAllShape(mul, nodes, cs, pm, fuel);
  }

  lemma ReassignAllStep<K, P>(mul: (Mat4, Mat4) -> Mat4, nodes: Registry<K, P>, cs: seq<K>, i: nat, pm: Mat4, fuel: nat)
    requires i < |cs|
    ensures ReassignAll(mul, nodes, cs[i..], pm, fuel) == ReassignAll(mul, Reassign(mul, nodes, cs[i], pm, fuel), cs[i + 1..], pm, fuel)
  {
    assert cs[i..][1..] == cs[i + 1..];
  }

  /**
   * MeshNode::reassign_transforms as a method: overwrite the node's world, then loop over its
   * children recursing with the new world.
   */
  method ReassignTransforms<K, P>(mul: (Mat4, Mat4) -> Mat4, nodes: Registry<K, P>, k: K, pm: Mat4, fuel: nat) returns (r: Registry<K, P>)
    ensures r == Reassign(mul, nodes, k, pm, fuel)
    decreases fuel
  {
    if fuel == 0 || k !in nodes {
      return nodes;
    }
    var node := nodes[k];
    var w := mul(pm, node.local);
    r := nodes[k := node.(world := w)];
    var cs := node.children;
    assert cs[0..] == cs;
    ghost var goal := Reassign(mul, nodes, k, pm, fuel);
    var i := 0;
    while i < |cs|
      invariant 0 <= i <= |cs|
      invariant ReassignAll(mul, r, cs[i..], w, fuel - 1) == goal
    {
      ReassignAllStep(mul, r, cs, i, w, fuel - 1);
      r := ReassignTransforms(mul, r, cs[i], w, fuel - 1);
      i := i + 1;
    }
    assert cs[i..] == [];
  }

  // ---------------------------------------------------------------------------
  // What a walk can touch

  function Children<K, P>(nodes: Registry<K, P>): map<K, seq<K>> {
    map x | x in nodes :: nodes[x].children
  }

  lemma SameShapeChildren<K, P>(a: Registry<K, P>, b: Registry<K, P>)
    requires SameShape(a, b)
    ensures Children(a) == Children(b)
  {
  }

  /** The keys a walk from k with the given fuel visits. */
  function Reach<K>(ch: map<K, seq<K>>, k: K, fuel: nat): (s: set<K>)
    ensures s <= ch.Keys
    decreases fuel, 0
  {
    if fuel == 0 || k !in ch then {} else {k} + ReachAll(ch, ch[k], fuel - 1)
  }

  function ReachAll<K>(ch: map<K, seq<K>>, cs: seq<K>, fuel: nat): (s: set<K>)
    ensures s <= ch.Keys
    decreases fuel, 1, |cs|
  {
    if cs == [] then {} else Reach(ch, cs[0], fuel) + ReachAll(ch, cs[1..], fuel)
  }

  lemma {:induction false} ReachAllMember<K>(ch: map<K, seq<K>>, cs: seq<K>, fuel: nat, x: K)
    ensures x in ReachAll(ch, cs, fuel) <==> exists i | 0 <= i < |cs| :: x in Reach(ch, cs[i], fuel)
    decreases |cs|
  {
    if cs != [] {
      ReachAllMember(ch, cs[1..], fuel, x);
      if x in ReachAll(ch, cs[1..], fuel) {
        var i :| 0 <= i < |cs[1..]| && x in Reach(ch, cs[1..][i], fuel);
        assert x in Reach(ch, cs[i + 1], fuel);
      }
      if exists i | 0 <= i < |cs| :: x in Reach(ch, cs[i], fuel) {
        var i :| 0 <= i < |cs| && x in Reach(ch, cs[i], fuel);
        if i > 0 { assert cs[1..][i - 1] == cs[i]; }
      }
    }
  }

  /** A walk leaves every node it does not reach exactly as it was. */
  lemma {:induction false} ReassignFrame<K, P>(mul: (Mat4, Mat4) -> Mat4, nodes: Registry<K, P>, k: K, pm: Mat4, fuel: nat)
    ensures forall x | x in nodes && x !in Reach(Children(nodes), k, fuel) :: Reassign(mul, nodes, k, pm, fuel)[x] == nodes[x]
    decreases fuel, 0
  {
    if fuel > 0 && k in nodes {
      var n := nodes[k];
      var w := mul(pm, n.local);
      var n1 := nodes[k := n.(world := w)];
      SameShapeChildren(nodes, n1);
      ReassignAllFrame(mul, n1, n.children, w, fuel - 1);
    }
  }

  lemma {:induction false} ReassignAllFrame<K, P>(mul: (Mat4, Mat4) -> Mat4, nodes: Registry<K, P>, cs: seq<K>, pm: Mat4, fuel: nat)
    ensures forall x | x in nodes && x !in ReachAll(Children(nodes), cs, fuel) :: ReassignAll(mul, nodes, cs, pm, fuel)[x] == nodes[x]
    decreases fuel, 1, |cs|
  {
    if cs != [] {
      var r1 := Reassign(mul, nodes, cs[0], pm, fuel);
      ReassignFrame(mul, nodes, cs[0], pm, fuel);
      ReassignShape(mul, nodes, cs[0], pm, fuel);
      SameShapeChildren(nodes, r1);
      ReassignAllFrame(mul, r1, cs[1..], pm, fuel);
    }
  }

  // ---------------------------------------------------------------------------
  // Forests and the world each node should end with

  /**
   * The links form a forest, witnessed by a rank that grows from parent to child: a parent is
   * a registered node of smaller rank that lists the child; every listed child is registered
   * and names that node as its parent.
   */
  predicate Forest<K, P>(nodes: Registry<K, P>, rank: map<K, nat>) {
    && nodes.Keys <= rank.Keys
    && (forall x | x in nodes && nodes[x].parent.Some? ::
          nodes[x].parent.value in nodes && nodes[x].parent.value in rank &&
          rank[nodes[x].parent.value] < rank[x] && x in nodes[nodes[x].parent.value].children)
    && (forall x, c | x in nodes && c in nodes[x].children :: c in nodes && nodes[c].parent == Some(x))
  }

  /** The world a node should hold: its parent's (or m, for a root) times its local. */
  function GlobalWorld<K, P>(mul: (Mat4, Mat4) -> Mat4, nodes: Registry<K, P>, rank: map<K, nat>, m: Mat4, x: K): Mat4
    requires Forest(nodes, rank) && x in nodes
    decreases rank[x]
  {
    match nodes[x].parent
    case None => mul(m, nodes[x].local)
    case Some(p) => mul(GlobalWorld(mul, nodes, rank, m, p), nodes[x].local)
  }

  /** The parent matrix the walk must be handed at x for x to end with its global world. */
  function ParentWorld<K, P>(mul: (Mat4, Mat4) -> Mat4, nodes: Registry<K, P>, rank: map<K, nat>, m: Mat4, x: K): Mat4
    requires Forest(nodes, rank) && x in nodes
  {
    match nodes[x].parent
    case None => m
    case Some(p) => GlobalWorld(mul, nodes, rank, m, p)
  }

  /** Every node of b is that of a, or that of a with its world set to the global world. */
  ghost predicate WritesGlobal<K, P>(mul: (Mat4, Mat4) -> Mat4, base: Registry<K, P>, rank: map<K, nat>, m: Mat4, a: Registry<K, P>, b: Registry<K, P>)
    requires Forest(base, rank)
  {
    && a.Keys == b.Keys && a.Keys == base.Keys
    && forall x | x in a :: b[x] == a[x] || b[x] == a[x].(world := GlobalWorld(mul, base, rank, m, x))
  }

  lemma WritesGlobalTrans<K, P>(mul: (Mat4, Mat4) -> Mat4, base: Registry<K, P>, rank: map<K, nat>, m: Mat4,
                                a: Registry<K, P>, b: Registry<K, P>, c: Registry<K, P>)
    requires Forest(base, rank)
    requires WritesGlobal(mul, base, rank, m, a, b) && WritesGlobal(mul, base, rank, m, b, c)
    ensures WritesGlobal(mul, base, rank, m, a, c)
  {
    forall x | x in a ensures c[x] == a[x] || c[x] == a[x].(world := GlobalWorld(mul, base, rank, m, x)) {
      assert b[x] == a[x] || b[x] == a[x].(world := GlobalWorld(mul, base, rank, m, x));
    }
  }

  lemma {:induction false} ReassignSound<K, P>(mul: (Mat4, Mat4) -> Mat4, base: Registry<K, P>, rank: map<K, nat>, m: Mat4,
                                               nodes: Registry<K, P>, k: K, pm: Mat4, fuel: nat)
    requires Forest(base, rank) && SameShape(base, nodes)
    requires k in base ==> pm == ParentWorld(mul, base, rank, m, k)
    ensures WritesGlobal(mul, base, rank, m, nodes, Reassign(mul, nodes, k, pm, fuel))
    ensures forall x | x in Reach(Children(base), k, fuel) ::
      Reassign(mul, nodes, k, pm, fuel)[x].world == GlobalWorld(mul, base, rank, m, x)
    decreases fuel, 0
  {
    if fuel > 0 && k in nodes {
      var n := nodes[k];
      var w := mul(pm, n.local);
      assert w == GlobalWorld(mul, base, rank, m, k);
      var n1 := nodes[k := n.(world := w)];
      assert WritesGlobal(mul, base, rank, m, nodes, n1);
      assert n.children == base[k].children;
      ReassignAllSound(mul, base, rank, m, n1, n.children, w, fuel - 1);
      var r := ReassignAll(mul, n1, n.children, w, fuel - 1);
      WritesGlobalTrans(mul, base, rank, m, nodes, n1, r);
      assert Children(base)[k] == n.children;
      forall x | x in Reach(Children(base), k, fuel) ensures r[x].world == GlobalWorld(mul, base, rank, m, x) {
        if x != k {
          assert x in ReachAll(Children(base), n.children, fuel - 1);
        }
      }
    }
  }

  lemma {:induction false} ReassignAllSound<K, P>(mul: (Mat4, Mat4) -> Mat4, base: Registry<K, P>, rank: map<K, nat>, m: Mat4,
                                                  nodes: Registry<K, P>, cs: seq<K>, pm: Mat4, fuel: nat)
    requires Forest(base, rank) && SameShape(base, nodes)
    requires forall i | 0 <= i < |cs| && cs[i] in base :: pm == ParentWorld(mul, base, rank, m, cs[i])
    ensures WritesGlobal(mul, base, rank, m, nodes, ReassignAll(mul, nodes, cs, pm, fuel))
    ensures forall x | x in ReachAll(Children(base), cs, fuel) ::
      ReassignAll(mul, nodes, cs, pm, fuel)[x].world == GlobalWorld(mul, base, rank, m, x)
    decreases fuel, 1, |cs|
  {
    if cs != [] {
      var r1 := Reassign(mul, nodes, cs[0], pm, fuel);
      ReassignSound(mul, base, rank, m, nodes, cs[0], pm, fuel);
      ReassignShape(mul, nodes, cs[0], pm, fuel);
      assert forall i | 0 <= i < |cs[1..]| :: cs[1..][i] == cs[i + 1];
      ReassignAllSound(mul, base, rank, m, r1, cs[1..], pm, fuel);
      WritesGlobalTrans(mul, base, rank, m, nodes, r1, ReassignAll(mul, r1, cs[1..], pm, fuel));
    }
  }

  // ---------------------------------------------------------------------------
  // Coverage: walking every root with enough fuel reaches every node

  /** Closed: every listed child has an entry of its own. */
  ghost predicate ChildrenClosed<K>(ch: map<K, seq<K>>) {
    forall p, x | p in ch && x in ch[p] :: x in ch
  }

  /** If a walk with fuel g reaches p, one with fuel g + 1 reaches p's children. */
  lemma {:induction false} ChildStep<K>(ch: map<K, seq<K>>, r: K, g: nat, p: K, x: K)
    requires ChildrenClosed(ch)
    requires p in Reach(ch, r, g) && x in ch[p]
    ensures x in Reach(ch, r, g + 1)
    decreases g
  {
    assert r in ch && g > 0;
    assert Reach(ch, r, g + 1) == {r} + ReachAll(ch, ch[r], g);
    ReachAllMember(ch, ch[r], g, x);
    if p == r {
      var i :| 0 <= i < |ch[r]| && ch[r][i] == x;
      assert x in ch;
      assert x in Reach(ch, ch[r][i], g);
    } else {
      assert p in ReachAll(ch, ch[r], g - 1);
      ReachAllMember(ch, ch[r], g - 1, p);
      var i :| 0 <= i < |ch[r]| && p in Reach(ch, ch[r][i], g - 1);
      ChildStep(ch, ch[r][i], g - 1, p, x);
    }
  }

  /** The root above x. */
  function RootOf<K, P>(nodes: Registry<K, P>, rank: map<K, nat>, x: K): (r: K)
    requires Forest(nodes, rank) && x in nodes
    ensures r in nodes && nodes[r].parent == None
    decreases rank[x]
  {
    match nodes[x].parent
    case None => x
    case Some(p) => RootOf(nodes, rank, p)
  }

  lemma {:induction false} ReachFromRoot<K, P>(nodes: Registry<K, P>, rank: map<K, nat>, x: K, fuel: nat)
    requires Forest(nodes, rank) && x in nodes && rank[x] < fuel
    ensures x in Reach(Children(nodes), RootOf(nodes, rank, x), fuel)
    decreases rank[x]
  {
    var ch := Children(nodes);
    match nodes[x].parent
    case None =>
    case Some(p) =>
      ReachFromRoot(nodes, rank, p, fuel - 1);
      assert ChildrenClosed(ch);
      ChildStep(ch, RootOf(nodes, rank, p), fuel - 1, p, x);
  }

  /** Exactly the parentless keys of the registry, each once. */
  predicate IsRootList<K, P>(nodes: Registry<K, P>, roots: seq<K>) {
    && (forall i | 0 <= i < |roots| :: roots[i] in nodes && nodes[roots[i]].parent == None)
    && (forall x | x in nodes && nodes[x].parent == None :: x in roots)
    && (forall i, j | 0 <= i < j < |roots| :: roots[i] != roots[j])
  }

  /**
   * Walking every root from m, with fuel above every rank, leaves each node holding its
   * global world; nothing but world transforms changes.
   */
  lemma PropagateSound<K, P>(mul: (Mat4, Mat4) -> Mat4, nodes: Registry<K, P>, rank: map<K, nat>, roots: seq<K>, m: Mat4, fuel: nat)
    requires Forest(nodes, rank) && IsRootList(nodes, roots)
    requires forall x | x in nodes :: rank[x] < fuel
    ensures SameShape(nodes, ReassignAll(mul, nodes, roots, m, fuel))
    ensures forall x | x in nodes :: ReassignAll(mul, nodes, roots, m, fuel)[x].world == GlobalWorld(mul, nodes, rank, m, x)
  {
    ReassignAllSound(mul, nodes, rank, m, nodes, roots, m, fuel);
    ReassignAllShape(mul, nodes, roots, m, fuel);
    forall x | x in nodes ensures x in ReachAll(Children(nodes), roots, fuel) {
      ReachFromRoot(nodes, rank, x, fuel);
      var r := RootOf(nodes, rank, x);
      var i :| 0 <= i < |roots| && roots[i] == r;
      ReachAllMember(Children(nodes), roots, fuel, x);
    }
  }

  /**
   * The source's promise, node by node: after propagation a root holds m * local, and any
   * other node holds its parent's new world * local.
   */
  lemma PropagateWorlds<K, P>(mul: (Mat4, Mat4) -> Mat4, nodes: Registry<K, P>, rank: map<K, nat>, roots: seq<K>, m: Mat4, fuel: nat)
    requires Forest(nodes, rank) && IsRootList(nodes, roots)
    requires forall x | x in nodes :: rank[x] < fuel
    ensures forall x | x in nodes && nodes[x].parent == None ::
      ReassignAll(mul, nodes, roots, m, fuel)[x].world == mul(m, nodes[x].local)
    ensures forall x | x in nodes && nodes[x].parent.Some? ::
      ReassignAll(mul, nodes, roots, m, fuel)[x].world ==
      mul(ReassignAll(mul, nodes, roots, m, fuel)[nodes[x].parent.value].world, nodes[x].local)
  {
    PropagateSound(mul, nodes, rank, roots, m, fuel);
  }

  // ---------------------------------------------------------------------------
  // The fuel |nodes| suffices on every forest

  /** The number of ancestors of x. */
  function Depth<K, P>(nodes: Registry<K, P>, rank: map<K, nat>, x: K): nat
    requires Forest(nodes, rank) && x in nodes
    decreases rank[x]
  {
    match nodes[x].parent
    case None => 0
    case Some(p) => Depth(nodes, rank, p) + 1
  }

  /** x and all its ancestors. */
  function Ancestors<K, P>(nodes: Registry<K, P>, rank: map<K, nat>, x: K): (s: set<K>)
    requires Forest(nodes, rank) && x in nodes
    ensures x in s && s <= nodes.Keys
    decreases rank[x]
  {
    match nodes[x].parent
    case None => {x}
    case Some(p) => Ancestors(nodes, rank, p) + {x}
  }

  /** The ancestors of x are distinct nodes of rank at most x's, one more than its depth. */
  lemma {:induction false} AncestorsCount<K, P>(nodes: Registry<K, P>, rank: map<K, nat>, x: K)
    requires Forest(nodes, rank) && x in nodes
    ensures forall y | y in Ancestors(nodes, rank, x) :: rank[y] <= rank[x]
    ensures |Ancestors(nodes, rank, x)| == Depth(nodes, rank, x) + 1
    decreases rank[x]
  {
    match nodes[x].parent
    case None =>
    case Some(p) =>
      AncestorsCount(nodes, rank, p);
      assert x !in Ancestors(nodes, rank, p);
  }

  lemma {:induction false} SubsetSize<K>(a: set<K>, b: set<K>)
    requires a <= b
    ensures |a| <= |b|
    decreases |a|
  {
    if a != {} {
      var y :| y in a;
      SubsetSize(a - {y}, b - {y});
    }
  }

  /** Each node's depth. */
  function Depths<K, P>(nodes: Registry<K, P>, rank: map<K, nat>): (d: map<K, nat>)
    requires Forest(nodes, rank)
    ensures d.Keys == nodes.Keys
  {
    map x | x in nodes :: Depth(nodes, rank, x)
  }

  /** Every forest is also ranked by depth, and every depth is below the number of nodes. */
  lemma DepthsRankForest<K, P>(nodes: Registry<K, P>, rank: map<K, nat>)
    requires Forest(nodes, rank)
    ensures Forest(nodes, Depths(nodes, rank))
    ensures forall x | x in nodes :: Depths(nodes, rank)[x] < |nodes|
  {
    var d := Depths(nodes, rank);
    forall x | x in nodes && nodes[x].parent.Some? ensures d[nodes[x].parent.value] < d[x] {
      assert Depth(nodes, rank, x) == Depth(nodes, rank, nodes[x].parent.value) + 1;
    }
    forall x | x in nodes ensures d[x] < |nodes| {
      AncestorsCount(nodes, rank, x);
      SubsetSize(Ancestors(nodes, rank, x), nodes.Keys);
      assert |nodes.Keys| == |nodes|;
    }
  }

  /** The global world does not depend on which rank witnesses the forest. */
  lemma {:induction false} GlobalWorldAnyRank<K, P>(mul: (Mat4, Mat4) -> Mat4, nodes: Registry<K, P>,
                                                    r1: map<K, nat>, r2: map<K, nat>, m: Mat4, x: K)
    requires Forest(nodes, r1) && Forest(nodes, r2) && x in nodes
    ensures GlobalWorld(mul, nodes, r1, m, x) == GlobalWorld(mul, nodes, r2, m, x)
    decreases r1[x]
  {
    match nodes[x].parent
    case None =>
    case Some(p) => GlobalWorldAnyRank(mul, nodes, r1, r2, m, p);
  }

  /**
   * On any forest, walking every root with the fuel the importers and set_transform use,
   * the registry size, leaves each node holding its global world and changes nothing else.
   */
  lemma PropagateForest<K, P>(mul: (Mat4, Mat4) -> Mat4, nodes: Registry<K, P>, rank: map<K, nat>, roots: seq<K>, m: Mat4)
    requires Forest(nodes, rank) && IsRootList(nodes, roots)
    ensures SameShape(nodes, ReassignAll(mul, nodes, roots, m, |nodes|))
    ensures forall x | x in nodes :: ReassignAll(mul, nodes, roots, m, |nodes|)[x].world == GlobalWorld(mul, nodes, rank, m, x)
  {
    var d := Depths(nodes, rank);
    DepthsRankForest(nodes, rank);
    PropagateSound(mul, nodes, d, roots, m, |nodes|);
    forall x | x in nodes ensures ReassignAll(mul, nodes, roots, m, |nodes|)[x].world == GlobalWorld(mul, nodes, rank, m, x) {
      GlobalWorldAnyRank(mul, nodes, d, rank, m, x);
    }
  }

  /** The locals from the root down to x, in that order. */
  function PathLocals<K, P>(nodes: Registry<K, P>, rank: map<K, nat>, x: K): (ls: seq<Mat4>)
    requires Forest(nodes, rank) && x in nodes
    ensures |ls| > 0 && ls[|ls| - 1] == nodes[x].local
    decreases rank[x]
  {
    match nodes[x].parent
    case None => [nodes[x].local]
    case Some(p) => PathLocals(nodes, rank, p) + [nodes[x].local]
  }

  /** The left-to-right product of a non-empty list of matrices. */
  function Product(mul: (Mat4, Mat4) -> Mat4, ls: seq<Mat4>): Mat4
    requires |ls| > 0
  {
    if |ls| == 1 then ls[0] else mul(Product(mul, ls[..|ls| - 1]), ls[|ls| - 1])
  }

  ghost predicate Associative(mul: (Mat4, Mat4) -> Mat4) {
    forall a, b, c :: mul(mul(a, b), c) == mul(a, mul(b, c))
  }

  /**
   * With an associative product, a node's global world is m times the product of the locals
   * along its root-to-node path.
   */
  lemma {:induction false} GlobalWorldIsPathProduct<K, P>(mul: (Mat4, Mat4) -> Mat4, nodes: Registry<K, P>,
                                                          rank: map<K, nat>, m: Mat4, x: K)
    requires Associative(mul) && Forest(nodes, rank) && x in nodes
    ensures GlobalWorld(mul, nodes, rank, m, x) == mul(m, Product(mul, PathLocals(nodes, rank, x)))
    decreases rank[x]
  {
    match nodes[x].parent
    case None =>
    case Some(p) =>
      GlobalWorldIsPathProduct(mul, nodes, rank, m, p);
      var ls := PathLocals(nodes, rank, x);
      assert ls[..|ls| - 1] == PathLocals(nodes, rank, p);
  }

  // ---------------------------------------------------------------------------
  // The importers' root pass

  /**
   * The last loop of each importer's init: visit the registry in hash order; each node without
   * a parent is walked from m and then appended to the root list.
   */
  method PropagateRoots<K, P>(mul: (Mat4, Mat4) -> Mat4, nodes: Registry<K, P>, m: Mat4) returns (r: Registry<K, P>, roots: seq<K>)
    ensures IsRootList(nodes, roots)
    ensures r == ReassignAll(mul, nodes, roots, m, |nodes|)
  {
    r := nodes;
    roots := [];
    var rest := nodes.Keys;
    while rest != {}
      invariant rest <= nodes.Keys
      invariant forall i | 0 <= i < |roots| :: roots[i] in nodes && nodes[roots[i]].parent == None && roots[i] !in rest
      invariant forall x | x in nodes && x !in rest && nodes[x].parent == None :: x in roots
      invariant forall i, j | 0 <= i < j < |roots| :: roots[i] != roots[j]
      invariant r == ReassignAll(mul, nodes, roots, m, |nodes|)
      decreases |rest|
    {
      var k :| k in rest;
      ParentKept(mul, nodes, roots, m, |nodes|, k);
      if r[k].parent == None {
        r := ReassignTransforms(mul, r, k, m, |nodes|);
        ReassignAllAppend(mul, nodes, roots, k, m, |nodes|);
        roots := roots + [k];
      }
      rest := rest - {k};
    }
  }
}
