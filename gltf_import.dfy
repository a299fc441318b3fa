/**
 * FastGltfImport::init and its helpers, over an already-decoded glTF asset.
 *
 * Nodes are stored in a registry keyed by node name (SceneGraph.Registry with string keys);
 * a node's mesh references and its parent and children are names resolved through the
 * mesh and node registries.
 */
module FastGltfImporter {
  import opened Wrappers
  import opened LinAlg
  import opened Types
  import opened GltfLoad
  import opened SceneGraph
  import opened KeyedStore
  import opened Wiring

  datatype GltfMesh = GltfMesh(name: string, primitives: seq<Primitive>)

  /** A decoded node: its local matrix is taken as given (see README). */
  datatype GltfNode = GltfNode(name: string, mesh: Option<nat>, local: Mat4, children: seq<nat>)

  datatype GltfType = Invalid | GltfJson | GltfBinary

  datatype Asset = Asset(kind: GltfType, meshes: seq<GltfMesh>, nodes: seq<GltfNode>)

  /** The indices the importer follows without checking address existing entries. */
  predicate ValidAsset(a: Asset) {
    && MeshesFit(a.meshes)
    && (forall i | 0 <= i < |a.nodes| :: a.nodes[i].mesh.Some? ==> a.nodes[i].mesh.value < |a.meshes|)
    && (forall i | 0 <= i < |a.nodes| :: forall k | 0 <= k < |a.nodes[i].children| :: a.nodes[i].children[k] < |a.nodes|)
  }

  // ---------------------------------------------------------------------------
  // Mesh merging

  predicate AllFit(prims: seq<Primitive>) {
    forall j | 0 <= j < |prims| :: Fits(prims[j])
  }

  /** The mesh the primitive loop builds: primitives merged in order, bounds from the last. */
  function MergedMesh(name: string, prims: seq<Primitive>): (m: Mesh)
    requires AllFit(prims)
    ensures m.name == name && m.triangles == [] && m.quads == []
    decreases |prims|
  {
    if prims == [] then EmptyMesh().(name := name)
    else
      var last := prims[|prims| - 1];
      AppendAttributes(MergedMesh(name, prims[..|prims| - 1]), last).(bounds := PrimitiveBounds(last))
  }

  function TotalVertices(prims: seq<Primitive>): nat
    decreases |prims|
  {
    if prims == [] then 0 else TotalVertices(prims[..|prims| - 1]) + |prims[|prims| - 1].positions|
  }

  /** Primitive j's indices are below its own vertex count. */
  predicate LocalIndicesValid(prims: seq<Primitive>) {
    forall j | 0 <= j < |prims| :: forall k | 0 <= k < |prims[j].indices| :: prims[j].indices[k] < |prims[j].positions|
  }

  /**
   * The merged arrays stay parallel and hold every primitive's vertices; the bounds are those
   * of the last primitive only.
   */
  lemma {:induction false} MergedMeshShape(name: string, prims: seq<Primitive>)
    requires AllFit(prims)
    ensures SameLengths(MergedMesh(name, prims))
    ensures |MergedMesh(name, prims).positions| == TotalVertices(prims)
    ensures prims != [] ==> MergedMesh(name, prims).bounds == PrimitiveBounds(prims[|prims| - 1])
    decreases |prims|
  {
    if prims != [] {
      var init := prims[..|prims| - 1];
      assert AllFit(init) by { assert forall j | 0 <= j < |init| :: init[j] == prims[j]; }
      MergedMeshShape(name, init);
      AppendAttributesKeepsLengths(MergedMesh(name, init), prims[|prims| - 1]);
    }
  }

  /** Merging one primitive whose indices address its own vertices keeps a mesh well formed. */
  lemma AppendKeepsWellFormed(m: Mesh, p: Primitive)
    requires WellFormed(m) && Fits(p) && |m.positions| + |p.positions| <= U32Modulus
    requires forall k | 0 <= k < |p.indices| :: p.indices[k] < |p.positions|
    ensures WellFormed(AppendAttributes(m, p))
  {
    var r := AppendAttributes(m, p);
    AppendAttributesKeepsLengths(m, p);
    var off := Offset(p.indices, |m.positions|);
    forall i | 0 <= i < |r.indices| ensures r.indices[i] < |r.positions| {
      if i >= |m.indices| {
        var k := i - |m.indices|;
        assert r.indices[i] == off[k];
      }
    }
  }

  /**
   * Offsetting by initial_vertex keeps indices in range: if each primitive's indices address
   * its own vertices and the vertex total fits in uint32_t, every merged index addresses a
   * merged vertex.
   */
  lemma {:induction false} MergedIndicesInRange(name: string, prims: seq<Primitive>)
    requires AllFit(prims) && LocalIndicesValid(prims) && TotalVertices(prims) <= U32Modulus
    ensures WellFormed(MergedMesh(name, prims))
    decreases |prims|
  {
    if prims != [] {
      var init := prims[..|prims| - 1];
      var last := prims[|prims| - 1];
      assert AllFit(init) && LocalIndicesValid(init) by {
        assert forall j | 0 <= j < |init| :: init[j] == prims[j];
      }
      MergedIndicesInRange(name, init);
      MergedMeshShape(name, init);
      AppendKeepsWellFormed(MergedMesh(name, init), last);
    }
  }

  lemma AllFitPrefix(prims: seq<Primitive>, j: nat)
    requires AllFit(prims) && j <= |prims|
    ensures AllFit(prims[..j])
  {
    assert forall t | 0 <= t < j :: prims[..j][t] == prims[t];
  }

  /** The mesh of a prefix one primitive longer: merge that primitive, take its bounds. */
  lemma MergedMeshSnoc(name: string, prims: seq<Primitive>, j: nat)
    requires AllFit(prims) && j < |prims|
    ensures AllFit(prims[..j]) && Fits(prims[j]) && AllFit(prims[..j + 1])
    ensures SameLengths(MergedMesh(name, prims[..j]))
    ensures MergedMesh(name, prims[..j + 1]) == AppendAttributes(MergedMesh(name, prims[..j]), prims[j]).(bounds := PrimitiveBounds(prims[j]))
  {
    AllFitPrefix(prims, j);
    AllFitPrefix(prims, j + 1);
    assert prims[..j + 1][..j] == prims[..j];
    MergedMeshShape(name, prims[..j]);
  }

  /** The mesh a glTF mesh merges into. */
  function MergedOf(gm: GltfMesh): Mesh
    requires AllFit(gm.primitives)
  {
    MergedMesh(gm.name, gm.primitives)
  }

  /** The mesh loop of init for one glTF mesh. */
  method MergeMesh(gm: GltfMesh) returns (m: Mesh)
    requires AllFit(gm.primitives)
    ensures m == MergedOf(gm) && m.name == gm.name
  {
    var prims := gm.primitives;
    m := EmptyMesh().(name := gm.name);
    var j := 0;
    while j < |prims|
      invariant 0 <= j <= |prims| && AllFit(prims[..j])
      invariant m == MergedMesh(gm.name, prims[..j])
    {
      MergedMeshSnoc(gm.name, prims, j);
      m := LoadPrimitive(m, prims[j]);
      j := j + 1;
    }
    assert prims[..j] == prims;
  }

  function MeshNames(gms: seq<GltfMesh>): (r: seq<string>)
    ensures |r| == |gms| && forall i | 0 <= i < |gms| :: r[i] == gms[i].name
  {
    seq(|gms|, i requires 0 <= i < |gms| => gms[i].name)
  }

  predicate MeshesFit(gms: seq<GltfMesh>) {
    forall i | 0 <= i < |gms| :: AllFit(gms[i].primitives)
  }

  /** The merged mesh of every glTF mesh, in order. */
  function MergedMeshes(gms: seq<GltfMesh>): (r: seq<Mesh>)
    requires MeshesFit(gms)
    ensures |r| == |gms| && forall i | 0 <= i < |gms| :: r[i] == MergedOf(gms[i])
  {
    seq(|gms|, i requires 0 <= i < |gms| => MergedOf(gms[i]))
  }

  /** The mesh registry after `meshes[new_mesh.name] = new_mesh` for each glTF mesh in order. */
  function StoredMeshes(meshes: map<string, Mesh>, gms: seq<GltfMesh>): map<string, Mesh>
    requires MeshesFit(gms)
  {
    Stored(meshes, MeshNames(gms), MergedMeshes(gms))
  }

  /**
   * Every glTF mesh name is a key afterwards; a mesh not followed by another of the same name
   * is what its name maps to (a later name overwrites); names no glTF mesh carries keep
   * their old mesh.
   */
  lemma StoredMeshesContents(meshes: map<string, Mesh>, gms: seq<GltfMesh>)
    requires MeshesFit(gms)
    ensures forall k :: k in StoredMeshes(meshes, gms) <==> k in meshes || k in MeshNames(gms)
    ensures forall i | 0 <= i < |gms| && (forall j | i < j < |gms| :: gms[j].name != gms[i].name) ::
      StoredMeshes(meshes, gms)[gms[i].name] == MergedOf(gms[i])
    ensures forall k | k in meshes && k !in MeshNames(gms) :: StoredMeshes(meshes, gms)[k] == meshes[k]
  {
    var names, vals := MeshNames(gms), MergedMeshes(gms);
    forall k ensures k in StoredMeshes(meshes, gms) <==> k in meshes || k in names {
      StoredKeys(meshes, names, vals, k);
    }
    forall i | 0 <= i < |gms| && (forall j | i < j < |gms| :: gms[j].name != gms[i].name)
      ensures StoredMeshes(meshes, gms)[gms[i].name] == MergedOf(gms[i])
    {
      StoredLastWins(meshes, names, vals, i);
    }
    forall k | k in meshes && k !in names ensures StoredMeshes(meshes, gms)[k] == meshes[k] {
      StoredUntouched(meshes, names, vals, k);
    }
  }

  lemma MeshesFitPrefix(gms: seq<GltfMesh>, i: nat)
    requires MeshesFit(gms) && i <= |gms|
    ensures MeshesFit(gms[..i])
  {
    assert forall t | 0 <= t < i :: gms[..i][t] == gms[t];
  }

  /** Storing one more glTF mesh is one more map update. */
  lemma StoredMeshesSnoc(meshes: map<string, Mesh>, gms: seq<GltfMesh>, i: nat)
    requires MeshesFit(gms) && i < |gms|
    ensures MeshesFit(gms[..i]) && MeshesFit(gms[..i + 1]) && AllFit(gms[i].primitives)
    ensures StoredMeshes(meshes, gms[..i + 1]) == StoredMeshes(meshes, gms[..i])[gms[i].name := MergedOf(gms[i])]
  {
    MeshesFitPrefix(gms, i);
    MeshesFitPrefix(gms, i + 1);
    var keys, vals := MeshNames(gms[..i + 1]), MergedMeshes(gms[..i + 1]);
    assert keys[..i] == MeshNames(gms[..i]);
    assert vals[..i] == MergedMeshes(gms[..i]);
    StoredSnoc(meshes, keys, vals, i);
    assert |keys| == i + 1 && |vals| == i + 1;
  }

  lemma MeshNamesSnoc(gms: seq<GltfMesh>, i: nat)
    requires i < |gms|
    ensures MeshNames(gms[..i + 1]) == MeshNames(gms[..i]) + [gms[i].name]
  {
  }

  /** The mesh loop of init: each glTF mesh merged and stored under its name, names collected. */
  method StoreMeshes(meshes: map<string, Mesh>, gms: seq<GltfMesh>) returns (r: map<string, Mesh>, names: seq<string>)
    requires MeshesFit(gms)
    ensures r == StoredMeshes(meshes, gms) && names == MeshNames(gms)
  {
    r := meshes;
    names := [];
    var i := 0;
    while i < |gms|
      invariant 0 <= i <= |gms| && MeshesFit(gms[..i])
      invariant r == StoredMeshes(meshes, gms[..i])
      invariant names == MeshNames(gms[..i])
    {
      StoredMeshesSnoc(meshes, gms, i);
      MeshNamesSnoc(gms, i);
      // new_mesh.name was set from the glTF mesh's name, and the merge leaves it alone
      var name := gms[i].name;
      var m := MergeMesh(gms[i]);
      names := names + [name];
      r := r[name := m];
      i := i + 1;
    }
    assert gms[..i] == gms;
  }

  // ---------------------------------------------------------------------------
  // assign_transforms

  /** The MeshNode assign_transforms builds for a decoded node. */
  function BuiltNode(n: GltfNode, meshNames: seq<string>): (r: Node<string, NodeInfo>)
    requires n.mesh.Some? ==> n.mesh.value < |meshNames|
    ensures r.parent == None && r.children == [] && r.local == n.local && r.payload.name == n.name
    ensures r.payload.meshes == if n.mesh.Some? then [meshNames[n.mesh.value]] else []
  {
    NewNode(NodeInfo(n.name, if n.mesh.Some? then [meshNames[n.mesh.value]] else []), n.local)
  }

  predicate MeshRefsValid(gnodes: seq<GltfNode>, meshNames: seq<string>) {
    forall i | 0 <= i < |gnodes| :: gnodes[i].mesh.Some? ==> gnodes[i].mesh.value < |meshNames|
  }

  function NodeNames(gnodes: seq<GltfNode>): (r: seq<string>)
    ensures |r| == |gnodes| && forall i | 0 <= i < |gnodes| :: r[i] == gnodes[i].name
  {
    seq(|gnodes|, i requires 0 <= i < |gnodes| => gnodes[i].name)
  }

  function BuiltNodes(gnodes: seq<GltfNode>, meshNames: seq<string>): (r: seq<Node<string, NodeInfo>>)
    requires MeshRefsValid(gnodes, meshNames)
    ensures |r| == |gnodes| && forall i | 0 <= i < |gnodes| :: r[i] == BuiltNode(gnodes[i], meshNames)
  {
    seq(|gnodes|, i requires 0 <= i < |gnodes| => BuiltNode(gnodes[i], meshNames))
  }

  /** The registry after `_nodes[new_node.name] = new_node` for each decoded node in order. */
  function Assigned(nodes: NodeRegistry, gnodes: seq<GltfNode>, meshNames: seq<string>): NodeRegistry
    requires MeshRefsValid(gnodes, meshNames)
  {
    Stored(nodes, NodeNames(gnodes), BuiltNodes(gnodes, meshNames))
  }

  /**
   * Every decoded node is registered under its name; of several with one name the last
   * wins; registered nodes whose name no decoded node carries are left as they were.
   */
  lemma AssignedContents(nodes: NodeRegistry, gnodes: seq<GltfNode>, meshNames: seq<string>)
    requires MeshRefsValid(gnodes, meshNames)
    ensures forall k :: k in Assigned(nodes, gnodes, meshNames) <==> k in nodes || k in NodeNames(gnodes)
    ensures forall i | 0 <= i < |gnodes| && (forall j | i < j < |gnodes| :: gnodes[j].name != gnodes[i].name) ::
      Assigned(nodes, gnodes, meshNames)[gnodes[i].name] == BuiltNode(gnodes[i], meshNames)
    ensures forall k | k in nodes && k !in NodeNames(gnodes) :: Assigned(nodes, gnodes, meshNames)[k] == nodes[k]
  {
    var names, vals := NodeNames(gnodes), BuiltNodes(gnodes, meshNames);
    forall k ensures k in Assigned(nodes, gnodes, meshNames) <==> k in nodes || k in names {
      StoredKeys(nodes, names, vals, k);
    }
    forall i | 0 <= i < |gnodes| && (forall j | i < j < |gnodes| :: gnodes[j].name != gnodes[i].name)
      ensures Assigned(nodes, gnodes, meshNames)[gnodes[i].name] == BuiltNode(gnodes[i], meshNames)
    {
      StoredLastWins(nodes, names, vals, i);
    }
    forall k | k in nodes && k !in names ensures Assigned(nodes, gnodes, meshNames)[k] == nodes[k] {
      StoredUntouched(nodes, names, vals, k);
    }
  }

  /** Every decoded node name names a registered node afterwards. */
  lemma AssignedHasNames(nodes: NodeRegistry, gnodes: seq<GltfNode>, meshNames: seq<string>)
    requires MeshRefsValid(gnodes, meshNames)
    ensures NamesIn(NodeNames(gnodes), Assigned(nodes, gnodes, meshNames))
  {
    var names := NodeNames(gnodes);
    forall k | 0 <= k < |names| ensures names[k] in Assigned(nodes, gnodes, meshNames) {
      StoredKeys(nodes, names, BuiltNodes(gnodes, meshNames), names[k]);
    }
  }

  /**
   * assign_transforms: one node per decoded node, written into the registry in declaration
   * order; the names are collected in the same order.
   */
  method AssignTransforms(nodes: NodeRegistry, meshNames: seq<string>, gnodes: seq<GltfNode>)
    returns (r: NodeRegistry, nodeNames: seq<string>)
    requires MeshRefsValid(gnodes, meshNames)
    ensures r == Assigned(nodes, gnodes, meshNames)
    ensures nodeNames == NodeNames(gnodes)
  {
    ghost var keys, vals := NodeNames(gnodes), BuiltNodes(gnodes, meshNames);
    r := nodes;
    nodeNames := [];
    var i := 0;
    while i < |gnodes|
      invariant 0 <= i <= |gnodes|
      invariant r == Stored(nodes, keys[..i], vals[..i]) && nodeNames == keys[..i]
    {
      var node := gnodes[i];
      var meshRefs: seq<string> := [];
      if node.mesh.Some? {
        meshRefs := [meshNames[node.mesh.value]];
      }
      var newNode := NewNode(NodeInfo(node.name, meshRefs), node.local);
      assert newNode == vals[i] && node.name == keys[i];
      assert keys[..i + 1] == keys[..i] + [keys[i]];
      StoredSnoc(nodes, keys, vals, i);
      nodeNames := nodeNames + [node.name];
      r := r[node.name := newNode];
      i := i + 1;
    }
    assert keys[..i] == keys && vals[..i] == vals;
  }

  // ---------------------------------------------------------------------------
  // Parent and children wiring

  /** The (parent, child) index pairs of one node's child list, in order. */
  function RowEdges(i: nat, cs: seq<nat>): (r: seq<(nat, nat)>)
    ensures |r| == |cs| && forall k | 0 <= k < |cs| :: r[k] == (i, cs[k])
  {
    seq(|cs|, k requires 0 <= k < |cs| => (i, cs[k]))
  }

  /** All (parent, child) pairs, node by node and child by child, as the wiring loop visits them. */
  function Edges(gnodes: seq<GltfNode>): seq<(nat, nat)>
    decreases |gnodes|
  {
    if gnodes == [] then [] else Edges(gnodes[..|gnodes| - 1]) + RowEdges(|gnodes| - 1, gnodes[|gnodes| - 1].children)
  }

  predicate EdgesWithin(edges: seq<(nat, nat)>, n: nat) {
    forall e | 0 <= e < |edges| :: edges[e].0 < n && edges[e].1 < n
  }

  /** Child indices below n make every edge endpoint a valid index into n names. */
  lemma {:induction false} EdgesValid(gnodes: seq<GltfNode>, n: nat)
    requires |gnodes| <= n
    requires forall i | 0 <= i < |gnodes| :: forall k | 0 <= k < |gnodes[i].children| :: gnodes[i].children[k] < n
    ensures EdgesWithin(Edges(gnodes), n)
    decreases |gnodes|
  {
    if gnodes != [] {
      var init := gnodes[..|gnodes| - 1];
      assert forall i | 0 <= i < |init| :: init[i] == gnodes[i];
      EdgesValid(init, n);
    }
  }

  /** Every name lies in the registry. */
  predicate NamesIn(names: seq<string>, nodes: NodeRegistry) {
    forall k | 0 <= k < |names| :: names[k] in nodes
  }

  /** The edges with each index replaced by its node name, parent first. */
  function NamedEdges(names: seq<string>, edges: seq<(nat, nat)>): (r: seq<(string, string)>)
    requires EdgesWithin(edges, |names|)
    ensures |r| == |edges| && forall e | 0 <= e < |edges| :: r[e] == (names[edges[e].0], names[edges[e].1])
  {
    seq(|edges|, e requires 0 <= e < |edges| => (names[edges[e].0], names[edges[e].1]))
  }

  /** Names of registered nodes make registered endpoints. */
  lemma NamedEdgesIn(nodes: NodeRegistry, names: seq<string>, edges: seq<(nat, nat)>)
    requires NamesIn(names, nodes) && EdgesWithin(edges, |names|)
    ensures PairsIn(NamedEdges(names, edges), nodes)
  {
  }

  /** Naming one more edge appends one more pair. */
  lemma NamedEdgesSnoc(names: seq<string>, edges: seq<(nat, nat)>, e: (nat, nat))
    requires EdgesWithin(edges, |names|) && e.0 < |names| && e.1 < |names|
    ensures EdgesWithin(edges + [e], |names|)
    ensures NamedEdges(names, edges + [e]) == NamedEdges(names, edges) + [(names[e.0], names[e.1])]
  {
    assert forall t | 0 <= t < |edges| :: (edges + [e])[t] == edges[t];
  }

  /** The edges of the first i nodes and then the first j children of node i. */
  function EdgesUpTo(gnodes: seq<GltfNode>, i: nat, j: nat): seq<(nat, nat)>
    requires i < |gnodes| && j <= |gnodes[i].children|
  {
    Edges(gnodes[..i]) + RowEdges(i, gnodes[i].children[..j])
  }

  lemma EdgesUpToNext(gnodes: seq<GltfNode>, i: nat, j: nat)
    requires i < |gnodes| && j < |gnodes[i].children|
    ensures EdgesUpTo(gnodes, i, j + 1) == EdgesUpTo(gnodes, i, j) + [(i, gnodes[i].children[j])]
  {
    var cs := gnodes[i].children;
    assert RowEdges(i, cs[..j + 1]) == RowEdges(i, cs[..j]) + [(i, cs[j])];
  }

  lemma EdgesUpToEnds(gnodes: seq<GltfNode>, i: nat)
    requires i < |gnodes|
    ensures EdgesUpTo(gnodes, i, 0) == Edges(gnodes[..i])
    ensures EdgesUpTo(gnodes, i, |gnodes[i].children|) == Edges(gnodes[..i + 1])
  {
    assert gnodes[..i + 1][..i] == gnodes[..i];
    assert gnodes[i].children[..|gnodes[i].children|] == gnodes[i].children;
  }

  /** Child indices below n bound every edge of a prefix of the node list. */
  lemma EdgesUpToWithin(gnodes: seq<GltfNode>, i: nat, j: nat)
    requires i < |gnodes| && j <= |gnodes[i].children|
    requires forall t | 0 <= t < |gnodes| :: forall k | 0 <= k < |gnodes[t].children| :: gnodes[t].children[k] < |gnodes|
    ensures EdgesWithin(EdgesUpTo(gnodes, i, j), |gnodes|)
  {
    var pre := gnodes[..i];
    assert forall t | 0 <= t < |pre| :: pre[t] == gnodes[t];
    EdgesValid(pre, |gnodes|);
  }

  /** The wiring loop of init: for node i and each child c, link node_names[c] under node_names[i]. */
  method WireChildren(nodes: NodeRegistry, names: seq<string>, gnodes: seq<GltfNode>) returns (r: NodeRegistry)
    requires |names| == |gnodes| && NamesIn(names, nodes)
    requires forall i | 0 <= i < |gnodes| :: forall k | 0 <= k < |gnodes[i].children| :: gnodes[i].children[k] < |gnodes|
    ensures EdgesWithin(Edges(gnodes), |names|) && PairsIn(NamedEdges(names, Edges(gnodes)), nodes)
    ensures r == LinkPairs(nodes, NamedEdges(names, Edges(gnodes)))
  {
    EdgesValid(gnodes, |gnodes|);
    NamedEdgesIn(nodes, names, Edges(gnodes));
    r := nodes;
    var i := 0;
    while i < |gnodes|
      invariant 0 <= i <= |gnodes| && EdgesWithin(Edges(gnodes[..i]), |names|)
      invariant PairsIn(NamedEdges(names, Edges(gnodes[..i])), nodes)
      invariant r == LinkPairs(nodes, NamedEdges(names, Edges(gnodes[..i])))
    {
      var cs := gnodes[i].children;
      EdgesUpToEnds(gnodes, i);
      var j := 0;
      while j < |cs|
        invariant 0 <= j <= |cs| && EdgesWithin(EdgesUpTo(gnodes, i, j), |names|)
        invariant PairsIn(NamedEdges(names, EdgesUpTo(gnodes, i, j)), nodes)
        invariant r == LinkPairs(nodes, NamedEdges(names, EdgesUpTo(gnodes, i, j)))
      {
        var childName := names[cs[j]];
        var parentName := names[i];
        EdgesUpToNext(gnodes, i, j);
        NamedEdgesSnoc(names, EdgesUpTo(gnodes, i, j), (i, cs[j]));
        LinkPairsSnoc(nodes, NamedEdges(names, EdgesUpTo(gnodes, i, j)), (parentName, childName));
        r := r[childName := r[childName].(parent := Some(parentName))];
        r := r[parentName := r[parentName].(children := r[parentName].children + [childName])];
        j := j + 1;
      }
      EdgesUpToWithin(gnodes, i, j);
      i := i + 1;
    }
    assert gnodes[..i] == gnodes;
  }

  // ---------------------------------------------------------------------------
  // init

  /** The registry after assign_transforms and the wiring loop. */
  function WiredNodes(nodes: NodeRegistry, a: Asset): (r: NodeRegistry)
    requires ValidAsset(a)
  {
    var registered := Assigned(nodes, a.nodes, MeshNames(a.meshes));
    AssignedHasNames(nodes, a.nodes, MeshNames(a.meshes));
    EdgesValid(a.nodes, |a.nodes|);
    NamedEdgesIn(registered, NodeNames(a.nodes), Edges(a.nodes));
    LinkPairs(registered, NamedEdges(NodeNames(a.nodes), Edges(a.nodes)))
  }

  /**
   * What init leaves for a valid asset: the merged meshes stored by name, the nodes registered
   * and wired, their parentless names as `roots`, and the world transforms propagated from
   * those roots.
   */
  predicate Imported(asset: Asset, meshes0: map<string, Mesh>, nodes0: NodeRegistry,
                    meshes1: map<string, Mesh>, nodes1: NodeRegistry, roots: seq<string>)
    requires ValidAsset(asset)
  {
    var wired := WiredNodes(nodes0, asset);
    && meshes1 == StoredMeshes(meshes0, asset.meshes)
    && IsRootList(wired, roots)
    && nodes1 == ReassignAll(Mul, wired, roots, Identity(), |wired|)
  }

  /** What init returns and leaves: nothing touched for an invalid file type, else Imported. */
  predicate Outcome(a: Asset, meshes0: map<string, Mesh>, nodes0: NodeRegistry,
                    ok: bool, meshes1: map<string, Mesh>, nodes1: NodeRegistry, roots: seq<string>)
    requires a.kind != Invalid ==> ValidAsset(a)
  {
    if a.kind == Invalid then !ok && meshes1 == meshes0 && nodes1 == nodes0 && roots == []
    else ok && Imported(a, meshes0, nodes0, meshes1, nodes1, roots)
  }

  /**
   * FastGltfImport::init. An invalid file type fails before anything is touched. Otherwise
   * every mesh is merged and stored by name, the nodes are registered and wired, and every
   * parentless node of the registry is propagated from the identity and returned as a root.
   */
  method Import(a: Asset, meshes: map<string, Mesh>, nodes: NodeRegistry)
    returns (ok: bool, meshes': map<string, Mesh>, nodes': NodeRegistry, roots: seq<string>)
    requires a.kind != Invalid ==> ValidAsset(a)
    ensures Outcome(a, meshes, nodes, ok, meshes', nodes', roots)
  {
    if a.kind == Invalid {
      return false, meshes, nodes, [];
    }
    var meshNames;
    meshes', meshNames := StoreMeshes(meshes, a.meshes);
    var registered, nodeNames := AssignTransforms(nodes, meshNames, a.nodes);
    AssignedHasNames(nodes, a.nodes, meshNames);
    var wired := WireChildren(registered, nodeNames, a.nodes);
    nodes', roots := PropagateRoots(Mul, wired, Identity());
    ok := true;
  }
}
