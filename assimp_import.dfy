/**
 * AssimpImport (includes/assimp_importer.hpp, sources/assimp_importer.cpp) over the scene
 * Assimp has already read: its meshes, its node tree and its status flags.
 *
 * A node's mesh references and its parent and children are names resolved through the mesh
 * and node registries, as in FastGltfImporter. aiNode::FindNode, Assimp's own search by name,
 * is given its documented meaning: a depth-first search returning the first match.
 */
module AssimpImporter {
  import opened Wrappers
  import opened LinAlg
  import opened Types
  import opened SceneGraph
  import opened KeyedStore
  import opened Wiring

  // ---------------------------------------------------------------------------
  // Assimp's value types and their glm counterparts

  datatype AiVector3D = AiVector3D(x: real, y: real, z: real)

  /** aiMatrix4x4: row-major, rows a, b, c, d and columns 1 to 4. */
  datatype AiMatrix4x4 = AiMatrix4x4(
    a1: real, a2: real, a3: real, a4: real,
    b1: real, b2: real, b3: real, b4: real,
    c1: real, c2: real, c3: real, c4: real,
    d1: real, d2: real, d3: real, d4: real)

  /** The element of an aiMatrix4x4 at row `row`, column `col`, counting from zero. */
  function AiAt(m: AiMatrix4x4, row: nat, col: nat): real
    requires row < 4 && col < 4
  {
    if row == 0 then (if col == 0 then m.a1 else if col == 1 then m.a2 else if col == 2 then m.a3 else m.a4)
    else if row == 1 then (if col == 0 then m.b1 else if col == 1 then m.b2 else if col == 2 then m.b3 else m.b4)
    else if row == 2 then (if col == 0 then m.c1 else if col == 1 then m.c2 else if col == 2 then m.c3 else m.c4)
    else (if col == 0 then m.d1 else if col == 1 then m.d2 else if col == 2 then m.d3 else m.d4)
  }

  function Ai2Glm(v: AiVector3D): Vec3 {
    Vec3(v.x, v.y, v.z)
  }

  /** The reverse vector conversion. */
  function Glm2Ai(v: Vec3): AiVector3D {
    AiVector3D(v.x, v.y, v.z)
  }

  /** The vector conversion copies every component: it is undone by the reverse conversion, both ways round. */
  lemma VectorRoundTrip(ai: AiVector3D, v: Vec3)
    ensures Glm2Ai(Ai2Glm(ai)) == ai && Ai2Glm(Glm2Ai(v)) == v
  {
  }

  /** A texture coordinate read as an aiVector3D and stored in a glm::vec2: its first two components. */
  function Ai2GlmUv(v: AiVector3D): Vec2 {
    Vec2(v.x, v.y)
  }

  /**
   * ai2glm_mat4x4: glm::mat4 is built column by column from (a1, b1, c1, d1), (a2, ...), ...,
   * so the row-major Assimp matrix and the column-major glm matrix are the same matrix.
   */
  function Ai2GlmMat4x4(ai: AiMatrix4x4): (r: Mat4)
    ensures forall row, col | 0 <= row < 4 && 0 <= col < 4 :: At(r, row, col) == AiAt(ai, row, col)
  {
    Mat4(Vec4(ai.a1, ai.b1, ai.c1, ai.d1), Vec4(ai.a2, ai.b2, ai.c2, ai.d2),
         Vec4(ai.a3, ai.b3, ai.c3, ai.d3), Vec4(ai.a4, ai.b4, ai.c4, ai.d4))
  }

  /** The reverse layout conversion, element for element. */
  function Glm2AiMat4x4(m: Mat4): (r: AiMatrix4x4)
    ensures forall row, col | 0 <= row < 4 && 0 <= col < 4 :: AiAt(r, row, col) == At(m, row, col)
  {
    AiMatrix4x4(m.c0.x, m.c1.x, m.c2.x, m.c3.x, m.c0.y, m.c1.y, m.c2.y, m.c3.y,
                m.c0.z, m.c1.z, m.c2.z, m.c3.z, m.c0.w, m.c1.w, m.c2.w, m.c3.w)
  }

  /** The conversion loses nothing: it is undone by the reverse conversion, both ways round. */
  lemma Mat4x4RoundTrip(ai: AiMatrix4x4, m: Mat4)
    ensures Glm2AiMat4x4(Ai2GlmMat4x4(ai)) == ai
    ensures Ai2GlmMat4x4(Glm2AiMat4x4(m)) == m
  {
  }

  // ---------------------------------------------------------------------------
  // process_mesh

  datatype AiFace = AiFace(indices: seq<U32>)

  /**
   * An aiMesh: the vertex array, the optional normal array, the optional first texture
   * coordinate channel, the faces and the bounding box Assimp computed.
   */
  datatype AiMesh = AiMesh(
    name: string,
    vertices: seq<AiVector3D>,
    normals: Option<seq<AiVector3D>>,
    texCoords0: Option<seq<AiVector3D>>,
    faces: seq<AiFace>,
    aabbMin: AiVector3D,
    aabbMax: AiVector3D)

  /** The optional arrays hold an entry for every vertex, as Assimp guarantees. */
  predicate AiMeshFits(am: AiMesh) {
    && (am.normals.Some? ==> |am.vertices| <= |am.normals.value|)
    && (am.texCoords0.Some? ==> |am.vertices| <= |am.texCoords0.value|)
  }

  /** The indices of every face, face by face, in order. */
  function FaceIndices(faces: seq<AiFace>): seq<U32>
    decreases |faces|
  {
    if faces == [] then [] else FaceIndices(faces[..|faces| - 1]) + faces[|faces| - 1].indices
  }

  function NormalAt(am: AiMesh, i: nat): Vec3
    requires AiMeshFits(am) && i < |am.vertices|
  {
    if am.normals.Some? then Ai2Glm(am.normals.value[i]) else Zero3
  }

  function UvAt(am: AiMesh, i: nat): Vec2
    requires AiMeshFits(am) && i < |am.vertices|
  {
    if am.texCoords0.Some? then Ai2GlmUv(am.texCoords0.value[i]) else Zero2
  }

  /** The Mesh process_mesh builds from an aiMesh. The mesh's name is never set. */
  function ConvertedMesh(am: AiMesh): Mesh
    requires AiMeshFits(am)
  {
    var n := |am.vertices|;
    EmptyMesh().(
      bounds := Bounds(Ai2Glm(am.aabbMin), Ai2Glm(am.aabbMax)),
      indices := FaceIndices(am.faces),
      positions := seq(n, i requires 0 <= i < n => Ai2Glm(am.vertices[i])),
      normals := seq(n, i requires 0 <= i < n => NormalAt(am, i)),
      uvs := seq(n, i requires 0 <= i < n => UvAt(am, i)))
  }

  lemma {:induction false} FaceIndicesAppend(a: seq<AiFace>, b: seq<AiFace>)
    ensures FaceIndices(a + b) == FaceIndices(a) + FaceIndices(b)
    decreases |b|
  {
    if b == [] {
      assert a + b == a;
    } else {
      var init := b[..|b| - 1];
      assert (a + b)[..|a + b| - 1] == a + init;
      assert (a + b)[|a + b| - 1] == b[|b| - 1];
      FaceIndicesAppend(a, init);
    }
  }

  /** The first f faces contribute this many indices. */
  function FaceOffset(faces: seq<AiFace>, f: nat): nat
    requires f <= |faces|
  {
    |FaceIndices(faces[..f])|
  }

  /** Each face's indices appear unchanged, as one run, at that face's offset. */
  lemma FaceIndicesRun(faces: seq<AiFace>, f: nat)
    requires f < |faces|
    ensures FaceOffset(faces, f) + |faces[f].indices| <= |FaceIndices(faces)|
    ensures FaceIndices(faces)[FaceOffset(faces, f)..FaceOffset(faces, f) + |faces[f].indices|] == faces[f].indices
  {
    assert faces == faces[..f + 1] + faces[f + 1..];
    assert faces[..f + 1][..f] == faces[..f];
    FaceIndicesAppend(faces[..f + 1], faces[f + 1..]);
  }

  /** Every face index below n makes every merged index below n. */
  lemma {:induction false} FaceIndicesBelow(faces: seq<AiFace>, n: nat)
    requires forall f, j | 0 <= f < |faces| && 0 <= j < |faces[f].indices| :: faces[f].indices[j] < n
    ensures forall k | 0 <= k < |FaceIndices(faces)| :: FaceIndices(faces)[k] < n
    decreases |faces|
  {
    if faces != [] {
      var init := faces[..|faces| - 1];
      assert forall f | 0 <= f < |init| :: init[f] == faces[f];
      FaceIndicesBelow(init, n);
    }
  }

  /** Faces of three indices each put face f's indices at 3f, 3f + 1 and 3f + 2. */
  lemma {:induction false} TripleFaceIndices(faces: seq<AiFace>)
    requires forall f | 0 <= f < |faces| :: |faces[f].indices| == 3
    ensures |FaceIndices(faces)| == 3 * |faces|
    ensures forall f, t | 0 <= f < |faces| && 0 <= t < 3 :: FaceIndices(faces)[3 * f + t] == faces[f].indices[t]
    decreases |faces|
  {
    if faces != [] {
      var init := faces[..|faces| - 1];
      assert forall f | 0 <= f < |init| :: init[f] == faces[f];
      TripleFaceIndices(init);
      var a, b := FaceIndices(init), faces[|faces| - 1].indices;
      assert FaceIndices(faces) == a + b;
      forall f, t | 0 <= f < |faces| && 0 <= t < 3 ensures (a + b)[3 * f + t] == faces[f].indices[t] {
        if f < |init| {
          assert (a + b)[3 * f + t] == a[3 * f + t];
        } else {
          assert (a + b)[3 * f + t] == b[t];
        }
      }
    }
  }

  /**
   * Faces of three indices each (what aiProcess_Triangulate leaves): the triangle list
   * calculate_triangles derives from the merged indices is the face list, in order.
   */
  lemma TriangleFaces(faces: seq<AiFace>)
    requires forall f | 0 <= f < |faces| :: |faces[f].indices| == 3
    ensures |Triangulate(FaceIndices(faces))| == |faces|
    ensures forall f | 0 <= f < |faces| ::
      Triangulate(FaceIndices(faces))[f] == Triangle(faces[f].indices[0], faces[f].indices[1], faces[f].indices[2])
  {
    TripleFaceIndices(faces);
    var idx := FaceIndices(faces);
    TriangulateAt(idx, 0);
    forall f | 0 <= f < |faces|
      ensures Triangulate(idx)[f] == Triangle(faces[f].indices[0], faces[f].indices[1], faces[f].indices[2])
    {
      TriangulateAt(idx, f);
      assert idx[3 * f] == faces[f].indices[0] && idx[3 * f + 1] == faces[f].indices[1] && idx[3 * f + 2] == faces[f].indices[2];
    }
  }

  /**
   * The converted mesh: no name, Assimp's bounding box, one position, normal and uv per
   * vertex (zero normals and uvs where Assimp has none), the faces' indices in order and no
   * triangles or quads yet; with every face index a vertex index it is well formed.
   */
  lemma ConvertedMeshShape(am: AiMesh)
    requires AiMeshFits(am)
    ensures var m := ConvertedMesh(am);
      && m.name == "" && m.bounds == Bounds(Ai2Glm(am.aabbMin), Ai2Glm(am.aabbMax))
      && SameLengths(m) && |m.positions| == |am.vertices|
      && (forall i | 0 <= i < |am.vertices| :: m.positions[i] == Ai2Glm(am.vertices[i]))
      && (am.normals.None? ==> forall i | 0 <= i < |m.normals| :: m.normals[i] == Zero3)
      && (am.texCoords0.None? ==> forall i | 0 <= i < |m.uvs| :: m.uvs[i] == Zero2)
      && m.indices == FaceIndices(am.faces) && m.triangles == [] && m.quads == []
    ensures (forall f, j | 0 <= f < |am.faces| && 0 <= j < |am.faces[f].indices| :: am.faces[f].indices[j] < |am.vertices|)
      ==> WellFormed(ConvertedMesh(am))
  {
    if forall f, j | 0 <= f < |am.faces| && 0 <= j < |am.faces[f].indices| :: am.faces[f].indices[j] < |am.vertices| {
      FaceIndicesBelow(am.faces, |am.vertices|);
    }
  }

  /**
   * process_mesh: the attribute arrays are resized to the vertex count and filled vertex by
   * vertex, then every face's indices are appended in order.
   */
  method ProcessMesh(am: AiMesh) returns (m: Mesh)
    requires AiMeshFits(am)
    ensures m == ConvertedMesh(am)
  {
    var size := |am.vertices|;
    var positions := seq(size, _ => Zero3);
    var normals := seq(size, _ => Zero3);
    var uvs := seq(size, _ => Zero2);
    var i := 0;
    while i < size
      invariant 0 <= i <= size && |positions| == |normals| == |uvs| == size
      invariant forall k | 0 <= k < i ::
        positions[k] == Ai2Glm(am.vertices[k]) && normals[k] == NormalAt(am, k) && uvs[k] == UvAt(am, k)
    {
      positions := positions[i := Ai2Glm(am.vertices[i])];
      if am.normals.Some? {
        normals := normals[i := Ai2Glm(am.normals.value[i])];
      } else {
        normals := normals[i := Zero3];
      }
      if am.texCoords0.Some? {
        uvs := uvs[i := Ai2GlmUv(am.texCoords0.value[i])];
      } else {
        uvs := uvs[i := Zero2];
      }
      i := i + 1;
    }
    var indices: seq<U32> := [];
    var f := 0;
    while f < |am.faces|
      invariant 0 <= f <= |am.faces| && indices == FaceIndices(am.faces[..f])
    {
      var face := am.faces[f];
      var j := 0;
      while j < |face.indices|
        invariant 0 <= j <= |face.indices| && indices == FaceIndices(am.faces[..f]) + face.indices[..j]
      {
        assert face.indices[..j + 1] == face.indices[..j] + [face.indices[j]];
        indices := indices + [face.indices[j]];
        j := j + 1;
      }
      assert am.faces[..f + 1][..f] == am.faces[..f];
      assert face.indices[..j] == face.indices;
      f := f + 1;
    }
    assert am.faces[..f] == am.faces;
    m := EmptyMesh().(bounds := Bounds(Ai2Glm(am.aabbMin), Ai2Glm(am.aabbMax)), indices := indices,
                      positions := positions, normals := normals, uvs := uvs);
  }

  // ---------------------------------------------------------------------------
  // The node tree

  /** An aiNode: its name, indices into the scene's mesh array, its matrix and its children. */
  datatype AiNode = AiNode(name: string, meshes: seq<nat>, transformation: AiMatrix4x4, children: seq<AiNode>)

  /** The concatenation of a list of lists, in order. */
  function Flatten<T>(ss: seq<seq<T>>): seq<T>
    decreases |ss|
  {
    if ss == [] then [] else Flatten(ss[..|ss| - 1]) + ss[|ss| - 1]
  }

  lemma {:induction false} FlattenAppend<T>(a: seq<seq<T>>, b: seq<seq<T>>)
    ensures Flatten(a + b) == Flatten(a) + Flatten(b)
    decreases |b|
  {
    if b == [] {
      assert a + b == a;
    } else {
      var init := b[..|b| - 1];
      assert (a + b)[..|a + b| - 1] == a + init;
      assert (a + b)[|a + b| - 1] == b[|b| - 1];
      FlattenAppend(a, init);
    }
  }

  lemma {:induction false} FlattenMember<T>(ss: seq<seq<T>>, x: T)
    ensures x in Flatten(ss) <==> exists i | 0 <= i < |ss| :: x in ss[i]
    decreases |ss|
  {
    if ss != [] {
      var init := ss[..|ss| - 1];
      FlattenMember(init, x);
      assert forall i | 0 <= i < |init| :: init[i] == ss[i];
    }
  }

  /** The nodes of a tree in the order the recursive process_node visits them: pre-order. */
  function PreOrder(n: AiNode): (r: seq<AiNode>)
    ensures |r| > 0 && r[0] == n
    decreases n, 1
  {
    [n] + Flatten(ChildOrders(n))
  }

  /** The pre-order of each child subtree, in child order. */
  function ChildOrders(n: AiNode): (r: seq<seq<AiNode>>)
    ensures |r| == |n.children|
    decreases n, 0
  {
    seq(|n.children|, i requires 0 <= i < |n.children| => PreOrder(n.children[i]))
  }

  /** The walk of a node is the node, its first j subtrees, then the rest. */
  lemma PreOrderSplit(n: AiNode, j: nat)
    requires j < |n.children|
    ensures PreOrder(n) == [n] + Flatten(ChildOrders(n)[..j]) + PreOrder(n.children[j]) + Flatten(ChildOrders(n)[j + 1..])
    ensures Flatten(ChildOrders(n)[..j + 1]) == Flatten(ChildOrders(n)[..j]) + PreOrder(n.children[j])
  {
    var os := ChildOrders(n);
    assert os == os[..j + 1] + os[j + 1..];
    assert os[..j + 1][..j] == os[..j];
    FlattenAppend(os[..j + 1], os[j + 1..]);
  }

  /** A child of a node of the tree is a node of the tree. */
  lemma {:induction false} ChildInPreOrder(root: AiNode, x: AiNode, c: AiNode)
    requires x in PreOrder(root) && c in x.children
    ensures c in PreOrder(root)
    decreases root
  {
    var os := ChildOrders(root);
    if x == root {
      var i :| 0 <= i < |root.children| && root.children[i] == c;
      assert c == os[i][0];
      FlattenMember(os, c);
    } else {
      assert x in Flatten(os);
      FlattenMember(os, x);
      var i :| 0 <= i < |os| && x in os[i];
      ChildInPreOrder(root.children[i], x, c);
      FlattenMember(os, c);
    }
  }

  // ---------------------------------------------------------------------------
  // aiNode::FindNode

  /** The first node of a list with the given name. */
  function FirstNamed(ns: seq<AiNode>, name: string): (r: Option<AiNode>)
    ensures r.Some? ==> r.value in ns && r.value.name == name
    ensures r.None? <==> forall x | x in ns :: x.name != name
    decreases |ns|
  {
    if ns == [] then None else if ns[0].name == name then Some(ns[0]) else FirstNamed(ns[1..], name)
  }

  lemma {:induction false} FirstNamedAppend(a: seq<AiNode>, b: seq<AiNode>, name: string)
    ensures FirstNamed(a + b, name) == if FirstNamed(a, name).Some? then FirstNamed(a, name) else FirstNamed(b, name)
    decreases |a|
  {
    if a == [] {
      assert a + b == b;
    } else {
      assert (a + b)[1..] == a[1..] + b;
      FirstNamedAppend(a[1..], b, name);
    }
  }

  /** aiNode::FindNode: this node if it has the name, else the first child subtree with a match. */
  function FindNode(n: AiNode, name: string): Option<AiNode>
    decreases n, 1
  {
    if n.name == name then Some(n) else FindFrom(n, name, 0)
  }

  function FindFrom(n: AiNode, name: string, i: nat): Option<AiNode>
    requires i <= |n.children|
    decreases n, 0, |n.children| - i
  {
    if i == |n.children| then None
    else
      var p := FindNode(n.children[i], name);
      if p.Some? then p else FindFrom(n, name, i + 1)
  }

  /**
   * The search is the first node of the pre-order walk with that name; so a result is a node
   * of the tree carrying the name, and there is none exactly when no node has it.
   */
  lemma {:induction false} FindNodeIsFirst(n: AiNode, name: string)
    ensures FindNode(n, name) == FirstNamed(PreOrder(n), name)
    decreases n, 1
  {
    var rest := Flatten(ChildOrders(n));
    assert PreOrder(n) == [n] + rest;
    if n.name != name {
      assert ([n] + rest)[1..] == rest;
      FindFromIsFirst(n, name, 0);
      assert ChildOrders(n)[0..] == ChildOrders(n);
    }
  }

  lemma {:induction false} FindFromIsFirst(n: AiNode, name: string, i: nat)
    requires i <= |n.children|
    ensures FindFrom(n, name, i) == FirstNamed(Flatten(ChildOrders(n)[i..]), name)
    decreases n, 0, |n.children| - i
  {
    var os := ChildOrders(n);
    if i == |n.children| {
      assert os[i..] == [];
    } else {
      var c := n.children[i];
      var here, later := os[i], Flatten(os[i + 1..]);
      assert here == PreOrder(c);
      FindNodeIsFirst(c, name);
      FindFromIsFirst(n, name, i + 1);
      FlattenCons(os, i);
      FirstNamedAppend(here, later, name);
    }
  }

  lemma FlattenCons<T>(os: seq<seq<T>>, i: nat)
    requires i < |os|
    ensures Flatten(os[i..]) == os[i] + Flatten(os[i + 1..])
  {
    assert os[i..] == [os[i]] + os[i + 1..];
    FlattenAppend([os[i]], os[i + 1..]);
    assert [os[i]][..0] == [];
  }

  lemma FindNodeMeaning(root: AiNode, name: string)
    ensures FindNode(root, name).Some? ==>
      FindNode(root, name).value in PreOrder(root) && FindNode(root, name).value.name == name
    ensures FindNode(root, name).None? <==> forall x | x in PreOrder(root) :: x.name != name
  {
    FindNodeIsFirst(root, name);
  }

  // ---------------------------------------------------------------------------
  // process_node

  /** The meshes and nodes registries process_node fills. */
  datatype AiState = AiState(meshes: map<string, Mesh>, nodes: NodeRegistry)

  /** The node's mesh indices address meshes of the scene, as the source assumes unchecked. */
  predicate NodeFits(sm: seq<AiMesh>, n: AiNode) {
    forall i | 0 <= i < |n.meshes| :: n.meshes[i] < |sm| && AiMeshFits(sm[n.meshes[i]])
  }

  predicate NodesFit(sm: seq<AiMesh>, ns: seq<AiNode>) {
    forall x | x in ns :: NodeFits(sm, x)
  }

  /** The names of the meshes a node refers to: the keys it stores them under. */
  function RefNames(sm: seq<AiMesh>, n: AiNode): (r: seq<string>)
    requires NodeFits(sm, n)
    ensures |r| == |n.meshes| && forall i | 0 <= i < |n.meshes| :: r[i] == sm[n.meshes[i]].name
  {
    seq(|n.meshes|, i requires 0 <= i < |n.meshes| => sm[n.meshes[i]].name)
  }

  function RefMeshes(sm: seq<AiMesh>, n: AiNode): (r: seq<Mesh>)
    requires NodeFits(sm, n)
    ensures |r| == |n.meshes| && forall i | 0 <= i < |n.meshes| :: r[i] == ConvertedMesh(sm[n.meshes[i]])
  {
    seq(|n.meshes|, i requires 0 <= i < |n.meshes| => ConvertedMesh(sm[n.meshes[i]]))
  }

  /** The MeshNode process_node registers for an aiNode. */
  function NodeOf(sm: seq<AiMesh>, n: AiNode): Node<string, NodeInfo>
    requires NodeFits(sm, n)
  {
    NewNode(NodeInfo(n.name, RefNames(sm, n)), Ai2GlmMat4x4(n.transformation))
  }

  /** The body of process_node for one node: its meshes stored by name, then the node by name. */
  function Visit(sm: seq<AiMesh>, s: AiState, n: AiNode): AiState
    requires NodeFits(sm, n)
  {
    AiState(Stored(s.meshes, RefNames(sm, n), RefMeshes(sm, n)), s.nodes[n.name := NodeOf(sm, n)])
  }

  /** Visiting a list of nodes in order. */
  function Walk(sm: seq<AiMesh>, s: AiState, ns: seq<AiNode>): AiState
    requires NodesFit(sm, ns)
    decreases |ns|
  {
    if ns == [] then s else Visit(sm, Walk(sm, s, ns[..|ns| - 1]), ns[|ns| - 1])
  }

  lemma {:induction false} WalkAppend(sm: seq<AiMesh>, s: AiState, a: seq<AiNode>, b: seq<AiNode>)
    requires NodesFit(sm, a + b)
    ensures NodesFit(sm, a) && NodesFit(sm, b)
    ensures Walk(sm, s, a + b) == Walk(sm, Walk(sm, s, a), b)
    decreases |b|
  {
    if b == [] {
      assert a + b == a;
    } else {
      var init := b[..|b| - 1];
      assert (a + b)[..|a + b| - 1] == a + init;
      assert (a + b)[|a + b| - 1] == b[|b| - 1];
      WalkAppend(sm, s, a, init);
    }
  }

  function NodeNamesOf(ns: seq<AiNode>): (r: seq<string>)
    ensures |r| == |ns| && forall i | 0 <= i < |ns| :: r[i] == ns[i].name
  {
    seq(|ns|, i requires 0 <= i < |ns| => ns[i].name)
  }

  function NodesOf(sm: seq<AiMesh>, ns: seq<AiNode>): (r: seq<Node<string, NodeInfo>>)
    requires NodesFit(sm, ns)
    ensures |r| == |ns| && forall i | 0 <= i < |ns| :: r[i] == NodeOf(sm, ns[i])
  {
    seq(|ns|, i requires 0 <= i < |ns| => NodeOf(sm, ns[i]))
  }

  /** The node registry after a walk is the old one with each visited node stored under its name. */
  lemma {:induction false} WalkNodes(sm: seq<AiMesh>, s: AiState, ns: seq<AiNode>)
    requires NodesFit(sm, ns)
    ensures Walk(sm, s, ns).nodes == Stored(s.nodes, NodeNamesOf(ns), NodesOf(sm, ns))
    decreases |ns|
  {
    if ns != [] {
      var i := |ns| - 1;
      WalkNodes(sm, s, ns[..i]);
      var keys, vals := NodeNamesOf(ns), NodesOf(sm, ns);
      assert keys[..i] == NodeNamesOf(ns[..i]);
      assert vals[..i] == NodesOf(sm, ns[..i]);
      StoredSnoc(s.nodes, keys, vals, i);
      assert |keys| == i + 1 && |vals| == i + 1;
    }
  }

  /**
   * After a walk, the registered names are the old ones and those of the visited nodes; a
   * name holds the node built from the last visited node of that name; other nodes stay.
   */
  lemma WalkNodesContents(sm: seq<AiMesh>, s: AiState, ns: seq<AiNode>)
    requires NodesFit(sm, ns)
    ensures forall k :: k in Walk(sm, s, ns).nodes <==> k in s.nodes || k in NodeNamesOf(ns)
    ensures forall i | 0 <= i < |ns| && (forall j | i < j < |ns| :: ns[j].name != ns[i].name) ::
      ns[i].name in Walk(sm, s, ns).nodes && Walk(sm, s, ns).nodes[ns[i].name] == NodeOf(sm, ns[i])
    ensures forall k | k in s.nodes && k !in NodeNamesOf(ns) :: k in Walk(sm, s, ns).nodes && Walk(sm, s, ns).nodes[k] == s.nodes[k]
  {
    WalkNodes(sm, s, ns);
    var keys, vals := NodeNamesOf(ns), NodesOf(sm, ns);
    forall k ensures k in Walk(sm, s, ns).nodes <==> k in s.nodes || k in keys {
      StoredKeys(s.nodes, keys, vals, k);
    }
    forall i | 0 <= i < |ns| && (forall j | i < j < |ns| :: ns[j].name != ns[i].name)
      ensures ns[i].name in Walk(sm, s, ns).nodes && Walk(sm, s, ns).nodes[ns[i].name] == NodeOf(sm, ns[i])
    {
      StoredLastWins(s.nodes, keys, vals, i);
    }
    forall k | k in s.nodes && k !in keys ensures k in Walk(sm, s, ns).nodes && Walk(sm, s, ns).nodes[k] == s.nodes[k] {
      StoredUntouched(s.nodes, keys, vals, k);
    }
  }

  /**
   * The mesh loop of process_node: each referenced aiMesh converted and stored under its
   * name, and the name appended to the node's mesh list.
   */
  method StoreNodeMeshes(sm: seq<AiMesh>, meshes: map<string, Mesh>, node: AiNode)
    returns (r: map<string, Mesh>, refs: seq<string>)
    requires NodeFits(sm, node)
    ensures r == Stored(meshes, RefNames(sm, node), RefMeshes(sm, node)) && refs == RefNames(sm, node)
  {
    ghost var keys, vals := RefNames(sm, node), RefMeshes(sm, node);
    r := meshes;
    refs := [];
    var i := 0;
    while i < |node.meshes|
      invariant 0 <= i <= |node.meshes|
      invariant r == Stored(meshes, keys[..i], vals[..i]) && refs == keys[..i]
    {
      var am := sm[node.meshes[i]];
      var meshName := am.name;
      StoredSnoc(meshes, keys, vals, i);
      var converted := ProcessMesh(am);
      r := r[meshName := converted];
      refs := refs + [meshName];
      i := i + 1;
    }
    assert keys[..i] == keys && vals[..i] == vals;
  }

  /**
   * process_node: the node's meshes are converted and stored under their names, the node is
   * registered under its name, then each child subtree is processed in order.
   */
  method ProcessNode(sm: seq<AiMesh>, s: AiState, node: AiNode) returns (r: AiState)
    requires NodesFit(sm, PreOrder(node))
    ensures r == Walk(sm, s, PreOrder(node))
    decreases node
  {
    var meshes, refs := StoreNodeMeshes(sm, s.meshes, node);
    var local := Ai2GlmMat4x4(node.transformation);
    r := AiState(meshes, s.nodes[node.name := NewNode(NodeInfo(node.name, refs), local)]);
    assert r == Visit(sm, s, node);
    WalkSingle(sm, s, node);
    VisitedUpToEnds(node);
    var j := 0;
    while j < |node.children|
      invariant 0 <= j <= |node.children|
      invariant NodesFit(sm, VisitedUpTo(node, j)) && r == Walk(sm, s, VisitedUpTo(node, j))
    {
      VisitedUpToNext(sm, s, node, j);
      r := ProcessNode(sm, r, node.children[j]);
      j := j + 1;
    }
  }

  /** The nodes process_node has visited once the first j children of `node` are processed. */
  function VisitedUpTo(node: AiNode, j: nat): seq<AiNode>
    requires j <= |node.children|
  {
    [node] + Flatten(ChildOrders(node)[..j])
  }

  lemma VisitedUpToEnds(node: AiNode)
    ensures VisitedUpTo(node, 0) == [node] && VisitedUpTo(node, |node.children|) == PreOrder(node)
  {
    assert ChildOrders(node)[..0] == [];
    assert ChildOrders(node)[..|node.children|] == ChildOrders(node);
  }

  /** Processing child j next walks that child's subtree after what was visited so far. */
  lemma VisitedUpToNext(sm: seq<AiMesh>, s: AiState, node: AiNode, j: nat)
    requires NodesFit(sm, PreOrder(node)) && j < |node.children|
    ensures NodesFit(sm, PreOrder(node.children[j])) && NodesFit(sm, VisitedUpTo(node, j + 1))
    ensures NodesFit(sm, VisitedUpTo(node, j))
    ensures Walk(sm, s, VisitedUpTo(node, j + 1)) == Walk(sm, Walk(sm, s, VisitedUpTo(node, j)), PreOrder(node.children[j]))
  {
    var os := ChildOrders(node);
    PreOrderSplit(node, j);
    assert VisitedUpTo(node, j + 1) == VisitedUpTo(node, j) + os[j];
    WalkAppend(sm, s, VisitedUpTo(node, j), os[j]);
  }

  lemma WalkSingle(sm: seq<AiMesh>, s: AiState, n: AiNode)
    requires NodeFits(sm, n)
    ensures NodesFit(sm, [n]) && Walk(sm, s, [n]) == Visit(sm, s, n)
  {
    assert [n][..0] == [];
  }

  /** Every node of the walked list is registered afterwards. */
  lemma WalkRegisters(sm: seq<AiMesh>, s: AiState, ns: seq<AiNode>)
    requires NodesFit(sm, ns)
    ensures forall x | x in ns :: x.name in Walk(sm, s, ns).nodes
  {
    WalkNodesContents(sm, s, ns);
    forall x | x in ns ensures x.name in NodeNamesOf(ns) {
      var i :| 0 <= i < |ns| && ns[i] == x;
      assert NodeNamesOf(ns)[i] == x.name;
    }
  }

  // ---------------------------------------------------------------------------
  // assign_children

  /** The names of a found node's children, in order; none when nothing was found. */
  function ChildNames(found: Option<AiNode>): (r: seq<string>)
    ensures found.None? ==> r == []
    ensures found.Some? ==>
      |r| == |found.value.children| && forall i | 0 <= i < |r| :: r[i] == found.value.children[i].name
  {
    if found.None? then []
    else seq(|found.value.children|, i requires 0 <= i < |found.value.children| => found.value.children[i].name)
  }

  /** The children of the Assimp node found for a registry entry, by that entry's name. */
  function FoundChildren(root: AiNode, nodes: NodeRegistry, k: string): seq<string>
    requires k in nodes
  {
    ChildNames(FindNode(root, nodes[k].payload.name))
  }

  function RowPairs(k: string, cs: seq<string>): (r: seq<(string, string)>)
    ensures |r| == |cs| && forall i | 0 <= i < |cs| :: r[i] == (k, cs[i])
  {
    seq(|cs|, i requires 0 <= i < |cs| => (k, cs[i]))
  }

  /** The (parent, child) pairs assign_children links, visiting the registry keys in `order`. */
  function FoundPairs(root: AiNode, nodes: NodeRegistry, order: seq<string>): seq<(string, string)>
    requires forall k | k in order :: k in nodes
    decreases |order|
  {
    if order == [] then []
    else
      var k := order[|order| - 1];
      FoundPairs(root, nodes, order[..|order| - 1]) + RowPairs(k, FoundChildren(root, nodes, k))
  }

  lemma FoundPairsSnoc(root: AiNode, nodes: NodeRegistry, order: seq<string>, k: string)
    requires (forall x | x in order :: x in nodes) && k in nodes
    ensures FoundPairs(root, nodes, order + [k]) == FoundPairs(root, nodes, order) + RowPairs(k, FoundChildren(root, nodes, k))
  {
    assert (order + [k])[..|order|] == order;
  }

  /** Every child name the search can report is a registered node, as the source assumes. */
  predicate ChildrenRegistered(root: AiNode, nodes: NodeRegistry) {
    forall k | k in nodes :: forall c | c in FoundChildren(root, nodes, k) :: c in nodes
  }

  /**
   * The inner loop of assign_children for the registry entry `k` and the node found for it:
   * each child becomes k's child and gets k as its parent, in order.
   */
  method LinkFoundChildren(ghost nodes: NodeRegistry, ghost pairs: seq<(string, string)>, r: NodeRegistry,
                           k: string, parentNode: AiNode) returns (r': NodeRegistry)
    requires PairsIn(pairs, nodes) && r == LinkPairs(nodes, pairs) && k in nodes
    requires forall c | c in ChildNames(Some(parentNode)) :: c in nodes
    ensures PairsIn(pairs + RowPairs(k, ChildNames(Some(parentNode))), nodes)
    ensures r' == LinkPairs(nodes, pairs + RowPairs(k, ChildNames(Some(parentNode))))
  {
    ghost var cs := ChildNames(Some(parentNode));
    var children := parentNode.children;
    r' := r;
    var i := 0;
    assert pairs + RowPairs(k, cs[..0]) == pairs;
    while i < |children|
      invariant 0 <= i <= |children|
      invariant PairsIn(pairs + RowPairs(k, cs[..i]), nodes)
      invariant r' == LinkPairs(nodes, pairs + RowPairs(k, cs[..i]))
    {
      var childName := children[i].name;
      ghost var before := pairs + RowPairs(k, cs[..i]);
      assert RowPairs(k, cs[..i + 1]) == RowPairs(k, cs[..i]) + [(k, childName)];
      assert pairs + RowPairs(k, cs[..i + 1]) == before + [(k, childName)];
      LinkPairsSnoc(nodes, before, (k, childName));
      r' := r'[childName := r'[childName].(parent := Some(k))];
      r' := r'[k := r'[k].(children := r'[k].children + [childName])];
      i := i + 1;
    }
    assert cs[..i] == cs;
  }

  /**
   * assign_children: for each registered node, in hash-map order, look its name up in the
   * tree; for each child of the node found, set the child's parent to this node and append
   * the child to this node's children.
   */
  method AssignChildren(root: AiNode, nodes: NodeRegistry) returns (r: NodeRegistry, ghost order: seq<string>)
    requires ChildrenRegistered(root, nodes)
    ensures Enumerates(order, nodes.Keys)
    ensures PairsIn(FoundPairs(root, nodes, order), nodes)
    ensures r == LinkPairs(nodes, FoundPairs(root, nodes, order))
  {
    r := nodes;
    order := [];
    var rest := nodes.Keys;
    VisitingStart(nodes.Keys);
    while rest != {}
      invariant Visiting(order, rest, nodes.Keys) && forall x | x in order :: x in nodes
      invariant PairsIn(FoundPairs(root, nodes, order), nodes)
      invariant r == LinkPairs(nodes, FoundPairs(root, nodes, order))
      decreases rest
    {
      var k :| k in rest;
      VisitingStep(order, rest, nodes.Keys, k);
      ghost var pairs := FoundPairs(root, nodes, order);
      LinkPairsEffect(nodes, pairs, k);
      var parentNode := FindNode(root, r[k].payload.name);
      ghost var cs := FoundChildren(root, nodes, k);
      if parentNode.Some? {
        r := LinkFoundChildren(nodes, pairs, r, k, parentNode.value);
      } else {
        assert pairs + RowPairs(k, cs) == pairs;
      }
      FoundPairsSnoc(root, nodes, order, k);
      order := order + [k];
      rest := rest - {k};
    }    VisitingDone(order, nodes.Keys);
  }

  // ---------------------------------------------------------------------------
  // What the wiring does, whatever the order

  lemma {:induction false} ChildrenAddedRow(k: string, cs: seq<string>, key: string)
    ensures ChildrenAdded(RowPairs(k, cs), key) == if k == key then cs else []
    decreases |cs|
  {
    if cs != [] {
      var init := cs[..|cs| - 1];
      assert RowPairs(k, cs)[..|cs| - 1] == RowPairs(k, init);
      ChildrenAddedRow(k, init, key);
      assert init + [cs[|cs| - 1]] == cs;
    }
  }

  lemma {:induction false} ChildrenAddedFound(root: AiNode, nodes: NodeRegistry, order: seq<string>, key: string)
    requires forall x | x in order :: x in nodes
    requires forall i, j | 0 <= i < j < |order| :: order[i] != order[j]
    ensures ChildrenAdded(FoundPairs(root, nodes, order), key) == if key in order then FoundChildren(root, nodes, key) else []
    decreases |order|
  {
    if order != [] {
      var init, k := order[..|order| - 1], order[|order| - 1];
      assert order == init + [k];
      ChildrenAddedFound(root, nodes, init, key);
      ChildrenAddedAppend(FoundPairs(root, nodes, init), RowPairs(k, FoundChildren(root, nodes, k)), key);
      ChildrenAddedRow(k, FoundChildren(root, nodes, k), key);
      if k == key {
        assert key !in init;
      }
    }
  }

  /** Each pair links a visited key as parent to a child of the node found for it. */
  lemma {:induction false} FoundPairsMeaning(root: AiNode, nodes: NodeRegistry, order: seq<string>)
    requires forall x | x in order :: x in nodes
    ensures forall e | 0 <= e < |FoundPairs(root, nodes, order)| ::
      FoundPairs(root, nodes, order)[e].0 in order &&
      FoundPairs(root, nodes, order)[e].1 in FoundChildren(root, nodes, FoundPairs(root, nodes, order)[e].0)
    decreases |order|
  {
    if order != [] {
      var init, k := order[..|order| - 1], order[|order| - 1];
      FoundPairsMeaning(root, nodes, init);
      var a, b := FoundPairs(root, nodes, init), RowPairs(k, FoundChildren(root, nodes, k));
      assert forall e | 0 <= e < |a| :: (a + b)[e] == a[e];
      assert forall e | |a| <= e < |a + b| :: (a + b)[e] == b[e - |a|];
    }
  }

  /** Conversely, each visited key is paired with every child of the node found for it. */
  lemma {:induction false} FoundPairsCover(root: AiNode, nodes: NodeRegistry, order: seq<string>, p: string, c: string)
    requires forall x | x in order :: x in nodes
    requires p in order && c in FoundChildren(root, nodes, p)
    ensures exists e | 0 <= e < |FoundPairs(root, nodes, order)| :: FoundPairs(root, nodes, order)[e] == (p, c)
    decreases |order|
  {
    var init, k := order[..|order| - 1], order[|order| - 1];
    var a, b := FoundPairs(root, nodes, init), RowPairs(k, FoundChildren(root, nodes, k));
    assert FoundPairs(root, nodes, order) == a + b;
    if p == k {
      var t :| 0 <= t < |FoundChildren(root, nodes, k)| && FoundChildren(root, nodes, k)[t] == c;
      assert b[t] == (p, c);
      assert (a + b)[|a| + t] == (p, c);
    } else {
      assert order == init + [k];
      FoundPairsCover(root, nodes, init, p, c);
      var e :| 0 <= e < |a| && a[e] == (p, c);
      assert (a + b)[e] == (p, c);
    }
  }

  /**
   * The outcome of assign_children does not depend on the hash-map order for the children:
   * every registered node gains exactly the children of the Assimp node found by its name,
   * in the tree's order. A node gets a parent exactly when some registered node's found node
   * lists it as a child, and then the parent is such a node; otherwise its parent stays.
   */
  lemma AssignChildrenEffect(root: AiNode, nodes: NodeRegistry, order: seq<string>, key: string)
    requires Enumerates(order, nodes.Keys) && PairsIn(FoundPairs(root, nodes, order), nodes) && key in nodes
    ensures LinkPairs(nodes, FoundPairs(root, nodes, order))[key].children ==
      nodes[key].children + FoundChildren(root, nodes, key)
    ensures LinkPairs(nodes, FoundPairs(root, nodes, order))[key].payload == nodes[key].payload
    ensures LinkPairs(nodes, FoundPairs(root, nodes, order))[key].local == nodes[key].local
    ensures (forall p | p in nodes :: key !in FoundChildren(root, nodes, p)) ==>
      LinkPairs(nodes, FoundPairs(root, nodes, order))[key].parent == nodes[key].parent
    ensures (exists p | p in nodes :: key in FoundChildren(root, nodes, p)) ==>
      var q := LinkPairs(nodes, FoundPairs(root, nodes, order))[key].parent;
      q.Some? && q.value in nodes && key in FoundChildren(root, nodes, q.value)
  {
    var pairs := FoundPairs(root, nodes, order);
    LinkPairsEffect(nodes, pairs, key);
    ChildrenAddedFound(root, nodes, order, key);
    LastParentMeaning(pairs, key);
    FoundPairsMeaning(root, nodes, order);
    if exists p | p in nodes :: key in FoundChildren(root, nodes, p) {
      var p :| p in nodes && key in FoundChildren(root, nodes, p);
      FoundPairsCover(root, nodes, order, p, key);
      var e :| 0 <= e < |pairs| && pairs[e] == (p, key);
      assert pairs[e].1 == key;
    }
  }

  // ---------------------------------------------------------------------------
  // init

  /** What Assimp's ReadFile returns: nothing, or a scene with its flags, meshes and root. */
  datatype AiScene = AiScene(incomplete: bool, meshes: seq<AiMesh>, root: Option<AiNode>)

  /** The guard of init: a scene, not flagged incomplete, with a root node. */
  predicate Loadable(scene: Option<AiScene>) {
    scene.Some? && !scene.value.incomplete && scene.value.root.Some?
  }

  /** The registries after process_node on the root. */
  function Processed(sc: AiScene, meshes: map<string, Mesh>, nodes: NodeRegistry): AiState
    requires sc.root.Some? && NodesFit(sc.meshes, PreOrder(sc.root.value))
  {
    Walk(sc.meshes, AiState(meshes, nodes), PreOrder(sc.root.value))
  }

  /** Every child the search reports after processing has been registered by it. */
  lemma ProcessedChildrenRegistered(sc: AiScene, meshes: map<string, Mesh>, nodes: NodeRegistry)
    requires sc.root.Some? && NodesFit(sc.meshes, PreOrder(sc.root.value))
    ensures ChildrenRegistered(sc.root.value, Processed(sc, meshes, nodes).nodes)
  {
    var root, p := sc.root.value, Processed(sc, meshes, nodes).nodes;
    WalkRegisters(sc.meshes, AiState(meshes, nodes), PreOrder(root));
    forall k, c | k in p && c in FoundChildren(root, p, k) ensures c in p {
      var name := p[k].payload.name;
      FindNodeMeaning(root, name);
      var found := FindNode(root, name).value;
      var i :| 0 <= i < |found.children| && found.children[i].name == c;
      ChildInPreOrder(root, found, found.children[i]);
    }
  }

  /** The node registry after assign_children, for the visiting order `order`. */
  function Wired(sc: AiScene, meshes: map<string, Mesh>, nodes: NodeRegistry, order: seq<string>): NodeRegistry
    requires sc.root.Some? && NodesFit(sc.meshes, PreOrder(sc.root.value))
    requires Enumerates(order, Processed(sc, meshes, nodes).nodes.Keys)
  {
    var p := Processed(sc, meshes, nodes).nodes;
    ProcessedChildrenRegistered(sc, meshes, nodes);
    FoundPairsMeaning(sc.root.value, p, order);
    assert PairsIn(FoundPairs(sc.root.value, p, order), p);
    LinkPairs(p, FoundPairs(sc.root.value, p, order))
  }

  /**
   * What init leaves for a loadable scene: the tree walked into the registries, every
   * registered node visited in `order` to wire its children, the parentless names as `roots`,
   * and the world transforms propagated from those roots.
   */
  predicate Imported(sc: AiScene, meshes0: map<string, Mesh>, nodes0: NodeRegistry,
                     meshes1: map<string, Mesh>, nodes1: NodeRegistry, roots: seq<string>, order: seq<string>)
    requires Loadable(Some(sc)) && NodesFit(sc.meshes, PreOrder(sc.root.value))
  {
    var walked := Processed(sc, meshes0, nodes0);
    && meshes1 == walked.meshes
    && Enumerates(order, walked.nodes.Keys)
    && IsRootList(Wired(sc, meshes0, nodes0, order), roots)
    && nodes1 == ReassignAll(Mul, Wired(sc, meshes0, nodes0, order), roots, Identity(), |Wired(sc, meshes0, nodes0, order)|)
  }

  /** What init returns and leaves: nothing touched for a scene it cannot load, else Imported. */
  predicate Outcome(scene: Option<AiScene>, meshes0: map<string, Mesh>, nodes0: NodeRegistry, ok: bool,
                    meshes1: map<string, Mesh>, nodes1: NodeRegistry, roots: seq<string>, order: seq<string>)
    requires Loadable(scene) ==> NodesFit(scene.value.meshes, PreOrder(scene.value.root.value))
  {
    if !Loadable(scene) then !ok && meshes1 == meshes0 && nodes1 == nodes0 && roots == []
    else ok && Imported(scene.value, meshes0, nodes0, meshes1, nodes1, roots, order)
  }

  /**
   * AssimpImport::init. Without a usable scene nothing changes. Otherwise the tree is
   * processed from the root, the children are wired in hash-map order (`order`), and every
   * parentless node is propagated from the identity and returned as a root.
   */
  method Import(scene: Option<AiScene>, meshes: map<string, Mesh>, nodes: NodeRegistry)
    returns (ok: bool, meshes': map<string, Mesh>, nodes': NodeRegistry, roots: seq<string>, ghost order: seq<string>)
    requires Loadable(scene) ==> NodesFit(scene.value.meshes, PreOrder(scene.value.root.value))
    ensures Outcome(scene, meshes, nodes, ok, meshes', nodes', roots, order)
  {
    if !Loadable(scene) {
      return false, meshes, nodes, [], [];
    }
    var sc := scene.value;
    var root := sc.root.value;
    var processed := ProcessNode(sc.meshes, AiState(meshes, nodes), root);
    ProcessedChildrenRegistered(sc, meshes, nodes);
    var wired;
    wired, order := AssignChildren(root, processed.nodes);
    meshes' := processed.meshes;
    nodes', roots := PropagateRoots(Mul, wired, Identity());
    ok := true;
  }
}
