/**
 * Model (includes/model.hpp, sources/model.cpp): the registries an application holds for one
 * loaded file, filled by one of the two importers, and the queries over them.
 *
 * The file-system test and the importers' inputs (the decoded glTF asset, the scene Assimp
 * read) are parameters of Init.
 */
module AssetModel {
  import opened Wrappers
  import opened LinAlg
  import opened Types
  import opened SceneGraph
  import opened KeyedStore
  import FG = FastGltfImporter
  import AI = AssimpImporter

  /** IMPORTER, and any other value its underlying uint8_t can hold. */
  datatype ImporterKind = FastGltf | Assimp | Unknown

  predicate EndsWith(s: string, suffix: string) {
    |suffix| <= |s| && s[|s| - |suffix|..] == suffix
  }

  /** std::string_view::ends_with is a byte comparison: the test is case-sensitive. */
  predicate IsGltfPath(path: string) {
    EndsWith(path, ".gltf") || EndsWith(path, ".glb")
  }

  lemma GltfPathExamples()
    ensures IsGltfPath("scene.gltf") && IsGltfPath("scene.glb")
    ensures !IsGltfPath("scene.GLTF") && !IsGltfPath("scene.obj") && !IsGltfPath("glb")
  {
    assert "scene.gltf"[5..] == ".gltf";
    assert "scene.glb"[5..] == ".glb";
    assert "scene.GLTF"[5..] != ".gltf";
    assert "scene.GLTF"[6..] != ".glb";
    assert "scene.obj"[5..] != ".glb";
    assert "scene.obj"[4..] != ".gltf";
  }

  // ---------------------------------------------------------------------------
  // get_meshes

  /** The registry's meshes in the iteration order `order`. */
  function MeshesInOrder(meshes: map<string, Mesh>, order: seq<string>): (r: seq<Mesh>)
    requires forall i | 0 <= i < |order| :: order[i] in meshes
    ensures |r| == |order| && forall i | 0 <= i < |order| :: r[i] == meshes[order[i]]
  {
    seq(|order|, i requires 0 <= i < |order| => meshes[order[i]])
  }

  /**
   * The vector get_meshes returns as written: `mesh_vec(meshes.size())` already holds that many
   * default meshes, and each registry mesh is pushed after them.
   */
  function MeshListAsWritten(meshes: map<string, Mesh>, order: seq<string>): seq<Mesh>
    requires forall i | 0 <= i < |order| :: order[i] in meshes
  {
    seq(|meshes|, _ => EmptyMesh()) + MeshesInOrder(meshes, order)
  }

  /**
   * As written, the result has twice as many entries as the registry has meshes, and its first
   * half is default meshes: a registry holding one mesh yields two, the first one empty.
   */
  lemma GetMeshesDoubles(meshes: map<string, Mesh>, order: seq<string>)
    requires Enumerates(order, meshes.Keys)
    ensures |MeshListAsWritten(meshes, order)| == 2 * |meshes|
    ensures forall i | 0 <= i < |meshes| :: MeshListAsWritten(meshes, order)[i] == EmptyMesh()
    ensures forall i | 0 <= i < |meshes| :: MeshListAsWritten(meshes, order)[|meshes| + i] == meshes[order[i]]
  {
    EnumeratesSize(order, meshes.Keys);
    assert |meshes| == |meshes.Keys|;
    var r, n := MeshListAsWritten(meshes, order), |meshes|;
    assert |r| == n + |order|;
    forall i | 0 <= i < n ensures r[i] == EmptyMesh() && r[n + i] == meshes[order[i]] {
      assert r[n + i] == MeshesInOrder(meshes, order)[i];
    }
  }

  lemma GetMeshesOneMesh(m: Mesh)
    requires m != EmptyMesh()
    ensures MeshListAsWritten(map["a" := m], ["a"]) == [EmptyMesh(), m]
  {
    var meshes := map["a" := m];
    assert meshes.Keys == {"a"};
    assert |meshes| == 1;
  }

  /**
   * The list get_meshes is meant to return: one entry per registry mesh, each mesh of the
   * registry once, in iteration order.
   */
  lemma MeshListContents(meshes: map<string, Mesh>, order: seq<string>)
    requires Enumerates(order, meshes.Keys)
    ensures |MeshesInOrder(meshes, order)| == |meshes|
    ensures forall k | k in meshes :: exists i | 0 <= i < |order| :: order[i] == k && MeshesInOrder(meshes, order)[i] == meshes[k]
    ensures forall i | 0 <= i < |order| :: MeshesInOrder(meshes, order)[i] in meshes.Values
  {
    EnumeratesSize(order, meshes.Keys);
    forall k | k in meshes ensures exists i | 0 <= i < |order| :: order[i] == k && MeshesInOrder(meshes, order)[i] == meshes[k] {
      var i :| 0 <= i < |order| && order[i] == k;
    }
    forall i | 0 <= i < |order| ensures MeshesInOrder(meshes, order)[i] in meshes.Values {
      assert meshes[order[i]] in meshes.Values;
    }
  }

  // ---------------------------------------------------------------------------
  // The model

  class Model {
    var meshes: map<string, Mesh>
    var nodes: NodeRegistry
    var parentNodes: seq<string>
    var imageFiles: map<string, string>

    /** Every registry starts empty. */
    constructor ()
      ensures meshes == map[] && nodes == map[] && parentNodes == [] && imageFiles == map[]
    {
      meshes := map[];
      nodes := map[];
      parentNodes := [];
      imageFiles := map[];
    }

    /**
     * Model::init. A missing file, a FASTGLTF request for a file not named .gltf or .glb, and
     * an unknown importer fail with nothing changed. Otherwise the chosen importer fills the
     * registries (see InitFastGltf and InitAssimp).
     */
    method Init(path: string, importer: ImporterKind, fileExists: bool, asset: FG.Asset, scene: Option<AI.AiScene>)
      returns (ok: bool, ghost roots: seq<string>, ghost order: seq<string>)
      requires importer == FastGltf && asset.kind != FG.Invalid ==> FG.ValidAsset(asset)
      requires importer == Assimp && AI.Loadable(scene) ==> AI.NodesFit(scene.value.meshes, AI.PreOrder(scene.value.root.value))
      modifies this
      ensures imageFiles == old(imageFiles)
      ensures !fileExists || importer == Unknown || (importer == FastGltf && !IsGltfPath(path)) ==> !ok
      ensures !ok ==> meshes == old(meshes) && nodes == old(nodes) && parentNodes == old(parentNodes)
      ensures fileExists && importer == FastGltf && IsGltfPath(path) ==> ok == (asset.kind != FG.Invalid)
      ensures fileExists && importer == Assimp ==> ok == AI.Loadable(scene)
      ensures ok ==> parentNodes == old(parentNodes) + roots
      ensures ok && importer == FastGltf ==> FG.Imported(asset, old(meshes), old(nodes), meshes, nodes, roots)
      ensures ok && importer == Assimp ==> AI.Imported(scene.value, old(meshes), old(nodes), meshes, nodes, roots, order)
    {
      roots, order := [], [];
      if !fileExists {
        return false, roots, order;
      }
      match importer {
        case FastGltf =>
          if !IsGltfPath(path) {
            return false, roots, order;
          }
          ok, roots := InitFastGltf(asset);
        case Assimp =>
          ok, roots, order := InitAssimp(scene);
        case Unknown =>
          return false, roots, order;
      }
    }

    /** The FASTGLTF branch of Model::init: FastGltfImport::init on the registries. */
    method InitFastGltf(asset: FG.Asset) returns (ok: bool, ghost roots: seq<string>)
      requires asset.kind != FG.Invalid ==> FG.ValidAsset(asset)
      modifies this`meshes, this`nodes, this`parentNodes
      ensures FG.Outcome(asset, old(meshes), old(nodes), ok, meshes, nodes, roots)
      ensures parentNodes == old(parentNodes) + roots
    {
      var meshes', nodes', found;
      ok, meshes', nodes', found := FG.Import(asset, meshes, nodes);
      meshes, nodes, parentNodes := meshes', nodes', parentNodes + found;
      roots := found;
    }

    /** The ASSIMP branch of Model::init: AssimpImport::init on the registries. */
    method InitAssimp(scene: Option<AI.AiScene>) returns (ok: bool, ghost roots: seq<string>, ghost order: seq<string>)
      requires AI.Loadable(scene) ==> AI.NodesFit(scene.value.meshes, AI.PreOrder(scene.value.root.value))
      modifies this`meshes, this`nodes, this`parentNodes
      ensures AI.Outcome(scene, old(meshes), old(nodes), ok, meshes, nodes, roots, order)
      ensures parentNodes == old(parentNodes) + roots
    {
      var meshes', nodes', found;
      ok, meshes', nodes', found, order := AI.Import(scene, meshes, nodes);
      meshes, nodes, parentNodes := meshes', nodes', parentNodes + found;
      roots := found;
    }

    /** Model::destroy: every registry and the root list emptied. */
    method Destroy() returns (ok: bool)
      modifies this
      ensures ok && meshes == map[] && nodes == map[] && parentNodes == [] && imageFiles == map[]
    {
      parentNodes := [];
      meshes := map[];
      nodes := map[];
      imageFiles := map[];
      ok := true;
    }

    /**
     * Model::get_mesh_w_name, with the caller's mesh passed in: found exactly when the name
     * is a key, and then the registry's mesh; otherwise the caller's mesh is left as it was.
     */
    function GetMeshWName(name: string, mesh: Mesh): (r: (bool, Mesh))
      reads this
      ensures r.0 <==> name in meshes
      ensures r.0 ==> r.1 == meshes[name]
      ensures !r.0 ==> r.1 == mesh
    {
      if name !in meshes then (false, mesh) else (true, meshes[name])
    }

    /** Model::check_mesh_w_name. */
    function CheckMeshWName(name: string): (b: bool)
      reads this
    {
      name in meshes
    }

    /** The check succeeds exactly when the lookup does, and the lookup finds a registry mesh. */
    lemma CheckAgreesWithGet(name: string, mesh: Mesh)
      ensures CheckMeshWName(name) == GetMeshWName(name, mesh).0
      ensures CheckMeshWName(name) ==> GetMeshWName(name, mesh).1 in meshes.Values
    {
    }

    /**
     * Model::set_transform: every root in parentNodes, in order, walked from the new matrix;
     * only the nodes' world transforms change.
     */
    method SetTransform(m: Mat4)
      modifies this
      ensures nodes == ReassignAll(Mul, old(nodes), parentNodes, m, |old(nodes)|)
      ensures meshes == old(meshes) && parentNodes == old(parentNodes) && imageFiles == old(imageFiles)
    {
      ghost var start := nodes;
      var fuel := |nodes|;
      var i := 0;
      while i < |parentNodes|
        invariant 0 <= i <= |parentNodes| && meshes == old(meshes) && parentNodes == old(parentNodes)
        invariant imageFiles == old(imageFiles)
        invariant nodes == ReassignAll(Mul, start, parentNodes[..i], m, fuel)
      {
        ReassignAllAppend(Mul, start, parentNodes[..i], parentNodes[i], m, fuel);
        assert parentNodes[..i + 1] == parentNodes[..i] + [parentNodes[i]];
        nodes := ReassignTransforms(Mul, nodes, parentNodes[i], m, fuel);
        i := i + 1;
      }
      assert parentNodes[..i] == parentNodes;
    }

    /**
     * Model::get_meshes as written: the registry's size in default meshes, then every
     * registry mesh in hash-map order.
     */
    method GetMeshesAsWritten() returns (r: seq<Mesh>, ghost order: seq<string>)
      ensures Enumerates(order, meshes.Keys)
      ensures r == MeshListAsWritten(meshes, order)
    {
      r := seq(|meshes|, _ => EmptyMesh());
      order := [];
      var rest := meshes.Keys;
      VisitingStart(meshes.Keys);
      while rest != {}
        invariant Visiting(order, rest, meshes.Keys) && forall i | 0 <= i < |order| :: order[i] in meshes
        invariant r == MeshListAsWritten(meshes, order)
        decreases rest
      {
        var k :| k in rest;
        VisitingStep(order, rest, meshes.Keys, k);
        assert MeshesInOrder(meshes, order + [k]) == MeshesInOrder(meshes, order) + [meshes[k]];
        r := r + [meshes[k]];
        order := order + [k];
        rest := rest - {k};
      }
      VisitingDone(order, meshes.Keys);
    }

    /** get_meshes as evidently intended (reserving rather than sizing the vector). */
    method GetMeshes() returns (r: seq<Mesh>, ghost order: seq<string>)
      ensures Enumerates(order, meshes.Keys)
      ensures r == MeshesInOrder(meshes, order)
    {
      r := [];
      order := [];
      var rest := meshes.Keys;
      VisitingStart(meshes.Keys);
      while rest != {}
        invariant Visiting(order, rest, meshes.Keys) && forall i | 0 <= i < |order| :: order[i] in meshes
        invariant r == MeshesInOrder(meshes, order)
        decreases rest
      {
        var k :| k in rest;
        VisitingStep(order, rest, meshes.Keys, k);
        assert MeshesInOrder(meshes, order + [k]) == MeshesInOrder(meshes, order) + [meshes[k]];
        r := r + [meshes[k]];
        order := order + [k];
        rest := rest - {k};
      }
      VisitingDone(order, meshes.Keys);
    }
  }
}
