/**
 * The older glTF front end, class Scene (includes/scene.hpp, sources/scene.cpp). It shares
 * the load_* members with FastGltfImport but merges primitives without computing bounds,
 * never sets the merged mesh's name, and builds no nodes.
 *
 * The legacy MeshNode (children as shared references, parent as a weak reference) is the
 * SceneGraph node with the payload left empty; its reassign_transforms is the same walk.
 */
module LegacyScene {
  import opened Wrappers
  import opened Types
  import opened GltfLoad
  import opened SceneGraph
  import opened KeyedStore
  import opened FastGltfImporter

  /** What a fastgltf loader returns: the decoded meshes, or an error code. */
  datatype LoadResult = Loaded(meshes: seq<GltfMesh>) | LoadError(code: int)

  /** The legacy MeshNode: links and matrices only. */
  type LegacyNode = Node<string, ()>

  // ---------------------------------------------------------------------------
  // The legacy merge

  /** The mesh the legacy primitive loop builds: a default Mesh with every primitive merged in order. */
  function LegacyMerged(prims: seq<Primitive>): Mesh
    requires AllFit(prims)
    decreases |prims|
  {
    if prims == [] then EmptyMesh()
    else AppendAttributes(LegacyMerged(prims[..|prims| - 1]), prims[|prims| - 1])
  }

  /**
   * The two front ends build the same index and attribute arrays; the legacy mesh keeps the
   * default name and bounds where FastGltfImport sets the name and the last primitive's bounds.
   */
  lemma {:induction false} LegacyAgreesWithFastGltf(name: string, prims: seq<Primitive>)
    requires AllFit(prims)
    ensures LegacyMerged(prims) == MergedMesh(name, prims).(name := "", bounds := EmptyMesh().bounds)
    decreases |prims|
  {
    if prims != [] {
      var init := prims[..|prims| - 1];
      AllFitPrefix(prims, |prims| - 1);
      LegacyAgreesWithFastGltf(name, init);
    }
  }

  /** Hence the legacy merge keeps the arrays parallel and, under the same conditions, in range. */
  lemma LegacyMergedWellFormed(prims: seq<Primitive>)
    requires AllFit(prims)
    ensures SameLengths(LegacyMerged(prims)) && |LegacyMerged(prims).positions| == TotalVertices(prims)
    ensures LocalIndicesValid(prims) && TotalVertices(prims) <= U32Modulus ==> WellFormed(LegacyMerged(prims))
  {
    LegacyAgreesWithFastGltf("", prims);
    MergedMeshShape("", prims);
    if LocalIndicesValid(prims) && TotalVertices(prims) <= U32Modulus {
      MergedIndicesInRange("", prims);
    }
  }

  function LegacyMergedOf(gm: GltfMesh): Mesh
    requires AllFit(gm.primitives)
  {
    LegacyMerged(gm.primitives)
  }

  function LegacyMergedMeshes(gms: seq<GltfMesh>): (r: seq<Mesh>)
    requires MeshesFit(gms)
    ensures |r| == |gms| && forall i | 0 <= i < |gms| :: r[i] == LegacyMergedOf(gms[i])
  {
    seq(|gms|, i requires 0 <= i < |gms| => LegacyMergedOf(gms[i]))
  }

  /** `meshes[mesh.name] = new_mesh` for each glTF mesh in order. */
  function LegacyStored(meshes: map<string, Mesh>, gms: seq<GltfMesh>): map<string, Mesh>
    requires MeshesFit(gms)
  {
    Stored(meshes, MeshNames(gms), LegacyMergedMeshes(gms))
  }

  /**
   * Every glTF mesh name is a key afterwards, holding the merge of the last glTF mesh of that
   * name; names no glTF mesh carries keep their old mesh.
   */
  lemma LegacyStoredContents(meshes: map<string, Mesh>, gms: seq<GltfMesh>)
    requires MeshesFit(gms)
    ensures forall k :: k in LegacyStored(meshes, gms) <==> k in meshes || k in MeshNames(gms)
    ensures forall i | 0 <= i < |gms| && (forall j | i < j < |gms| :: gms[j].name != gms[i].name) ::
      LegacyStored(meshes, gms)[gms[i].name] == LegacyMerged(gms[i].primitives)
    ensures forall k | k in meshes && k !in MeshNames(gms) :: LegacyStored(meshes, gms)[k] == meshes[k]
  {
    var names, vals := MeshNames(gms), LegacyMergedMeshes(gms);
    forall k ensures k in LegacyStored(meshes, gms) <==> k in meshes || k in names {
      StoredKeys(meshes, names, vals, k);
    }
    forall i | 0 <= i < |gms| && (forall j | i < j < |gms| :: gms[j].name != gms[i].name)
      ensures LegacyStored(meshes, gms)[gms[i].name] == LegacyMerged(gms[i].primitives)
    {
      StoredLastWins(meshes, names, vals, i);
    }
    forall k | k in meshes && k !in names ensures LegacyStored(meshes, gms)[k] == meshes[k] {
      StoredUntouched(meshes, names, vals, k);
    }
  }

  lemma LegacyStoredSnoc(meshes: map<string, Mesh>, gms: seq<GltfMesh>, i: nat)
    requires MeshesFit(gms) && i < |gms|
    ensures MeshesFit(gms[..i]) && MeshesFit(gms[..i + 1]) && AllFit(gms[i].primitives)
    ensures LegacyStored(meshes, gms[..i + 1]) == LegacyStored(meshes, gms[..i])[gms[i].name := LegacyMergedOf(gms[i])]
  {
    MeshesFitPrefix(gms, i);
    MeshesFitPrefix(gms, i + 1);
    var keys, vals := MeshNames(gms[..i + 1]), LegacyMergedMeshes(gms[..i + 1]);
    assert keys[..i] == MeshNames(gms[..i]);
    assert vals[..i] == LegacyMergedMeshes(gms[..i]);
    StoredSnoc(meshes, keys, vals, i);
    assert |keys| == i + 1 && |vals| == i + 1;
  }

  /** The legacy primitive loop for one glTF mesh: the load_* sequence per primitive, no bounds. */
  method LegacyMergeMesh(gm: GltfMesh) returns (m: Mesh)
    requires AllFit(gm.primitives)
    ensures m == LegacyMergedOf(gm)
  {
    var prims := gm.primitives;
    m := EmptyMesh();
    var j := 0;
    while j < |prims|
      invariant 0 <= j <= |prims| && AllFit(prims[..j])
      invariant m == LegacyMerged(prims[..j])
    {
      AllFitPrefix(prims, j + 1);
      assert prims[..j + 1][..j] == prims[..j];
      LegacyMergedWellFormed(prims[..j]);
      m := LoadAttributes(m, prims[j]);
      j := j + 1;
    }
    assert prims[..j] == prims;
  }

  /** The merge loop of Scene::init: each glTF mesh merged and stored under the glTF mesh's name. */
  method StoreLegacyMeshes(meshes: map<string, Mesh>, gms: seq<GltfMesh>) returns (r: map<string, Mesh>)
    requires MeshesFit(gms)
    ensures r == LegacyStored(meshes, gms)
  {
    r := meshes;
    var i := 0;
    while i < |gms|
      invariant 0 <= i <= |gms| && MeshesFit(gms[..i])
      invariant r == LegacyStored(meshes, gms[..i])
    {
      LegacyStoredSnoc(meshes, gms, i);
      var m := LegacyMergeMesh(gms[i]);
      r := r[gms[i].name := m];
      i := i + 1;
    }
    assert gms[..i] == gms;
  }

  // ---------------------------------------------------------------------------
  // File-type dispatch

  /**
   * The meshes Scene::init goes on to merge: those of loadGltf for a glTF file, those of
   * loadGltfBinary for a GLB file; nothing for a loader error or any other file type.
   */
  function Dispatch(kind: GltfType, textLoad: LoadResult, binaryLoad: LoadResult): (r: Option<seq<GltfMesh>>)
    ensures kind == Invalid ==> r == None
    ensures kind == GltfJson ==> (r.Some? <==> textLoad.Loaded?) && (r.Some? ==> r.value == textLoad.meshes)
    ensures kind == GltfBinary ==> (r.Some? <==> binaryLoad.Loaded?) && (r.Some? ==> r.value == binaryLoad.meshes)
  {
    var load := match kind
      case GltfJson => Some(textLoad)
      case GltfBinary => Some(binaryLoad)
      case Invalid => None;
    if load.Some? && load.value.Loaded? then Some(load.value.meshes) else None
  }

  predicate LoadFits(load: LoadResult) {
    load.Loaded? ==> MeshesFit(load.meshes)
  }

  class Scene {
    var meshes: map<string, Mesh>
    var nodes: Registry<string, ()>
    var imageFiles: map<string, string>
    var topNodes: seq<LegacyNode>

    constructor ()
      ensures meshes == map[] && nodes == map[] && imageFiles == map[] && topNodes == []
    {
      meshes := map[];
      nodes := map[];
      imageFiles := map[];
      topNodes := [];
    }

    /**
     * Scene::init over the file type and what each loader would return for the file. Only
     * the mesh registry changes, and only when a loader for the file's type succeeds.
     */
    method Init(kind: GltfType, textLoad: LoadResult, binaryLoad: LoadResult) returns (ok: bool)
      requires LoadFits(textLoad) && LoadFits(binaryLoad)
      modifies this
      ensures ok == Dispatch(kind, textLoad, binaryLoad).Some?
      ensures !ok ==> meshes == old(meshes)
      ensures ok ==> meshes == LegacyStored(old(meshes), Dispatch(kind, textLoad, binaryLoad).value)
      ensures nodes == old(nodes) && imageFiles == old(imageFiles) && topNodes == old(topNodes)
    {
      var gms: seq<GltfMesh>;
      match kind {
        case GltfJson =>
          if textLoad.LoadError? {
            return false;
          }
          gms := textLoad.meshes;
        case GltfBinary =>
          if binaryLoad.LoadError? {
            return false;
          }
          gms := binaryLoad.meshes;
        case Invalid =>
          return false;
      }
      meshes := StoreLegacyMeshes(meshes, gms);
      return true;
    }

    /** Scene::destroy: all four containers emptied. */
    method Destroy() returns (ok: bool)
      modifies this
      ensures ok && meshes == map[] && nodes == map[] && imageFiles == map[] && topNodes == []
    {
      meshes := map[];
      nodes := map[];
      imageFiles := map[];
      topNodes := [];
      return true;
    }
  }
}
