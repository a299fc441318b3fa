# PXD-AssetLib mesh import, modelled in Dafny

PXD-AssetLib loads 3-D models into one in-memory form. Meshes hold an index buffer, three
parallel attribute arrays (positions, normals, UVs), and optionally the triangle and quad
lists derived from them. Nodes form a tree of local and world transforms.
Two importers fill these registries:
- `FastGltfImport`, over the fastgltf decoder;
- `AssimpImport`, over Assimp.

An older glTF front end, `Scene`, and the `Model` facade sit on top of them.

The decoders themselves are not modelled. Each importer takes an already-decoded input datatype:
- a glTF `Asset` of meshes, primitives and nodes;
- an Assimp `AiScene` of meshes, faces and an `AiNode` tree.

From that input the model follows the code's own loops over the registries.

Modules, by source file:

| module | file | models |
|---|---|---|
| `LinAlg` | linalg.dfy | glm vectors and column-major 4×4 matrices over reals |
| `Types` | types.dfy | `Mesh`, `Triangle`, `Quad`, `Vertex`, `Bounds`, `get_AoS`/`from_AoS`, `calculate_triangles` (sources/types.cpp) |
| `Quads` | quads.dfy | `is_adjacent`, `get_different_index`, `fill_quad_triangles`, `get_quad_string`, `calculate_quads` (sources/types.cpp) |
| `SceneGraph` | scene_graph.dfy | `MeshNode` records in a registry keyed by name, the recursive `reassign_transforms`, and its meaning on a forest (includes/types.hpp, includes/scene.hpp) |
| `KeyedStore` | keyed_store.dfy | `map[key] = value` in a loop, and the iteration order of a hash map |
| `Wiring` | wiring.dfy | the `child.parent = parent; parent.children.push_back(child)` step both importers repeat |
| `GltfLoad` | gltf_load.dfy | `load_indices`, `load_positions`, `load_normals`, `load_uvs`, `calculate_bounds` (identical in fastgltf_importer.cpp and scene.cpp) |
| `FastGltfImporter` | gltf_import.dfy | `FastGltfImport::init`, `assign_transforms`, the wiring and root loops |
| `LegacyScene` | legacy_scene.dfy | `Scene::init` (file-type dispatch and mesh merge) and `Scene::destroy` |
| `AssimpImporter` | assimp_import.dfy | `ai2glm`, `ai2glm_mat4x4`, `process_mesh`, `process_node`, `assign_children`, `add_parents`, `AssimpImport::init` |
| `AssetModel` | model.dfy | class `Model`: `init`, `destroy`, `get_mesh_w_name`, `check_mesh_w_name`, `set_transform`, `get_meshes` |

Modelling choices:
- **Mesh** is a value type in the library: it is copied into maps, out-parameters and vectors. It is therefore a datatype. Each member that mutates a mesh is a method taking the old mesh and returning the new one.
- **Node registry:** a `map` from the node's name to a `Node` record (parent, children, payload, local, world). Parent and child pointers become names resolved through the registry. The legacy `MeshNode` is the same record with an empty payload.
- **`Model`** is a class whose fields (`meshes`, `nodes`, `parentNodes`, `imageFiles`) its methods update.
- **Loops** are methods with loop invariants. Each method is proved equal to a function that recurses over a prefix, and the properties are lemmas about that function.
- **Hash-map iteration order** is unspecified. Each loop over a map therefore picks its next key nondeterministically and returns the visiting order as a ghost output. The contracts hold for every such order.
- **Matrix product:** `reassign_transforms` and its theorems take the product as a parameter `mul`. They are instantiated with the concrete 4×4 `LinAlg.Mul`. The path-product theorem asks only that `mul` be associative.
- **Recursion depth:** the walk over children is bounded by a fuel argument, the number of registry nodes. The theorems hold whenever that bound exceeds every node's depth (`Forest`).

## Model

| member | source | states |
|---|---|---|
| Types.GetAoS | sources/types.cpp:12-29 | one vertex record per position; record i is (positions[i], normals[i], uvs[i]) |
| Types.FromAoS | sources/types.cpp:31-48 | positions, normals and uvs all take the length of the vertex list; slot i of each is the matching field of vertex i; every other mesh field is unchanged |
| Types.FromAoSOfGetAoS | sources/types.cpp:12-48 | interleaving and then de-interleaving a mesh whose three arrays have equal length gives back the mesh |
| Types.GetAoSOfFromAoS | sources/types.cpp:12-48 | de-interleaving and then interleaving gives back the vertex list |
| Types.CalculateTriangles | sources/types.cpp:50-67 | needs a multiple-of-three index count; gives \|indices\|/3 triangles, triangle k being (indices[3k], indices[3k+1], indices[3k+2]); everything else unchanged |
| Types.TriangulateAt | sources/types.cpp:50-67 | the triangle count and triangle k of the triangulation, for any index buffer of length divisible by three |
| Types.TriangulateSixIndices | sources/types.cpp:50-67 | six indices give the two triangles (0,1,2) and (3,4,5) |
| Quads.IsAdjacentMeaning | sources/types.cpp:75-87 | is_adjacent(a, b) holds iff a.i_0 equals b's field at some position p and a.i_1 or a.i_2 equals b's field at a position other than p |
| Quads.IsAdjacentIsNotSymmetric | sources/types.cpp:75-87 | (1,2,5) counts as adjacent to (0,1,2) but not the reverse: the edge (a.i_1, a.i_2) alone is not detected |
| Quads.GetDifferentIndex | sources/types.cpp:89-125 | 0 when the triangles are not adjacent; otherwise 0 or a field of b; when b's fields are distinct and a, b share exactly two values including a.i_0, it is b's field not in a |
| Quads.NeighboursMembership | sources/types.cpp:127-149 | a triangle's adjacency list holds exactly the triangles of the list that differ from it and are adjacent to it, and is no longer than the list |
| Quads.FillQuadTriangles | sources/types.cpp:127-149 | the existing entries are kept; one entry per triangle is appended in order, pairing it with its neighbours in increasing index order |
| Quads.BestIsFirstMinimum | sources/types.cpp:182-196 | the best match is the first neighbour of strictly smallest score below the initial bound, with every neighbour scoring at least that; if no neighbour beats the bound, the default triangle and the bound |
| Quads.BestMatch | sources/types.cpp:182-196 | the best-match loop computes that choice (strict `<` tie-break) |
| Quads.InsertSortedCorrect | sources/types.cpp:151-158 | inserting into a sorted list keeps it sorted and adds exactly the one element |
| Quads.SortAscendingCorrect | sources/types.cpp:151-158 | the sort used for the key is sorted and a permutation of its input |
| Quads.SortedUnique | sources/types.cpp:151-158 | two sorted lists with the same elements are equal |
| Quads.QuadKeyIff | sources/types.cpp:151-158 | two quads share a key iff their four indices are the same multiset, so permuting i_0..i_3 leaves the key unchanged |
| Quads.SortInPlace | sources/types.cpp:151-158 | the in-place sort of the four-index array leaves it sorted and a permutation of what it held |
| Quads.Swap | sources/types.cpp:151-158 | exchanges two array slots; the array's multiset is unchanged |
| Quads.GetQuadString | sources/types.cpp:151-158 | the key is the quad's indices in ascending order |
| Quads.Candidates | sources/types.cpp:173-201 | one candidate quad per triangle, including triangles with no neighbour |
| Quads.CandidateQuadMeaning | sources/types.cpp:173-201 | a candidate has the main triangle's indices and the main triangle as t1; t2 is a neighbour or, when none beats the bound (in particular when there is none), the default triangle; i_3 is get_different_index(t1, t2) |
| Quads.FirstByKeyContents | sources/types.cpp:201 | insert keeps one quad per key: every candidate's key is present; every entry is a candidate stored under its own key; the map is no larger than the candidate list |
| Quads.FirstByKeyKeepsFirst | sources/types.cpp:201 | a candidate whose key no earlier candidate has is the one stored under that key |
| Quads.CollectCandidates | sources/types.cpp:173-201 | the candidate loop builds the first-per-key map of the candidates |
| Quads.QuadsOf | sources/types.cpp:167-212 | needs the first index of every triangle below \|normals\|; the quads are the values of the first-per-key candidate map, each value once and no two with the same key, and there are at most as many quads as triangles |
| Quads.MapValues | sources/types.cpp:204-212 | copying the map into the output lists each value exactly once, in some order |
| Quads.CalculateQuads | sources/types.cpp:160-213 | triangles are recomputed only when empty; nothing but triangles and quads changes; quads lists the values of the first-per-key candidate map, at most one per triangle |
| Quads.CalculateQuadsExample | sources/types.cpp:163-165 | the indices [0,1,2,0,2,3] give the single quad keyed 0,1,2,3, built from (0,1,2) and (0,2,3) |
| LinAlg.IdentityMulLeft | includes/types.hpp:45-47 | the identity the importers propagate from is a left unit of the product |
| SceneGraph.NewNode | includes/types.hpp:37-38 | a new node has no parent and no children, so it is both a root and a leaf |
| SceneGraph.ReassignTransforms | includes/types.hpp:45-51 | the recursive walk: world := parent_matrix * local on the node, then each child in list order with the new world |
| SceneGraph.ReassignAllShape | includes/types.hpp:45-51 | walking any list of subtrees changes no key, parent, children, payload or local transform |
| SceneGraph.ReassignAllFrame | includes/types.hpp:45-51 | nodes outside the subtrees walked are unchanged |
| SceneGraph.ReassignSound | includes/types.hpp:45-51 | on a forest, given the parent's world, every node reachable from the walked node ends with its global world (the product along its parent chain) |
| SceneGraph.PropagateSound | includes/types.hpp:45-51 | walking every root of a forest from m leaves every node holding m times its parent chain's locals, with only worlds changed |
| SceneGraph.PropagateWorlds | includes/scene.hpp:33-39 | after that walk a root's world is m * local, and any other node's world is its parent's world * local |
| SceneGraph.GlobalWorldIsPathProduct | includes/types.hpp:45-51 | for an associative product, a node's world is m times the product of the locals on its root-to-node path |
| SceneGraph.PropagateForest | includes/types.hpp:45-51 | on any forest, walking every root with the fuel the importers and set_transform use (the registry size) leaves every node holding its global world and changes nothing else |
| SceneGraph.DepthsRankForest | includes/types.hpp:48-50 | every forest is ranked by depth, and every depth is below the number of nodes |
| SceneGraph.ReachFromRoot | includes/types.hpp:48-50 | in a forest every node is reached by walking the children from its root |
| SceneGraph.PropagateRoots | sources/fastgltf_importer.cpp:97-104 | the root loop: the returned names are exactly the parentless nodes, each once, and every one of them is walked from m |
| Wiring.LinkPairsEffect | sources/fastgltf_importer.cpp:87-95 | after wiring a list of (parent, child) pairs, each node's children gain, in order, the children of its pairs; its parent is that of the last pair naming it as child; payload and matrices stay |
| Wiring.LastParentMeaning | sources/fastgltf_importer.cpp:87-95 | the parent a node ends with comes from a pair naming it as child, and no later pair names it |
| KeyedStore.StoredKeys | sources/scene.cpp:93 | storing by key in a loop: a key is present afterwards iff it was present before or was stored |
| KeyedStore.StoredLastWins | sources/scene.cpp:93 | the value of a repeated key is the last one stored |
| KeyedStore.StoredUntouched | sources/scene.cpp:93 | keys never stored keep their old value |
| KeyedStore.VisitingDone | sources/assimp_importer.cpp:124-142 | the loop-exit step: once no key is left to visit, the keys visited so far are an enumeration of the map's keys, each once; the visit itself is carried by each map loop's `Visiting` invariant |
| GltfLoad.Offset | sources/fastgltf_importer.cpp:109-123 | each index is rebased by initial_vertex; stored in uint32 it is index + initial_vertex whenever that fits |
| GltfLoad.WriteSlots | sources/fastgltf_importer.cpp:138-141 | the accessor callback loop: slot start+k receives element k of the accessor for every k; every other slot and the length are unchanged |
| GltfLoad.LoadIndices | sources/fastgltf_importer.cpp:109-123 | the rebased indices are appended in order; existing indices and every other field are untouched |
| GltfLoad.LoadPositions | sources/fastgltf_importer.cpp:125-142 | all three attribute arrays grow by the accessor count; slot initial_vertex+k gets position k; new normals and UVs are zero |
| GltfLoad.LoadNormals | sources/fastgltf_importer.cpp:144-157 | only when NORMAL is present, slots [initial_vertex, initial_vertex+count) get the accessor's normals; otherwise the mesh is unchanged |
| GltfLoad.LoadUvs | sources/fastgltf_importer.cpp:159-172 | only when TEXCOORD_0 is present, slots [initial_vertex, initial_vertex+count) get the accessor's UVs; otherwise the mesh is unchanged |
| GltfLoad.OverwritePadding | sources/fastgltf_importer.cpp:125-142 | zero-padding the array and then writing the new slots is appending the accessor's elements |
| GltfLoad.SeqMin | sources/fastgltf_importer.cpp:174-188 | a componentwise lower bound of the run of positions, attained in each component |
| GltfLoad.SeqMax | sources/fastgltf_importer.cpp:174-188 | a componentwise upper bound of the run of positions, attained in each component |
| GltfLoad.CalculateBounds | sources/fastgltf_importer.cpp:174-188 | needs initial_vertex < \|positions\|; sets aabb_min/aabb_max to the componentwise extremes of positions[initial_vertex..]; nothing else changes |
| GltfLoad.AppendAttributesKeepsLengths | sources/fastgltf_importer.cpp:68-75 | merging a primitive keeps the three arrays the same length and grows them by its vertex count |
| GltfLoad.LoadAttributes | sources/scene.cpp:81-91 | the load_* sequence for one primitive appends its attributes, offset by the vertex count before it |
| GltfLoad.LoadPrimitive | sources/fastgltf_importer.cpp:68-75 | the same, then the bounds of that primitive's vertices |
| FastGltfImporter.MergedMeshShape | sources/fastgltf_importer.cpp:63-80 | the merged mesh keeps parallel arrays holding the total vertex count; its bounds are those of the last primitive |
| FastGltfImporter.MergedIndicesInRange | sources/fastgltf_importer.cpp:63-76 | if each primitive's raw indices are below its own vertex count, every merged index is below \|positions\| |
| FastGltfImporter.MergeMesh | sources/fastgltf_importer.cpp:63-80 | the primitive loop builds the merged mesh, named after the glTF mesh |
| FastGltfImporter.StoreMeshes | sources/fastgltf_importer.cpp:63-80 | the mesh loop stores each merged mesh under its name and records the names in order |
| FastGltfImporter.StoredMeshesContents | sources/fastgltf_importer.cpp:78-79 | afterwards the keys are the old ones plus the glTF mesh names; a name holds the merge of its last mesh; other entries are kept |
| FastGltfImporter.BuiltNode | sources/fastgltf_importer.cpp:198-205 | a new node has its glTF name and local matrix, no links, and exactly one mesh reference, mesh_names[meshIndex], when it has a mesh index |
| FastGltfImporter.AssignTransforms | sources/fastgltf_importer.cpp:190-234 | node names are recorded in declaration order and each node is stored under its name |
| FastGltfImporter.AssignedContents | sources/fastgltf_importer.cpp:231-232 | afterwards a node name holds the node built from its last declaration; other entries are kept |
| FastGltfImporter.WireChildren | sources/fastgltf_importer.cpp:87-95 | the wiring loop links node_names[i] to node_names[c] for each node i and child c, in order |
| FastGltfImporter.Import | sources/fastgltf_importer.cpp:12-107 | an invalid file type returns false with nothing touched; otherwise meshes are stored, nodes registered and wired, the parentless nodes returned as roots, and worlds propagated from identity |
| LegacyScene.LegacyAgreesWithFastGltf | sources/scene.cpp:78-94 | the legacy merge builds the same index and attribute arrays as FastGltfImport, keeping the default name and bounds |
| LegacyScene.LegacyMergedWellFormed | sources/scene.cpp:81-91 | the legacy merge keeps the arrays parallel and, for in-range primitive indices, every index in range |
| LegacyScene.LegacyMergeMesh | sources/scene.cpp:81-91 | the legacy primitive loop builds that merge |
| LegacyScene.StoreLegacyMeshes | sources/scene.cpp:78-94 | the merge loop stores each merged mesh under its glTF name |
| LegacyScene.LegacyStoredContents | sources/scene.cpp:93 | a later mesh with the same name overwrites an earlier one; other entries are kept |
| LegacyScene.Dispatch | sources/scene.cpp:42-74 | glTF uses loadGltf and GLB uses loadGltfBinary; a loader error or any other type gives nothing |
| LegacyScene.Scene.constructor | includes/scene.hpp:78-82 | meshes, nodes, image_files and top_nodes all start empty |
| LegacyScene.Scene.Init | sources/scene.cpp:12-97 | returns true iff the loader for the file's type succeeds; only then are the meshes stored; nothing else changes |
| LegacyScene.Scene.Destroy | sources/scene.cpp:99-108 | empties meshes, nodes, image_files and top_nodes and returns true |
| AssimpImporter.Ai2GlmMat4x4 | includes/assimp_importer.hpp:28-46 | the element at row r, column c is preserved |
| AssimpImporter.Mat4x4RoundTrip | includes/assimp_importer.hpp:30-45 | the conversion is undone by its reverse, both ways round, so it is invertible |
| AssimpImporter.VectorRoundTrip | includes/assimp_importer.hpp:26 | ai2glm of a 3-vector copies every component, undone by its reverse |
| AssimpImporter.ConvertedMeshShape | sources/assimp_importer.cpp:79-122 | the result has the mesh AABB, parallel arrays of length mNumVertices, the converted positions, zero normals/UVs when those are missing, and the faces' indices |
| AssimpImporter.ProcessMesh | sources/assimp_importer.cpp:79-122 | the vertex and face loops build that mesh |
| AssimpImporter.FaceIndicesRun | sources/assimp_importer.cpp:111-119 | each face's indices appear, in face order, as a contiguous run of the index buffer |
| AssimpImporter.TriangleFaces | sources/assimp_importer.cpp:111-119 | for triangular faces, triangle f of the index buffer is face f |
| AssimpImporter.FindNodeMeaning | sources/assimp_importer.cpp:129 | the node search finds a node of that name in the tree, and finds nothing only if no node has it |
| AssimpImporter.FindNodeIsFirst | sources/assimp_importer.cpp:129 | the search returns the first node of that name in depth-first pre-order |
| AssimpImporter.PreOrderSplit | sources/assimp_importer.cpp:74-76 | the visiting order is the node, then each child's subtree in order |
| AssimpImporter.StoreNodeMeshes | sources/assimp_importer.cpp:60-68 | each attached mesh is converted and stored by name, and its name recorded, in order |
| AssimpImporter.ProcessNode | sources/assimp_importer.cpp:48-77 | the recursive walk equals visiting the tree in pre-order, each node stored before its children |
| AssimpImporter.WalkNodesContents | sources/assimp_importer.cpp:72 | afterwards the registry holds each visited name, the last node of a repeated name winning, and other entries are kept |
| AssimpImporter.AssignChildren | sources/assimp_importer.cpp:124-142 | every registry node is visited once and linked to the children the search finds for it |
| AssimpImporter.LinkFoundChildren | sources/assimp_importer.cpp:135-140 | the inner loop for one registry entry: after it, the registry is the links made so far plus (entry, child) for each child of the found node, in child order |
| AssimpImporter.AssignChildrenEffect | sources/assimp_importer.cpp:124-142 | a node's children gain exactly its found children; payload and local are kept; a node found as a child gets a parent that found it, and any other node keeps its parent |
| AssimpImporter.Import | sources/assimp_importer.cpp:11-46 | a null, incomplete or rootless scene returns false with nothing touched; otherwise process_node, assign_children and add_parents, whose parentless nodes are the roots |
| AssetModel.GltfPathExamples | sources/model.cpp:24-28 | the suffix check accepts .gltf and .glb and is case-sensitive |
| AssetModel.Model.constructor | includes/model.hpp:32-35 | all four containers start empty |
| AssetModel.Model.Init | sources/model.cpp:14-40 | a missing file, an unknown selector, or FASTGLTF on a non-glTF path fails with the registries untouched; otherwise the chosen importer's result and effect, with its roots appended to parent_nodes |
| AssetModel.Model.InitFastGltf | sources/model.cpp:29-31 | the FASTGLTF branch: FastGltfImport's outcome on the registries, roots appended to parent_nodes |
| AssetModel.Model.InitAssimp | sources/model.cpp:32-35 | the ASSIMP branch: AssimpImport's outcome on the registries, roots appended to parent_nodes |
| AssetModel.Model.Destroy | sources/model.cpp:42-51 | clears parent_nodes, meshes, nodes and image_files, and returns true |
| AssetModel.Model.GetMeshWName | sources/model.cpp:99-108 | true iff the name is present; then a copy of that mesh, else the out-parameter unchanged |
| AssetModel.Model.CheckAgreesWithGet | sources/model.cpp:110-114 | check_mesh_w_name answers exactly as get_mesh_w_name's result |
| AssetModel.Model.SetTransform | sources/model.cpp:116-122 | every root in parent_nodes is walked with the new matrix; nothing else changes |
| AssetModel.GetMeshesDoubles | sources/model.cpp:124-134 | as written the result has 2·n entries: n default meshes followed by the registry's meshes |
| AssetModel.GetMeshesOneMesh | sources/model.cpp:124-134 | a registry holding one mesh yields two entries, the first one empty |
| AssetModel.Model.GetMeshesAsWritten | sources/model.cpp:124-134 | the loop as written builds that list |
| AssetModel.MeshListContents | sources/model.cpp:124-134 | the intended list has one entry per registry mesh, holds each mesh, and holds nothing else |
| AssetModel.Model.GetMeshes | sources/model.cpp:124-134 | the corrected loop returns the registry's meshes in iteration order |

## Left out

- `Model::optimize_meshes` (sources/model.cpp:53-97) is five calls into meshoptimizer, whose algorithms are not part of this model.
- File decoding is not modelled: fastgltf's parser, `loadFromFile`, `determineGltfFileType` and `iterateAccessor*`, and Assimp's `ReadFile`. Each importer takes the decoded asset or scene as a parameter instead. The unchecked `load.get()` (sources/fastgltf_importer.cpp:55) is assumed to succeed.
- `GltfLoad.LoadIndices`: a glTF primitive may lack an indices accessor (non-indexed geometry is legal glTF 2.0). `p.indicesAccessor.value()` (sources/fastgltf_importer.cpp:116, sources/scene.cpp:117) then throws `std::bad_optional_access` and aborts `init` mid-merge, after the earlier meshes are already stored. `Primitive.indices` is mandatory in the model, so that failure path and the partially filled registry it leaves are not modelled.
- Every primitive has at least one position (`GltfLoad.Fits`). The glTF 2.0 schema requires an accessor's `count` to be at least 1.
- `pxd::fs::exists` becomes the `fileExists` parameter of `Model.Init`.
- The file type the decoder reports becomes a field of the decoded asset.
- Floats are modelled as reals. Rounding is not modelled.
- The best-match score is `|dot|` of two normals over reals. Only its order, with the strict `<` tie-break, is relied on.
- `sphere_radius` (sources/fastgltf_importer.cpp:187, sources/assimp_importer.cpp:88-89) needs a square root and is not computed. The model's `Bounds` carry only the AABB.
- glTF TRS composition (section 3.5.2 of the glTF 2.0 specification) and the raw `memcpy` of a matrix (sources/fastgltf_importer.cpp:207-229) are not modelled. A decoded node carries its local matrix as given.
- The initial value of a node's world transform (`SceneGraph.NewNode` sets the identity; the source's `glm::mat4 world_transform` at includes/types.hpp:43 is default-constructed) is overwritten for every node reached from a root. A node reached from no root keeps it. That happens when the links are not a forest, e.g. an Assimp tree A→B→A' where A' reuses the name A, which leaves no parentless node. The model does not promise the source's default value there.
- `Types.EmptyMesh` gives a default mesh zero bounds. In the source, `Mesh new_mesh;` (sources/scene.cpp:79, sources/fastgltf_importer.cpp:64) is default-initialised, and the `glm::vec3` members of `Bounds` (includes/types.hpp:14-20) are not zero-initialised because `GLM_FORCE_CTOR_INIT` is not defined (includes/types.hpp:3-5). So the bounds of every legacy mesh, and of a FastGltf mesh with no primitives, are indeterminate in the source. `LegacyScene.LegacyAgreesWithFastGltf` and `FastGltfImporter.MergeMesh` start from that zero value, which the source does not promise.
- `SceneGraph.PropagateForest` takes `Forest` as a hypothesis. No lemma derives it for an importer's wired registry, for example from a tree-shaped input with distinct names. A caller has to establish `Forest` for `Import`'s registry before the theorem applies to its worlds.
- Logging and the `exit` inside `log_error` are not modelled, and neither is the demo program in main.cpp.
- Pointer and address stability into the hash maps is not modelled, and neither is `shared_ptr`/`weak_ptr` ownership. References are registry keys.
- `LegacyScene.Scene.Init`: the legacy `Scene` keys its registries by `std::string_view` (includes/scene.hpp:78-80), and sources/scene.cpp:93 stores the view of `mesh.name` of the local `gltf` asset (sources/scene.cpp:37). Every key therefore dangles once `init` returns. The model keys by the name's value, so it does not capture that dangling.
- `image_files` is never populated by the code. It is kept as a field that only the constructor and `destroy` change.
- Hash-map iteration order is not fixed. Each loop over a map returns its visiting order as a ghost value, and the contracts hold for every order.
- `SceneGraph.ReassignTransforms`: the recursion is bounded by fuel, namely the registry size. On a cyclic child list the source recurses without end, and the model stops. The theorems cover forests, where the fuel suffices.
- `SceneGraph.GlobalWorldIsPathProduct` takes associativity of the product as a hypothesis rather than proving it for real 4×4 matrices.
- Quads key: `get_quad_string` formats the sorted indices as a string with separators. The model's `GetQuadString` keeps the sorted index sequence itself, which is equal for two quads exactly when the string is.
- Undefined behaviour in the source becomes a precondition:
  - glTF mesh indices and child indices must address existing entries (`FastGltfImporter.ValidAsset`);
  - `get_AoS` needs `normals` and `uvs` at least as long as `positions` (sources/types.cpp:19-23; `Types.GetAoS`);
  - `calculate_quads` needs the first index of every triangle below `|normals|` (`Quads.FirstIndicesBelow`). The source reads `normals` only inside the neighbour loop (sources/types.cpp:186-190), so it also accepts an out-of-range first index on a triangle with no neighbour; `Quads.CalculateQuads` does not cover that case;
  - Assimp mesh references must be in range (`NodesFit`);
  - optional attribute arrays must be no longer than the positions (`Fits`, `AiMeshFits`);
  - every glTF primitive needs a POSITION attribute: without one, `p.findAttribute("POSITION")->second` (sources/fastgltf_importer.cpp:132, sources/scene.cpp:133) dereferences `attributes.end()`. The model's `Primitive.positions` is mandatory, so a primitive without POSITION is not covered (glTF 2.0 makes the attribute optional);
  - `calculate_triangles` needs an index count divisible by three;
  - `calculate_bounds` needs a non-empty run of positions.
- `AssimpImporter.AssignChildren` requires `ChildrenRegistered`: every child the search finds is in the registry. `AssimpImporter.Import` establishes this for the registry `process_node` leaves.
- `aiNode::FindNode` is Assimp code. It is modelled as what it does: the first node of that name in depth-first pre-order.
- `AssetModel.Model.InitFastGltf`: the revisions disagree on how the importers take `parent_nodes`.
  - By value: the declarations at includes/assimp_importer.hpp:13 and includes/types.hpp:60, and the definition of `FastGltfImport::init` at sources/fastgltf_importer.cpp:16. As written, the FASTGLTF branch (sources/model.cpp:30) therefore leaves `Model::parent_nodes` unchanged, and a later `set_transform` walks nothing.
  - By reference: the declarations at includes/base_importer.hpp:16 and includes/fastgltf_importer.hpp:22, and the definition of `AssimpImport::init` at sources/assimp_importer.cpp:15.
  - The model follows the by-reference declarations. Each importer returns its root list explicitly, and `Model.Init` appends it to `parentNodes` for both importers. The model does not capture the FastGltfImport definition's empty root list.
- `LegacyScene.Scene.Init`: the legacy mesh's `triangles` and `quads` stay empty, as in the source, and no nodes are built.
- `AssimpImporter.Ai2GlmUv`: UV set 0 is read as an `aiVector3D`, and the model keeps its first two components. The `aiVector2D` overload of `ai2glm` at includes/assimp_importer.hpp:27 is used nowhere and is not modelled separately.
- `AssetModel.Model.CheckMeshWName` has no contract of its own. `CheckAgreesWithGet` ties it to `GetMeshWName`.

## Findings

| source | as written | input that shows it | evidently intended | confidence | as-written member | corrected member |
|---|---|---|---|---|---|---|
| sources/model.cpp:124-134 | `std::vector<Mesh> mesh_vec(meshes.size())` constructs n default meshes, and the loop then `push_back`s every registry mesh after them, giving 2·n entries | a registry holding one mesh: the result is a default mesh followed by that mesh | n entries, one per registry mesh (`reserve` rather than the size constructor) | not executed | AssetModel.GetMeshesDoubles | AssetModel.MeshListContents |
