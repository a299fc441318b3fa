/**
 * The per-mesh data model (Mesh, Triangle, Quad, Vertex, Bounds) and the layout and
 * triangulation members of Mesh. Mesh is a value type in the library (it is copied into
 * registries and out-parameters), so each member that mutates a mesh takes the old value
 * and returns the new one.
 */
module Types {
  import opened LinAlg
  import opened SceneGraph

  /** uint32_t. */
  type U32 = x: int | 0 <= x < 0x1_0000_0000

  const U32Modulus: int := 0x1_0000_0000

  /** The truncation a size_t value undergoes when stored into a uint32_t slot. */
  function Wrap32(x: nat): (r: U32)
    ensures x < U32Modulus ==> r == x
  {
    x % U32Modulus
  }

  /** Three vertex indices; equality is field-wise (winding and rotation matter). */
  datatype Triangle = Triangle(i0: U32, i1: U32, i2: U32)

  /** Four vertex indices and the two triangles the quad was assembled from. */
  datatype Quad = Quad(i0: U32, i1: U32, i2: U32, i3: U32, t1: Triangle, t2: Triangle)

  /** The interleaved (array-of-structures) record of one vertex. */
  datatype Vertex = Vertex(pos: Vec3, normal: Vec3, uv: Vec2)

  /** Axis-aligned bounding box. */
  datatype Bounds = Bounds(aabbMin: Vec3, aabbMax: Vec3)

  datatype Mesh = Mesh(
    name: string,
    bounds: Bounds,
    indices: seq<U32>,
    positions: seq<Vec3>,
    normals: seq<Vec3>,
    uvs: seq<Vec2>,
    triangles: seq<Triangle>,
    quads: seq<Quad>)

  /**
   * What a MeshNode carries besides its links and matrices: its name and its mesh references,
   * each the key of the mesh in the mesh registry.
   */
  datatype NodeInfo = NodeInfo(name: string, meshes: seq<string>)

  /** The node registry both importers fill, keyed by node name. */
  type NodeRegistry = Registry<string, NodeInfo>

  /**
   * A default-constructed Mesh: empty name and buffers. Its bounds are zero here; glm leaves
   * the vectors of a default-initialised Bounds indeterminate.
   */
  function EmptyMesh(): (m: Mesh)
    ensures m.indices == [] && m.positions == [] && m.normals == [] && m.uvs == []
    ensures m.triangles == [] && m.quads == []
  {
    Mesh("", Bounds(Zero3, Zero3), [], [], [], [], [], [])
  }

  /** The three attribute arrays are parallel. */
  predicate SameLengths(m: Mesh) {
    |m.positions| == |m.normals| == |m.uvs|
  }

  /** The invariant every imported mesh is meant to keep. */
  predicate WellFormed(m: Mesh) {
    SameLengths(m) && forall i | 0 <= i < |m.indices| :: m.indices[i] < |m.positions|
  }

  // ---------------------------------------------------------------------------
  // Layout conversion (get_AoS / from_AoS)

  /** The interleaved form of a mesh: one record per position. */
  function Interleaved(m: Mesh): seq<Vertex>
    requires |m.normals| >= |m.positions| && |m.uvs| >= |m.positions|
  {
    seq(|m.positions|, i requires 0 <= i < |m.positions| => Vertex(m.positions[i], m.normals[i], m.uvs[i]))
  }

  /** The mesh whose three attribute arrays are unzipped from `vertices`. */
  function Deinterleaved(m: Mesh, vertices: seq<Vertex>): Mesh {
    m.(positions := seq(|vertices|, i requires 0 <= i < |vertices| => vertices[i].pos),
       normals := seq(|vertices|, i requires 0 <= i < |vertices| => vertices[i].normal),
       uvs := seq(|vertices|, i requires 0 <= i < |vertices| => vertices[i].uv))
  }

  /** Mesh::get_AoS: a vertex buffer the size of positions, record i zipping slot i of each array. */
  method GetAoS(m: Mesh) returns (vertices: seq<Vertex>)
    requires |m.normals| >= |m.positions| && |m.uvs| >= |m.positions|
    ensures |vertices| == |m.positions|
    ensures forall i | 0 <= i < |vertices| :: vertices[i] == Vertex(m.positions[i], m.normals[i], m.uvs[i])
    ensures vertices == Interleaved(m)
  {
    var total := |m.positions|;
    var temp := new Vertex[total];
    var i := 0;
    while i < total
      invariant 0 <= i <= total
      invariant forall k | 0 <= k < i :: temp[k] == Vertex(m.positions[k], m.normals[k], m.uvs[k])
    {
      temp[i] := Vertex(m.positions[i], m.normals[i], m.uvs[i]);
      i := i + 1;
    }
    vertices := temp[..];
  }

  /** Mesh::from_AoS: all three arrays are resized to |vertices| and unzipped; nothing else changes. */
  method FromAoS(m: Mesh, vertices: seq<Vertex>) returns (r: Mesh)
    ensures |r.positions| == |r.normals| == |r.uvs| == |vertices|
    ensures forall i | 0 <= i < |vertices| ::
      r.positions[i] == vertices[i].pos && r.normals[i] == vertices[i].normal && r.uvs[i] == vertices[i].uv
    ensures r.(positions := m.positions, normals := m.normals, uvs := m.uvs) == m
    ensures r == Deinterleaved(m, vertices)
  {
    var total := |vertices|;
    var positions := new Vec3[total];
    var normals := new Vec3[total];
    var uvs := new Vec2[total];
    var i := 0;
    while i < total
      invariant 0 <= i <= total
      invariant forall k | 0 <= k < i ::
        positions[k] == vertices[k].pos && normals[k] == vertices[k].normal && uvs[k] == vertices[k].uv
    {
      positions[i] := vertices[i].pos;
      normals[i] := vertices[i].normal;
      uvs[i] := vertices[i].uv;
      i := i + 1;
    }
    r := m.(positions := positions[..], normals := normals[..], uvs := uvs[..]);
  }

  /** Converting to the interleaved form and back reproduces the three arrays exactly. */
  lemma FromAoSOfGetAoS(m: Mesh)
    requires SameLengths(m)
    ensures Deinterleaved(m, Interleaved(m)) == m
  {
    var r := Deinterleaved(m, Interleaved(m));
    assert r.positions == m.positions;
    assert r.normals == m.normals;
    assert r.uvs == m.uvs;
  }

  /** Unzipping and zipping again gives back the same vertex buffer. */
  lemma GetAoSOfFromAoS(m: Mesh, vertices: seq<Vertex>)
    ensures Interleaved(Deinterleaved(m, vertices)) == vertices
  {
  }

  // ---------------------------------------------------------------------------
  // Triangulation (calculate_triangles)

  /** One triangle per run of three consecutive indices, in index-buffer order. */
  function Triangulate(indices: seq<U32>): seq<Triangle>
    decreases |indices|
  {
    if |indices| < 3 then []
    else [Triangle(indices[0], indices[1], indices[2])] + Triangulate(indices[3..])
  }

  lemma {:induction false} TriangulateAt(indices: seq<U32>, k: nat)
    requires |indices| % 3 == 0
    ensures |Triangulate(indices)| == |indices| / 3
    ensures k < |indices| / 3 ==>
      Triangulate(indices)[k] == Triangle(indices[3 * k], indices[3 * k + 1], indices[3 * k + 2])
  {
    if |indices| >= 3 {
      var rest := indices[3..];
      TriangulateAt(rest, if k > 0 then k - 1 else 0);
      if k > 0 && k < |indices| / 3 {
        assert rest[3 * (k - 1)] == indices[3 * k];
        assert rest[3 * (k - 1) + 1] == indices[3 * k + 1];
        assert rest[3 * (k - 1) + 2] == indices[3 * k + 2];
      }
    }
  }

  /**
   * Mesh::calculate_triangles. The index count must be a multiple of three (otherwise the
   * source reads past the end of the index buffer); only `triangles` changes.
   */
  method CalculateTriangles(m: Mesh) returns (r: Mesh)
    requires |m.indices| % 3 == 0
    ensures |r.triangles| == |m.indices| / 3
    ensures forall k | 0 <= k < |r.triangles| ::
      r.triangles[k] == Triangle(m.indices[3 * k], m.indices[3 * k + 1], m.indices[3 * k + 2])
    ensures r == m.(triangles := Triangulate(m.indices))
  {
    var size := |m.indices|;
    var triangles := new Triangle[size / 3];
    var idx := 0;
    while idx < size
      invariant 0 <= idx <= size && idx % 3 == 0
      invariant forall k | 0 <= k < idx / 3 ::
        triangles[k] == Triangle(m.indices[3 * k], m.indices[3 * k + 1], m.indices[3 * k + 2])
    {
      triangles[idx / 3] := Triangle(m.indices[idx], m.indices[idx + 1], m.indices[idx + 2]);
      idx := idx + 3;
    }
    TriangulateAt(m.indices, 0);
    forall k | 0 <= k < size / 3
      ensures triangles[..][k] == Triangulate(m.indices)[k]
    {
      TriangulateAt(m.indices, k);
    }
    r := m.(triangles := triangles[..]);
  }

  /** The worked example: six indices give two triangles, in order. */
  lemma TriangulateSixIndices()
    ensures Triangulate([0, 1, 2, 3, 4, 5]) == [Triangle(0, 1, 2), Triangle(3, 4, 5)]
  {
    var six: seq<U32> := [0, 1, 2, 3, 4, 5];
    assert six[3..] == [3, 4, 5];
  }
}
