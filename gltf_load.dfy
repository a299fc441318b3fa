/**
 * Primitive merging shared by the glTF importers (FastGltfImport in fastgltf_importer.cpp
 * and the older Scene in scene.cpp carry identical load_* members).
 *
 * A decoded primitive is given as the contents of the accessors it refers to. NORMAL and
 * TEXCOORD_0 are optional attributes (section 3.7.2.1 of the glTF 2.0 specification).
 */
module GltfLoad {
  import opened Wrappers
  import opened LinAlg
  import opened Types

  datatype Primitive = Primitive(
    indices: seq<U32>,
    positions: seq<Vec3>,
    normals: Option<seq<Vec3>>,
    uvs: Option<seq<Vec2>>)

  /**
   * A primitive as a valid glTF file provides it: the glTF 2.0 schema requires every accessor,
   * POSITION's included, to hold at least one element (which calculate_bounds relies on, reading
   * the first new position), and the optional attributes are written into slots sized by the
   * position count.
   */
  predicate Fits(p: Primitive) {
    && |p.positions| > 0
    && (p.normals.Some? ==> |p.normals.value| <= |p.positions|)
    && (p.uvs.Some? ==> |p.uvs.value| <= |p.positions|)
  }

  // ---------------------------------------------------------------------------
  // Sequence helpers

  /** `s` grown by n value-initialised slots (vector::resize). */
  function Padded<T>(s: seq<T>, n: nat, d: T): (r: seq<T>)
    ensures |r| == |s| + n && r[..|s|] == s
    ensures forall i | |s| <= i < |r| :: r[i] == d
  {
    s + seq(n, _ => d)
  }

  /** `s` with slots [start, start + |src|) replaced by src. */
  function Overwrite<T>(s: seq<T>, start: nat, src: seq<T>): (r: seq<T>)
    requires start + |src| <= |s|
    ensures |r| == |s|
    ensures forall i | 0 <= i < |s| :: r[i] == if start <= i < start + |src| then src[i - start] else s[i]
  {
    s[..start] + src + s[start + |src|..]
  }

  /** Overwriting the padding that was just added is appending. */
  lemma OverwritePadding<T>(s: seq<T>, src: seq<T>, d: T)
    ensures Overwrite(Padded(s, |src|, d), |s|, src) == s + src
  {
    var r := Overwrite(Padded(s, |src|, d), |s|, src);
    assert forall i | 0 <= i < |r| :: r[i] == (s + src)[i];
  }

  /** What an optional attribute contributes to the slots of n new vertices. */
  function Filled<T>(acc: Option<seq<T>>, n: nat, d: T): (r: seq<T>)
    requires acc.Some? ==> |acc.value| <= n
    ensures |r| == n
    ensures acc.None? ==> forall i | 0 <= i < n :: r[i] == d
    ensures acc.Some? ==> r[..|acc.value|] == acc.value && forall i | |acc.value| <= i < n :: r[i] == d
  {
    match acc
    case None => seq(n, _ => d)
    case Some(s) => Padded(s, n - |s|, d)
  }

  /** The indices of a primitive rebased onto the vertices already present, stored as uint32_t. */
  function Offset(idxs: seq<U32>, iv: nat): (r: seq<U32>)
    ensures |r| == |idxs|
    ensures forall k | 0 <= k < |idxs| :: idxs[k] + iv < U32Modulus ==> r[k] == idxs[k] + iv
  {
    seq(|idxs|, k requires 0 <= k < |idxs| => Wrap32(idxs[k] + iv))
  }

  // ---------------------------------------------------------------------------
  // Componentwise extremes of a non-empty run of positions

  function SeqMin(ps: seq<Vec3>): (r: Vec3)
    requires |ps| > 0
    ensures forall j | 0 <= j < |ps| :: LessEq3(r, ps[j])
    ensures (exists j | 0 <= j < |ps| :: r.x == ps[j].x) && (exists j | 0 <= j < |ps| :: r.y == ps[j].y)
    ensures exists j | 0 <= j < |ps| :: r.z == ps[j].z
  {
    if |ps| == 1 then ps[0]
    else
      var init := ps[..|ps| - 1];
      var r := Min3(SeqMin(init), ps[|ps| - 1]);
      assert forall j | 0 <= j < |init| :: init[j] == ps[j];
      r
  }

  function SeqMax(ps: seq<Vec3>): (r: Vec3)
    requires |ps| > 0
    ensures forall j | 0 <= j < |ps| :: LessEq3(ps[j], r)
    ensures (exists j | 0 <= j < |ps| :: r.x == ps[j].x) && (exists j | 0 <= j < |ps| :: r.y == ps[j].y)
    ensures exists j | 0 <= j < |ps| :: r.z == ps[j].z
  {
    if |ps| == 1 then ps[0]
    else
      var init := ps[..|ps| - 1];
      var r := Max3(SeqMax(init), ps[|ps| - 1]);
      assert forall j | 0 <= j < |init| :: init[j] == ps[j];
      r
  }

  // ---------------------------------------------------------------------------
  // The load_* members

  /** The callback loop of iterateAccessorWithIndex: slot start + k receives element k. */
  method WriteSlots<T>(s: seq<T>, start: nat, src: seq<T>) returns (r: seq<T>)
    requires start + |src| <= |s|
    ensures r == Overwrite(s, start, src)
  {
    r := s;
    var k := 0;
    while k < |src|
      invariant 0 <= k <= |src| && |r| == |s|
      invariant forall i | 0 <= i < |s| :: r[i] == if start <= i < start + k then src[i - start] else s[i]
    {
      r := r[start + k := src[k]];
      k := k + 1;
    }
  }

  /** load_indices: each accessor index plus initial_vertex, appended in order. */
  method LoadIndices(m: Mesh, idxs: seq<U32>, iv: nat) returns (r: Mesh)
    ensures r == m.(indices := m.indices + Offset(idxs, iv))
  {
    var indices := m.indices;
    var k := 0;
    while k < |idxs|
      invariant 0 <= k <= |idxs|
      invariant indices == m.indices + Offset(idxs[..k], iv)
    {
      assert Offset(idxs[..k + 1], iv) == Offset(idxs[..k], iv) + [Wrap32(idxs[k] + iv)];
      indices := indices + [Wrap32(idxs[k] + iv)];
      k := k + 1;
    }
    assert idxs[..k] == idxs;
    r := m.(indices := indices);
  }

  /**
   * load_positions: all three attribute arrays grow by the accessor count (new slots
   * value-initialised), then position slot initial_vertex + k receives element k.
   */
  method LoadPositions(m: Mesh, ps: seq<Vec3>, iv: nat) returns (r: Mesh)
    requires iv <= |m.positions|
    ensures r == m.(positions := Overwrite(Padded(m.positions, |ps|, Zero3), iv, ps),
                    normals := Padded(m.normals, |ps|, Zero3),
                    uvs := Padded(m.uvs, |ps|, Zero2))
  {
    var positions := Padded(m.positions, |ps|, Zero3);
    var normals := Padded(m.normals, |ps|, Zero3);
    var uvs := Padded(m.uvs, |ps|, Zero2);
    positions := WriteSlots(positions, iv, ps);
    r := m.(positions := positions, normals := normals, uvs := uvs);
  }

  /** load_normals: only when NORMAL is present, slots from initial_vertex on are overwritten. */
  method LoadNormals(m: Mesh, acc: Option<seq<Vec3>>, iv: nat) returns (r: Mesh)
    requires acc.Some? ==> iv + |acc.value| <= |m.normals|
    ensures acc.None? ==> r == m
    ensures acc.Some? ==> r == m.(normals := Overwrite(m.normals, iv, acc.value))
  {
    r := m;
    if acc.Some? {
      var normals := WriteSlots(m.normals, iv, acc.value);
      r := m.(normals := normals);
    }
  }

  /** load_uvs: only when TEXCOORD_0 is present, slots from initial_vertex on are overwritten. */
  method LoadUvs(m: Mesh, acc: Option<seq<Vec2>>, iv: nat) returns (r: Mesh)
    requires acc.Some? ==> iv + |acc.value| <= |m.uvs|
    ensures acc.None? ==> r == m
    ensures acc.Some? ==> r == m.(uvs := Overwrite(m.uvs, iv, acc.value))
  {
    r := m;
    if acc.Some? {
      var uvs := WriteSlots(m.uvs, iv, acc.value);
      r := m.(uvs := uvs);
    }
  }

  /** Extending a run of positions by one folds that position into the extremes. */
  lemma ExtremesSnoc(ps: seq<Vec3>, lo: nat, i: nat)
    requires lo < i < |ps|
    ensures SeqMin(ps[lo..i + 1]) == Min3(SeqMin(ps[lo..i]), ps[i])
    ensures SeqMax(ps[lo..i + 1]) == Max3(SeqMax(ps[lo..i]), ps[i])
  {
    var run := ps[lo..i + 1];
    assert run[..|run| - 1] == ps[lo..i] && run[|run| - 1] == ps[i];
  }

  /**
   * calculate_bounds: the componentwise min and max over the positions from initial_vertex to
   * the end, seeded with the first of them.
   */
  method CalculateBounds(m: Mesh, iv: nat) returns (r: Mesh)
    requires iv < |m.positions|
    ensures r == m.(bounds := Bounds(SeqMin(m.positions[iv..]), SeqMax(m.positions[iv..])))
  {
    var ps := m.positions;
    var minPos := ps[iv];
    var maxPos := minPos;
    var i := iv;
    while i < |ps|
      invariant iv <= i <= |ps|
      invariant i == iv ==> minPos == ps[iv] && maxPos == ps[iv]
      invariant i > iv ==> minPos == SeqMin(ps[iv..i]) && maxPos == SeqMax(ps[iv..i])
    {
      if i > iv {
        ExtremesSnoc(ps, iv, i);
      } else {
        assert ps[iv..i + 1] == [ps[iv]];
      }
      minPos := Min3(minPos, ps[i]);
      maxPos := Max3(maxPos, ps[i]);
      i := i + 1;
    }
    assert ps[iv..i] == ps[iv..];
    r := m.(bounds := Bounds(minPos, maxPos));
  }

  // ---------------------------------------------------------------------------
  // One primitive, as a reference definition

  /** What merging a primitive into a mesh means for the index and attribute arrays. */
  function AppendAttributes(m: Mesh, p: Primitive): Mesh
    requires Fits(p)
  {
    var n := |p.positions|;
    m.(indices := m.indices + Offset(p.indices, |m.positions|),
       positions := m.positions + p.positions,
       normals := m.normals + Filled(p.normals, n, Zero3),
       uvs := m.uvs + Filled(p.uvs, n, Zero2))
  }

  /** The primitive's own bounds. */
  function PrimitiveBounds(p: Primitive): Bounds
    requires Fits(p)
  {
    Bounds(SeqMin(p.positions), SeqMax(p.positions))
  }

  lemma AppendAttributesKeepsLengths(m: Mesh, p: Primitive)
    requires Fits(p) && SameLengths(m)
    ensures SameLengths(AppendAttributes(m, p))
    ensures |AppendAttributes(m, p).positions| == |m.positions| + |p.positions|
    ensures |AppendAttributes(m, p).indices| == |m.indices| + |p.indices|
  {
  }

  /** The load_* sequence the merge loops run for one primitive (initial_vertex = |positions|). */
  method LoadAttributes(m: Mesh, p: Primitive) returns (r: Mesh)
    requires SameLengths(m) && Fits(p)
    ensures r == AppendAttributes(m, p)
  {
    var iv := |m.positions|;
    r := LoadIndices(m, p.indices, iv);
    r := LoadPositions(r, p.positions, iv);
    OverwritePadding(m.positions, p.positions, Zero3);
    r := LoadNormals(r, p.normals, iv);
    r := LoadUvs(r, p.uvs, iv);
    var n := |p.positions|;
    assert r.normals == m.normals + Filled(p.normals, n, Zero3) by {
      if p.normals.Some? {
        var expected := m.normals + Filled(p.normals, n, Zero3);
        assert forall i | 0 <= i < |r.normals| :: r.normals[i] == expected[i];
      }
    }
    assert r.uvs == m.uvs + Filled(p.uvs, n, Zero2) by {
      if p.uvs.Some? {
        var expected := m.uvs + Filled(p.uvs, n, Zero2);
        assert forall i | 0 <= i < |r.uvs| :: r.uvs[i] == expected[i];
      }
    }
  }

  /** The body of FastGltfImport's primitive loop: the load_* sequence, then calculate_bounds. */
  method LoadPrimitive(m: Mesh, p: Primitive) returns (r: Mesh)
    requires SameLengths(m) && Fits(p)
    ensures r == AppendAttributes(m, p).(bounds := PrimitiveBounds(p))
  {
    var iv := |m.positions|;
    r := LoadAttributes(m, p);
    r := CalculateBounds(r, iv);
    assert r.positions[iv..] == p.positions;
  }
}
