/**
 * Real-valued stand-ins for the glm vector and matrix types the library uses.
 * A glm::mat4 is stored as four columns; element (row, col) is column col, component row.
 */
module LinAlg {
  datatype Vec2 = Vec2(x: real, y: real)
  datatype Vec3 = Vec3(x: real, y: real, z: real)
  datatype Vec4 = Vec4(x: real, y: real, z: real, w: real)
  datatype Mat4 = Mat4(c0: Vec4, c1: Vec4, c2: Vec4, c3: Vec4)

  /** The value a default-initialised (value-initialised) glm vector holds. */
  const Zero2: Vec2 := Vec2(0.0, 0.0)
  const Zero3: Vec3 := Vec3(0.0, 0.0, 0.0)

  function Component(v: Vec4, r: nat): real
    requires r < 4
  {
    if r == 0 then v.x else if r == 1 then v.y else if r == 2 then v.z else v.w
  }

  function Column(m: Mat4, c: nat): Vec4
    requires c < 4
  {
    if c == 0 then m.c0 else if c == 1 then m.c1 else if c == 2 then m.c2 else m.c3
  }

  /** The element at row `row`, column `col`. */
  function At(m: Mat4, row: nat, col: nat): real
    requires row < 4 && col < 4
  {
    Component(Column(m, col), row)
  }

  /** glm::mat4{1.f}: ones on the diagonal. */
  function Identity(): (m: Mat4)
    ensures forall r, c | 0 <= r < 4 && 0 <= c < 4 :: At(m, r, c) == if r == c then 1.0 else 0.0
  {
    Mat4(Vec4(1.0, 0.0, 0.0, 0.0), Vec4(0.0, 1.0, 0.0, 0.0),
         Vec4(0.0, 0.0, 1.0, 0.0), Vec4(0.0, 0.0, 0.0, 1.0))
  }

  function Scale(v: Vec4, s: real): Vec4 {
    Vec4(v.x * s, v.y * s, v.z * s, v.w * s)
  }

  function Add(a: Vec4, b: Vec4): Vec4 {
    Vec4(a.x + b.x, a.y + b.y, a.z + b.z, a.w + b.w)
  }

  /** m * v: the combination of m's columns weighted by v's components. */
  function Apply(m: Mat4, v: Vec4): Vec4 {
    Add(Add(Scale(m.c0, v.x), Scale(m.c1, v.y)), Add(Scale(m.c2, v.z), Scale(m.c3, v.w)))
  }

  /** The matrix product a * b, column by column. */
  function Mul(a: Mat4, b: Mat4): Mat4 {
    Mat4(Apply(a, b.c0), Apply(a, b.c1), Apply(a, b.c2), Apply(a, b.c3))
  }

  /** Row-times-column definition of the product, element by element. */
  function RowTimesColumn(a: Mat4, b: Mat4, r: nat, c: nat): real
    requires r < 4 && c < 4
  {
    At(a, r, 0) * At(b, 0, c) + At(a, r, 1) * At(b, 1, c) + At(a, r, 2) * At(b, 2, c) + At(a, r, 3) * At(b, 3, c)
  }

  /** Mul agrees with the textbook definition of the matrix product. */
  lemma MulAt(a: Mat4, b: Mat4, r: nat, c: nat)
    requires r < 4 && c < 4
    ensures At(Mul(a, b), r, c) == RowTimesColumn(a, b, r, c)
  {
    var col := Column(b, c);
    var p0, p1, p2, p3 := Component(a.c0, r) * col.x, Component(a.c1, r) * col.y,
                          Component(a.c2, r) * col.z, Component(a.c3, r) * col.w;
    calc {
      At(Mul(a, b), r, c);
      Component(Apply(a, col), r);
      { ComponentLinear(a, col, r); }
      (p0 + p1) + (p2 + p3);
      RowTimesColumn(a, b, r, c);
    }
  }

  lemma ComponentLinear(m: Mat4, v: Vec4, r: nat)
    requires r < 4
    ensures Component(Apply(m, v), r)
         == (Component(m.c0, r) * v.x + Component(m.c1, r) * v.y) + (Component(m.c2, r) * v.z + Component(m.c3, r) * v.w)
  {
    if r == 0 {
      assert Component(Apply(m, v), r) == Apply(m, v).x;
    } else if r == 1 {
      assert Component(Apply(m, v), r) == Apply(m, v).y;
    } else if r == 2 {
      assert Component(Apply(m, v), r) == Apply(m, v).z;
    } else {
      assert Component(Apply(m, v), r) == Apply(m, v).w;
    }
  }

  /** The identity seed leaves a local transform as it is. */
  lemma IdentityMulLeft(m: Mat4)
    ensures Mul(Identity(), m) == m
  {
  }

  /** Componentwise min and max, as glm::min / glm::max on vec3. */
  function Min3(a: Vec3, b: Vec3): (r: Vec3)
    ensures LessEq3(r, a) && LessEq3(r, b)
    ensures r.x == a.x || r.x == b.x
    ensures r.y == a.y || r.y == b.y
    ensures r.z == a.z || r.z == b.z
  {
    Vec3(if a.x <= b.x then a.x else b.x, if a.y <= b.y then a.y else b.y, if a.z <= b.z then a.z else b.z)
  }

  function Max3(a: Vec3, b: Vec3): (r: Vec3)
    ensures LessEq3(a, r) && LessEq3(b, r)
    ensures r.x == a.x || r.x == b.x
    ensures r.y == a.y || r.y == b.y
    ensures r.z == a.z || r.z == b.z
  {
    Vec3(if a.x >= b.x then a.x else b.x, if a.y >= b.y then a.y else b.y, if a.z >= b.z then a.z else b.z)
  }

  /** Componentwise a <= b. */
  predicate LessEq3(a: Vec3, b: Vec3) {
    a.x <= b.x && a.y <= b.y && a.z <= b.z
  }

  function Dot3(a: Vec3, b: Vec3): real {
    a.x * b.x + a.y * b.y + a.z * b.z
  }

  /** glm::abs(glm::dot(a, b)), the score the quad best-match minimises. */
  function AbsDot(a: Vec3, b: Vec3): (r: real)
    ensures r >= 0.0
    ensures r == Dot3(a, b) || r == -Dot3(a, b)
  {
    var d := Dot3(a, b);
    if d < 0.0 then -d else d
  }
}
