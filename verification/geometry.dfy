/** Value types shared by the homography core: points, quads, homogeneous
    3-vectors and row-major 3x3 matrices, all over exact reals. */
module Geometry {

  /** The absolute tolerance every guard of the core compares against (1e-12). */
  const Eps: real := 0.000000000001

  function Abs(x: real): real {
    if x < 0.0 then -x else x
  }

  datatype Point = Point(x: real, y: real)

  /** Four points in a fixed order; index k of a source quad corresponds to
      index k of a destination quad. */
  datatype Quad = Quad(p0: Point, p1: Point, p2: Point, p3: Point) {
    function At(k: int): Point
      requires 0 <= k < 4
    {
      if k == 0 then p0 else if k == 1 then p1 else if k == 2 then p2 else p3
    }
  }

  /** A homogeneous coordinate (x, y, w). */
  datatype Vec3 = Vec3(x: real, y: real, w: real)

  /** A 3x3 matrix in row-major order: m0 m1 m2 / m3 m4 m5 / m6 m7 m8. */
  datatype Mat3 = Mat3(m0: real, m1: real, m2: real,
                       m3: real, m4: real, m5: real,
                       m6: real, m7: real, m8: real)

  /** A point lifted to homogeneous coordinates, (x, y, 1). */
  function Lift(p: Point): Vec3 {
    Vec3(p.x, p.y, 1.0)
  }

  function ScaleVec(s: real, v: Vec3): Vec3 {
    Vec3(s * v.x, s * v.y, s * v.w)
  }

  function AddVec(u: Vec3, v: Vec3): Vec3 {
    Vec3(u.x + v.x, u.y + v.y, u.w + v.w)
  }

  /** Column `j` of `m`, for j in 0..2. */
  function Column(m: Mat3, j: int): Vec3
    requires 0 <= j < 3
  {
    if j == 0 then Vec3(m.m0, m.m3, m.m6)
    else if j == 1 then Vec3(m.m1, m.m4, m.m7)
    else Vec3(m.m2, m.m5, m.m8)
  }

  function Identity(): Mat3 {
    Mat3(1.0, 0.0, 0.0,
         0.0, 1.0, 0.0,
         0.0, 0.0, 1.0)
  }

  /** The matrix product p * q. */
  function Mul(p: Mat3, q: Mat3): Mat3 {
    Mat3(p.m0 * q.m0 + p.m1 * q.m3 + p.m2 * q.m6,
         p.m0 * q.m1 + p.m1 * q.m4 + p.m2 * q.m7,
         p.m0 * q.m2 + p.m1 * q.m5 + p.m2 * q.m8,
         p.m3 * q.m0 + p.m4 * q.m3 + p.m5 * q.m6,
         p.m3 * q.m1 + p.m4 * q.m4 + p.m5 * q.m7,
         p.m3 * q.m2 + p.m4 * q.m5 + p.m5 * q.m8,
         p.m6 * q.m0 + p.m7 * q.m3 + p.m8 * q.m6,
         p.m6 * q.m1 + p.m7 * q.m4 + p.m8 * q.m7,
         p.m6 * q.m2 + p.m7 * q.m5 + p.m8 * q.m8)
  }

  /** The matrix-vector product m * v, row by row. */
  function MulMat3Vec3(m: Mat3, v: Vec3): Vec3 {
    Vec3(m.m0 * v.x + m.m1 * v.y + m.m2 * v.w,
         m.m3 * v.x + m.m4 * v.y + m.m5 * v.w,
         m.m6 * v.x + m.m7 * v.y + m.m8 * v.w)
  }

  /** Read by columns, m v is the combination v.x col0 + v.y col1 + v.w col2,
      and m sends the j-th unit vector to its column j. */
  lemma MulMat3Vec3Columns(m: Mat3, v: Vec3)
    ensures MulMat3Vec3(m, v) ==
      AddVec(AddVec(ScaleVec(v.x, Column(m, 0)), ScaleVec(v.y, Column(m, 1))), ScaleVec(v.w, Column(m, 2)))
    ensures MulMat3Vec3(m, Vec3(1.0, 0.0, 0.0)) == Column(m, 0)
    ensures MulMat3Vec3(m, Vec3(0.0, 1.0, 0.0)) == Column(m, 1)
    ensures MulMat3Vec3(m, Vec3(0.0, 0.0, 1.0)) == Column(m, 2)
  {
  }

  /** The product respects matrix multiplication: (p * q) v = p (q v). */
  lemma MulMat3Vec3Compose(p: Mat3, q: Mat3, v: Vec3)
    ensures MulMat3Vec3(Mul(p, q), v) == MulMat3Vec3(p, MulMat3Vec3(q, v))
  {
    ComposeX(p, q, v);
    ComposeY(p, q, v);
    ComposeW(p, q, v);
  }

  lemma ComposeX(p: Mat3, q: Mat3, v: Vec3)
    ensures MulMat3Vec3(Mul(p, q), v).x == MulMat3Vec3(p, MulMat3Vec3(q, v)).x
  {
    var pq, qv := Mul(p, q), MulMat3Vec3(q, v);
    RowTimesProduct(p.m0, p.m1, p.m2, q, v, pq.m0, pq.m1, pq.m2, qv.x, qv.y, qv.w);
  }

  lemma ComposeY(p: Mat3, q: Mat3, v: Vec3)
    ensures MulMat3Vec3(Mul(p, q), v).y == MulMat3Vec3(p, MulMat3Vec3(q, v)).y
  {
    var pq, qv := Mul(p, q), MulMat3Vec3(q, v);
    RowTimesProduct(p.m3, p.m4, p.m5, q, v, pq.m3, pq.m4, pq.m5, qv.x, qv.y, qv.w);
  }

  lemma ComposeW(p: Mat3, q: Mat3, v: Vec3)
    ensures MulMat3Vec3(Mul(p, q), v).w == MulMat3Vec3(p, MulMat3Vec3(q, v)).w
  {
    var pq, qv := Mul(p, q), MulMat3Vec3(q, v);
    RowTimesProduct(p.m6, p.m7, p.m8, q, v, pq.m6, pq.m7, pq.m8, qv.x, qv.y, qv.w);
  }

  /** One row of the associativity law: if (r0 r1 r2) is the row (a b c) times
      q and (s0 s1 s2) is q v, then (r0 r1 r2) . v = (a b c) . (s0 s1 s2). */
  lemma RowTimesProduct(a: real, b: real, c: real, q: Mat3, v: Vec3,
                        r0: real, r1: real, r2: real, s0: real, s1: real, s2: real)
    requires r0 == a * q.m0 + b * q.m3 + c * q.m6
    requires r1 == a * q.m1 + b * q.m4 + c * q.m7
    requires r2 == a * q.m2 + b * q.m5 + c * q.m8
    requires s0 == q.m0 * v.x + q.m1 * v.y + q.m2 * v.w
    requires s1 == q.m3 * v.x + q.m4 * v.y + q.m5 * v.w
    requires s2 == q.m6 * v.x + q.m7 * v.y + q.m8 * v.w
    ensures r0 * v.x + r1 * v.y + r2 * v.w == a * s0 + b * s1 + c * s2
  {
  }

  /** The product is linear in the vector: m (s v) = s (m v). */
  lemma MulMat3Vec3Scale(m: Mat3, s: real, v: Vec3)
    ensures MulMat3Vec3(m, ScaleVec(s, v)) == ScaleVec(s, MulMat3Vec3(m, v))
  {
    var sv, mv := ScaleVec(s, v), MulMat3Vec3(m, v);
    var l, r := MulMat3Vec3(m, sv), ScaleVec(s, mv);
    assert l.x == r.x by { RowTimesScaled(m.m0, m.m1, m.m2, s, v, sv, mv.x); }
    assert l.y == r.y by { RowTimesScaled(m.m3, m.m4, m.m5, s, v, sv, mv.y); }
    assert l.w == r.w by { RowTimesScaled(m.m6, m.m7, m.m8, s, v, sv, mv.w); }
  }

  /** One row of the linearity law. */
  lemma RowTimesScaled(a: real, b: real, c: real, s: real, v: Vec3, sv: Vec3, t: real)
    requires sv == ScaleVec(s, v)
    requires t == a * v.x + b * v.y + c * v.w
    ensures a * sv.x + b * sv.y + c * sv.w == s * t
  {
  }

  /** The identity matrix leaves every vector unchanged. */
  lemma MulMat3Vec3Identity(v: Vec3)
    ensures MulMat3Vec3(Identity(), v) == v
  {
  }
}
