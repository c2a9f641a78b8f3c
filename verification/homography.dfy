/** Applying a homography to a point: lift to (x, y, 1), multiply, divide by w. */
module Homography {
  import opened Errors
  import opened Geometry

  /** The image of `p` under `h`, or PointAtInfinity when the homogeneous
      coordinate w of h * (p.x, p.y, 1) is within Eps of zero. On success the
      result, lifted and scaled by w, is exactly that homogeneous vector. */
  function ApplyHomography(h: Mat3, p: Point): (r: Result<Point>)
    ensures var v := MulMat3Vec3(h, Lift(p));
      && (r.Failure? <==> Abs(v.w) < Eps)
      && (r.Failure? ==> r.error == PointAtInfinity)
      && (r.Success? ==> ScaleVec(v.w, Lift(r.value)) == v)
  {
    var v := MulMat3Vec3(h, Lift(p));
    if Abs(v.w) < Eps then
      Failure(PointAtInfinity)
    else
      DivideBack(v.x, v.w);
      DivideBack(v.y, v.w);
      Success(Point(v.x / v.w, v.y / v.w))
  }

  /** The successful result is the only point whose lift, scaled by w, is the
      homogeneous image: the division by w picks the affine representative. */
  lemma ApplyHomographyUnique(h: Mat3, p: Point, q: Point)
    requires ApplyHomography(h, p).Success?
    requires ScaleVec(MulMat3Vec3(h, Lift(p)).w, Lift(q)) == MulMat3Vec3(h, Lift(p))
    ensures ApplyHomography(h, p) == Success(q)
  {
    var v := MulMat3Vec3(h, Lift(p));
    var r := ApplyHomography(h, p).value;
    CancelScale(v.w, q.x, r.x);
    CancelScale(v.w, q.y, r.y);
  }

  /** Mapping by `h` and then by a left inverse of `h` returns the original
      point, whenever both steps succeed. */
  lemma ApplyHomographyRoundTrip(h: Mat3, hinv: Mat3, p: Point, q: Point)
    requires Mul(hinv, h) == Identity()
    requires ApplyHomography(h, p) == Success(q)
    requires ApplyHomography(hinv, q).Success?
    ensures ApplyHomography(hinv, q) == Success(p)
  {
    var s := 1.0 / MulMat3Vec3(h, Lift(p)).w;
    LiftOfImage(h, p, q);
    UndoImage(h, hinv, p, s);
    var r := ApplyHomography(hinv, q).value;
    assert ScaleVec(s, Lift(r)) == ScaleVec(s, Lift(p));
    CancelScale(s, r.x, p.x);
    CancelScale(s, r.y, p.y);
  }

  /** The lifted image is the homogeneous image divided by its w. */
  lemma LiftOfImage(h: Mat3, p: Point, q: Point)
    requires ApplyHomography(h, p) == Success(q)
    ensures Lift(q) == ScaleVec(1.0 / MulMat3Vec3(h, Lift(p)).w, MulMat3Vec3(h, Lift(p)))
  {
    var v := MulMat3Vec3(h, Lift(p));
    Unscale(v.w, q.x, v.x);
    Unscale(v.w, q.y, v.y);
    Unscale(v.w, 1.0, v.w);
  }

  /** A left inverse of `h` takes any multiple of h * (p, 1) back to the same
      multiple of (p, 1). */
  lemma UndoImage(h: Mat3, hinv: Mat3, p: Point, s: real)
    requires Mul(hinv, h) == Identity()
    ensures MulMat3Vec3(hinv, ScaleVec(s, MulMat3Vec3(h, Lift(p)))) == ScaleVec(s, Lift(p))
  {
    var v := MulMat3Vec3(h, Lift(p));
    MulMat3Vec3Scale(hinv, s, v);
    MulMat3Vec3Compose(hinv, h, Lift(p));
    MulMat3Vec3Identity(Lift(p));
  }

  /** Dividing by w and multiplying back by w is the identity. */
  lemma DivideBack(x: real, w: real)
    requires w != 0.0
    ensures w * (x / w) == x
  {
  }

  /** w * a == b means a == (1/w) * b. */
  lemma Unscale(w: real, a: real, b: real)
    requires w != 0.0
    requires w * a == b
    ensures a == (1.0 / w) * b
  {
  }

  /** Multiplication by a non-zero factor is injective. */
  lemma CancelScale(w: real, a: real, b: real)
    requires w != 0.0
    requires w * a == w * b
    ensures a == b
  {
  }
}
