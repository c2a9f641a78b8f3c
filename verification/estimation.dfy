/** Estimating the homography that sends four source points to four
    destination points, with the scale fixed by setting the last entry to 1. */
module Estimation {
  import opened Errors
  import opened Geometry
  import opened LinearSystem
  import opened Mat3Inverse
  import opened Homography

  /** A homography together with its inverse. */
  datatype Estimate = Estimate(h: Mat3, hinv: Mat3)

  /** `h` sends `s` to `d` in homogeneous coordinates: h * (s, 1) is a
      multiple, by its own w, of (d, 1). */
  predicate MapsPoint(h: Mat3, s: Point, d: Point) {
    var v := MulMat3Vec3(h, Lift(s));
    ScaleVec(v.w, Lift(d)) == v
  }

  /** `h` sends every corner of `src` to the corner of `dst` with the same index. */
  predicate MapsQuad(h: Mat3, src: Quad, dst: Quad) {
    forall k :: 0 <= k < 4 ==> MapsPoint(h, src.At(k), dst.At(k))
  }

  /** The matrix whose first eight entries, in row-major order, are the
      unknowns h11 h12 h13 h21 h22 h23 h31 h32, and whose last entry is 1. */
  function FromUnknowns(x: seq<real>): (h: Mat3)
    requires |x| == 8
    ensures h.m8 == 1.0
  {
    Mat3(x[0], x[1], x[2], x[3], x[4], x[5], x[6], x[7], 1.0)
  }

  /** The first eight entries of `h`, in row-major order. */
  function Unknowns(h: Mat3): (x: seq<real>)
    ensures |x| == 8
  {
    [h.m0, h.m1, h.m2, h.m3, h.m4, h.m5, h.m6, h.m7]
  }

  /** Unknowns and FromUnknowns are inverse to each other on matrices whose
      last entry is 1. */
  lemma UnknownsRoundTrip(x: seq<real>, h: Mat3)
    requires |x| == 8
    ensures Unknowns(FromUnknowns(x)) == x
    ensures h.m8 == 1.0 ==> FromUnknowns(Unknowns(h)) == h
  {
  }

  /** The equation for the x coordinate of the correspondence (u, v) -> (x, y):
      h11 u + h12 v + h13 - x h31 u - x h32 v = x. */
  function RowX(s: Point, d: Point): seq<real> {
    [s.x, s.y, 1.0, 0.0, 0.0, 0.0, -d.x * s.x, -d.x * s.y]
  }

  /** The equation for the y coordinate: h21 u + h22 v + h23 - y h31 u - y h32 v = y. */
  function RowY(s: Point, d: Point): seq<real> {
    [0.0, 0.0, 0.0, s.x, s.y, 1.0, -d.y * s.x, -d.y * s.y]
  }

  /** The 8 x 8 coefficient matrix: for k = 0..3, the x equation of
      correspondence k in row 2k and its y equation in row 2k + 1. */
  function Coefficients(src: Quad, dst: Quad): (A: Matrix)
    ensures |A| == 8 && IsSquare(A)
    ensures forall k :: 0 <= k < 4 ==>
      A[2 * k] == RowX(src.At(k), dst.At(k)) && A[2 * k + 1] == RowY(src.At(k), dst.At(k))
  {
    [RowX(src.p0, dst.p0), RowY(src.p0, dst.p0),
     RowX(src.p1, dst.p1), RowY(src.p1, dst.p1),
     RowX(src.p2, dst.p2), RowY(src.p2, dst.p2),
     RowX(src.p3, dst.p3), RowY(src.p3, dst.p3)]
  }

  /** The right-hand side: x of destination k in row 2k, its y in row 2k + 1. */
  function RightHandSide(dst: Quad): (b: seq<real>)
    ensures |b| == 8
    ensures forall k :: 0 <= k < 4 ==> b[2 * k] == dst.At(k).x && b[2 * k + 1] == dst.At(k).y
  {
    [dst.p0.x, dst.p0.y, dst.p1.x, dst.p1.y, dst.p2.x, dst.p2.y, dst.p3.x, dst.p3.y]
  }

  /** Both equations of the correspondence `s` -> `d` hold for `x`. */
  predicate PairHolds(s: Point, d: Point, x: seq<real>)
    requires |x| == 8
  {
    Dot(RowX(s, d), x) == d.x && Dot(RowY(s, d), x) == d.y
  }

  /** `trace` is the elimination run of the 8 x 8 system of `src` -> `dst`. */
  ghost predicate IsEstimationTrace(src: Quad, dst: Quad, trace: seq<Matrix>) {
    IsTrace(Augment(Coefficients(src, dst), RightHandSide(dst)), 8, trace)
  }

  /** The matrix the solved system gives: its eight unknowns, then 1. */
  ghost function Solution(trace: seq<Matrix>): (h: Mat3)
    requires Stages(8, trace) && |trace| == 9
    ensures h.m8 == 1.0
  {
    FromUnknowns(LastColumn(trace[8], 8))
  }

  /** The homography with its last entry fixed to 1 that sends each `src[k]`
      to `dst[k]`, and its inverse. `trace` is the elimination run of the
      8 x 8 system. The estimate fails with SingularSystem exactly when that
      run stops early, and with NotInvertible exactly when the run completes
      but the matrix it gives has determinant below Eps; no other error can
      occur, since the system is square by construction. When no stage of the
      run left a non-zero factor behind, the result is exact: it maps the
      corners, and it is the only such matrix. */
  method HomographyFrom4Points(src: Quad, dst: Quad) returns (r: Result<Estimate>, ghost trace: seq<Matrix>)
    ensures IsEstimationTrace(src, dst, trace)
    ensures r.Failure? ==> r.error in {SingularSystem, NotInvertible}
    ensures r == Failure(SingularSystem) <==> |trace| <= 8
    ensures r == Failure(NotInvertible) <==> |trace| == 9 && Abs(Det(Solution(trace))) < Eps
    ensures r.Success? ==> r.value.h == Solution(trace) && r.value.h.m8 == 1.0
    ensures r.Success? ==> InvertMat3(r.value.h) == Success(r.value.hinv)
    ensures r.Success? && Exact(8, trace) ==> MapsQuad(r.value.h, src, dst)
    ensures r.Success? && Exact(8, trace) ==> forall k :: 0 <= k < 4 ==>
      ApplyHomography(r.value.h, src.At(k)) in {Failure(PointAtInfinity), Success(dst.At(k))}
    ensures r.Success? && Exact(8, trace) ==>
      forall g: Mat3 :: g.m8 == 1.0 && MapsQuad(g, src, dst) ==> g == r.value.h
    ensures r == Failure(NotInvertible) && Exact(8, trace) ==>
      forall g: Mat3 :: g.m8 == 1.0 && MapsQuad(g, src, dst) ==> Abs(Det(g)) < Eps
  {
    var A, b := Coefficients(src, dst), RightHandSide(dst);
    var x;
    x, trace :- SolveLinearSystem(A, b);
    var h := FromUnknowns(x);
    if Exact(8, trace) {
      SystemMeansMapsQuad(src, dst, x);
      forall k | 0 <= k < 4
        ensures ApplyHomography(h, src.At(k)) in {Failure(PointAtInfinity), Success(dst.At(k))}
      {
        MapsPointApply(h, src.At(k), dst.At(k));
      }
      forall g: Mat3 | g.m8 == 1.0 && MapsQuad(g, src, dst)
        ensures g == h
      {
        SystemMeansMapsQuad(src, dst, Unknowns(g));
        UnknownsRoundTrip(x, g);
      }
    }
    var hinv :- InvertMat3(h);
    r := Success(Estimate(h, hinv));
  }

  /** Mapping in homogeneous coordinates is what ApplyHomography computes:
      its successful result is the mapped point, and a matrix that maps `s`
      to `d` either sends `s` to infinity or yields `d`. */
  lemma MapsPointApply(h: Mat3, s: Point, d: Point)
    ensures ApplyHomography(h, s) == Success(d) ==> MapsPoint(h, s, d)
    ensures MapsPoint(h, s, d) ==>
      ApplyHomography(h, s) in {Failure(PointAtInfinity), Success(d)}
  {
    if MapsPoint(h, s, d) && ApplyHomography(h, s).Success? {
      ApplyHomographyUnique(h, s, d);
    }
  }

  /** The eight equations hold for the unknowns `x` exactly when the matrix
      they make sends every corner of `src` to the matching corner of `dst`. */
  lemma SystemMeansMapsQuad(src: Quad, dst: Quad, x: seq<real>)
    requires |x| == 8
    ensures Solves(Coefficients(src, dst), x, RightHandSide(dst)) <==> MapsQuad(FromUnknowns(x), src, dst)
  {
    SolvesByPairs(src, dst, x);
    MapsQuadByCorners(FromUnknowns(x), src, dst);
    CorrespondenceRows(src.p0, dst.p0, x);
    CorrespondenceRows(src.p1, dst.p1, x);
    CorrespondenceRows(src.p2, dst.p2, x);
    CorrespondenceRows(src.p3, dst.p3, x);
  }

  /** The system holds exactly when the equation pair of every corner holds. */
  lemma SolvesByPairs(src: Quad, dst: Quad, x: seq<real>)
    requires |x| == 8
    ensures Solves(Coefficients(src, dst), x, RightHandSide(dst)) <==>
      PairHolds(src.p0, dst.p0, x) && PairHolds(src.p1, dst.p1, x) &&
      PairHolds(src.p2, dst.p2, x) && PairHolds(src.p3, dst.p3, x)
  {
    var A, b := Coefficients(src, dst), RightHandSide(dst);
    if PairHolds(src.p0, dst.p0, x) && PairHolds(src.p1, dst.p1, x) &&
       PairHolds(src.p2, dst.p2, x) && PairHolds(src.p3, dst.p3, x) {
      forall i | 0 <= i < 8
        ensures Dot(A[i], x) == b[i]
      {
        if i == 0 {} else if i == 1 {} else if i == 2 {} else if i == 3 {}
        else if i == 4 {} else if i == 5 {} else if i == 6 {} else {}
      }
    }
    if Solves(A, x, b) {
      assert Dot(A[0], x) == b[0] && Dot(A[1], x) == b[1];
      assert Dot(A[2], x) == b[2] && Dot(A[3], x) == b[3];
      assert Dot(A[4], x) == b[4] && Dot(A[5], x) == b[5];
      assert Dot(A[6], x) == b[6] && Dot(A[7], x) == b[7];
    }
  }

  /** A matrix maps the quad exactly when it maps each of the four corners. */
  lemma MapsQuadByCorners(h: Mat3, src: Quad, dst: Quad)
    ensures MapsQuad(h, src, dst) <==>
      MapsPoint(h, src.p0, dst.p0) && MapsPoint(h, src.p1, dst.p1) &&
      MapsPoint(h, src.p2, dst.p2) && MapsPoint(h, src.p3, dst.p3)
  {
    assert src.At(0) == src.p0 && dst.At(0) == dst.p0;
    assert src.At(1) == src.p1 && dst.At(1) == dst.p1;
    assert src.At(2) == src.p2 && dst.At(2) == dst.p2;
    assert src.At(3) == src.p3 && dst.At(3) == dst.p3;
  }

  /** The two equations of one correspondence hold exactly when the matrix
      sends `s` to `d` in homogeneous coordinates. */
  lemma CorrespondenceRows(s: Point, d: Point, x: seq<real>)
    requires |x| == 8
    ensures PairHolds(s, d, x) <==> MapsPoint(FromUnknowns(x), s, d)
  {
    RowXMeaning(s, d, x);
    RowYMeaning(s, d, x);
    ScaleLiftIff(MulMat3Vec3(FromUnknowns(x), Lift(s)), d);
  }

  /** `v` is w times (d, 1) exactly when its x and y are w times those of `d`. */
  lemma ScaleLiftIff(v: Vec3, d: Point)
    ensures ScaleVec(v.w, Lift(d)) == v <==> v.w * d.x == v.x && v.w * d.y == v.y
  {
    assert ScaleVec(v.w, Lift(d)).w == v.w;
  }

  /** The x equation says the numerator of x is d.x times the denominator. */
  lemma RowXMeaning(s: Point, d: Point, x: seq<real>)
    requires |x| == 8
    ensures var v := MulMat3Vec3(FromUnknowns(x), Lift(s));
      Dot(RowX(s, d), x) == d.x <==> v.w * d.x == v.x
  {
    var row := RowX(s, d);
    Dot8(row, x);
    var v := MulMat3Vec3(FromUnknowns(x), Lift(s));
    RowEquation(s.x, s.y, d.x, x[0], x[1], x[2], x[6], x[7], row[6], row[7], Dot(row, x), v.x, v.w);
  }

  /** The y equation says the numerator of y is d.y times the denominator. */
  lemma RowYMeaning(s: Point, d: Point, x: seq<real>)
    requires |x| == 8
    ensures var v := MulMat3Vec3(FromUnknowns(x), Lift(s));
      Dot(RowY(s, d), x) == d.y <==> v.w * d.y == v.y
  {
    var row := RowY(s, d);
    Dot8(row, x);
    var v := MulMat3Vec3(FromUnknowns(x), Lift(s));
    RowEquation(s.x, s.y, d.y, x[3], x[4], x[5], x[6], x[7], row[6], row[7], Dot(row, x), v.y, v.w);
  }

  /** A dot product of length 8, written out. */
  lemma Dot8(u: seq<real>, x: seq<real>)
    requires |u| == 8 && |x| == 8
    ensures Dot(u, x) == u[0] * x[0] + u[1] * x[1] + u[2] * x[2] + u[3] * x[3]
                       + u[4] * x[4] + u[5] * x[5] + u[6] * x[6] + u[7] * x[7]
  {
    assert DotPrefix(u, x, 1) == u[0] * x[0];
    assert DotPrefix(u, x, 2) == DotPrefix(u, x, 1) + u[1] * x[1];
    assert DotPrefix(u, x, 3) == DotPrefix(u, x, 2) + u[2] * x[2];
    assert DotPrefix(u, x, 4) == DotPrefix(u, x, 3) + u[3] * x[3];
    assert DotPrefix(u, x, 5) == DotPrefix(u, x, 4) + u[4] * x[4];
    assert DotPrefix(u, x, 6) == DotPrefix(u, x, 5) + u[5] * x[5];
    assert DotPrefix(u, x, 7) == DotPrefix(u, x, 6) + u[6] * x[6];
  }

  /** One rearranged equation: a h1 + b h2 + h3 - t a g1 - t b g2 = t holds
      exactly when the numerator a h1 + b h2 + h3 is t times the denominator
      a g1 + b g2 + 1. */
  lemma RowEquation(a: real, b: real, t: real, h1: real, h2: real, h3: real, g1: real, g2: real,
                    c1: real, c2: real, dot: real, num: real, den: real)
    requires c1 == -t * a && c2 == -t * b
    requires dot == a * h1 + b * h2 + 1.0 * h3 + c1 * g1 + c2 * g2
    requires num == h1 * a + h2 * b + h3 * 1.0 && den == g1 * a + g2 * b + 1.0 * 1.0
    ensures dot == t <==> den * t == num
  {
  }
}
