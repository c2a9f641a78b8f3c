/** A "rectangle space": the homography from the rectangle with corners
    (0, 0), (W, 0), (W, H), (0, H) onto an image quad, and back. */
module RectSpace {
  import opened Errors
  import opened Geometry
  import opened LinearSystem
  import opened Mat3Inverse
  import opened Homography
  import opened Estimation

  /** The two directions of the mapping. `ToRect` and `ToImage` apply them. */
  datatype Space = Space(rectToImg: Mat3, imgToRect: Mat3) {

    /** The two matrices are inverse to each other, as InvertMat3 computes. */
    predicate Valid() {
      InvertMat3(rectToImg) == Success(imgToRect)
    }

    function ToRect(pImg: Point): Result<Point> {
      ApplyHomography(imgToRect, pImg)
    }

    function ToImage(pRect: Point): Result<Point> {
      ApplyHomography(rectToImg, pRect)
    }
  }

  /** The corners of the W x H rectangle, in the order that matches the
      corners of an image quad. */
  function RectCorners(w: real, h: real): (q: Quad)
    ensures forall k :: 0 <= k < 4 ==> q.At(k).x == (if k == 1 || k == 2 then w else 0.0)
    ensures forall k :: 0 <= k < 4 ==> q.At(k).y == (if k == 2 || k == 3 then h else 0.0)
  {
    Quad(Point(0.0, 0.0), Point(w, 0.0), Point(w, h), Point(0.0, h))
  }

  /** The rectangle space of `imageQuad`, with the rectangle W x H (1 x 1 by
      default). It fails exactly as HomographyFrom4Points does, and otherwise
      rectToImg is the estimate, with its last entry 1, and imgToRect its
      inverse. When the estimate is exact, rectToImg is the only matrix with
      last entry 1 that maps the rectangle onto the quad: corner k of the
      rectangle goes to corner k of the quad unless it goes to infinity, and
      the origin always goes to the first corner. */
  method RectSpaceFromImageQuad(imageQuad: Quad, rectW: real := 1.0, rectH: real := 1.0)
    returns (r: Result<Space>, ghost trace: seq<Matrix>)
    ensures IsEstimationTrace(RectCorners(rectW, rectH), imageQuad, trace)
    ensures r.Failure? ==> r.error in {SingularSystem, NotInvertible}
    ensures r == Failure(SingularSystem) <==> |trace| <= 8
    ensures r == Failure(NotInvertible) <==> |trace| == 9 && Abs(Det(Solution(trace))) < Eps
    ensures r.Success? ==> r.value.rectToImg == Solution(trace) && r.value.rectToImg.m8 == 1.0
    ensures r.Success? ==> r.value.Valid()
    ensures r.Success? && Exact(8, trace) ==>
      forall g: Mat3 :: g.m8 == 1.0 && MapsQuad(g, RectCorners(rectW, rectH), imageQuad) ==>
        g == r.value.rectToImg
    ensures r.Success? && Exact(8, trace) ==> forall k :: 0 <= k < 4 ==>
      r.value.ToImage(RectCorners(rectW, rectH).At(k)) in {Failure(PointAtInfinity), Success(imageQuad.At(k))}
    ensures r.Success? && Exact(8, trace) ==> r.value.ToImage(Point(0.0, 0.0)) == Success(imageQuad.p0)
  {
    var rect := RectCorners(rectW, rectH);
    var estimate;
    estimate, trace :- HomographyFrom4Points(rect, imageQuad);
    var space := Space(estimate.h, estimate.hinv);
    if Exact(8, trace) {
      assert MapsPoint(space.rectToImg, rect.At(0), imageQuad.At(0));
      OriginNotAtInfinity(space.rectToImg);
      MapsPointApply(space.rectToImg, rect.At(0), imageQuad.At(0));
    }
    r := Success(space);
  }

  /** A matrix whose last entry is 1 never sends the origin to infinity. */
  lemma OriginNotAtInfinity(h: Mat3)
    requires h.m8 == 1.0
    ensures ApplyHomography(h, Point(0.0, 0.0)).Success?
  {
  }

  /** Going to the image and back to the rectangle returns the original point,
      whenever both steps succeed. */
  lemma ToRectUndoesToImage(space: Space, p: Point, q: Point)
    requires space.Valid()
    requires space.ToImage(p) == Success(q)
    requires space.ToRect(q).Success?
    ensures space.ToRect(q) == Success(p)
  {
    ApplyHomographyRoundTrip(space.rectToImg, space.imgToRect, p, q);
  }

  /** Going to the rectangle and back to the image returns the original point,
      whenever both steps succeed. */
  lemma ToImageUndoesToRect(space: Space, p: Point, q: Point)
    requires space.Valid()
    requires space.ToRect(p) == Success(q)
    requires space.ToImage(q).Success?
    ensures space.ToImage(q) == Success(p)
  {
    ApplyHomographyRoundTrip(space.imgToRect, space.rectToImg, p, q);
  }
}
