/** Closed-form inverse of a 3x3 matrix: the adjugate divided by the
    determinant, refused when the determinant is within Eps of zero. */
module Mat3Inverse {
  import opened Errors
  import opened Geometry

  /** The 2x2 determinant p*s - q*r of (p q / r s). */
  function Minor(p: real, q: real, r: real, s: real): real {
    p * s - q * r
  }

  /** The adjugate of `m` = (a b c / d e f / g h i): the transposed matrix of
      cofactors. With A..I the cofactors of a..i, its rows are (A D G),
      (B E H), (C F I). A negated minor is written as the minor with two
      columns swapped, so B = -(d*i - f*g) is Minor(f, d, i, g) = f*g - d*i;
      AdjugateEntries states every entry as a signed difference of products. */
  function Adjugate(m: Mat3): Mat3 {
    var a, b, c := m.m0, m.m1, m.m2;
    var d, e, f := m.m3, m.m4, m.m5;
    var g, h, i := m.m6, m.m7, m.m8;
    Mat3(Minor(e, f, h, i), Minor(c, b, i, h), Minor(b, c, e, f),
         Minor(f, d, i, g), Minor(a, c, g, i), Minor(c, a, f, d),
         Minor(d, e, g, h), Minor(b, a, h, g), Minor(a, b, d, e))
  }

  /** The determinant, expanded along the first row: a*A + b*B + c*C. */
  function Det(m: Mat3): real {
    var adj := Adjugate(m);
    m.m0 * adj.m0 + m.m1 * adj.m3 + m.m2 * adj.m6
  }

  /** The cofactor expansion is the six-term formula of the determinant
      (the rule of Sarrus), and the identity has determinant 1. */
  lemma DetSarrus(m: Mat3)
    ensures Det(m) == m.m0 * m.m4 * m.m8 + m.m1 * m.m5 * m.m6 + m.m2 * m.m3 * m.m7
                    - m.m2 * m.m4 * m.m6 - m.m1 * m.m3 * m.m8 - m.m0 * m.m5 * m.m7
    ensures Det(Identity()) == 1.0
  {
  }

  /** The entries of the adjugate are the cofactors A..I, each a signed 2x2
      minor, placed in transposed positions. */
  lemma AdjugateEntries(m: Mat3)
    ensures
      var a, b, c := m.m0, m.m1, m.m2;
      var d, e, f := m.m3, m.m4, m.m5;
      var g, h, i := m.m6, m.m7, m.m8;
      var adj := Adjugate(m);
      && adj.m0 == e * i - f * h
      && adj.m1 == -(b * i - c * h)
      && adj.m2 == b * f - c * e
      && adj.m3 == -(d * i - f * g)
      && adj.m4 == a * i - c * g
      && adj.m5 == -(a * f - c * d)
      && adj.m6 == d * h - e * g
      && adj.m7 == -(a * h - b * g)
      && adj.m8 == a * e - b * d
  {
  }

  /** Every entry of `m` multiplied by `s`. */
  function ScaleMat(m: Mat3, s: real): Mat3 {
    Mat3(m.m0 * s, m.m1 * s, m.m2 * s,
         m.m3 * s, m.m4 * s, m.m5 * s,
         m.m6 * s, m.m7 * s, m.m8 * s)
  }

  /** The inverse of `m`: the adjugate scaled by 1/det, or NotInvertible when
      the determinant is within the tolerance of zero. On success the result is
      a two-sided inverse of `m`. */
  function InvertMat3(m: Mat3): (r: Result<Mat3>)
    ensures r.Failure? <==> Abs(Det(m)) < Eps
    ensures r.Failure? ==> r.error == NotInvertible
    ensures r.Success? ==> Mul(r.value, m) == Identity() && Mul(m, r.value) == Identity()
  {
    var det := Det(m);
    if Abs(det) < Eps then
      Failure(NotInvertible)
    else
      InverseLeft(m);
      InverseRight(m);
      Success(ScaleMat(Adjugate(m), 1.0 / det))
  }

  /** The adjugate scaled by 1/det is a left inverse whenever det is non-zero. */
  lemma InverseLeft(m: Mat3)
    requires Det(m) != 0.0
    ensures Mul(ScaleMat(Adjugate(m), 1.0 / Det(m)), m) == Identity()
  {
    var adj, s := Adjugate(m), 1.0 / Det(m);
    ScaleThenMul(adj, s, m);
    AdjugateLeft(m);
    UndoScale(Det(m));
  }

  /** The adjugate scaled by 1/det is a right inverse whenever det is non-zero. */
  lemma InverseRight(m: Mat3)
    requires Det(m) != 0.0
    ensures Mul(m, ScaleMat(Adjugate(m), 1.0 / Det(m))) == Identity()
  {
    var adj, s := Adjugate(m), 1.0 / Det(m);
    MulThenScale(m, adj, s);
    AdjugateRight(m);
    UndoScale(Det(m));
  }

  /** (det * I) scaled by 1/det is I. */
  lemma UndoScale(det: real)
    requires det != 0.0
    ensures ScaleMat(ScaleMat(Identity(), det), 1.0 / det) == Identity()
  {
    assert (1.0 * det) * (1.0 / det) == 1.0;
  }

  /** Cramer's identity on the left: adj(m) * m = det(m) * I. */
  lemma AdjugateLeft(m: Mat3)
    ensures Mul(Adjugate(m), m) == ScaleMat(Identity(), Det(m))
  {
    AdjugateLeftRow0(m);
    AdjugateLeftRow1(m);
    AdjugateLeftRow2(m);
  }

  /** Cramer's identity on the right: m * adj(m) = det(m) * I. */
  lemma AdjugateRight(m: Mat3)
    ensures Mul(m, Adjugate(m)) == ScaleMat(Identity(), Det(m))
  {
    AdjugateRightRow0(m);
    AdjugateRightRow1(m);
    AdjugateRightRow2(m);
  }

  /** Row 0 of (adj(m) * m) is row 0 of det(m) * I. */
  lemma AdjugateLeftRow0(m: Mat3)
    ensures var p := Mul(Adjugate(m), m); p.m0 == Det(m) && p.m1 == 0.0 && p.m2 == 0.0
  {
    CofactorColumn0(m.m0, m.m1, m.m2, m.m3, m.m4, m.m5, m.m6, m.m7, m.m8);
  }

  /** Row 1 of (adj(m) * m) is row 1 of det(m) * I. */
  lemma AdjugateLeftRow1(m: Mat3)
    ensures var p := Mul(Adjugate(m), m); p.m3 == 0.0 && p.m4 == Det(m) && p.m5 == 0.0
  {
    CofactorColumn1(m.m0, m.m1, m.m2, m.m3, m.m4, m.m5, m.m6, m.m7, m.m8);
  }

  /** Row 2 of (adj(m) * m) is row 2 of det(m) * I. */
  lemma AdjugateLeftRow2(m: Mat3)
    ensures var p := Mul(Adjugate(m), m); p.m6 == 0.0 && p.m7 == 0.0 && p.m8 == Det(m)
  {
    CofactorColumn2(m.m0, m.m1, m.m2, m.m3, m.m4, m.m5, m.m6, m.m7, m.m8);
  }

  /** Row 0 of (m * adj(m)) is row 0 of det(m) * I. */
  lemma AdjugateRightRow0(m: Mat3)
    ensures var p := Mul(m, Adjugate(m)); p.m0 == Det(m) && p.m1 == 0.0 && p.m2 == 0.0
  {
    CofactorRow0(m.m0, m.m1, m.m2, m.m3, m.m4, m.m5, m.m6, m.m7, m.m8);
  }

  /** Row 1 of (m * adj(m)) is row 1 of det(m) * I. */
  lemma AdjugateRightRow1(m: Mat3)
    ensures var p := Mul(m, Adjugate(m)); p.m3 == 0.0 && p.m4 == Det(m) && p.m5 == 0.0
  {
    CofactorRow1(m.m0, m.m1, m.m2, m.m3, m.m4, m.m5, m.m6, m.m7, m.m8);
  }

  /** Row 2 of (m * adj(m)) is row 2 of det(m) * I. */
  lemma AdjugateRightRow2(m: Mat3)
    ensures var p := Mul(m, Adjugate(m)); p.m6 == 0.0 && p.m7 == 0.0 && p.m8 == Det(m)
  {
    CofactorRow2(m.m0, m.m1, m.m2, m.m3, m.m4, m.m5, m.m6, m.m7, m.m8);
  }

  /** The cofactors of column 0 of (a b c / d e f / g h i) against each column:
      the determinant against column 0 itself, 0 against the other two. */
  lemma CofactorColumn0(a: real, b: real, c: real, d: real, e: real, f: real, g: real, h: real, i: real)
    ensures Minor(e, f, h, i) * a + Minor(c, b, i, h) * d + Minor(b, c, e, f) * g == a * Minor(e, f, h, i) + b * Minor(f, d, i, g) + c * Minor(d, e, g, h)
    ensures Minor(e, f, h, i) * b + Minor(c, b, i, h) * e + Minor(b, c, e, f) * h == 0.0
    ensures Minor(e, f, h, i) * c + Minor(c, b, i, h) * f + Minor(b, c, e, f) * i == 0.0
  {
  }

  /** The cofactors of column 1 of (a b c / d e f / g h i) against each column:
      the determinant against column 1 itself, 0 against the other two. */
  lemma CofactorColumn1(a: real, b: real, c: real, d: real, e: real, f: real, g: real, h: real, i: real)
    ensures Minor(f, d, i, g) * a + Minor(a, c, g, i) * d + Minor(c, a, f, d) * g == 0.0
    ensures Minor(f, d, i, g) * b + Minor(a, c, g, i) * e + Minor(c, a, f, d) * h == a * Minor(e, f, h, i) + b * Minor(f, d, i, g) + c * Minor(d, e, g, h)
    ensures Minor(f, d, i, g) * c + Minor(a, c, g, i) * f + Minor(c, a, f, d) * i == 0.0
  {
  }

  /** The cofactors of column 2 of (a b c / d e f / g h i) against each column:
      the determinant against column 2 itself, 0 against the other two. */
  lemma CofactorColumn2(a: real, b: real, c: real, d: real, e: real, f: real, g: real, h: real, i: real)
    ensures Minor(d, e, g, h) * a + Minor(b, a, h, g) * d + Minor(a, b, d, e) * g == 0.0
    ensures Minor(d, e, g, h) * b + Minor(b, a, h, g) * e + Minor(a, b, d, e) * h == 0.0
    ensures Minor(d, e, g, h) * c + Minor(b, a, h, g) * f + Minor(a, b, d, e) * i == a * Minor(e, f, h, i) + b * Minor(f, d, i, g) + c * Minor(d, e, g, h)
  {
  }

  /** Row 0 of (a b c / d e f / g h i) against the cofactors of each row: the
      determinant against its own cofactors, 0 against the other two. */
  lemma CofactorRow0(a: real, b: real, c: real, d: real, e: real, f: real, g: real, h: real, i: real)
    ensures a * Minor(e, f, h, i) + b * Minor(f, d, i, g) + c * Minor(d, e, g, h) == a * Minor(e, f, h, i) + b * Minor(f, d, i, g) + c * Minor(d, e, g, h)
    ensures a * Minor(c, b, i, h) + b * Minor(a, c, g, i) + c * Minor(b, a, h, g) == 0.0
    ensures a * Minor(b, c, e, f) + b * Minor(c, a, f, d) + c * Minor(a, b, d, e) == 0.0
  {
  }

  /** Row 1 of (a b c / d e f / g h i) against the cofactors of each row: the
      determinant against its own cofactors, 0 against the other two. */
  lemma CofactorRow1(a: real, b: real, c: real, d: real, e: real, f: real, g: real, h: real, i: real)
    ensures d * Minor(e, f, h, i) + e * Minor(f, d, i, g) + f * Minor(d, e, g, h) == 0.0
    ensures d * Minor(c, b, i, h) + e * Minor(a, c, g, i) + f * Minor(b, a, h, g) == a * Minor(e, f, h, i) + b * Minor(f, d, i, g) + c * Minor(d, e, g, h)
    ensures d * Minor(b, c, e, f) + e * Minor(c, a, f, d) + f * Minor(a, b, d, e) == 0.0
  {
  }

  /** Row 2 of (a b c / d e f / g h i) against the cofactors of each row: the
      determinant against its own cofactors, 0 against the other two. */
  lemma CofactorRow2(a: real, b: real, c: real, d: real, e: real, f: real, g: real, h: real, i: real)
    ensures g * Minor(e, f, h, i) + h * Minor(f, d, i, g) + i * Minor(d, e, g, h) == 0.0
    ensures g * Minor(c, b, i, h) + h * Minor(a, c, g, i) + i * Minor(b, a, h, g) == 0.0
    ensures g * Minor(b, c, e, f) + h * Minor(c, a, f, d) + i * Minor(a, b, d, e) == a * Minor(e, f, h, i) + b * Minor(f, d, i, g) + c * Minor(d, e, g, h)
  {
  }

  /** Scaling the left factor scales the product, proved entry by entry. */
  lemma ScaleThenMul(p: Mat3, s: real, q: Mat3)
    ensures Mul(ScaleMat(p, s), q) == ScaleMat(Mul(p, q), s)
  {
    ScaleThenMul0(p, s, q);
    ScaleThenMul1(p, s, q);
    ScaleThenMul2(p, s, q);
    ScaleThenMul3(p, s, q);
    ScaleThenMul4(p, s, q);
    ScaleThenMul5(p, s, q);
    ScaleThenMul6(p, s, q);
    ScaleThenMul7(p, s, q);
    ScaleThenMul8(p, s, q);
  }

  lemma ScaleThenMul0(p: Mat3, s: real, q: Mat3)
    ensures Mul(ScaleMat(p, s), q).m0 == ScaleMat(Mul(p, q), s).m0
  {
    var ps, pq := ScaleMat(p, s), Mul(p, q);
    ScaledDot(ps.m0, ps.m1, ps.m2, p.m0, p.m1, p.m2, s, q.m0, q.m3, q.m6, pq.m0);
    assert Mul(ps, q).m0 == ps.m0 * q.m0 + ps.m1 * q.m3 + ps.m2 * q.m6;
    assert ScaleMat(pq, s).m0 == pq.m0 * s;
  }

  lemma ScaleThenMul1(p: Mat3, s: real, q: Mat3)
    ensures Mul(ScaleMat(p, s), q).m1 == ScaleMat(Mul(p, q), s).m1
  {
    var ps, pq := ScaleMat(p, s), Mul(p, q);
    ScaledDot(ps.m0, ps.m1, ps.m2, p.m0, p.m1, p.m2, s, q.m1, q.m4, q.m7, pq.m1);
    assert Mul(ps, q).m1 == ps.m0 * q.m1 + ps.m1 * q.m4 + ps.m2 * q.m7;
    assert ScaleMat(pq, s).m1 == pq.m1 * s;
  }

  lemma ScaleThenMul2(p: Mat3, s: real, q: Mat3)
    ensures Mul(ScaleMat(p, s), q).m2 == ScaleMat(Mul(p, q), s).m2
  {
    var ps, pq := ScaleMat(p, s), Mul(p, q);
    ScaledDot(ps.m0, ps.m1, ps.m2, p.m0, p.m1, p.m2, s, q.m2, q.m5, q.m8, pq.m2);
    assert Mul(ps, q).m2 == ps.m0 * q.m2 + ps.m1 * q.m5 + ps.m2 * q.m8;
    assert ScaleMat(pq, s).m2 == pq.m2 * s;
  }

  lemma ScaleThenMul3(p: Mat3, s: real, q: Mat3)
    ensures Mul(ScaleMat(p, s), q).m3 == ScaleMat(Mul(p, q), s).m3
  {
    var ps, pq := ScaleMat(p, s), Mul(p, q);
    ScaledDot(ps.m3, ps.m4, ps.m5, p.m3, p.m4, p.m5, s, q.m0, q.m3, q.m6, pq.m3);
    assert Mul(ps, q).m3 == ps.m3 * q.m0 + ps.m4 * q.m3 + ps.m5 * q.m6;
    assert ScaleMat(pq, s).m3 == pq.m3 * s;
  }

  lemma ScaleThenMul4(p: Mat3, s: real, q: Mat3)
    ensures Mul(ScaleMat(p, s), q).m4 == ScaleMat(Mul(p, q), s).m4
  {
    var ps, pq := ScaleMat(p, s), Mul(p, q);
    ScaledDot(ps.m3, ps.m4, ps.m5, p.m3, p.m4, p.m5, s, q.m1, q.m4, q.m7, pq.m4);
    assert Mul(ps, q).m4 == ps.m3 * q.m1 + ps.m4 * q.m4 + ps.m5 * q.m7;
    assert ScaleMat(pq, s).m4 == pq.m4 * s;
  }

  lemma ScaleThenMul5(p: Mat3, s: real, q: Mat3)
    ensures Mul(ScaleMat(p, s), q).m5 == ScaleMat(Mul(p, q), s).m5
  {
    var ps, pq := ScaleMat(p, s), Mul(p, q);
    ScaledDot(ps.m3, ps.m4, ps.m5, p.m3, p.m4, p.m5, s, q.m2, q.m5, q.m8, pq.m5);
    assert Mul(ps, q).m5 == ps.m3 * q.m2 + ps.m4 * q.m5 + ps.m5 * q.m8;
    assert ScaleMat(pq, s).m5 == pq.m5 * s;
  }

  lemma ScaleThenMul6(p: Mat3, s: real, q: Mat3)
    ensures Mul(ScaleMat(p, s), q).m6 == ScaleMat(Mul(p, q), s).m6
  {
    var ps, pq := ScaleMat(p, s), Mul(p, q);
    ScaledDot(ps.m6, ps.m7, ps.m8, p.m6, p.m7, p.m8, s, q.m0, q.m3, q.m6, pq.m6);
    assert Mul(ps, q).m6 == ps.m6 * q.m0 + ps.m7 * q.m3 + ps.m8 * q.m6;
    assert ScaleMat(pq, s).m6 == pq.m6 * s;
  }

  lemma ScaleThenMul7(p: Mat3, s: real, q: Mat3)
    ensures Mul(ScaleMat(p, s), q).m7 == ScaleMat(Mul(p, q), s).m7
  {
    var ps, pq := ScaleMat(p, s), Mul(p, q);
    ScaledDot(ps.m6, ps.m7, ps.m8, p.m6, p.m7, p.m8, s, q.m1, q.m4, q.m7, pq.m7);
    assert Mul(ps, q).m7 == ps.m6 * q.m1 + ps.m7 * q.m4 + ps.m8 * q.m7;
    assert ScaleMat(pq, s).m7 == pq.m7 * s;
  }

  lemma ScaleThenMul8(p: Mat3, s: real, q: Mat3)
    ensures Mul(ScaleMat(p, s), q).m8 == ScaleMat(Mul(p, q), s).m8
  {
    var ps, pq := ScaleMat(p, s), Mul(p, q);
    ScaledDot(ps.m6, ps.m7, ps.m8, p.m6, p.m7, p.m8, s, q.m2, q.m5, q.m8, pq.m8);
    assert Mul(ps, q).m8 == ps.m6 * q.m2 + ps.m7 * q.m5 + ps.m8 * q.m8;
    assert ScaleMat(pq, s).m8 == pq.m8 * s;
  }

  /** Scaling the right factor scales the product, proved entry by entry. */
  lemma MulThenScale(p: Mat3, q: Mat3, s: real)
    ensures Mul(p, ScaleMat(q, s)) == ScaleMat(Mul(p, q), s)
  {
    MulThenScale0(p, q, s);
    MulThenScale1(p, q, s);
    MulThenScale2(p, q, s);
    MulThenScale3(p, q, s);
    MulThenScale4(p, q, s);
    MulThenScale5(p, q, s);
    MulThenScale6(p, q, s);
    MulThenScale7(p, q, s);
    MulThenScale8(p, q, s);
  }

  lemma MulThenScale0(p: Mat3, q: Mat3, s: real)
    ensures Mul(p, ScaleMat(q, s)).m0 == ScaleMat(Mul(p, q), s).m0
  {
    var qs, pq := ScaleMat(q, s), Mul(p, q);
    DotScaled(qs.m0, qs.m3, qs.m6, q.m0, q.m3, q.m6, s, p.m0, p.m1, p.m2, pq.m0);
    assert Mul(p, qs).m0 == p.m0 * qs.m0 + p.m1 * qs.m3 + p.m2 * qs.m6;
    assert ScaleMat(pq, s).m0 == pq.m0 * s;
  }

  lemma MulThenScale1(p: Mat3, q: Mat3, s: real)
    ensures Mul(p, ScaleMat(q, s)).m1 == ScaleMat(Mul(p, q), s).m1
  {
    var qs, pq := ScaleMat(q, s), Mul(p, q);
    DotScaled(qs.m1, qs.m4, qs.m7, q.m1, q.m4, q.m7, s, p.m0, p.m1, p.m2, pq.m1);
    assert Mul(p, qs).m1 == p.m0 * qs.m1 + p.m1 * qs.m4 + p.m2 * qs.m7;
    assert ScaleMat(pq, s).m1 == pq.m1 * s;
  }

  lemma MulThenScale2(p: Mat3, q: Mat3, s: real)
    ensures Mul(p, ScaleMat(q, s)).m2 == ScaleMat(Mul(p, q), s).m2
  {
    var qs, pq := ScaleMat(q, s), Mul(p, q);
    DotScaled(qs.m2, qs.m5, qs.m8, q.m2, q.m5, q.m8, s, p.m0, p.m1, p.m2, pq.m2);
    assert Mul(p, qs).m2 == p.m0 * qs.m2 + p.m1 * qs.m5 + p.m2 * qs.m8;
    assert ScaleMat(pq, s).m2 == pq.m2 * s;
  }

  lemma MulThenScale3(p: Mat3, q: Mat3, s: real)
    ensures Mul(p, ScaleMat(q, s)).m3 == ScaleMat(Mul(p, q), s).m3
  {
    var qs, pq := ScaleMat(q, s), Mul(p, q);
    DotScaled(qs.m0, qs.m3, qs.m6, q.m0, q.m3, q.m6, s, p.m3, p.m4, p.m5, pq.m3);
    assert Mul(p, qs).m3 == p.m3 * qs.m0 + p.m4 * qs.m3 + p.m5 * qs.m6;
    assert ScaleMat(pq, s).m3 == pq.m3 * s;
  }

  lemma MulThenScale4(p: Mat3, q: Mat3, s: real)
    ensures Mul(p, ScaleMat(q, s)).m4 == ScaleMat(Mul(p, q), s).m4
  {
    var qs, pq := ScaleMat(q, s), Mul(p, q);
    DotScaled(qs.m1, qs.m4, qs.m7, q.m1, q.m4, q.m7, s, p.m3, p.m4, p.m5, pq.m4);
    assert Mul(p, qs).m4 == p.m3 * qs.m1 + p.m4 * qs.m4 + p.m5 * qs.m7;
    assert ScaleMat(pq, s).m4 == pq.m4 * s;
  }

  lemma MulThenScale5(p: Mat3, q: Mat3, s: real)
    ensures Mul(p, ScaleMat(q, s)).m5 == ScaleMat(Mul(p, q), s).m5
  {
    var qs, pq := ScaleMat(q, s), Mul(p, q);
    DotScaled(qs.m2, qs.m5, qs.m8, q.m2, q.m5, q.m8, s, p.m3, p.m4, p.m5, pq.m5);
    assert Mul(p, qs).m5 == p.m3 * qs.m2 + p.m4 * qs.m5 + p.m5 * qs.m8;
    assert ScaleMat(pq, s).m5 == pq.m5 * s;
  }

  lemma MulThenScale6(p: Mat3, q: Mat3, s: real)
    ensures Mul(p, ScaleMat(q, s)).m6 == ScaleMat(Mul(p, q), s).m6
  {
    var qs, pq := ScaleMat(q, s), Mul(p, q);
    DotScaled(qs.m0, qs.m3, qs.m6, q.m0, q.m3, q.m6, s, p.m6, p.m7, p.m8, pq.m6);
    assert Mul(p, qs).m6 == p.m6 * qs.m0 + p.m7 * qs.m3 + p.m8 * qs.m6;
    assert ScaleMat(pq, s).m6 == pq.m6 * s;
  }

  lemma MulThenScale7(p: Mat3, q: Mat3, s: real)
    ensures Mul(p, ScaleMat(q, s)).m7 == ScaleMat(Mul(p, q), s).m7
  {
    var qs, pq := ScaleMat(q, s), Mul(p, q);
    DotScaled(qs.m1, qs.m4, qs.m7, q.m1, q.m4, q.m7, s, p.m6, p.m7, p.m8, pq.m7);
    assert Mul(p, qs).m7 == p.m6 * qs.m1 + p.m7 * qs.m4 + p.m8 * qs.m7;
    assert ScaleMat(pq, s).m7 == pq.m7 * s;
  }

  lemma MulThenScale8(p: Mat3, q: Mat3, s: real)
    ensures Mul(p, ScaleMat(q, s)).m8 == ScaleMat(Mul(p, q), s).m8
  {
    var qs, pq := ScaleMat(q, s), Mul(p, q);
    DotScaled(qs.m2, qs.m5, qs.m8, q.m2, q.m5, q.m8, s, p.m6, p.m7, p.m8, pq.m8);
    assert Mul(p, qs).m8 == p.m6 * qs.m2 + p.m7 * qs.m5 + p.m8 * qs.m8;
    assert ScaleMat(pq, s).m8 == pq.m8 * s;
  }

  /** If u = x * s entrywise and t = x . y, then u . y = t * s. */
  lemma ScaledDot(u0: real, u1: real, u2: real, x0: real, x1: real, x2: real, s: real,
                  y0: real, y1: real, y2: real, t: real)
    requires u0 == x0 * s && u1 == x1 * s && u2 == x2 * s
    requires t == x0 * y0 + x1 * y1 + x2 * y2
    ensures u0 * y0 + u1 * y1 + u2 * y2 == t * s
  {
  }

  /** If u = x * s entrywise and t = y . x, then y . u = t * s. */
  lemma DotScaled(u0: real, u1: real, u2: real, x0: real, x1: real, x2: real, s: real,
                  y0: real, y1: real, y2: real, t: real)
    requires u0 == x0 * s && u1 == x1 * s && u2 == x2 * s
    requires t == y0 * x0 + y1 * x1 + y2 * x2
    ensures y0 * u0 + y1 * u1 + y2 * u2 == t * s
  {
  }
}
