/** Solving A x = b by Gauss-Jordan elimination with partial pivoting on the
    augmented matrix (A | b). */
module LinearSystem {
  import opened Errors
  import opened Geometry

  type Matrix = seq<seq<real>>

  /** The sum of u[k] * x[k] over the first m indices. */
  function DotPrefix(u: seq<real>, x: seq<real>, m: nat): real
    requires m <= |u| && m <= |x|
  {
    if m == 0 then 0.0 else DotPrefix(u, x, m - 1) + u[m - 1] * x[m - 1]
  }

  /** The dot product of the first |x| entries of `u` with `x`. */
  function Dot(u: seq<real>, x: seq<real>): real
    requires |x| <= |u|
  {
    DotPrefix(u, x, |x|)
  }

  predicate IsSquare(A: Matrix) {
    forall i :: 0 <= i < |A| ==> |A[i]| == |A|
  }

  /** `x` solves the square system A x = b. */
  ghost predicate Solves(A: Matrix, x: seq<real>, b: seq<real>) {
    && IsSquare(A) && |x| == |A| && |b| == |A|
    && forall i :: 0 <= i < |A| ==> Dot(A[i], x) == b[i]
  }

  /** An n x (n + 1) matrix: n coefficient columns and the right-hand side. */
  predicate IsAugmented(M: Matrix, n: nat) {
    |M| == n && forall r :: 0 <= r < n ==> |M[r]| == n + 1
  }

  /** One augmented row (coefficients | right-hand side) is satisfied by `x`. */
  ghost predicate RowHolds(row: seq<real>, x: seq<real>)
    requires |row| == |x| + 1
  {
    Dot(row, x) == row[|x|]
  }

  /** `x` satisfies every row of the augmented system `M`. */
  ghost predicate SolvesAug(M: Matrix, x: seq<real>)
    requires IsAugmented(M, |x|)
  {
    forall r :: 0 <= r < |M| ==> RowHolds(M[r], x)
  }

  /** The augmented systems `M` and `M0` have the same solutions. */
  ghost predicate SameSolutions(M: Matrix, M0: Matrix, n: nat)
    requires IsAugmented(M, n) && IsAugmented(M0, n)
  {
    forall x: seq<real> :: |x| == n ==> (SolvesAug(M, x) <==> SolvesAug(M0, x))
  }

  /** The first `col` columns of `M` are the first `col` columns of the identity. */
  ghost predicate ReducedUpTo(M: Matrix, n: nat, col: nat)
    requires IsAugmented(M, n) && col <= n
  {
    forall r, k :: 0 <= r < n && 0 <= k < col ==> M[r][k] == if r == k then 1.0 else 0.0
  }

  /** (A | b): each row of A followed by the matching entry of b. */
  function Augment(A: Matrix, b: seq<real>): (M: Matrix)
    requires IsSquare(A) && |b| == |A|
    ensures IsAugmented(M, |A|)
    ensures forall r :: 0 <= r < |A| ==> M[r][..|A|] == A[r] && M[r][|A|] == b[r]
  {
    seq(|A|, r requires 0 <= r < |A| => A[r] + [b[r]])
  }

  /** The augmented system has exactly the solutions of A x = b. */
  lemma AugmentSolutions(A: Matrix, b: seq<real>, x: seq<real>)
    requires IsSquare(A) && |b| == |A| && |x| == |A|
    ensures SolvesAug(Augment(A, b), x) <==> Solves(A, x, b)
  {
    var M := Augment(A, b);
    forall r | 0 <= r < |A|
      ensures RowHolds(M[r], x) <==> Dot(A[r], x) == b[r]
    {
      DotAgree(M[r], A[r], x);
    }
  }

  /** M with rows i and j exchanged. */
  function SwapRows(M: Matrix, i: nat, j: nat): (S: Matrix)
    requires i < |M| && j < |M|
    ensures |S| == |M| && S[i] == M[j] && S[j] == M[i]
    ensures forall r :: 0 <= r < |M| && r != i && r != j ==> S[r] == M[r]
  {
    M[i := M[j]][j := M[i]]
  }

  /** The pivot row's entries from column `col` on, divided by `pivot`; the
      entries before `col` are left as they are. */
  function NormalizeRow(row: seq<real>, col: nat, pivot: real): (res: seq<real>)
    requires col < |row| && pivot != 0.0
    ensures |res| == |row|
    ensures pivot == row[col] ==> res[col] == 1.0
    ensures forall c :: 0 <= c < col ==> res[c] == row[c]
  {
    SelfDivide(pivot);
    seq(|row|, c requires 0 <= c < |row| => if c >= col then row[c] / pivot else row[c])
  }

  /** `row` minus `factor` times `pivotRow`, from column `col` on; the entries
      before `col` are left as they are. */
  function SubtractMultiple(row: seq<real>, pivotRow: seq<real>, col: nat, factor: real): (res: seq<real>)
    requires col < |row| == |pivotRow|
    ensures |res| == |row|
    ensures pivotRow[col] == 1.0 && factor == row[col] ==> res[col] == 0.0
    ensures forall c :: 0 <= c < col ==> res[c] == row[c]
  {
    seq(|row|, c requires 0 <= c < |row| => if c >= col then row[c] - factor * pivotRow[c] else row[c])
  }

  /** `p` is the partial pivot for column `col`: the first row at or below
      `col` whose entry in that column has the largest magnitude. */
  ghost predicate IsPivotRow(M: Matrix, n: nat, col: nat, p: nat)
    requires IsAugmented(M, n) && col < n
  {
    && col <= p < n
    && (forall r :: col <= r < n ==> Abs(M[r][col]) <= Abs(M[p][col]))
    && (forall r :: col <= r < p ==> Abs(M[r][col]) < Abs(M[p][col]))
  }

  /** The pivot is determined by the column: two pivot rows coincide. */
  lemma PivotRowUnique(M: Matrix, n: nat, col: nat, p: nat, q: nat)
    requires IsAugmented(M, n) && col < n
    requires IsPivotRow(M, n, col, p) && IsPivotRow(M, n, col, q)
    ensures p == q
  {
    assert Abs(M[q][col]) <= Abs(M[p][col]) && Abs(M[p][col]) <= Abs(M[q][col]);
  }

  /** The scan for the pivot: starts at row `col` and moves only on a strictly
      larger magnitude, so ties keep the earlier row. */
  method SelectPivot(M: Matrix, n: nat, col: nat) returns (pivotRow: nat, best: real)
    requires IsAugmented(M, n) && col < n
    ensures IsPivotRow(M, n, col, pivotRow)
    ensures best == Abs(M[pivotRow][col])
  {
    pivotRow := col;
    best := Abs(M[col][col]);
    var r := col + 1;
    while r < n
      invariant col + 1 <= r <= n
      invariant col <= pivotRow < r
      invariant best == Abs(M[pivotRow][col])
      invariant forall k :: col <= k < r ==> Abs(M[k][col]) <= best
      invariant forall k :: col <= k < pivotRow ==> Abs(M[k][col]) < best
    {
      var v := Abs(M[r][col]);
      if v > best {
        best := v;
        pivotRow := r;
      }
      r := r + 1;
    }
  }

  /** The pivot scan over rows col..m-1, as a function: the first row with
      the largest magnitude in column `col`. */
  function ScanPivot(M: Matrix, n: nat, col: nat, m: nat): (p: nat)
    requires IsAugmented(M, n) && col < m <= n
    ensures col <= p < m
    ensures forall r :: col <= r < m ==> Abs(M[r][col]) <= Abs(M[p][col])
    ensures forall r :: col <= r < p ==> Abs(M[r][col]) < Abs(M[p][col])
  {
    if m == col + 1 then col
    else
      var p := ScanPivot(M, n, col, m - 1);
      if Abs(M[m - 1][col]) > Abs(M[p][col]) then m - 1 else p
  }

  /** The pivot row of column `col`. */
  ghost function PivotRow(M: Matrix, n: nat, col: nat): (p: nat)
    requires IsAugmented(M, n) && col < n
    ensures IsPivotRow(M, n, col, p)
  {
    ScanPivot(M, n, col, n)
  }

  /** The magnitude of the best pivot of column `col`: the value the solver
      compares with Eps. */
  ghost function BestPivot(M: Matrix, n: nat, col: nat): (best: real)
    requires IsAugmented(M, n) && col < n
    ensures forall r :: col <= r < n ==> Abs(M[r][col]) <= best
    ensures exists r :: col <= r < n && Abs(M[r][col]) == best
  {
    var p := PivotRow(M, n, col);
    assert col <= p < n && Abs(M[p][col]) == Abs(M[p][col]);
    Abs(M[p][col])
  }

  /** M after the pivot row has been swapped into row `col` and divided by
      its pivot. Defined when the best pivot is at least Eps. */
  ghost function Prepared(M: Matrix, n: nat, col: nat): (P: Matrix)
    requires IsAugmented(M, n) && col < n && BestPivot(M, n, col) >= Eps
    ensures IsAugmented(P, n) && P[col][col] == 1.0
  {
    var p := PivotRow(M, n, col);
    var S := if p != col then SwapRows(M, col, p) else M;
    S[col := NormalizeRow(S[col], col, S[col][col])]
  }

  /** M after clearing column `col` with the pivot row `col`: a row whose
      factor is below Eps is left as it is, every other row but the pivot row
      has the matching multiple of the pivot row subtracted. */
  function Eliminated(M: Matrix, n: nat, col: nat): (E: Matrix)
    requires IsAugmented(M, n) && col < n
    ensures IsAugmented(E, n) && E[col] == M[col]
    ensures forall r, c :: 0 <= r < n && 0 <= c < col ==> E[r][c] == M[r][c]
    ensures M[col][col] == 1.0 ==>
      forall r :: 0 <= r < n && r != col && Abs(M[r][col]) >= Eps ==> E[r][col] == 0.0
  {
    seq(n, r requires 0 <= r < n =>
      if r == col || Abs(M[r][col]) < Eps then M[r]
      else SubtractMultiple(M[r], M[col], col, M[r][col]))
  }

  /** One column of Gauss-Jordan elimination: pivot, swap, normalise, eliminate. */
  ghost function Stage(M: Matrix, n: nat, col: nat): (N: Matrix)
    requires IsAugmented(M, n) && col < n && BestPivot(M, n, col) >= Eps
    ensures IsAugmented(N, n)
  {
    Eliminated(Prepared(M, n, col), n, col)
  }

  /** Every factor that the elimination of column `col` leaves alone for being
      below Eps is exactly zero, so leaving it alone loses nothing. */
  ghost predicate ExactStage(M: Matrix, n: nat, col: nat)
    requires IsAugmented(M, n) && col < n && BestPivot(M, n, col) >= Eps
  {
    var P := Prepared(M, n, col);
    forall r :: 0 <= r < n && r != col && Abs(P[r][col]) < Eps ==> P[r][col] == 0.0
  }

  /** `trace` is a run of completed stages: augmented matrices, each one the
      stage of the previous one, whose best pivots were all at least Eps. */
  ghost predicate Stages(n: nat, trace: seq<Matrix>) {
    && 1 <= |trace| <= n + 1
    && (forall k :: 0 <= k < |trace| ==> IsAugmented(trace[k], n))
    && (forall k :: 0 <= k < |trace| - 1 ==>
          BestPivot(trace[k], n, k) >= Eps && trace[k + 1] == Stage(trace[k], n, k))
  }

  /** `trace` is the whole run of the elimination started from `M0`: it goes
      on while the best pivot is at least Eps, and stops either after the last
      column or at the first column whose best pivot is below Eps. */
  ghost predicate IsTrace(M0: Matrix, n: nat, trace: seq<Matrix>) {
    && Stages(n, trace) && trace[0] == M0
    && (|trace| <= n ==> BestPivot(trace[|trace| - 1], n, |trace| - 1) < Eps)
  }

  /** No stage of the run left a non-zero factor behind. */
  ghost predicate Exact(n: nat, trace: seq<Matrix>)
    requires Stages(n, trace)
  {
    forall k :: 0 <= k < |trace| - 1 ==> ExactStage(trace[k], n, k)
  }

  /** The run of the elimination is determined by its start. */
  lemma TraceDeterministic(M0: Matrix, n: nat, t1: seq<Matrix>, t2: seq<Matrix>)
    requires IsTrace(M0, n, t1) && IsTrace(M0, n, t2)
    ensures t1 == t2
  {
    forall k | 0 <= k < |t1| && k < |t2|
      ensures t1[k] == t2[k]
    {
      TracesAgree(M0, n, t1, t2, k);
    }
    var m := if |t1| < |t2| then |t1| else |t2|;
    TracesAgree(M0, n, t1, t2, m - 1);
  }

  lemma {:induction false} TracesAgree(M0: Matrix, n: nat, t1: seq<Matrix>, t2: seq<Matrix>, k: nat)
    requires IsTrace(M0, n, t1) && IsTrace(M0, n, t2)
    requires k < |t1| && k < |t2|
    ensures t1[k] == t2[k]
  {
    if k > 0 {
      TracesAgree(M0, n, t1, t2, k - 1);
    }
  }

  /** Clears column `col` in every row but the pivot row, skipping rows whose
      factor is below Eps. */
  method EliminateColumn(M: Matrix, n: nat, col: nat) returns (E: Matrix)
    requires IsAugmented(M, n) && col < n
    ensures E == Eliminated(M, n, col)
  {
    E := M;
    var r := 0;
    while r < n
      invariant 0 <= r <= n
      invariant IsAugmented(E, n)
      invariant E[col] == M[col]
      invariant forall k :: r <= k < n ==> E[k] == M[k]
      invariant forall k :: 0 <= k < r ==> E[k] == Eliminated(M, n, col)[k]
    {
      if r != col {
        var factor := E[r][col];
        if Abs(factor) >= Eps {
          E := E[r := SubtractMultiple(E[r], E[col], col, factor)];
        }
      }
      r := r + 1;
    }
    assert forall k :: 0 <= k < n ==> E[k] == Eliminated(M, n, col)[k];
  }

  /** The last column of an augmented matrix: the solution once the
      coefficient part is the identity. */
  function LastColumn(M: Matrix, n: nat): (x: seq<real>)
    requires IsAugmented(M, n)
    ensures |x| == n
    ensures forall r :: 0 <= r < n ==> x[r] == M[r][n]
  {
    seq(n, r requires 0 <= r < n => M[r][n])
  }

  /** Swaps the pivot row into row `col` and divides it by its pivot. */
  method PrepareColumn(M: Matrix, n: nat, col: nat, pivotRow: nat) returns (P: Matrix)
    requires IsAugmented(M, n) && col < n && IsPivotRow(M, n, col, pivotRow)
    requires Abs(M[pivotRow][col]) >= Eps
    ensures BestPivot(M, n, col) >= Eps && P == Prepared(M, n, col)
  {
    PivotRowUnique(M, n, col, pivotRow, PivotRow(M, n, col));
    P := M;
    if pivotRow != col {
      P := SwapRows(P, col, pivotRow);
    }
    var pivot := P[col][col];
    P := P[col := NormalizeRow(P[col], col, pivot)];
  }

  /** The elimination loop over the columns of an augmented matrix. It stops
      with `singular` at the first column whose best pivot is below Eps;
      `trace` is the run of stages it went through, and `M` its last stage. */
  method Reduce(M0: Matrix, n: nat) returns (M: Matrix, singular: bool, ghost trace: seq<Matrix>)
    requires IsAugmented(M0, n)
    ensures IsTrace(M0, n, trace) && IsAugmented(M, n) && M == trace[|trace| - 1]
    ensures singular <==> |trace| <= n
    ensures !singular && Exact(n, trace) ==> ReducedUpTo(M, n, n) && SameSolutions(M, M0, n)
  {
    M := M0;
    trace := [M];
    var col := 0;
    while col < n
      invariant 0 <= col <= n
      invariant IsAugmented(M, n)
      invariant |trace| == col + 1 && trace[col] == M && trace[0] == M0
      invariant Stages(n, trace)
      invariant Exact(n, trace) ==> ReducedUpTo(M, n, col) && SameSolutions(M, M0, n)
    {
      var pivotRow, best := SelectPivot(M, n, col);
      if best < Eps {
        PivotRowUnique(M, n, col, pivotRow, PivotRow(M, n, col));
        return M, true, trace;
      }
      M := PrepareColumn(M, n, col, pivotRow);
      M := EliminateColumn(M, n, col);
      Advance(M0, n, trace, M);
      trace := trace + [M];
      col := col + 1;
    }
    singular := false;
  }

  /** Solves A x = b for square A. Shape errors are reported first (a row of
      the wrong length, then a right-hand side of the wrong length). Then the
      columns are eliminated one by one; `trace` is the run of stages. The
      solver fails with SingularSystem exactly when the run stops at a column
      whose best pivot is below Eps, and otherwise returns the last column of
      the final stage. When no stage left a non-zero factor behind, that is
      the unique exact solution. */
  method SolveLinearSystem(A: Matrix, b: seq<real>) returns (r: Result<seq<real>>, ghost trace: seq<Matrix>)
    ensures r == Failure(NotSquare) <==> !IsSquare(A)
    ensures r == Failure(SizeMismatch) <==> IsSquare(A) && |b| != |A|
    ensures r.Failure? ==> r.error in {NotSquare, SizeMismatch, SingularSystem}
    ensures IsSquare(A) && |b| == |A| ==> IsTrace(Augment(A, b), |A|, trace)
    ensures IsSquare(A) && |b| == |A| ==> (r == Failure(SingularSystem) <==> |trace| <= |A|)
    ensures r == Failure(SingularSystem) ==>
      |trace| <= |A| && BestPivot(trace[|trace| - 1], |A|, |trace| - 1) < Eps
    ensures r.Success? ==> |trace| == |A| + 1 && r.value == LastColumn(trace[|A|], |A|)
    ensures r.Success? ==> forall k :: 0 <= k < |A| ==> BestPivot(trace[k], |A|, k) >= Eps
    ensures r.Success? && Exact(|A|, trace) ==> Solves(A, r.value, b)
    ensures r.Success? && Exact(|A|, trace) ==> forall y :: Solves(A, y, b) ==> y == r.value
  {
    trace := [];
    var n := |A|;
    if exists i :: 0 <= i < n && |A[i]| != n {
      return Failure(NotSquare), trace;
    }
    if |b| != n {
      return Failure(SizeMismatch), trace;
    }
    var M, singular;
    M, singular, trace := Reduce(Augment(A, b), n);
    if singular {
      return Failure(SingularSystem), trace;
    }
    r := Success(LastColumn(M, n));
    if Exact(n, trace) {
      ReducedSolves(A, b, M);
    }
  }

  /** A stage that leaves no non-zero factor behind takes a matrix reduced up
      to `col` to one reduced up to `col + 1` with the same solutions. */
  lemma StageKeeps(M: Matrix, n: nat, col: nat)
    requires IsAugmented(M, n) && col < n && BestPivot(M, n, col) >= Eps
    ensures ReducedUpTo(M, n, col) && ExactStage(M, n, col) ==>
      ReducedUpTo(Stage(M, n, col), n, col + 1) && SameSolutions(Stage(M, n, col), M, n)
  {
    if ReducedUpTo(M, n, col) && ExactStage(M, n, col) {
      var p := PivotRow(M, n, col);
      SwapStep(M, n, col, p);
      var S := if p != col then SwapRows(M, col, p) else M;
      NormalizeStep(S, n, col);
      EliminateStep(Prepared(M, n, col), n, col);
    }
  }

  /** Once the augmented matrix is reduced, its last column is the one and
      only solution of the original system. */
  lemma ReducedSolves(A: Matrix, b: seq<real>, M: Matrix)
    requires IsSquare(A) && |b| == |A| && IsAugmented(M, |A|)
    requires ReducedUpTo(M, |A|, |A|) && SameSolutions(M, Augment(A, b), |A|)
    ensures Solves(A, LastColumn(M, |A|), b)
    ensures forall y :: Solves(A, y, b) ==> y == LastColumn(M, |A|)
  {
    var n := |A|;
    ReducedSolution(M, n, LastColumn(M, n));
    forall x: seq<real> | |x| == n
      ensures SolvesAug(Augment(A, b), x) <==> Solves(A, x, b)
    {
      AugmentSolutions(A, b, x);
    }
    forall y | Solves(A, y, b)
      ensures y == LastColumn(M, n)
    {
      ReducedSolution(M, n, y);
    }
  }

  /** Appending the next stage to a run gives a run, and an exact run
      keeps reducing the matrix without changing its solutions. */
  lemma Advance(M0: Matrix, n: nat, trace: seq<Matrix>, N: Matrix)
    requires Stages(n, trace) && |trace| <= n && IsAugmented(M0, n)
    requires BestPivot(trace[|trace| - 1], n, |trace| - 1) >= Eps
    requires N == Stage(trace[|trace| - 1], n, |trace| - 1)
    requires Exact(n, trace) ==>
      ReducedUpTo(trace[|trace| - 1], n, |trace| - 1) && SameSolutions(trace[|trace| - 1], M0, n)
    ensures Stages(n, trace + [N])
    ensures Exact(n, trace + [N]) ==> ReducedUpTo(N, n, |trace|) && SameSolutions(N, M0, n)
  {
    var k := |trace| - 1;
    StagesExtend(n, trace, N);
    StageKeeps(trace[k], n, k);
  }

  /** The bookkeeping half of Advance: the run grows by one stage. */
  lemma StagesExtend(n: nat, trace: seq<Matrix>, N: Matrix)
    requires Stages(n, trace) && |trace| <= n
    requires BestPivot(trace[|trace| - 1], n, |trace| - 1) >= Eps
    requires N == Stage(trace[|trace| - 1], n, |trace| - 1)
    ensures Stages(n, trace + [N])
    ensures Exact(n, trace + [N]) ==> Exact(n, trace) && ExactStage(trace[|trace| - 1], n, |trace| - 1)
  {
    var t := trace + [N];
    assert forall j :: 0 <= j < |trace| ==> t[j] == trace[j];
  }

  /** A system of one equation a x = c. With no other row, nothing is ever
      left behind: the solver fails exactly when |a| < Eps and otherwise
      returns the exact solution c / a. */
  method SolveScalar(a: real, c: real) returns (r: Result<seq<real>>)
    ensures Abs(a) < Eps ==> r == Failure(SingularSystem)
    ensures Abs(a) >= Eps ==> r == Success([c / a])
  {
    ghost var trace;
    r, trace := SolveLinearSystem([[a]], [c]);
    var M0 := Augment([[a]], [c]);
    assert M0[0][0] == a;
    assert BestPivot(M0, 1, 0) == Abs(a);
    if r.Success? {
      assert ExactStage(trace[0], 1, 0);
      assert Exact(1, trace);
      var x := r.value;
      assert Solves([[a]], x, [c]);
      assert Dot([a], x) == c;
      ScalarSolution(a, c, x[0]);
      assert x == [c / a];
    }
  }

  lemma ScalarSolution(a: real, c: real, x: real)
    requires a != 0.0 && DotPrefix([a], [x], 1) == c
    ensures x == c / a
  {
  }

  /** One swap step keeps the reduced columns and the solutions. */
  lemma SwapStep(M: Matrix, n: nat, col: nat, p: nat)
    requires IsAugmented(M, n) && col <= p < n
    requires ReducedUpTo(M, n, col)
    ensures var S := if p != col then SwapRows(M, col, p) else M;
      && IsAugmented(S, n) && ReducedUpTo(S, n, col) && SameSolutions(S, M, n)
  {
  }

  /** Normalising the pivot row keeps the reduced columns and the solutions,
      and puts a 1 on the diagonal. */
  lemma NormalizeStep(M: Matrix, n: nat, col: nat)
    requires IsAugmented(M, n) && col < n && M[col][col] != 0.0
    requires ReducedUpTo(M, n, col)
    ensures var N := M[col := NormalizeRow(M[col], col, M[col][col])];
      && IsAugmented(N, n) && ReducedUpTo(N, n, col) && N[col][col] == 1.0
      && SameSolutions(N, M, n)
  {
    var p := M[col][col];
    var row := NormalizeRow(M[col], col, p);
    var N := M[col := row];
    forall x: seq<real> | |x| == n
      ensures RowHolds(row, x) <==> RowHolds(M[col], x)
    {
      DotDivide(M[col], row, x, p);
      DivideBoth(Dot(M[col], x), M[col][n], p);
    }
    forall x: seq<real> | |x| == n
      ensures SolvesAug(N, x) <==> SolvesAug(M, x)
    {
      assert forall r :: 0 <= r < n && r != col ==> N[r] == M[r];
      if SolvesAug(M, x) {
        assert RowHolds(N[col], x);
      }
      if SolvesAug(N, x) {
        assert N[col] == row && RowHolds(N[col], x);
        assert RowHolds(M[col], x);
      }
    }
  }

  /** With a 1 on the pivot and every factor below Eps exactly zero,
      elimination makes column `col` an identity column and keeps the
      solutions. */
  lemma EliminateStep(M: Matrix, n: nat, col: nat)
    requires IsAugmented(M, n) && col < n
    requires ReducedUpTo(M, n, col) && M[col][col] == 1.0
    requires forall r :: 0 <= r < n && r != col && Abs(M[r][col]) < Eps ==> M[r][col] == 0.0
    ensures ReducedUpTo(Eliminated(M, n, col), n, col + 1)
    ensures SameSolutions(Eliminated(M, n, col), M, n)
  {
    var E := Eliminated(M, n, col);
    forall r | 0 <= r < n && r != col
      ensures E[r][col] == 0.0
    {
      if Abs(M[r][col]) < Eps {
        assert E[r] == M[r];
      }
    }
    EliminateKeepsSolutions(M, E, n, col);
  }

  /** Subtracting multiples of a row from the other rows keeps the solutions. */
  lemma EliminateKeepsSolutions(M: Matrix, E: Matrix, n: nat, col: nat)
    requires IsAugmented(M, n) && IsAugmented(E, n) && col < n
    requires ReducedUpTo(M, n, col)
    requires E[col] == M[col]
    requires forall r :: 0 <= r < n && r != col ==>
      if Abs(M[r][col]) < Eps then E[r] == M[r]
      else E[r] == SubtractMultiple(M[r], M[col], col, M[r][col])
    ensures SameSolutions(E, M, n)
  {
    forall x: seq<real> | |x| == n
      ensures SolvesAug(E, x) <==> SolvesAug(M, x)
    {
      if RowHolds(M[col], x) {
        forall r | 0 <= r < n && r != col
          ensures RowHolds(E[r], x) <==> RowHolds(M[r], x)
        {
          if Abs(M[r][col]) >= Eps {
            SubtractEntries(M[r], M[col], col, M[r][col]);
            SubtractKeepsRow(M[r], M[col], E[r], x, M[r][col]);
          }
        }
      }
    }
  }

  /** When `x` satisfies the pivot row, it satisfies a row exactly when it
      satisfies the row minus a multiple of the pivot row. */
  lemma SubtractKeepsRow(row: seq<real>, pivotRow: seq<real>, res: seq<real>, x: seq<real>, f: real)
    requires |row| == |pivotRow| == |res| == |x| + 1
    requires forall k :: 0 <= k < |row| ==> res[k] == row[k] - f * pivotRow[k]
    requires RowHolds(pivotRow, x)
    ensures RowHolds(res, x) <==> RowHolds(row, x)
  {
    DotSubtract(row, pivotRow, res, x, f);
    var n := |x|;
    SubtractEquation(Dot(row, x), row[n], Dot(pivotRow, x), pivotRow[n], f, Dot(res, x), res[n]);
  }

  /** Where the pivot row is zero, leaving an entry alone is subtracting. */
  lemma SubtractEntries(row: seq<real>, pivotRow: seq<real>, col: nat, f: real)
    requires col < |row| == |pivotRow|
    requires forall k :: 0 <= k < col ==> pivotRow[k] == 0.0
    ensures var res := SubtractMultiple(row, pivotRow, col, f);
      forall k :: 0 <= k < |row| ==> res[k] == row[k] - f * pivotRow[k]
  {
    var res := SubtractMultiple(row, pivotRow, col, f);
    forall k | 0 <= k < |row|
      ensures res[k] == row[k] - f * pivotRow[k]
    {
      if k < col {
        assert pivotRow[k] == 0.0;
      }
    }
  }

  /** Subtracting f times two equal numbers from both sides keeps an equation. */
  lemma SubtractEquation(d: real, e: real, dp: real, ep: real, f: real, dr: real, er: real)
    requires dp == ep && dr == d - f * dp && er == e - f * ep
    ensures dr == er <==> d == e
  {
  }

  /** Once the coefficient part is the identity, `x` solves the system exactly
      when it is the last column. */
  lemma ReducedSolution(M: Matrix, n: nat, x: seq<real>)
    requires IsAugmented(M, n) && ReducedUpTo(M, n, n) && |x| == n
    ensures SolvesAug(M, x) <==> x == LastColumn(M, n)
  {
    forall r | 0 <= r < n
      ensures RowHolds(M[r], x) <==> x[r] == M[r][n]
    {
      DotUnit(M[r], x, r);
    }
  }

  /** Dot only reads the first |x| entries of its first argument. */
  lemma DotAgree(u: seq<real>, v: seq<real>, x: seq<real>)
    requires |x| <= |u| && |x| <= |v|
    requires forall k :: 0 <= k < |x| ==> u[k] == v[k]
    ensures Dot(u, x) == Dot(v, x)
  {
    PrefixAgree(u, v, x, |x|);
  }

  lemma {:induction false} PrefixAgree(u: seq<real>, v: seq<real>, x: seq<real>, m: nat)
    requires m <= |x| <= |u| && |x| <= |v|
    requires forall k :: 0 <= k < m ==> u[k] == v[k]
    ensures DotPrefix(u, x, m) == DotPrefix(v, x, m)
  {
    if m > 0 {
      PrefixAgree(u, v, x, m - 1);
    }
  }

  /** A row that is the unit vector e_i picks out x[i]. */
  lemma DotUnit(u: seq<real>, x: seq<real>, i: int)
    requires |x| <= |u|
    requires forall k :: 0 <= k < |x| ==> u[k] == if k == i then 1.0 else 0.0
    ensures Dot(u, x) == if 0 <= i < |x| then x[i] else 0.0
  {
    PrefixUnit(u, x, i, |x|);
  }

  lemma {:induction false} PrefixUnit(u: seq<real>, x: seq<real>, i: int, m: nat)
    requires m <= |x| <= |u|
    requires forall k :: 0 <= k < m ==> u[k] == if k == i then 1.0 else 0.0
    ensures DotPrefix(u, x, m) == if 0 <= i < m then x[i] else 0.0
  {
    if m > 0 {
      PrefixUnit(u, x, i, m - 1);
    }
  }

  /** Dividing every entry by p divides the dot product by p. */
  lemma DotDivide(u: seq<real>, w: seq<real>, x: seq<real>, p: real)
    requires |x| <= |u| && |x| <= |w| && p != 0.0
    requires forall k :: 0 <= k < |x| ==> w[k] == u[k] / p
    ensures Dot(w, x) == Dot(u, x) / p
  {
    PrefixDivide(u, w, x, p, |x|);
  }

  lemma {:induction false} PrefixDivide(u: seq<real>, w: seq<real>, x: seq<real>, p: real, m: nat)
    requires m <= |x| <= |u| && |x| <= |w| && p != 0.0
    requires forall k :: 0 <= k < m ==> w[k] == u[k] / p
    ensures DotPrefix(w, x, m) == DotPrefix(u, x, m) / p
  {
    if m > 0 {
      PrefixDivide(u, w, x, p, m - 1);
      DivideStep(u[m - 1], w[m - 1], x[m - 1], DotPrefix(u, x, m - 1), DotPrefix(w, x, m - 1), p);
    }
  }

  /** Subtracting f times `v` from `u` subtracts f times the dot products. */
  lemma DotSubtract(u: seq<real>, v: seq<real>, w: seq<real>, x: seq<real>, f: real)
    requires |x| <= |u| && |x| <= |v| && |x| <= |w|
    requires forall k :: 0 <= k < |x| ==> w[k] == u[k] - f * v[k]
    ensures Dot(w, x) == Dot(u, x) - f * Dot(v, x)
  {
    PrefixSubtract(u, v, w, x, f, |x|);
  }

  lemma {:induction false} PrefixSubtract(u: seq<real>, v: seq<real>, w: seq<real>, x: seq<real>, f: real, m: nat)
    requires m <= |x| <= |u| && |x| <= |v| && |x| <= |w|
    requires forall k :: 0 <= k < m ==> w[k] == u[k] - f * v[k]
    ensures DotPrefix(w, x, m) == DotPrefix(u, x, m) - f * DotPrefix(v, x, m)
  {
    if m > 0 {
      PrefixSubtract(u, v, w, x, f, m - 1);
      SubtractStep(u[m - 1], v[m - 1], w[m - 1], x[m - 1],
        DotPrefix(u, x, m - 1), DotPrefix(v, x, m - 1), DotPrefix(w, x, m - 1), f);
    }
  }

  lemma DivideStep(a: real, a1: real, y: real, d: real, d1: real, p: real)
    requires p != 0.0 && a1 == a / p && d1 == d / p
    ensures d1 + a1 * y == (d + a * y) / p
  {
  }

  lemma SubtractStep(a: real, b: real, c: real, y: real, d: real, e: real, g: real, f: real)
    requires c == a - f * b && g == d - f * e
    ensures g + c * y == (d + a * y) - f * (e + b * y)
  {
  }

  lemma SelfDivide(p: real)
    requires p != 0.0
    ensures p / p == 1.0
  {
  }

  /** Dividing both sides by the same non-zero p keeps an equation. */
  lemma DivideBoth(a: real, b: real, p: real)
    requires p != 0.0
    ensures a / p == b / p <==> a == b
  {
  }
}
