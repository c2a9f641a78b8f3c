# Planar homography core, modelled in Dafny

This project models the algebra behind a four-corner perspective warp. The
warp maps the rectangle (0, 0), (W, 0), (W, H), (0, H) onto a quad of image
points, and maps image points back into the rectangle. The core has six
parts:

- a 3x3 matrix-vector product (`mulMat3Vec3`);
- a cofactor/adjugate inverse of a 3x3 matrix (`invertMat3`);
- perspective division of a mapped point (`applyHomography`);
- a Gauss-Jordan solver with partial pivoting for square systems
  (`solveLinearSystem`);
- the 8 x 8 system that fixes a homography from four point correspondences,
  with h33 = 1 (`homographyFrom4Points`);
- the rectangle-space adapter built on top of them (`rectSpaceFromImageQuad`).

All arithmetic is over exact `real`s. The absolute tolerance `eps = 1e-12` is
the constant `Geometry.Eps`. Every `throw new Error(...)` of the source becomes
a variant of `Errors.Error`, carried by `Errors.Result`:

- `NotSquare`, `SizeMismatch`: shape errors in the solver;
- `SingularSystem`: the best pivot of a column is below Eps;
- `NotInvertible`: the determinant is below Eps;
- `PointAtInfinity`: the homogeneous w is below Eps.

Files, one module each:

- `errors.dfy` (`Errors`): the error variants and the `Result` type.
- `geometry.dfy` (`Geometry`): `Point`, `Quad`, `Vec3`, row-major `Mat3`, `Eps`,
  the matrix-vector and matrix-matrix products.
- `mat3_inverse.dfy` (`Mat3Inverse`): adjugate, determinant, `InvertMat3`.
- `homography.dfy` (`Homography`): `ApplyHomography` and its round trip.
- `linear_system.dfy` (`LinearSystem`): the solver, as a method over
  `seq<seq<real>>`, with one member per phase: pivot selection, swap,
  normalisation and elimination.
- `estimation.dfy` (`Estimation`): the 8 x 8 system and `HomographyFrom4Points`.
- `rect_space.dfy` (`RectSpace`): the rectangle space and its two directions.

The solver is a loop over the columns. One column's work is a *stage*: find
the pivot, swap, normalise, eliminate. `LinearSystem.Stage` defines a stage as a
function of the matrix before it. The solver returns, as a ghost value, the
`trace` of the matrices it went through. `IsTrace` pins that trace down
completely (`TraceDeterministic`):

- it starts at the augmented matrix;
- each entry is the stage of the one before;
- every best pivot on the way is at least Eps;
- it stops after the last column, or at the first column whose best pivot is
  below Eps.

SingularSystem is reported exactly when the trace stops early. Otherwise the
result is the last column of the final stage.

The elimination skips a row whose factor is below Eps and leaves that factor
in place. So the exact property A x = b holds when every factor skipped along
the trace is exactly zero (`Exact`). The solution, uniqueness and corner
properties are stated under `Exact(n, trace)`. The one-equation solver
`SolveScalar` shows that this condition is met there. Everything else is
unconditional.

## Model

| member | source | states |
|---|---|---|
| Geometry.MulMat3Vec3Columns | src/algebra.ts:19-23 | read by columns, m v is v.x col0 + v.y col1 + v.w col2, so m sends the j-th unit vector to column j |
| Geometry.MulMat3Vec3Compose | src/algebra.ts:19-23 | multiplying by p * q is multiplying by q and then by p |
| Geometry.MulMat3Vec3Scale | src/algebra.ts:19-23 | the product is linear: m (s v) = s (m v) |
| Geometry.MulMat3Vec3Identity | src/algebra.ts:19-23 | the identity matrix fixes every vector |
| Mat3Inverse.AdjugateEntries | src/algebra.ts:35-44 | the nine cofactors A..I, with their signs, sit transposed in the adjugate that the inverse scales |
| Mat3Inverse.DetSarrus | src/algebra.ts:46 | the first-row expansion a A + b B + c C is the six-term determinant formula, and the identity has determinant 1 |
| Mat3Inverse.AdjugateLeft | src/algebra.ts:35-46 | adj(m) * m = det(m) I, where det is the first row dotted with its cofactors a A + b B + c C |
| Mat3Inverse.AdjugateRight | src/algebra.ts:35-46 | m * adj(m) = det(m) I |
| Mat3Inverse.InvertMat3 | src/algebra.ts:25-61 | fails with NotInvertible exactly when abs(det) < eps; on success the result is a two-sided inverse: inv * m = I and m * inv = I |
| Mat3Inverse.InverseLeft | src/algebra.ts:49-60 | the adjugate scaled by 1/det is a left inverse whenever det is non-zero |
| Mat3Inverse.InverseRight | src/algebra.ts:49-60 | the adjugate scaled by 1/det is a right inverse whenever det is non-zero |
| Homography.ApplyHomography | src/algebra.ts:63-67 | fails with PointAtInfinity exactly when abs(w) < eps for (x, y, w) = H (p, 1); otherwise w times the lifted result is (x, y, w), i.e. the result is (x/w, y/w) |
| Homography.ApplyHomographyUnique | src/algebra.ts:63-67 | on success, the result is the only point whose lift scaled by w is H (p, 1) |
| Homography.ApplyHomographyRoundTrip | src/algebra.ts:63-67 | applying H and then a left inverse of H returns the original point whenever both applications succeed |
| LinearSystem.Augment | src/algebra.ts:76 | each augmented row is the row of A followed by the matching entry of b |
| LinearSystem.AugmentSolutions | src/algebra.ts:76 | the augmented matrix has exactly the solutions of A x = b |
| LinearSystem.ScanPivot | src/algebra.ts:80-88 | the scan over rows col..m-1 returns a row in that range with the largest abs(M[r][col]), and the first such row, since only a strictly larger value moves it |
| LinearSystem.SelectPivot | src/algebra.ts:80-88 | the chosen row is at or below col, has the largest abs(M[r][col]) among rows col..n-1, and is the first such row; `best` is that magnitude |
| LinearSystem.PivotRowUnique | src/algebra.ts:80-88 | the pivot row is determined by the column: two rows that both meet the pivot condition are equal |
| LinearSystem.BestPivot | src/algebra.ts:80-89 | the magnitude compared with eps bounds abs(M[r][col]) for every row r from col on and is attained by one of them |
| LinearSystem.SwapRows | src/algebra.ts:91-95 | rows i and j trade places and every other row stays |
| LinearSystem.SwapStep | src/algebra.ts:91-95 | swapping keeps the already reduced columns and the solution set |
| LinearSystem.NormalizeRow | src/algebra.ts:98-99 | dividing the pivot row by its own pivot puts 1 in the pivot column and leaves the entries before it alone |
| LinearSystem.NormalizeStep | src/algebra.ts:98-99 | normalising keeps the reduced columns and the solution set and makes the diagonal entry 1 |
| LinearSystem.Prepared | src/algebra.ts:91-99 | once the pivot row is swapped in and divided by its pivot, the matrix is still augmented and has 1 on the diagonal of column col |
| LinearSystem.PrepareColumn | src/algebra.ts:89-99 | when the scanned pivot is at least eps, the swap and the division compute exactly the prepared matrix of that column |
| LinearSystem.SubtractMultiple | src/algebra.ts:104-106 | subtracting factor times a pivot row whose pivot is 1, with factor the row's own entry, zeroes the pivot column and leaves earlier entries alone |
| LinearSystem.Eliminated | src/algebra.ts:102-107 | the pivot row and every column before col stay; with a pivot of 1, every other row whose factor is at least eps ends with 0 in the pivot column |
| LinearSystem.EliminateColumn | src/algebra.ts:102-107 | the row loop computes exactly Eliminated: a row whose factor is below eps stays as it is, every other row but the pivot row has factor times the pivot row subtracted |
| LinearSystem.EliminateStep | src/algebra.ts:102-107 | when every factor below eps is exactly zero, elimination turns the pivot column into an identity column and keeps the solution set |
| LinearSystem.EliminateKeepsSolutions | src/algebra.ts:102-107 | subtracting multiples of the pivot row from other rows never changes the solution set |
| LinearSystem.SubtractKeepsRow | src/algebra.ts:106 | given the pivot row holds, a row holds exactly when the row minus a multiple of the pivot row holds |
| LinearSystem.StageKeeps | src/algebra.ts:91-107 | a stage that skips only zero factors takes a matrix reduced up to col to one reduced up to col + 1, with the same solutions |
| LinearSystem.Reduce | src/algebra.ts:78-108 | the column loop walks exactly the run of stages from the augmented matrix; it reports a singular column exactly when the run stops early; an exact complete run ends reduced, with the solutions it started with |
| LinearSystem.TraceDeterministic | src/algebra.ts:78-108 | two runs of stages from the same matrix are equal: the run, and so the result, is a function of the input |
| LinearSystem.LastColumn | src/algebra.ts:110 | the result has n entries, entry r being the last entry of row r |
| LinearSystem.ReducedSolution | src/algebra.ts:110 | once the coefficient part is the identity, x solves the system exactly when x is the last column |
| LinearSystem.ReducedSolves | src/algebra.ts:110 | the last column of a reduced matrix with the system's solutions solves A x = b, and nothing else does |
| LinearSystem.SolveLinearSystem | src/algebra.ts:70-111 | NotSquare exactly when a row length differs from n; SizeMismatch exactly when A is square and the length of b differs from n; SingularSystem exactly when the run of stages stops at a column whose best pivot is below eps after all earlier ones were not; no other error; on success every best pivot was at least eps and the result is the last column of the final stage; when the run is exact, the result solves A x = b and is the only solution |
| LinearSystem.SolveScalar | src/algebra.ts:70-111 | on the system a x = c, the solver fails with SingularSystem exactly when abs(a) < eps and otherwise returns [c / a] |
| Estimation.UnknownsRoundTrip | src/algebra.ts:147 | the 8 unknowns and the matrix with h33 = 1 determine each other |
| Estimation.Coefficients | src/algebra.ts:125-144 | the system has 8 equations over the 8 unknowns; row 2k is the x equation of correspondence k and row 2k + 1 its y equation |
| Estimation.RightHandSide | src/algebra.ts:140-143 | entry 2k is the x of destination k and entry 2k + 1 its y |
| Estimation.RowXMeaning | src/algebra.ts:132-140 | the rearranged x equation holds exactly when the numerator of x is x times the denominator h31 u + h32 v + 1 |
| Estimation.RowYMeaning | src/algebra.ts:133-143 | the rearranged y equation holds exactly when the numerator of y is y times the same denominator |
| Estimation.CorrespondenceRows | src/algebra.ts:128-143 | the two equations of one correspondence hold exactly when H sends src[k] to dst[k] in homogeneous coordinates |
| Estimation.SystemMeansMapsQuad | src/algebra.ts:125-147 | the 8 unknowns solve the system exactly when the matrix they make, with h33 = 1, sends every src[k] to dst[k] |
| Estimation.MapsPointApply | src/algebra.ts:63-67 | a matrix that sends s to d in homogeneous coordinates makes applyHomography fail or return d; a successful applyHomography result is such a d |
| Estimation.Solution | src/algebra.ts:146-147 | the matrix built from the solved unknowns has h33 = 1 |
| Estimation.HomographyFrom4Points | src/algebra.ts:119-151 | SingularSystem exactly when the solver's run stops early; NotInvertible exactly when it completes but the resulting H has abs(det) < eps; no other error; on success H is that matrix, with H[8] = 1, and Hinv is invertMat3(H); when the run is exact, H sends each src[k] to dst[k], so applyHomography(H, src[k]) fails or returns dst[k], and H is the only matrix with h33 = 1 that does; a NotInvertible failure then means every such matrix has abs(det) < eps |
| RectSpace.RectCorners | src/algebra.ts:164-169 | corner k has x equal to W for k = 1, 2 and 0 otherwise, and y equal to H for k = 2, 3 and 0 otherwise |
| RectSpace.RectSpaceFromImageQuad | src/algebra.ts:159-183 | fails exactly as homographyFrom4Points does on the rectangle corners; on success rectToImg is its H, with h33 = 1, and imgToRect is invertMat3(rectToImg); when exact, rectToImg is the only matrix with h33 = 1 mapping the rectangle onto the quad, toImage of rectangle corner k fails or returns imageQuad[k], and toImage of (0, 0) returns imageQuad[0] |
| RectSpace.OriginNotAtInfinity | src/algebra.ts:147 | a matrix with h33 = 1 never sends the origin to infinity |
| RectSpace.ToRectUndoesToImage | src/algebra.ts:177-182 | toRect(toImage(p)) = p whenever both calls succeed |
| RectSpace.ToImageUndoesToRect | src/algebra.ts:177-182 | toImage(toRect(q)) = q whenever both calls succeed |
## Left out

- `src/main.ts` is not part of this model. It is rendering and pointer-event plumbing around a graphics library. Its only logic is calls to `rectSpaceFromImageQuad` and to the returned `toRect`/`toImage` (moving a corner in rectangle coordinates, `src/main.ts` lines 110-115, and dragging, lines 189-202), plus fixed per-handle delta tables (lines 221-284).
- IEEE-754 doubles, rounding, numerical stability and conditioning: every number is an exact `real`, so the tolerance guards are the only approximations modelled.
- Error message texts: each thrown error is one `Error` variant.
- In-place mutation: the solver works on immutable sequences. So it cannot modify the caller's `A` and `b`, which the source guarantees by building a fresh augmented copy.
- The `toRect`/`toImage` closures are the member functions `ToRect`/`ToImage` of `RectSpace.Space`.
- Rejection of collinear source points with SingularSystem is not proved. The model only shows where SingularSystem can arise: a best pivot below eps.
- LinearSystem.SolveLinearSystem: the solution and uniqueness promises are stated only for an exact run, one where every elimination factor skipped for being below eps is exactly zero. A skipped factor that is non-zero but below eps leaves the result an approximation that the model does not bound. For such runs the contract still fixes the result as the last column of the final stage.
- Estimation.HomographyFrom4Points: its corner and uniqueness promises carry the same exactness condition, inherited from the solver.
- RectSpace.RectSpaceFromImageQuad: corner fidelity carries the same exactness condition. For corners other than (0, 0), it is stated as "fails or returns the corner", because the model does not rule out a homogeneous w below eps there.
