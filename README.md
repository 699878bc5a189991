# PointProjection in Dafny

This project models the point-projection solver of PointProjection and proves
properties of the model. The solver finds the points of a parametric curve
c(t) = (f_0(t), ..., f_{N-1}(t)) whose connecting vector to a query point p is
perpendicular to the curve's tangent, for t in a search interval [t0, t1].

It works on the perpendicularity error e(t) = (p - c(t)) . c'(t). The tangent
c'(t) is the symmetric difference quotient with step 0.00001. The solver runs
in two phases:

1. **Isolation.** It scans the 10 equal sub-intervals of [t0, t1] from left to
   right. It records the ends of each sub-interval whose ends differ in the
   sign bit of e.
2. **Bisection.** It halves each recorded bracket, keeping a sign change
   between the ends. It stops at the first midpoint where |e| is below the
   tolerance and returns the curve point there.

The model has three parts:

- `vector.dfy`, module `Vectors`: the value type `vec<T, N>`.
  - Class `Vec` keeps the components in a fixed-size `array<real>`.
  - `+=`, `-=` and the element write change the array in place.
  - `+`, `-` and `/` copy the vector, then change the copy.
  - The dot product `*` is the left fold `Dot`.
  - The component-wise operations are also given as functions on
    `seq<real>` (`Add`, `Sub`, `Quot`, `Dot`, `Render`). The methods are
    proved against these functions.
- `parametric_function.dfy`, module `ParametricFunctions`: class
  `ParametricFunction` and its solver.
  - The class holds N component functions `real -> real`.
  - `ValueAt` and `DerivativeAt` fill their results in index loops.
  - `IsolateRoots` is the grid scan; its loop keeps `el == e(tl)`.
  - `Refine` is the bisection of one bracket. `RefineAll` is the loop over
    the brackets, and `GetPointProjection` runs the two phases.
  - The specification functions `Curve`, `Derivative`, `Err`, `Grid` and
    `Brackets` describe what the evaluators and the scan compute. The lemmas
    about them cover the bracket count, exactly which sub-intervals are
    recorded, left-to-right order, and the no-solution case.
  - The specification functions `BisectAfter` (the bracket after k
    rejected midpoints), `MidAfter` (the k-th midpoint) and `Bisect` (the
    outcome) describe the bisection. `Refine` is proved to return exactly
    `Bisect`. The lemmas about `Bisect` show that it accepts the first
    midpoint whose error is below the tolerance, and that an exhausted
    budget means every midpoint missed. They also show that the bracket
    stays inside the original one, halves at each step and keeps its sign
    change.
- `line_example.dfy`, module `LineExample`: the straight line x = 3 + 2t,
  y = 2 - 0.5t that the driver projects onto.
  - For an affine curve the symmetric difference is exact, so e is affine
    in t.
  - For p = (3.5, 1) the scan over [0, 1] finds exactly the bracket
    (0.3, 0.4).
  - For p = (1, 1) it finds none.

Modelling choices:

- T is `real`: arithmetic is exact.
- `std::signbit(x)` is `x < 0.0`.
- The local `std::array` buffers in `get_value_at` and `get_derivative_at`
  are values in C++, so they are local sequences updated by index in the
  loops.
- The step h = (t1 - t0) / 10 is exact, and so is the running grid point
  `tr += h`. After i steps the grid point is exactly t0 + i·h (`GridStep`).

The repeated expression `(p - get_value_at(t)) * get_derivative_at(t)` is
factored into `ErrorAt`. It computes exactly what the source computes:
`get_derivative_at`, `get_value_at`, the copy-and-subtract `operator-` and the
dot product.

The `while (true)` loop of the bisection has no bound, and Dafny needs one. So
`Refine` takes a budget `fuel` of midpoints per bracket. If a bracket uses up
its budget, every one of its `fuel` midpoints has missed the tolerance, and
the C++ program would still be bisecting that bracket. It might still accept
a later midpoint; it never returns only if no midpoint ever meets the
tolerance. In that case
`GetPointProjection` stops and returns `converged == false`, with the points of
the earlier brackets. When `converged` is true, every bracket produced exactly
one point, as in a run of the C++ function that returns. So the number of
points equals the number of brackets, and it is at most 10.

## Model

| member | source | states |
|---|---|---|
| `Vectors.DotSymmetric` | PointProjection/vector.h:86-89 | The inner-product fold gives the same value whichever operand is on the left. |
| `Vectors.AddSubInverse` | PointProjection/vector.h:70-84 | Component-wise subtraction undoes addition, and addition undoes subtraction. |
| `Vectors.RenderCommas` | PointProjection/vector.h:55-65 | If the number formatter never writes a comma, the rendering "(x0, ..., xN-1)" holds exactly N − 1 commas (none when N = 0), so the separators give the arity. |
| `Vectors.Vec.Default` | PointProjection/vector.h:19 | The default constructor makes a vector of the given arity with its own new buffer; the components are left unspecified. |
| `Vectors.Vec.constructor` | PointProjection/vector.h:21-33 | Construction from N scalars or from an array (copy or move) gives a new buffer equal to the given components. |
| `Vectors.Vec.Copy` | PointProjection/vector.h:35-41 | Copy and move construction give a new buffer whose components equal the source vector's. |
| `Vectors.Vec.Assign` | PointProjection/vector.h:43-53 | Copy and move assignment make every component equal to the other vector's old component; self-assignment changes nothing. |
| `Vectors.Vec.Set` | PointProjection/vector.h:67-68 | A write through `operator[]` at i < N sets component i (as read back by the const `operator[]`) and leaves every other component as it was. |
| `Vectors.Vec.ToString` | PointProjection/vector.h:55-65 | The loop that writes each component followed by ", " except the last, all between parentheses, produces `Render` of the components. |
| `Vectors.Vec.AddAssign` | PointProjection/vector.h:70-76 | `+=` sets each component to its old value plus the other vector's old component; the other vector is unchanged unless it is this one. |
| `Vectors.Vec.SubAssign` | PointProjection/vector.h:78-84 | `-=` sets each component to its old value minus the other vector's old component; the other vector is unchanged unless it is this one. |
| `Vectors.Vec.Mul` | PointProjection/vector.h:86-89 | `operator*` is the inner-product fold starting from zero. It equals the fold with the operands swapped, and it is zero for arity 0. |
| `Vectors.Vec.Div` | PointProjection/vector.h:91-98 | `operator/` returns a new vector of the components divided by d. Each result component times d gives back the original, and the operand is unchanged. |
| `Vectors.Plus` | PointProjection/vector.h:101-107 | Binary `+` returns a new vector holding the component-wise sum; neither operand is modified. |
| `Vectors.Minus` | PointProjection/vector.h:109-115 | Binary `-` returns a new vector holding the component-wise difference; neither operand is modified. |
| `ParametricFunctions.ParametricFunction.constructor` | PointProjection/parametric_function.h:24-27 | The curve holds exactly the given component functions, in order. |
| `ParametricFunctions.ParametricFunction.ValueAt` | PointProjection/parametric_function.h:29-35 | The result is a new vector, with its own buffer, of N components; component i is functions[i](t). |
| `ParametricFunctions.ParametricFunction.DerivativeAt` | PointProjection/parametric_function.h:37-59 | The result is a new vector, with its own buffer, of N components; component i is (f_i(t + dt) − f_i(t − dt)) / (2·dt). |
| `ParametricFunctions.ParametricFunction.ErrorAt` | PointProjection/parametric_function.h:73-78 | (p − c(t)) · c′(t), computed with the vector operators, is the perpendicularity error `Err` at t. |
| `ParametricFunctions.ParametricFunction.IsolateRoots` | PointProjection/parametric_function.h:63-94 | The scan records exactly `Brackets` of e over the 10-step grid from t0 with step (t1 − t0)/10, so at most 10 brackets. Its loop keeps tl and tr on adjacent grid points and el equal to e(tl). |
| `ParametricFunctions.BracketsBound` | PointProjection/parametric_function.h:80-94 | A scan of n sub-intervals records at most n brackets, at most one per iteration. |
| `ParametricFunctions.SignChangesExact` | PointProjection/parametric_function.h:80-94 | The recorded sub-interval indices are below n and strictly increasing. Index i < n is recorded if and only if the sign bit of e differs between grid points i and i + 1. |
| `ParametricFunctions.BracketsAtSignChanges` | PointProjection/parametric_function.h:66-94 | Bracket k is the pair of adjacent grid points (t0 + i·h, t0 + (i+1)·h), where i is the k-th recorded index. |
| `ParametricFunctions.GridStep` | PointProjection/parametric_function.h:70-90 | Adding h to grid point i gives grid point i + 1 exactly, so `tr += h` stays on the grid. |
| `ParametricFunctions.BracketsLeftToRight` | PointProjection/parametric_function.h:66-94 | For h > 0 each bracket has its left end strictly before its right end, and brackets come left to right without overlapping. |
| `ParametricFunctions.ConstantSignNoBrackets` | PointProjection/parametric_function.h:85-98 | If e has the same sign bit at every grid point, no bracket is recorded, and the bisection loop has nothing to run on. |
| `ParametricFunctions.SingleCrossing` | PointProjection/parametric_function.h:80-94 | If the sign bit of e is clear up to grid point j and set after it, the scan records exactly the one bracket (grid j, grid j+1). |
| `ParametricFunctions.HalvedIsQuotient` | PointProjection/parametric_function.h:104-127 | Halving a width k times divides it by 2^k, the width of a bracket after k non-accepting bisection steps. |
| `ParametricFunctions.InBracketsInOrder` | PointProjection/parametric_function.h:98-113 | Parameters taken one from the inside of each of a run of left-to-right brackets, in bracket order, are strictly increasing. |
| `ParametricFunctions.BisectAfterInside` | PointProjection/parametric_function.h:104-127 | After k rejected midpoints the bracket lies inside the original one, and its width is the original width halved k times. |
| `ParametricFunctions.MidAfterInside` | PointProjection/parametric_function.h:106 | Every midpoint `(tb + ta) / 2` lies in the original bracket, strictly inside it when the bracket is proper. |
| `ParametricFunctions.BisectKeepsSignChange` | PointProjection/parametric_function.h:116-126 | Keeping the end whose sign bit differs from the midpoint's preserves a sign change between the ends of the bracket, at every step. |
| `ParametricFunctions.MissesEach` | PointProjection/parametric_function.h:104-114 | The recursive "midpoints lo to hi − 1 all miss" holds exactly when each of those midpoints has error at least the tolerance. |
| `ParametricFunctions.MissesAppend` | PointProjection/parametric_function.h:104-127 | A run of missed midpoints followed by one more miss is a longer run. |
| `ParametricFunctions.BisectSkip` | PointProjection/parametric_function.h:104-127 | When the midpoints of steps j to k − 1 all miss, the bisection from step j ends as the bisection from step k. |
| `ParametricFunctions.BisectAdvance` | PointProjection/parametric_function.h:105-126 | One loop step: the midpoint examined is (tb + ta)/2. If its error is below the tolerance it is the answer; otherwise the misses grow by one, and the next bracket is the half chosen by the sign bits of ea and ei. |
| `ParametricFunctions.BisectOutcome` | PointProjection/parametric_function.h:104-127 | An accepted t is the midpoint of step s < fuel, with \|e(t)\| < tolerance, and every earlier midpoint missed. An exhausted bisection ends on the bracket after `fuel` halvings, and every one of its midpoints missed. |
| `ParametricFunctions.BisectAcceptsFirstHit` | PointProjection/parametric_function.h:110-114 | Conversely, if the midpoints before step j < fuel miss and the midpoint of step j meets the tolerance, the bisection accepts exactly that midpoint. |
| `ParametricFunctions.BisectInside` | PointProjection/parametric_function.h:104-127 | An accepted t is the midpoint of its final bracket and lies in the original one, strictly inside a proper one. The final bracket lies in the original, is its width halved once per rejected midpoint, and keeps the sign change. |
| `ParametricFunctions.AllAcceptedEach` | PointProjection/parametric_function.h:98-128 | If each ts[k] is the midpoint accepted in bracket k, then each ts[k] has error below the tolerance and lies in bracket k, strictly inside a proper one. |
| `ParametricFunctions.ParametricFunction.Refine` | PointProjection/parametric_function.h:101-127 | The outcome is exactly `Bisect` of the error on [ta0, tb0]: the first midpoint within budget whose error is below the tolerance, or the exhausted bracket. On acceptance the returned point is a new vector equal to c(t), and \|e(t)\| < tolerance. The loop keeps ea = e(ta), eb = e(tb), the bracket equal to `BisectAfter` and all earlier midpoints missed. |
| `ParametricFunctions.ParametricFunction.RefineAll` | PointProjection/parametric_function.h:96-128 | The points are, bracket by bracket, new and pairwise distinct vectors equal to c of the midpoint `Bisect` accepts. The loop stops early exactly when the bisection of the next bracket exhausts its budget. |
| `ParametricFunctions.ParametricFunction.PointAndErrorAt` | PointProjection/parametric_function.h:106-108 | `vi = get_value_at(ti)` is a new vector equal to c(ti), and `(p - vi) * get_derivative_at(ti)` is the error e(ti). |
| `ParametricFunctions.ParametricFunction.GetPointProjection` | PointProjection/parametric_function.h:61-131 | At most one point per bracket (≤ 10), in bracket order. Point k is a new vector, distinct from the others, equal to c(t_k), where t_k is the midpoint `Bisect` accepts in bracket k, so \|e(t_k)\| < tolerance and t_k lies in bracket k. No brackets means an empty result. Converging means exactly one point per bracket. Not converging means that the bisection of the next bracket exhausted its budget. For t0 < t1 the parameters are strictly increasing. |
| `LineExample.LineDerivativeExact` | PointProjection/main.cpp:29-31 | For the line x = 3 + 2t, y = 2 − 0.5t, the symmetric difference quotient is exactly the direction (2, −0.5) for every step dt ≠ 0. |
| `LineExample.LineError` | PointProjection/main.cpp:29-31 | Along that line the perpendicularity error is the affine function 2(p0 − 3 − 2t) − 0.5(p1 − 2 + 0.5t). |
| `LineExample.LineExampleOneBracket` | PointProjection/main.cpp:40 | Projecting (3.5, 1) onto the line over [0, 1], the scan records exactly the bracket (0.3, 0.4). |
| `LineExample.LineExampleNoSolution` | PointProjection/main.cpp:39 | Projecting (1, 1) onto the line over [0, 1], the error is negative throughout, so the scan records no bracket ("no solution"). |

## Left out

- Floating point: T is `real`, so nothing about rounding, overflow, NaN or infinities is modelled.
- Floating point: the sign bit of −0.0 is not modelled.
- Floating point: rounding of (t1 − t0)/10 and drift from accumulating `tr += h` are not modelled.
- ParametricFunctions.ParametricFunction.Refine: the `while (true)` loop is bounded by a `fuel` budget of midpoints, because Dafny needs a terminating loop. Non-termination is modelled only as running out of fuel.
- ParametricFunctions.ParametricFunction.GetPointProjection: when a bracket runs out of fuel it returns `converged == false`. At that point the C++ function would still be bisecting that bracket: it may accept a later midpoint, and it never returns only if no midpoint ever meets the tolerance. Its `ts` out-parameter is ghost: it names the parameters of the returned points, and the C++ function does not return them.
- ParametricFunctions.ParametricFunction.DerivativeAt: requires dt ≠ 0, because real division by zero is undefined in Dafny. In C++ it would yield infinities or NaN. The solver always uses the default step 0.00001.
- Vectors.Vec.Div: requires d ≠ 0 for the same reason.
- The carried derivative `dl = dr` in the isolation loop is never read after the first error evaluation, so it is not modelled.
- The reference that `+=`, `-=` and `operator=` return for chaining is not modelled.
- `operator[]` with i ≥ N is undefined behaviour in C++. The model requires i < N.
- Vectors.Vec.ToString: the number formatting of `std::stringstream` is an abstract formatter parameter `fmt`.
- C++ concepts, templates and `std::function` storage are left out. N is the length of the function sequence or of the array. A query point's arity matching the curve's is a precondition.
- The driver in PointProjection/main.cpp is left out: output to `std::cout`, and the circle, ellipse and limaçon curves built from `std::cos` and `std::sin`. Only its line example is modelled.
- No claim is made that the results approximate true projections, or that the central difference approximates the derivative. These are numerical-analysis statements.
