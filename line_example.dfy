// The straight line used as an example curve by the driver: x = 3 + 2t,
// y = 2 - 0.5t over t in [0, 1]. For an affine curve the symmetric
// difference quotient is exact, so the perpendicularity error is affine in
// t, and the isolation scan can be worked out completely.

module LineExample {
  import opened Vectors
  import opened ParametricFunctions

  /** The two component functions of the line. */
  function Line(): (fs: seq<real -> real>)
    ensures |fs| == 2
  {
    [(t: real) => 3.0 + 2.0 * t, (t: real) => 2.0 - 0.5 * t]
  }

  lemma CancelStep(b: real, dt: real)
    requires dt != 0.0
    ensures (b * (2.0 * dt)) / (2.0 * dt) == b
  {
  }

  /** For an affine component the symmetric difference quotient is exact:
      the line's tangent, as computed, is its direction (2, -0.5) whatever
      the step. */
  lemma LineDerivativeExact(t: real, dt: real)
    requires dt != 0.0
    ensures Derivative(Line(), t, dt) == [2.0, -0.5]
  {
    var x, y := Line()[0], Line()[1];
    assert x(t + dt) - x(t - dt) == 2.0 * (2.0 * dt);
    assert y(t + dt) - y(t - dt) == -0.5 * (2.0 * dt);
    CancelStep(2.0, dt);
    CancelStep(-0.5, dt);
  }

  lemma DotPair(a: seq<real>, b: seq<real>)
    requires |a| == |b| == 2
    ensures Dot(a, b) == a[0] * b[0] + a[1] * b[1]
  {
    assert a[..1][..0] == [] && b[..1][..0] == [];
    assert Dot(a[..1], b[..1]) == Dot(a[..1][..0], b[..1][..0]) + a[0] * b[0];
  }

  /** The perpendicularity error along the line is affine in t. */
  lemma LineError(p: seq<real>, t: real)
    requires |p| == 2
    ensures Err(Line(), p, t) == 2.0 * (p[0] - 3.0 - 2.0 * t) - 0.5 * (p[1] - 2.0 + 0.5 * t)
  {
    LineDerivativeExact(t, DefaultStep);
    DotPair(Sub(p, Curve(Line(), t)), Derivative(Line(), t, DefaultStep));
  }

  /** The grid over [0, 1] has step 0.1. */
  lemma UnitGrid(i: nat)
    ensures Grid(0.0, (1.0 - 0.0) / (Samples as real), i) == (i as real) / 10.0
  {
  }

  /** Projecting (3.5, 1) onto the line over [0, 1]: the error is
      1.5 - 4.25 t, which changes sign once, between t = 0.3 and t = 0.4;
      the scan records exactly that one bracket. */
  lemma LineExampleOneBracket()
    ensures Brackets(ErrFn(Line(), [3.5, 1.0]), 0.0, (1.0 - 0.0) / (Samples as real), Samples)
         == [(0.3, 0.4)]
  {
    var e := ErrFn(Line(), [3.5, 1.0]);
    var h := (1.0 - 0.0) / (Samples as real);
    forall i: nat | i <= Samples
      ensures SignBit(e(Grid(0.0, h, i))) <==> i > 3
    {
      UnitGrid(i);
      LineError([3.5, 1.0], Grid(0.0, h, i));
    }
    SingleCrossing(e, 0.0, h, Samples, 3);
    UnitGrid(3);
    UnitGrid(4);
  }

  /** Projecting (1, 1) onto the line over [0, 1]: the error is
      -3.5 - 4.25 t, negative throughout, so no bracket is recorded and the
      solver reports no solution. */
  lemma LineExampleNoSolution()
    ensures Brackets(ErrFn(Line(), [1.0, 1.0]), 0.0, (1.0 - 0.0) / (Samples as real), Samples) == []
  {
    var e := ErrFn(Line(), [1.0, 1.0]);
    var h := (1.0 - 0.0) / (Samples as real);
    forall i: nat | i <= Samples
      ensures SignBit(e(Grid(0.0, h, i)))
    {
      UnitGrid(i);
      LineError([1.0, 1.0], Grid(0.0, h, i));
    }
    ConstantSignNoBrackets(e, 0.0, h, Samples, true);
  }
}
