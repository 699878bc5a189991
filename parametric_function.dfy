// The parametric curve `parametric_function<T, N>` and its point-projection
// solver. T is modelled as `real`; the N component functions are total
// Dafny functions `real -> real`, N being the length of their sequence.

module ParametricFunctions {
  import opened Vectors

  /** The fixed number of sub-intervals the search interval is cut into. */
  const Samples: nat := 10

  /** The default step of the symmetric derivative. */
  const DefaultStep: real := 0.00001

  /** `std::signbit`, read as "is negative". Over the reals there is no
      negative zero, so an error of exactly 0 counts as non-negative. */
  predicate SignBit(x: real)
  {
    x < 0.0
  }

  function Abs(x: real): (r: real)
  {
    if x < 0.0 then -x else x
  }

  // ---------------------------------------------------------------------
  // Specification of the curve evaluators and of the perpendicularity error

  /** The curve point c(t): component i is fs[i](t). */
  function Curve(fs: seq<real -> real>, t: real): (r: seq<real>)
    ensures |r| == |fs|
  {
    seq(|fs|, i requires 0 <= i < |fs| => fs[i](t))
  }

  /** The symmetric difference quotient of f at t with step dt. */
  function Slope(f: real -> real, t: real, dt: real): (r: real)
    requires dt != 0.0
  {
    (f(t + dt) - f(t - dt)) / (2.0 * dt)
  }

  /** The symmetric difference quotient of every component at t with step dt. */
  function Derivative(fs: seq<real -> real>, t: real, dt: real): (r: seq<real>)
    requires dt != 0.0
    ensures |r| == |fs|
  {
    seq(|fs|, i requires 0 <= i < |fs| => Slope(fs[i], t, dt))
  }

  /** The perpendicularity error e(t) = (p - c(t)) . c'(t), with c'(t) the
      symmetric difference quotient at the default step. */
  function Err(fs: seq<real -> real>, p: seq<real>, t: real): (r: real)
    requires |p| == |fs|
  {
    Dot(Sub(p, Curve(fs, t)), Derivative(fs, t, DefaultStep))
  }

  /** e as a function value, for the statements about the grid scan. */
  function ErrFn(fs: seq<real -> real>, p: seq<real>): (e: real -> real)
    requires |p| == |fs|
  {
    t => Err(fs, p, t)
  }

  // ---------------------------------------------------------------------
  // Specification of the bracket isolation scan

  /** Grid point i of the scan: t0 + i * h. */
  function Grid(t0: real, h: real, i: nat): (r: real)
  {
    t0 + (i as real) * h
  }

  lemma GridStep(t0: real, h: real, i: nat)
    ensures Grid(t0, h, i + 1) == Grid(t0, h, i) + h
  {
    assert ((i + 1) as real) * h == (i as real) * h + h;
  }

  /** The sign bit of `e` differs between grid points i and i + 1. */
  predicate SignChangeAt(e: real -> real, t0: real, h: real, i: nat)
  {
    SignBit(e(Grid(t0, h, i))) != SignBit(e(Grid(t0, h, i + 1)))
  }

  /** The brackets that a scan of the first n sub-intervals records. */
  function Brackets(e: real -> real, t0: real, h: real, n: nat): (b: seq<(real, real)>)
  {
    if n == 0 then []
    else Brackets(e, t0, h, n - 1)
         + (if SignChangeAt(e, t0, h, n - 1) then [(Grid(t0, h, n - 1), Grid(t0, h, n))] else [])
  }

  /** The indices i < n of the sub-intervals whose ends differ in sign bit,
      in increasing order. */
  function SignChanges(e: real -> real, t0: real, h: real, n: nat): (idx: seq<nat>)
  {
    if n == 0 then []
    else SignChanges(e, t0, h, n - 1) + (if SignChangeAt(e, t0, h, n - 1) then [n - 1] else [])
  }

  /** A scan of n sub-intervals records at most one bracket per sub-interval. */
  lemma {:induction false} BracketsBound(e: real -> real, t0: real, h: real, n: nat)
    ensures |Brackets(e, t0, h, n)| <= n
  {
    if n > 0 {
      BracketsBound(e, t0, h, n - 1);
    }
  }

  /** The sign-change indices are increasing, below n, and an index i < n is
      among them exactly when the sign bit differs between grid points i and
      i + 1. */
  lemma {:induction false} SignChangesExact(e: real -> real, t0: real, h: real, n: nat)
    ensures var idx := SignChanges(e, t0, h, n);
      (forall k :: 0 <= k < |idx| ==> idx[k] < n)
      && (forall k, l :: 0 <= k < l < |idx| ==> idx[k] < idx[l])
      && (forall i: nat :: i < n ==> (i in idx <==> SignChangeAt(e, t0, h, i)))
  {
    if n > 0 {
      SignChangesExact(e, t0, h, n - 1);
    }
  }

  /** Bracket k is the pair of adjacent grid points around the k-th
      sign-change index. */
  lemma {:induction false} BracketsAtSignChanges(e: real -> real, t0: real, h: real, n: nat)
    ensures var idx := SignChanges(e, t0, h, n);
      var b := Brackets(e, t0, h, n);
      |b| == |idx|
      && forall k :: 0 <= k < |idx| ==> b[k] == (Grid(t0, h, idx[k]), Grid(t0, h, idx[k] + 1))
  {
    if n > 0 {
      BracketsAtSignChanges(e, t0, h, n - 1);
    }
  }

  lemma GridMonotone(t0: real, h: real, i: nat, j: nat)
    requires h > 0.0 && i < j
    ensures Grid(t0, h, i) < Grid(t0, h, j)
  {
    assert (j as real) * h - (i as real) * h == ((j - i) as real) * h;
  }

  /** For a forward interval (h > 0) every bracket is a proper interval and
      the brackets come left to right without overlapping. */
  lemma BracketsLeftToRight(e: real -> real, t0: real, h: real, n: nat)
    requires h > 0.0
    ensures var b := Brackets(e, t0, h, n);
      (forall k :: 0 <= k < |b| ==> b[k].0 < b[k].1)
      && (forall k, l :: 0 <= k < l < |b| ==> b[k].1 <= b[l].0)
  {
    var idx := SignChanges(e, t0, h, n);
    var b := Brackets(e, t0, h, n);
    SignChangesExact(e, t0, h, n);
    BracketsAtSignChanges(e, t0, h, n);
    forall k | 0 <= k < |b|
      ensures b[k].0 < b[k].1
    {
      GridMonotone(t0, h, idx[k], idx[k] + 1);
    }
    forall k, l | 0 <= k < l < |b|
      ensures b[k].1 <= b[l].0
    {
      if idx[k] + 1 < idx[l] {
        GridMonotone(t0, h, idx[k] + 1, idx[l]);
      }
    }
  }

  /** If the error keeps one sign bit on all grid points, the scan records
      nothing, and the solver answers "no solution". */
  lemma {:induction false} ConstantSignNoBrackets(e: real -> real, t0: real, h: real, n: nat, s: bool)
    requires forall i: nat :: i <= n ==> SignBit(e(Grid(t0, h, i))) == s
    ensures Brackets(e, t0, h, n) == []
  {
    if n > 0 {
      ConstantSignNoBrackets(e, t0, h, n - 1, s);
    }
  }

  /** If the sign bit of the error is clear up to grid point j and set after
      it, the scan records exactly the one bracket around the crossing. */
  lemma {:induction false} SingleCrossing(e: real -> real, t0: real, h: real, n: nat, j: nat)
    requires j < n
    requires forall i: nat :: i <= n ==> (SignBit(e(Grid(t0, h, i))) <==> i > j)
    ensures Brackets(e, t0, h, n) == [(Grid(t0, h, j), Grid(t0, h, j + 1))]
  {
    if n - 1 == j {
      ConstantSignNoBrackets(e, t0, h, j, false);
    } else {
      SingleCrossing(e, t0, h, n - 1, j);
    }
  }

  // ---------------------------------------------------------------------
  // Specification of the bisection

  /** x lies in the closed interval between a and b, in either order. */
  predicate Between(a: real, b: real, x: real)
  {
    (a <= x <= b) || (b <= x <= a)
  }

  /** w halved k times. */
  function Halved(w: real, k: nat): (r: real)
    ensures w > 0.0 ==> r > 0.0
  {
    if k == 0 then w else Halved(w, k - 1) / 2.0
  }

  function Pow2(k: nat): (r: real)
  {
    if k == 0 then 1.0 else 2.0 * Pow2(k - 1)
  }

  /** Halving k times divides by 2^k. */
  lemma {:induction false} HalvedIsQuotient(w: real, k: nat)
    ensures Pow2(k) > 0.0
    ensures Halved(w, k) * Pow2(k) == w
  {
    if k > 0 {
      HalvedIsQuotient(w, k - 1);
      assert Halved(w, k) * Pow2(k) == Halved(w, k - 1) * Pow2(k - 1);
    }
  }

  /** The bracket after k non-accepting bisection steps from [ta0, tb0]:
      each step keeps the half whose left end differs in sign bit from the
      midpoint (the left half), and the right half otherwise. */
  function BisectAfter(e: real -> real, ta0: real, tb0: real, k: nat): (r: (real, real))
  {
    if k == 0 then (ta0, tb0)
    else
      var r := BisectAfter(e, ta0, tb0, k - 1);
      var ti := (r.1 + r.0) / 2.0;
      if SignBit(e(r.0)) != SignBit(e(ti)) then (r.0, ti) else (ti, r.1)
  }

  /** The midpoint examined at bisection step k. */
  function MidAfter(e: real -> real, ta0: real, tb0: real, k: nat): (t: real)
  {
    (BisectAfter(e, ta0, tb0, k).1 + BisectAfter(e, ta0, tb0, k).0) / 2.0
  }

  /** The bracket after k steps lies inside the original one and is the
      original width halved k times. */
  lemma {:induction false} BisectAfterInside(e: real -> real, ta0: real, tb0: real, k: nat)
    ensures var r := BisectAfter(e, ta0, tb0, k);
      r.1 - r.0 == Halved(tb0 - ta0, k) && Between(ta0, tb0, r.0) && Between(ta0, tb0, r.1)
  {
    if k > 0 {
      BisectAfterInside(e, ta0, tb0, k - 1);
    }
  }

  /** Every midpoint lies in the original bracket, strictly inside a proper
      one. */
  lemma MidAfterInside(e: real -> real, ta0: real, tb0: real, k: nat)
    ensures Between(ta0, tb0, MidAfter(e, ta0, tb0, k))
    ensures ta0 < tb0 ==> ta0 < MidAfter(e, ta0, tb0, k) < tb0
  {
    BisectAfterInside(e, ta0, tb0, k);
  }

  /** `ErrFn` applied is `Err`. */
  lemma ErrFnApply(fs: seq<real -> real>, p: seq<real>, t: real)
    requires |p| == |fs|
    ensures ErrFn(fs, p)(t) == Err(fs, p, t)
  {
  }

  /** A bisection step keeps a sign change between the ends of the bracket. */
  lemma {:induction false} BisectKeepsSignChange(e: real -> real, ta0: real, tb0: real, k: nat)
    requires SignBit(e(ta0)) != SignBit(e(tb0))
    ensures var r := BisectAfter(e, ta0, tb0, k); SignBit(e(r.0)) != SignBit(e(r.1))
  {
    if k > 0 {
      BisectKeepsSignChange(e, ta0, tb0, k - 1);
    }
  }

  /** The midpoints of steps lo up to hi - 1 all miss the tolerance. */
  predicate Misses(e: real -> real, ta0: real, tb0: real, tol: real, lo: nat, hi: nat)
    decreases hi - lo
  {
    lo < hi ==> Abs(e(MidAfter(e, ta0, tb0, lo))) >= tol && Misses(e, ta0, tb0, tol, lo + 1, hi)
  }

  /** `Misses` read as a statement about each step. */
  lemma {:induction false} MissesEach(e: real -> real, ta0: real, tb0: real, tol: real, lo: nat, hi: nat)
    ensures Misses(e, ta0, tb0, tol, lo, hi)
        <==> forall j :: lo <= j < hi ==> Abs(e(MidAfter(e, ta0, tb0, j))) >= tol
    decreases hi - lo
  {
    if lo < hi {
      MissesEach(e, ta0, tb0, tol, lo + 1, hi);
    }
  }

  /** One more missing midpoint extends the run. */
  lemma {:induction false} MissesAppend(e: real -> real, ta0: real, tb0: real, tol: real, lo: nat, hi: nat)
    requires lo <= hi
    requires Misses(e, ta0, tb0, tol, lo, hi)
    requires Abs(e(MidAfter(e, ta0, tb0, hi))) >= tol
    ensures Misses(e, ta0, tb0, tol, lo, hi + 1)
    decreases hi - lo
  {
    if lo < hi {
      MissesAppend(e, ta0, tb0, tol, lo + 1, hi);
    }
  }

  /** The end of the refinement of one bracket: the midpoint t of the
      bracket [ta, tb] reached after `steps` halvings, where the error met
      the tolerance, or the bracket left when the iteration budget ran out. */
  datatype Bisection =
    | Accepted(t: real, ta: real, tb: real, steps: nat)
    | Exhausted(ta: real, tb: real)

  /** The outcome of the bisection of [ta0, tb0] for the error e and the
      tolerance tol, from step k on with at most `fuel` midpoints in all:
      the first midpoint whose error is below tol is accepted. */
  function Bisect(e: real -> real, ta0: real, tb0: real, tol: real, fuel: nat, k: nat): (b: Bisection)
    requires k <= fuel
    decreases fuel - k
  {
    var (ta, tb) := BisectAfter(e, ta0, tb0, k);
    if k == fuel then Exhausted(ta, tb)
    else if Abs(e((ta + tb) / 2.0)) < tol then Accepted((ta + tb) / 2.0, ta, tb, k)
    else Bisect(e, ta0, tb0, tol, fuel, k + 1)
  }

  /** When the midpoints of steps j up to k - 1 miss, the bisection goes on
      from step j as from step k. */
  lemma {:induction false} BisectSkip(e: real -> real, ta0: real, tb0: real, tol: real, fuel: nat, j: nat, k: nat)
    requires j <= k <= fuel
    requires Misses(e, ta0, tb0, tol, j, k)
    ensures Bisect(e, ta0, tb0, tol, fuel, j) == Bisect(e, ta0, tb0, tol, fuel, k)
    decreases k - j
  {
    if j < k {
      BisectSkip(e, ta0, tb0, tol, fuel, j + 1, k);
    }
  }

  /** What the bisection answers, from step k on. Accepted: the t of some
      step s < fuel, the midpoint of the bracket after s halvings, with
      |e(t)| < tol, every earlier midpoint from step k on having missed.
      Exhausted: the bracket after `fuel` halvings, every midpoint from step
      k on having missed. */
  lemma {:induction false} BisectOutcome(e: real -> real, ta0: real, tb0: real, tol: real, fuel: nat, k: nat)
    requires k <= fuel
    ensures var b := Bisect(e, ta0, tb0, tol, fuel, k);
      (b.Accepted? ==>
         k <= b.steps < fuel
         && (b.ta, b.tb) == BisectAfter(e, ta0, tb0, b.steps)
         && b.t == MidAfter(e, ta0, tb0, b.steps)
         && Abs(e(b.t)) < tol
         && Misses(e, ta0, tb0, tol, k, b.steps))
      && (b.Exhausted? ==>
         (b.ta, b.tb) == BisectAfter(e, ta0, tb0, fuel)
         && Misses(e, ta0, tb0, tol, k, fuel))
    decreases fuel - k
  {
    if k < fuel {
      BisectOutcome(e, ta0, tb0, tol, fuel, k + 1);
    }
  }

  /** Step k < fuel of the bisection of e, from the bracket [ta, tb] reached
      after k steps whose midpoints all missed: the midpoint examined is
      (tb + ta) / 2. If its error ei meets the tolerance it is the answer;
      otherwise the run of misses grows by one and the next bracket is the
      half decided by the sign bits of ea = e(ta) and ei. */
  lemma BisectAdvance(e: real -> real, ta0: real, tb0: real, tol: real, fuel: nat, k: nat,
                      ta: real, tb: real, ea: real, ei: real)
    requires k < fuel
    requires (ta, tb) == BisectAfter(e, ta0, tb0, k) && Misses(e, ta0, tb0, tol, 0, k)
    requires ea == e(ta) && ei == e((tb + ta) / 2.0)
    ensures Abs(ei) < tol ==> Bisect(e, ta0, tb0, tol, fuel, 0) == Accepted((tb + ta) / 2.0, ta, tb, k)
    ensures Abs(ei) >= tol ==>
      Misses(e, ta0, tb0, tol, 0, k + 1)
      && BisectAfter(e, ta0, tb0, k + 1)
         == if SignBit(ea) != SignBit(ei) then (ta, (tb + ta) / 2.0) else ((tb + ta) / 2.0, tb)
  {
    BisectSkip(e, ta0, tb0, tol, fuel, 0, k);
    assert MidAfter(e, ta0, tb0, k) == (tb + ta) / 2.0;
    if Abs(ei) >= tol {
      MissesAppend(e, ta0, tb0, tol, 0, k);
    }
  }

  /** The bisection accepts the first midpoint under the tolerance: if the
      midpoints before step j miss and the one of step j < fuel meets the
      tolerance, it is the answer. */
  lemma BisectAcceptsFirstHit(e: real -> real, ta0: real, tb0: real, tol: real, fuel: nat, j: nat)
    requires j < fuel
    requires Misses(e, ta0, tb0, tol, 0, j)
    requires Abs(e(MidAfter(e, ta0, tb0, j))) < tol
    ensures Bisect(e, ta0, tb0, tol, fuel, 0)
         == Accepted(MidAfter(e, ta0, tb0, j), BisectAfter(e, ta0, tb0, j).0, BisectAfter(e, ta0, tb0, j).1, j)
  {
    BisectSkip(e, ta0, tb0, tol, fuel, 0, j);
  }

  /** Where the bisection ends: an accepted t is the midpoint of its
      bracket [ta, tb] and lies in the original bracket, strictly inside a
      proper one; the final bracket, accepted or exhausted, lies in the
      original one, is its width halved once per rejected midpoint, and
      keeps the sign change of the original. */
  lemma BisectInside(e: real -> real, ta0: real, tb0: real, tol: real, fuel: nat)
    ensures var b := Bisect(e, ta0, tb0, tol, fuel, 0);
      var steps := if b.Accepted? then b.steps else fuel;
      (b.Accepted? ==>
        b.t == (b.ta + b.tb) / 2.0
        && Between(ta0, tb0, b.t) && (ta0 < tb0 ==> ta0 < b.t < tb0))
      && Between(ta0, tb0, b.ta) && Between(ta0, tb0, b.tb)
      && b.tb - b.ta == Halved(tb0 - ta0, steps)
      && (SignBit(e(ta0)) != SignBit(e(tb0)) ==> SignBit(e(b.ta)) != SignBit(e(b.tb)))
  {
    var b := Bisect(e, ta0, tb0, tol, fuel, 0);
    var steps := if b.Accepted? then b.steps else fuel;
    BisectOutcome(e, ta0, tb0, tol, fuel, 0);
    BisectAfterInside(e, ta0, tb0, steps);
    if b.Accepted? {
      MidAfterInside(e, ta0, tb0, b.steps);
    }
    if SignBit(e(ta0)) != SignBit(e(tb0)) {
      BisectKeepsSignChange(e, ta0, tb0, steps);
    }
  }

  /** ts[k] is the midpoint the bisection accepts in bracket k, for every k
      below |ts|. */
  predicate AllAccepted(e: real -> real, bs: seq<(real, real)>, ts: seq<real>, tol: real, fuel: nat)
    requires |ts| <= |bs|
    decreases |ts|
  {
    |ts| > 0 ==>
      var k := |ts| - 1;
      AllAccepted(e, bs, ts[..k], tol, fuel)
      && Bisect(e, bs[k].0, bs[k].1, tol, fuel, 0).Accepted?
      && Bisect(e, bs[k].0, bs[k].1, tol, fuel, 0).t == ts[k]
  }

  /** `AllAccepted` read bracket by bracket, with what acceptance means:
      the error at each ts[k] is below the tolerance, and ts[k] lies in
      bracket k, strictly inside a proper one. */
  lemma {:induction false} AllAcceptedEach(e: real -> real, bs: seq<(real, real)>, ts: seq<real>, tol: real, fuel: nat)
    requires |ts| <= |bs|
    requires AllAccepted(e, bs, ts, tol, fuel)
    ensures forall k :: 0 <= k < |ts| ==>
      Bisect(e, bs[k].0, bs[k].1, tol, fuel, 0).Accepted?
      && Bisect(e, bs[k].0, bs[k].1, tol, fuel, 0).t == ts[k]
      && Abs(e(ts[k])) < tol
      && Between(bs[k].0, bs[k].1, ts[k])
      && (bs[k].0 < bs[k].1 ==> bs[k].0 < ts[k] < bs[k].1)
    decreases |ts|
  {
    if |ts| > 0 {
      var k := |ts| - 1;
      AllAcceptedEach(e, bs, ts[..k], tol, fuel);
      BisectOutcome(e, bs[k].0, bs[k].1, tol, fuel, 0);
      BisectInside(e, bs[k].0, bs[k].1, tol, fuel);
    }
  }

  /** Parameters taken one from the inside of each of a run of left-to-right
      brackets come in strictly increasing order. */
  lemma InBracketsInOrder(b: seq<(real, real)>, ts: seq<real>)
    requires |ts| <= |b|
    requires forall k, l :: 0 <= k < l < |b| ==> b[k].1 <= b[l].0
    requires forall k :: 0 <= k < |ts| ==> b[k].0 < ts[k] < b[k].1
    ensures forall k, l :: 0 <= k < l < |ts| ==> ts[k] < ts[l]
  {
    forall k, l | 0 <= k < l < |ts|
      ensures ts[k] < ts[l]
    {
      assert ts[k] < b[k].1 && b[l].0 < ts[l];
    }
  }

  // ---------------------------------------------------------------------

  /** `parametric_function<T, N>`: N component functions fixed at
      construction. */
  class ParametricFunction {
    const functions: seq<real -> real>

    constructor (fs: seq<real -> real>)
      ensures functions == fs
    {
      functions := fs;
    }

    /** `get_value_at`: component i of the result is functions[i](t). The
        local `std::array` is a value, so it is a local sequence here. */
    method ValueAt(t: real) returns (r: Vec)
      ensures fresh(r.v)
      ensures r.v.Length == |functions|
      ensures forall i :: 0 <= i < |functions| ==> r.v[i] == functions[i](t)
      ensures r.v[..] == Curve(functions, t)
    {
      var n := |functions|;
      var value := seq(n, _ => 0.0);
      for i := 0 to n
        invariant |value| == n
        invariant forall k :: 0 <= k < i ==> value[k] == functions[k](t)
      {
        value := value[i := functions[i](t)];
      }
      r := new Vec(value);
    }

    /** `get_derivative_at`: component i of the result is the symmetric
        difference quotient (f_i(t + dt) - f_i(t - dt)) / (2 dt). */
    method DerivativeAt(t: real, dt: real) returns (r: Vec)
      requires dt != 0.0
      ensures fresh(r.v)
      ensures r.v.Length == |functions|
      ensures forall i :: 0 <= i < |functions| ==> r.v[i] == Slope(functions[i], t, dt)
      ensures r.v[..] == Derivative(functions, t, dt)
    {
      var n := |functions|;
      var left := t - dt;
      var right := t + dt;
      var leftValue := seq(n, _ => 0.0);
      var rightValue := seq(n, _ => 0.0);
      for i := 0 to n
        invariant |leftValue| == |rightValue| == n
        invariant forall k :: 0 <= k < i ==>
          leftValue[k] == functions[k](left) && rightValue[k] == functions[k](right)
      {
        leftValue := leftValue[i := functions[i](left)];
        rightValue := rightValue[i := functions[i](right)];
      }
      var derivative := seq(n, _ => 0.0);
      for i := 0 to n
        invariant |derivative| == n
        invariant forall k :: 0 <= k < i ==> derivative[k] == Slope(functions[k], t, dt)
      {
        derivative := derivative[i := (rightValue[i] - leftValue[i]) / (2.0 * dt)];
      }
      r := new Vec(derivative);
    }

    /** The perpendicularity error at t, `(p - get_value_at(t)) *
        get_derivative_at(t)`, as `get_point_projection` computes it at the
        grid points and at the ends of each bracket. */
    method ErrorAt(p: Vec, t: real) returns (et: real)
      requires p.v.Length == |functions|
      ensures et == Err(functions, p.v[..], t)
    {
      var d := DerivativeAt(t, DefaultStep);
      var c := ValueAt(t);
      var diff := Minus(p, c);
      et := diff.Mul(d);
    }

    /** The curve point at t and the error there, computed as the bisection
        computes them: `vi = get_value_at(t)`, then `(p - vi) *
        get_derivative_at(t)`. */
    method PointAndErrorAt(p: Vec, t: real) returns (c: Vec, et: real)
      requires p.v.Length == |functions|
      ensures fresh(c.v) && c.v[..] == Curve(functions, t)
      ensures et == Err(functions, p.v[..], t)
    {
      c := ValueAt(t);
      var d := DerivativeAt(t, DefaultStep);
      var diff := Minus(p, c);
      et := diff.Mul(d);
    }

    /** The isolation phase of `get_point_projection`: the brackets found by
        scanning the Samples sub-intervals of [t0, t1] from left to right,
        at most one per sub-interval. */
    method IsolateRoots(p: Vec, t0: real, t1: real) returns (brackets: seq<(real, real)>)
      requires p.v.Length == |functions|
      ensures brackets == Brackets(ErrFn(functions, p.v[..]), t0, (t1 - t0) / (Samples as real), Samples)
      ensures |brackets| <= Samples
    {
      ghost var e := ErrFn(functions, p.v[..]);
      var h := (t1 - t0) / (Samples as real);
      brackets := [];
      var tl := t0;
      var tr := t0 + h;
      assert tl == Grid(t0, h, 0) && tr == Grid(t0, h, 1);
      var el := ErrorAt(p, tl);
      for i := 0 to Samples
        invariant tl == Grid(t0, h, i) && tr == Grid(t0, h, i + 1)
        invariant el == e(tl)
        invariant brackets == Brackets(e, t0, h, i)
      {
        var er := ErrorAt(p, tr);
        if SignBit(el) != SignBit(er) {
          brackets := brackets + [(tl, tr)];
        }
        GridStep(t0, h, i + 1);
        tl := tr;
        tr := tr + h;
        el := er;
      }
      BracketsBound(e, t0, h, Samples);
    }

    /** The bisection of one bracket [ta0, tb0] inside `get_point_projection`,
        with at most `fuel` midpoints: it answers `Bisect` of the error. The
        first midpoint whose error is below the tolerance `e` is accepted,
        and the curve point at it is returned. Otherwise the bracket is
        halved, keeping the end whose sign bit differs from the midpoint's. */
    method Refine(p: Vec, ta0: real, tb0: real, e: real, fuel: nat) returns (b: Bisection, vi: Vec?)
      requires p.v.Length == |functions|
      ensures b == Bisect(ErrFn(functions, p.v[..]), ta0, tb0, e, fuel, 0)
      ensures b.Accepted? ==>
        vi != null && fresh(vi.v) && vi.v[..] == Curve(functions, b.t)
        && Abs(Err(functions, p.v[..], b.t)) < e
    {
      ghost var ps := p.v[..];
      ghost var ef := ErrFn(functions, ps);
      var ta, tb := ta0, tb0;
      var ea := ErrorAt(p, ta);
      var eb := ErrorAt(p, tb);
      var k := 0;
      while k < fuel
        invariant k <= fuel
        invariant (ta, tb) == BisectAfter(ef, ta0, tb0, k)
        invariant ea == Err(functions, ps, ta) && eb == Err(functions, ps, tb)
        invariant Misses(ef, ta0, tb0, e, 0, k)
      {
        var ti := (tb + ta) / 2.0;
        var ei;
        vi, ei := PointAndErrorAt(p, ti);
        assert p.v[..] == ps;
        ErrFnApply(functions, ps, ta);
        ErrFnApply(functions, ps, ti);
        BisectAdvance(ef, ta0, tb0, e, fuel, k, ta, tb, ea, ei);
        if Abs(ei) < e {
          return Accepted(ti, ta, tb, k), vi;
        }
        if SignBit(ea) != SignBit(ei) {
          tb := ti;
          eb := ei;
        } else {
          ta := ti;
          ea := ei;
        }
        k := k + 1;
      }
      BisectSkip(ef, ta0, tb0, e, fuel, 0, k);
      b, vi := Exhausted(ta, tb), null;
    }

    /** `get_point_projection`: the curve points whose perpendicularity error
        is below `e`, one per bracket of the isolation scan, in bracket order
        and each with a buffer of its own. `ts` are the parameters of the
        points: point k is the one `Bisect` accepts in bracket k. `converged`
        is false when the bisection of some bracket used up its budget of
        `fuel` midpoints; the points of the brackets before it are then
        returned. */
    method GetPointProjection(p: Vec, t0: real, t1: real, e: real, fuel: nat)
      returns (points: seq<Vec>, converged: bool, ghost ts: seq<real>)
      requires p.v.Length == |functions|
      ensures var ef := ErrFn(functions, p.v[..]);
        var b := Brackets(ef, t0, (t1 - t0) / (Samples as real), Samples);
        |ts| == |points| <= |b| <= Samples
        && (converged <==> |points| == |b|)
        && (b == [] ==> points == [] && converged)
        && (forall k :: 0 <= k < |points| ==>
             fresh(points[k].v) && points[k].v[..] == Curve(functions, ts[k])
             && Bisect(ef, b[k].0, b[k].1, e, fuel, 0).Accepted?
             && Bisect(ef, b[k].0, b[k].1, e, fuel, 0).t == ts[k]
             && Abs(Err(functions, p.v[..], ts[k])) < e
             && Between(b[k].0, b[k].1, ts[k]))
        && (!converged ==> Bisect(ef, b[|points|].0, b[|points|].1, e, fuel, 0).Exhausted?)
      ensures forall k, l :: 0 <= k < l < |points| ==> points[k].v != points[l].v
      ensures t0 < t1 ==> forall k, l :: 0 <= k < l < |ts| ==> ts[k] < ts[l]
    {
      ghost var ps := p.v[..];
      ghost var ef := ErrFn(functions, ps);
      var brackets := IsolateRoots(p, t0, t1);
      points, converged, ts := RefineAll(p, brackets, e, fuel);
      AllAcceptedEach(ef, brackets, ts, e, fuel);
      forall j | 0 <= j < |ts|
        ensures Abs(Err(functions, ps, ts[j])) < e
      {
        ErrFnApply(functions, ps, ts[j]);
      }
      if t0 < t1 {
        BracketsLeftToRight(ef, t0, (t1 - t0) / (Samples as real), Samples);
        InBracketsInOrder(brackets, ts);
      }
    }

    /** The loop of `get_point_projection` over the brackets, in order: the
        bisection of each bracket adds the point it accepts, and the loop
        stops at the first bracket whose bisection used up its budget. */
    method RefineAll(p: Vec, brackets: seq<(real, real)>, e: real, fuel: nat)
      returns (points: seq<Vec>, converged: bool, ghost ts: seq<real>)
      requires p.v.Length == |functions|
      ensures |ts| == |points| <= |brackets|
      ensures converged <==> |points| == |brackets|
      ensures forall k :: 0 <= k < |points| ==> fresh(points[k].v)
      ensures forall k :: 0 <= k < |points| ==> points[k].v[..] == Curve(functions, ts[k])
      ensures forall k, l :: 0 <= k < l < |points| ==> points[k].v != points[l].v
      ensures AllAccepted(ErrFn(functions, p.v[..]), brackets, ts, e, fuel)
      ensures !converged ==>
        Bisect(ErrFn(functions, p.v[..]), brackets[|points|].0, brackets[|points|].1, e, fuel, 0).Exhausted?
    {
      ghost var ef := ErrFn(functions, p.v[..]);
      points, converged, ts := [], true, [];
      var k := 0;
      while k < |brackets|
        invariant k <= |brackets|
        invariant |ts| == |points| == k
        invariant forall j :: 0 <= j < k ==> fresh(points[j].v)
        invariant forall j :: 0 <= j < k ==> points[j].v[..] == Curve(functions, ts[j])
        invariant forall j, l :: 0 <= j < l < k ==> points[j].v != points[l].v
        invariant AllAccepted(ef, brackets, ts, e, fuel)
        invariant converged
      {
        var (ta, tb) := brackets[k];
        var outcome, vi := Refine(p, ta, tb, e, fuel);
        if outcome.Exhausted? {
          converged := false;
          break;
        }
        points := points + [vi];
        assert (ts + [outcome.t])[..k] == ts;
        ts := ts + [outcome.t];
        k := k + 1;
      }
    }
  }
}
