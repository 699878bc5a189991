// The fixed-size vector value type `vec<T, N>` with T modelled as `real`.
// The component type is unbounded and exact: IEEE-754 rounding, infinities
// and NaN are not modelled.

module Vectors {

  /** Component-wise sum of two vectors of equal arity. */
  function Add(a: seq<real>, b: seq<real>): (r: seq<real>)
    requires |a| == |b|
    ensures |r| == |a|
  {
    seq(|a|, i requires 0 <= i < |a| => a[i] + b[i])
  }

  /** Component-wise difference of two vectors of equal arity. */
  function Sub(a: seq<real>, b: seq<real>): (r: seq<real>)
    requires |a| == |b|
    ensures |r| == |a|
  {
    seq(|a|, i requires 0 <= i < |a| => a[i] - b[i])
  }

  /** Component-wise division by a scalar. */
  function Quot(a: seq<real>, d: real): (r: seq<real>)
    requires d != 0.0
    ensures |r| == |a|
  {
    seq(|a|, i requires 0 <= i < |a| => a[i] / d)
  }

  /** The inner product as `std::inner_product` computes it: a left fold
      that starts from zero and adds a[i] * b[i] for i = 0, 1, ... */
  function Dot(a: seq<real>, b: seq<real>): (r: real)
    requires |a| == |b|
    decreases |a|
  {
    if |a| == 0 then 0.0
    else Dot(a[..|a| - 1], b[..|b| - 1]) + a[|a| - 1] * b[|b| - 1]
  }

  /** The dot product does not depend on the order of its operands. */
  lemma {:induction false} DotSymmetric(a: seq<real>, b: seq<real>)
    requires |a| == |b|
    ensures Dot(a, b) == Dot(b, a)
    decreases |a|
  {
    if |a| > 0 {
      DotSymmetric(a[..|a| - 1], b[..|b| - 1]);
    }
  }

  /** Subtraction undoes addition: (a + b) - b == a. */
  lemma AddSubInverse(a: seq<real>, b: seq<real>)
    requires |a| == |b|
    ensures Sub(Add(a, b), b) == a && Add(Sub(a, b), b) == a
  {
  }

  /** The elements rendered by `fmt` and separated by ", ". */
  function Join(xs: seq<real>, fmt: real -> string): (s: string)
    decreases |xs|
  {
    if |xs| == 0 then ""
    else if |xs| == 1 then fmt(xs[0])
    else Join(xs[..|xs| - 1], fmt) + ", " + fmt(xs[|xs| - 1])
  }

  /** The text "(x0, x1, ..., xN-1)" that `operator std::string` produces,
      over an abstract number formatter `fmt`. */
  function Render(xs: seq<real>, fmt: real -> string): (s: string)
  {
    "(" + Join(xs, fmt) + ")"
  }

  function CountChar(s: string, c: char): (n: nat)
    decreases |s|
  {
    if |s| == 0 then 0 else CountChar(s[..|s| - 1], c) + (if s[|s| - 1] == c then 1 else 0)
  }

  lemma {:induction false} CountCharConcat(s: string, t: string, c: char)
    ensures CountChar(s + t, c) == CountChar(s, c) + CountChar(t, c)
    decreases |t|
  {
    if |t| > 0 {
      assert (s + t)[..|s + t| - 1] == s + t[..|t| - 1];
      CountCharConcat(s, t[..|t| - 1], c);
    } else {
      assert s + t == s;
    }
  }

  /** When the number formatter never writes a comma, the rendering holds
      exactly N - 1 commas (none for N == 0): the separators alone tell the
      arity of the vector. */
  lemma {:induction false} RenderCommas(xs: seq<real>, fmt: real -> string)
    requires forall x :: ',' !in fmt(x)
    ensures CountChar(Render(xs, fmt), ',') == if |xs| == 0 then 0 else |xs| - 1
  {
    JoinCommas(xs, fmt);
    CountCharConcat("(", Join(xs, fmt), ',');
    CountCharConcat("(" + Join(xs, fmt), ")", ',');
    assert CountChar(")", ',') == 0 by { assert ")"[..0] == ""; }
    assert CountChar("(", ',') == 0 by { assert "("[..0] == ""; }
  }

  lemma {:induction false} NoCommaCount(s: string)
    requires ',' !in s
    ensures CountChar(s, ',') == 0
    decreases |s|
  {
    if |s| > 0 {
      assert s[|s| - 1] in s;
      assert forall ch :: ch in s[..|s| - 1] ==> ch in s;
      NoCommaCount(s[..|s| - 1]);
    }
  }

  lemma {:induction false} JoinCommas(xs: seq<real>, fmt: real -> string)
    requires forall x :: ',' !in fmt(x)
    ensures CountChar(Join(xs, fmt), ',') == if |xs| == 0 then 0 else |xs| - 1
    decreases |xs|
  {
    if |xs| == 1 {
      var x0 := xs[0];
      assert ',' !in fmt(x0);
      NoCommaCount(fmt(x0));
    } else if |xs| > 1 {
      var n := |xs| - 1;
      JoinCommas(xs[..n], fmt);
      NoCommaCount(fmt(xs[n]));
      CountCharConcat(Join(xs[..n], fmt), ", ", ',');
      CountCharConcat(Join(xs[..n], fmt) + ", ", fmt(xs[n]), ',');
      assert CountChar(", ", ',') == 1 by {
        assert ", "[..1] == ",";
        assert ","[..0] == "";
      }
    }
  }

  /** `vec<T, N>`: N components stored in a fixed-size buffer owned by the
      vector. The arity is the buffer's length and never changes. */
  class Vec {
    const v: array<real>

    /** `vec() = default`: the components are left indeterminate. */
    constructor Default(n: nat)
      ensures fresh(v) && v.Length == n
    {
      v := new real[n];
    }

    /** Construction from N scalars or from a `std::array` (by copy or by
        move): the vector owns a copy of the given components. */
    constructor (a: seq<real>)
      ensures fresh(v) && v[..] == a
    {
      var buf := new real[|a|];
      forall i | 0 <= i < |a| {
        buf[i] := a[i];
      }
      v := buf;
    }

    /** Copy (and move) construction: a new buffer with equal components. */
    constructor Copy(other: Vec)
      ensures fresh(v) && v[..] == other.v[..]
    {
      var buf := new real[other.v.Length];
      forall i | 0 <= i < other.v.Length {
        buf[i] := other.v[i];
      }
      v := buf;
    }

    /** Copy (and move) assignment: the components of `other` are copied
        into this vector's own buffer; self-assignment leaves it as it was. */
    method Assign(other: Vec)
      requires other.v.Length == v.Length
      modifies v
      ensures v[..] == old(other.v[..])
    {
      forall i | 0 <= i < v.Length {
        v[i] := other.v[i];
      }
    }

    /** The const `operator[]`. */
    function At(i: nat): (r: real)
      reads v
      requires i < v.Length
    {
      v[i]
    }

    /** A write through the mutable `operator[]`: component i takes the new
        value and every other component keeps its old one. */
    method Set(i: nat, x: real)
      requires i < v.Length
      modifies v
      ensures At(i) == x
      ensures forall j :: 0 <= j < v.Length && j != i ==> At(j) == old(At(j))
    {
      v[i] := x;
    }

    /** `operator std::string`: each component followed by ", " except the
        last, all between parentheses. */
    method ToString(fmt: real -> string) returns (s: string)
      ensures s == Render(v[..], fmt)
    {
      var n := v.Length;
      s := "(";
      for i := 0 to n
        invariant s == "(" + Join(v[..i], fmt) + (if 0 < i < n then ", " else "")
      {
        assert v[..i + 1][..i] == v[..i];
        s := s + fmt(v[i]) + (if i != n - 1 then ", " else "");
      }
      assert v[..n] == v[..];
      s := s + ")";
    }

    /** `operator+=`: adds `other` component-wise in place. `other` is only
        read; when it is this very vector every component doubles. */
    method AddAssign(other: Vec)
      requires other.v.Length == v.Length
      modifies v
      ensures v[..] == Add(old(v[..]), old(other.v[..]))
      ensures other.v != v ==> other.v[..] == old(other.v[..])
    {
      for i := 0 to v.Length
        invariant forall k :: 0 <= k < i ==> v[k] == old(v[k]) + old(other.v[k])
        invariant forall k :: i <= k < v.Length ==> v[k] == old(v[k]) && other.v[k] == old(other.v[k])
      {
        v[i] := v[i] + other.v[i];
      }
    }

    /** `operator-=`: subtracts `other` component-wise in place. */
    method SubAssign(other: Vec)
      requires other.v.Length == v.Length
      modifies v
      ensures v[..] == Sub(old(v[..]), old(other.v[..]))
      ensures other.v != v ==> other.v[..] == old(other.v[..])
    {
      for i := 0 to v.Length
        invariant forall k :: 0 <= k < i ==> v[k] == old(v[k]) - old(other.v[k])
        invariant forall k :: i <= k < v.Length ==> v[k] == old(v[k]) && other.v[k] == old(other.v[k])
      {
        v[i] := v[i] - other.v[i];
      }
    }

    /** `operator*`: the dot product. It is the same whichever operand is
        on the left, and zero for a vector of arity 0. */
    function Mul(other: Vec): (r: real)
      reads v, other.v
      requires other.v.Length == v.Length
      ensures r == Dot(v[..], other.v[..])
      ensures r == Dot(other.v[..], v[..])
      ensures v.Length == 0 ==> r == 0.0
    {
      DotSymmetric(v[..], other.v[..]);
      Dot(v[..], other.v[..])
    }

    /** `operator/`: a new vector holding each component divided by `d`;
        multiplying the result back by `d` gives this vector again. */
    method Div(d: real) returns (r: Vec)
      requires d != 0.0
      ensures fresh(r.v)
      ensures r.v[..] == Quot(v[..], d)
      ensures forall i :: 0 <= i < v.Length ==> r.v[i] * d == v[i]
    {
      r := new Vec.Copy(this);
      for i := 0 to r.v.Length
        invariant forall k :: 0 <= k < i ==> r.v[k] == v[k] / d
        invariant forall k :: i <= k < r.v.Length ==> r.v[k] == v[k]
      {
        r.v[i] := r.v[i] / d;
      }
    }
  }

  /** Free `operator+`: copies `a` and adds `b` to the copy. */
  method Plus(a: Vec, b: Vec) returns (r: Vec)
    requires a.v.Length == b.v.Length
    ensures fresh(r.v)
    ensures r.v[..] == Add(a.v[..], b.v[..])
  {
    r := new Vec.Copy(a);
    r.AddAssign(b);
  }

  /** Free `operator-`: copies `a` and subtracts `b` from the copy. */
  method Minus(a: Vec, b: Vec) returns (r: Vec)
    requires a.v.Length == b.v.Length
    ensures fresh(r.v)
    ensures r.v[..] == Sub(a.v[..], b.v[..])
  {
    r := new Vec.Copy(a);
    r.SubAssign(b);
  }
}
