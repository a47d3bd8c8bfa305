/** Neville interpolation, in coefficient form and in scalar form. */
module Interpolation {
  import opened Field
  import opened Poly

  /** One Neville step: merges the interpolants of points i..j-1 and i+1..j. */
  function Merge(p: Coeffs, q: Coeffs, xi: Scalar, xj: Scalar): Coeffs
    requires xi != xj
  {
    SubAdd(xj, xi);
    Scale(Inv(Sub(xj, xi)), SubP(TimesMinusX(p, xj), TimesMinusX(q, xi)))
  }

  /** The interpolant of the points i..j, both ends included. */
  function Neville(xs: seq<Scalar>, ys: seq<Scalar>, i: nat, j: nat): Coeffs
    requires i <= j < |xs| == |ys| && Distinct(xs)
    decreases j - i
  {
    if i == j then [ys[i]]
    else Merge(Neville(xs, ys, i, j - 1), Neville(xs, ys, i + 1, j), xs[i], xs[j])
  }

  ghost predicate Interpolates(p: Coeffs, xs: seq<Scalar>, ys: seq<Scalar>) {
    |p| == |xs| == |ys| && forall i :: 0 <= i < |xs| ==> Eval(p, xs[i]) == ys[i]
  }

  lemma EvalMerge(p: Coeffs, q: Coeffs, xi: Scalar, xj: Scalar, x: Scalar)
    requires xi != xj
    ensures Sub(xj, xi) != 0
    ensures Eval(Merge(p, q, xi, xj), x)
         == Mul(Inv(Sub(xj, xi)), Sub(Mul(Sub(xj, x), Eval(p, x)), Mul(Sub(xi, x), Eval(q, x))))
  {
    hide Mul, Add, Eval, TimesMinusX;
    SubAdd(xj, xi);
    EvalTimesMinusX(p, xj, x); EvalTimesMinusX(q, xi, x);
    EvalSub(TimesMinusX(p, xj), TimesMinusX(q, xi), x);
    EvalScale(Inv(Sub(xj, xi)), SubP(TimesMinusX(p, xj), TimesMinusX(q, xi)), x);
  }

  /** A point both halves interpolate, or the point one half misses and the
      other's factor kills, is interpolated by the merge. */
  lemma MergeAt(p: Coeffs, q: Coeffs, xi: Scalar, xj: Scalar, x: Scalar, y: Scalar)
    requires xi != xj
    requires x == xj || Eval(p, x) == y
    requires x == xi || Eval(q, x) == y
    ensures Eval(Merge(p, q, xi, xj), x) == y
  {
    hide Mul, Add, Sub, Eval, Merge;
    EvalMerge(p, q, xi, xj, x);
    var d := Sub(xj, xi);
    var a, b := Sub(xj, x), Sub(xi, x);
    AddZero(x); MulOne(Eval(p, x)); MulOne(Eval(q, x)); MulOne(y);
    assert Sub(Mul(a, Eval(p, x)), Mul(b, Eval(q, x))) == Sub(Mul(a, y), Mul(b, y));
    assert Sub(a, b) == d by { SubShift(xj, xi, x); }
    MulSub(y, a, b);
    MulComm(Inv(d), Mul(d, y));
    Cancel(d, y);
  }

  lemma MergeLength(p: Coeffs, q: Coeffs, xi: Scalar, xj: Scalar)
    requires xi != xj
    ensures |Merge(p, q, xi, xj)| == Max(|p|, |q|) + 1
  {
  }

  lemma SubShift(a: Scalar, b: Scalar, c: Scalar)
    ensures Sub(Sub(a, c), Sub(b, c)) == Sub(a, b)
  {
  }

  lemma {:induction false} NevilleInterpolates(xs: seq<Scalar>, ys: seq<Scalar>, i: nat, j: nat)
    requires i <= j < |xs| == |ys| && Distinct(xs)
    ensures |Neville(xs, ys, i, j)| == j - i + 1
    ensures forall k :: i <= k <= j ==> Eval(Neville(xs, ys, i, j), xs[k]) == ys[k]
    decreases j - i
  {
    hide Mul, Add, Eval, Merge;
    if i == j {
      EvalConstant(ys[i], xs[i]);
    } else {
      NevilleInterpolates(xs, ys, i, j - 1);
      NevilleInterpolates(xs, ys, i + 1, j);
      var p, q := Neville(xs, ys, i, j - 1), Neville(xs, ys, i + 1, j);
      forall k | i <= k <= j ensures Eval(Merge(p, q, xs[i], xs[j]), xs[k]) == ys[k] {
        MergeAt(p, q, xs[i], xs[j], xs[k], ys[k]);
      }
      MergeLength(p, q, xs[i], xs[j]);
    }
  }

  /** `eval`: Horner's rule from the leading coefficient down. */
  method Horner(coeff: Coeffs, x: Scalar) returns (b: Scalar)
    ensures b == Eval(coeff, x)
  {
    if |coeff| == 0 { return 0; }
    b := coeff[|coeff| - 1];
    MulOne(x); AddZero(b);
    assert coeff[|coeff| - 1..][1..] == [];
    var i := |coeff| - 1;
    while i > 0
      invariant 0 <= i < |coeff|
      invariant b == Eval(coeff[i..], x)
    {
      i := i - 1;
      assert coeff[i..][1..] == coeff[i + 1..];
      MulComm(x, b);
      b := Mul(b, x);
      AddComm(b, coeff[i]);
      b := Add(b, coeff[i]);
    }
    assert coeff[0..] == coeff;
  }

  /** The inner closure `mul_poly`: multiplies by (x - X), highest first. */
  method MulPoly(p: Coeffs, x: Scalar) returns (poly: Coeffs)
    ensures poly == TimesMinusX(p, x)
  {
    hide Mul, Add, Sub;
    poly := p + [0];
    var l := |poly|;
    ghost var old_ := poly;
    while l > 0
      invariant 0 <= l <= |poly| == |p| + 1
      invariant forall m :: 0 <= m < l ==> poly[m] == old_[m]
      invariant forall m :: l <= m < |poly| ==> poly[m] == TimesMinusX(p, x)[m]
    {
      l := l - 1;
      poly := poly[l := Mul(poly[l], x)];
      MulComm(x, old_[l]);
      AddZero(Mul(x, old_[l]));
      if l >= 1 {
        poly := poly[l := Sub(poly[l], poly[l - 1])];
      }
    }
  }

  /** The zipped update of `interpolate`: subtract, then scale. */
  method ScaledDifference(p: Coeffs, q: Coeffs, c: Scalar) returns (r: Coeffs)
    requires |p| == |q|
    ensures r == Scale(c, SubP(p, q))
  {
    hide Mul, Sub;
    r := p;
    for m := 0 to |p|
      invariant |r| == |p|
      invariant forall k :: 0 <= k < m ==> r[k] == Scale(c, SubP(p, q))[k]
      invariant forall k :: m <= k < |p| ==> r[k] == p[k]
    {
      MulComm(c, Sub(p[m], q[m]));
      r := r[m := Mul(Sub(r[m], q[m]), c)];
    }
  }

  /** The body of the double loop: one Neville step on two rows. */
  method MergeRows(p: Coeffs, q: Coeffs, xi: Scalar, xj: Scalar) returns (r: Coeffs)
    requires xi != xj && |p| == |q|
    ensures r == Merge(p, q, xi, xj)
  {
    hide Mul, Add, Sub, TimesMinusX, Scale, SubP;
    var polyJ := MulPoly(q, xi);
    var poly := MulPoly(p, xj);
    SubAdd(xj, xi);
    TimesLength(p, xj); TimesLength(q, xi);
    r := ScaledDifference(poly, polyJ, Inv(Sub(xj, xi)));
  }

  lemma TimesLength(p: Coeffs, a: Scalar)
    ensures |TimesMinusX(p, a)| == |p| + 1
  {
  }

  lemma NevilleStep(xs: seq<Scalar>, ys: seq<Scalar>, i: nat, j: nat)
    requires i < j < |xs| == |ys| && Distinct(xs)
    ensures |Neville(xs, ys, i, j - 1)| == |Neville(xs, ys, i + 1, j)|
    ensures Neville(xs, ys, i, j)
         == Merge(Neville(xs, ys, i, j - 1), Neville(xs, ys, i + 1, j), xs[i], xs[j])
  {
    hide Mul, Add, Eval, Merge;
    NevilleInterpolates(xs, ys, i, j - 1);
    NevilleInterpolates(xs, ys, i + 1, j);
  }

  lemma NevilleBase(xs: seq<Scalar>, ys: seq<Scalar>)
    requires |xs| == |ys| && Distinct(xs)
    ensures forall i :: 0 <= i < |xs| ==> Neville(xs, ys, i, i) == [ys[i]]
  {
  }

  /** `interpolate`: polys[m] ends up holding the interpolant of points m..j. */
  method Interpolate(xs: seq<Scalar>, ys: seq<Scalar>) returns (p: Coeffs)
    requires |xs| == |ys| && Distinct(xs)
    ensures Interpolates(p, xs, ys)
  {
    hide Mul, Add, Sub, Merge, Eval, Neville;
    NevilleBase(xs, ys);
    var polys := new Coeffs[|ys|](k requires 0 <= k < |ys| => [ys[k]]);
    var j := 1;
    while j < polys.Length
      invariant 1 <= j && (j <= |xs| || |xs| == 0)
      invariant forall m :: 0 <= m < j <= |xs| ==> polys[m] == Neville(xs, ys, m, j - 1)
      invariant forall m :: j <= m < |xs| ==> polys[m] == [ys[m]]
    {
      var i := j;
      while i > 0
        invariant 0 <= i <= j
        invariant forall m :: 0 <= m < i ==> polys[m] == Neville(xs, ys, m, j - 1)
        invariant forall m :: i <= m <= j ==> polys[m] == Neville(xs, ys, m, j)
        invariant forall m :: j < m < |xs| ==> polys[m] == [ys[m]]
      {
        i := i - 1;
        NevilleStep(xs, ys, i, j);
        polys[i] := MergeRows(polys[i], polys[i + 1], xs[i], xs[j]);
      }
      j := j + 1;
    }
    if polys.Length == 0 { return []; }
    NevilleInterpolates(xs, ys, 0, |xs| - 1);
    p := polys[0];
  }

  /** The scalar row update of `interpolate_at`. */
  method MergeValues(p: Scalar, q: Scalar, xi: Scalar, xj: Scalar, x: Scalar) returns (r: Scalar)
    requires xi != xj
    ensures Sub(xj, xi) != 0
    ensures r == Mul(Inv(Sub(xj, xi)), Sub(Mul(Sub(xj, x), p), Mul(Sub(xi, x), q)))
  {
    hide Mul, Add, Sub;
    SubAdd(xj, xi);
    var polyJ := Mul(q, Sub(xi, x));
    r := Mul(p, Sub(xj, x));
    var diff := Inv(Sub(xj, xi));
    r := Sub(r, polyJ);
    r := Mul(r, diff);
    MulComm(q, Sub(xi, x)); MulComm(p, Sub(xj, x));
    MulComm(Sub(Mul(Sub(xj, x), p), Mul(Sub(xi, x), q)), diff);
  }

  /** The value at x of the interpolant of the points i..j. */
  ghost function NevilleAt(xs: seq<Scalar>, ys: seq<Scalar>, i: nat, j: nat, x: Scalar): Scalar
    requires i <= j < |xs| == |ys| && Distinct(xs)
  {
    Eval(Neville(xs, ys, i, j), x)
  }

  lemma NevilleAtBase(xs: seq<Scalar>, ys: seq<Scalar>, x: Scalar)
    requires |xs| == |ys| && Distinct(xs)
    ensures forall i :: 0 <= i < |xs| ==> NevilleAt(xs, ys, i, i, x) == ys[i]
  {
    hide Eval;
    forall i | 0 <= i < |xs| ensures NevilleAt(xs, ys, i, i, x) == ys[i] { EvalConstant(ys[i], x); }
  }

  lemma NevilleAtStep(xs: seq<Scalar>, ys: seq<Scalar>, i: nat, j: nat, x: Scalar)
    requires i < j < |xs| == |ys| && Distinct(xs)
    ensures Sub(xs[j], xs[i]) != 0
    ensures NevilleAt(xs, ys, i, j, x) == Mul(Inv(Sub(xs[j], xs[i])),
      Sub(Mul(Sub(xs[j], x), NevilleAt(xs, ys, i, j - 1, x)), Mul(Sub(xs[i], x), NevilleAt(xs, ys, i + 1, j, x))))
  {
    hide Mul, Add, Sub, Eval, Merge;
    EvalMerge(Neville(xs, ys, i, j - 1), Neville(xs, ys, i + 1, j), xs[i], xs[j], x);
  }

  /** The last value is that of every interpolant. */
  lemma NevilleAtEnd(xs: seq<Scalar>, ys: seq<Scalar>, x: Scalar)
    requires 0 < |xs| == |ys| && Distinct(xs)
    ensures forall p :: Interpolates(p, xs, ys) ==> NevilleAt(xs, ys, 0, |xs| - 1, x) == Eval(p, x)
  {
    hide Mul, Add, Sub, Eval, Neville;
    NevilleInterpolates(xs, ys, 0, |xs| - 1);
    var q := Neville(xs, ys, 0, |xs| - 1);
    forall p | Interpolates(p, xs, ys) ensures Eval(q, x) == Eval(p, x) {
      PointsDetermine(p, q, xs);
      EvalSame(p, q, x);
    }
  }

  /** `interpolate_at`: the same recurrence on values at x only. */
  method InterpolateAt(xs: seq<Scalar>, ys: seq<Scalar>, x: Scalar) returns (y: Scalar)
    requires |xs| == |ys| && Distinct(xs)
    ensures forall p :: Interpolates(p, xs, ys) ==> y == Eval(p, x)
  {
    hide Mul, Add, Sub, Eval, NevilleAt;
    NevilleAtBase(xs, ys, x);
    var polys := new Scalar[|ys|](k requires 0 <= k < |ys| => ys[k]);
    var j := 1;
    while j < polys.Length
      invariant 1 <= j && (j <= |xs| || |xs| == 0)
      invariant forall m :: 0 <= m < j <= |xs| ==> polys[m] == NevilleAt(xs, ys, m, j - 1, x)
      invariant forall m :: j <= m < |xs| ==> polys[m] == ys[m]
    {
      var i := j;
      while i > 0
        invariant 0 <= i <= j
        invariant forall m :: 0 <= m < i ==> polys[m] == NevilleAt(xs, ys, m, j - 1, x)
        invariant forall m :: i <= m <= j ==> polys[m] == NevilleAt(xs, ys, m, j, x)
        invariant forall m :: j < m < |xs| ==> polys[m] == ys[m]
      {
        i := i - 1;
        NevilleAtStep(xs, ys, i, j, x);
        polys[i] := MergeValues(polys[i], polys[i + 1], xs[i], xs[j], x);
      }
      j := j + 1;
    }
    if polys.Length == 0 {
      EvalEmpty(x);
      return 0;
    }
    NevilleAtEnd(xs, ys, x);
    y := polys[0];
  }

  lemma EvalConstant(c: Scalar, x: Scalar)
    ensures Eval([c], x) == c
  {
    assert [c][1..] == [];
    MulOne(x); AddZero(c);
  }

  lemma EvalEmpty(x: Scalar)
    ensures Eval([], x) == 0
  {
  }
}
