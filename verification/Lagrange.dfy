/** Lagrange evaluation, the form used to combine threshold signatures. */
module Lagrange {
  import opened Field
  import opened Poly
  import opened Interpolation

  /** `lagrange_helper`: (x - k) / (j - k) */
  function Helper(k: Scalar, j: Scalar, x: Scalar): Scalar
    requires k != j
  {
    SubAdd(j, k);
    Mul(Sub(x, k), Inv(Sub(j, k)))
  }

  /** `lagrange`: the product of the helpers over every index other than j. */
  function Weight(idxes: seq<Scalar>, j: Scalar, x: Scalar): Scalar {
    if idxes == [] then 1
    else if idxes[0] == j then Weight(idxes[1..], j, x)
    else Mul(Helper(idxes[0], j, x), Weight(idxes[1..], j, x))
  }

  /** The multi-exponentiation of ys with the weights of xs among idxes. */
  function WeightedSum(idxes: seq<Scalar>, xs: seq<Scalar>, ys: seq<Scalar>, z: Scalar): Scalar
    requires |xs| == |ys|
  {
    if xs == [] then 0
    else Add(Mul(ys[0], Weight(idxes, xs[0], z)), WeightedSum(idxes, xs[1..], ys[1..], z))
  }

  /** `blstrs_lagrange_G1Projective` and `blstrs_lagrange_G2Projective`. */
  function LagrangeAt(xs: seq<Scalar>, ys: seq<Scalar>, z: Scalar): Scalar
    requires |xs| == |ys|
  {
    WeightedSum(xs, xs, ys, z)
  }

  // ---- the polynomials these expressions are the values of ----

  ghost function WeightPoly(idxes: seq<Scalar>, j: Scalar): Coeffs {
    if idxes == [] then [1]
    else if idxes[0] == j then WeightPoly(idxes[1..], j)
    else
      SubAdd(j, idxes[0]);
      Scale(Inv(Sub(j, idxes[0])), TimesXMinus(WeightPoly(idxes[1..], j), idxes[0]))
  }

  lemma {:induction false} WeightPolyLength(idxes: seq<Scalar>, j: Scalar)
    ensures |WeightPoly(idxes, j)| <= |idxes| + 1
    ensures j in idxes ==> |WeightPoly(idxes, j)| <= |idxes|
  {
    if idxes != [] { WeightPolyLength(idxes[1..], j); }
  }

  lemma {:induction false} EvalWeightPoly(idxes: seq<Scalar>, j: Scalar, x: Scalar)
    ensures Eval(WeightPoly(idxes, j), x) == Weight(idxes, j, x)
  {
    hide Mul, Add, Sub, TimesXMinus, Scale, Eval;
    if idxes == [] {
      EvalOne(x);
    } else {
      EvalWeightPoly(idxes[1..], j, x);
      var k, w := idxes[0], WeightPoly(idxes[1..], j);
      if k != j {
        SubAdd(j, k);
        var c := Inv(Sub(j, k));
        EvalScale(c, TimesXMinus(w, k), x);
        EvalTimesXMinus(w, k, x);
        MulAssoc(c, Sub(x, k), Eval(w, x));
        MulComm(c, Sub(x, k));
      }
    }
  }

  lemma EvalOne(x: Scalar)
    ensures Eval([1], x) == 1
  {
    MulOne(x); AddZero(1);
  }

  /** The weight of j is 1 at j and 0 at every other index. */
  lemma {:induction false} WeightAt(idxes: seq<Scalar>, j: Scalar, x: Scalar)
    ensures x == j ==> Weight(idxes, j, x) == 1
    ensures x != j && x in idxes ==> Weight(idxes, j, x) == 0
  {
    hide Mul, Add, Sub;
    if idxes != [] {
      var k, w := idxes[0], Weight(idxes[1..], j, x);
      WeightAt(idxes[1..], j, x);
      MulOne(w); AddZero(k);
      if k != j {
        SubAdd(j, k);
        MulOne(Inv(Sub(j, k)));
        MulOne(Helper(k, j, x));
      }
    }
  }

  ghost function SumPoly(idxes: seq<Scalar>, xs: seq<Scalar>, ys: seq<Scalar>): Coeffs
    requires |xs| == |ys|
  {
    if xs == [] then []
    else AddP(Scale(ys[0], WeightPoly(idxes, xs[0])), SumPoly(idxes, xs[1..], ys[1..]))
  }

  lemma {:induction false} EvalSumPoly(idxes: seq<Scalar>, xs: seq<Scalar>, ys: seq<Scalar>, z: Scalar)
    requires |xs| == |ys| && forall x :: x in xs ==> x in idxes
    ensures Eval(SumPoly(idxes, xs, ys), z) == WeightedSum(idxes, xs, ys, z)
    ensures |SumPoly(idxes, xs, ys)| <= |idxes|
  {
    hide Mul, Add, Sub;
    if xs != [] {
      EvalSumPoly(idxes, xs[1..], ys[1..], z);
      var w := WeightPoly(idxes, xs[0]);
      EvalAdd(Scale(ys[0], w), SumPoly(idxes, xs[1..], ys[1..]), z);
      EvalScale(ys[0], w, z);
      EvalWeightPoly(idxes, xs[0], z);
      WeightPolyLength(idxes, xs[0]);
    }
  }

  /** At an index, only the term of that index survives. */
  lemma {:induction false} SumAt(idxes: seq<Scalar>, xs: seq<Scalar>, ys: seq<Scalar>, x: Scalar)
    requires |xs| == |ys| && Distinct(xs) && x in idxes
    ensures forall i :: 0 <= i < |xs| && xs[i] == x ==> WeightedSum(idxes, xs, ys, x) == ys[i]
    ensures x !in xs ==> WeightedSum(idxes, xs, ys, x) == 0
  {
    hide Mul, Add, Sub, Weight;
    if xs != [] {
      var r := WeightedSum(idxes, xs[1..], ys[1..], x);
      SumAt(idxes, xs[1..], ys[1..], x);
      WeightAt(idxes, xs[0], x);
      MulOne(ys[0]); AddZero(ys[0]); AddZero(r);
      if xs[0] == x {
        assert x !in xs[1..];
      } else {
        forall i | 0 <= i < |xs| && xs[i] == x ensures r == ys[i] {
          assert xs[1..][i - 1] == x && ys[1..][i - 1] == ys[i];
        }
      }
    }
  }

  /** Lagrange evaluation reproduces every polynomial with at most as many
      coefficients as there are points. */
  lemma LagrangeReproduces(p: Coeffs, xs: seq<Scalar>, ys: seq<Scalar>, z: Scalar)
    requires |xs| == |ys| && Distinct(xs) && |p| <= |xs|
    requires forall i :: 0 <= i < |xs| ==> ys[i] == Eval(p, xs[i])
    ensures LagrangeAt(xs, ys, z) == Eval(p, z)
  {
    hide Mul, Add, Sub, Eval, WeightedSum, SumPoly;
    var q := SumPoly(xs, xs, ys);
    forall i | 0 <= i < |xs| ensures Eval(q, xs[i]) == Eval(p, xs[i]) {
      EvalSumPoly(xs, xs, ys, xs[i]);
      SumAt(xs, xs, ys, xs[i]);
    }
    EvalSumPoly(xs, xs, ys, z);
    PointsDetermine(p, q, xs);
    EvalSame(p, q, z);
  }

  /** Every interpolant, and so the one `interpolate` returns and the value
      `interpolate_at` returns, agrees with the Lagrange form everywhere. */
  lemma InterpolantIsLagrange(p: Coeffs, xs: seq<Scalar>, ys: seq<Scalar>, z: Scalar)
    requires Interpolates(p, xs, ys) && Distinct(xs)
    ensures Eval(p, z) == LagrangeAt(xs, ys, z)
  {
    hide Mul, Add, Sub, Eval, LagrangeAt;
    LagrangeReproduces(p, xs, ys, z);
  }

  /** The coefficient form and the Lagrange form of interpolation coincide. */
  lemma NevilleIsLagrange(xs: seq<Scalar>, ys: seq<Scalar>, z: Scalar)
    requires |xs| == |ys| > 0 && Distinct(xs)
    ensures Eval(Neville(xs, ys, 0, |xs| - 1), z) == LagrangeAt(xs, ys, z)
  {
    hide Mul, Add, Sub, Eval, Neville;
    NevilleInterpolates(xs, ys, 0, |xs| - 1);
    LagrangeReproduces(Neville(xs, ys, 0, |xs| - 1), xs, ys, z);
  }

  // ---- wrong values ----

  function Differences(ys: seq<Scalar>, zs: seq<Scalar>): seq<Scalar>
    requires |ys| == |zs|
  {
    seq(|ys|, i requires 0 <= i < |ys| => Sub(ys[i], zs[i]))
  }

  /** Evaluation is linear in the values. */
  lemma {:induction false} WeightedDifference(idxes: seq<Scalar>, xs: seq<Scalar>, ys: seq<Scalar>, zs: seq<Scalar>,
      z: Scalar)
    requires |xs| == |ys| == |zs|
    ensures WeightedSum(idxes, xs, Differences(ys, zs), z)
         == Sub(WeightedSum(idxes, xs, ys, z), WeightedSum(idxes, xs, zs, z))
  {
    hide Mul, Add, Sub, Weight;
    if xs == [] {
      AddZero(0);
    } else {
      var w := Weight(idxes, xs[0], z);
      assert Differences(ys, zs)[1..] == Differences(ys[1..], zs[1..]);
      WeightedDifference(idxes, xs[1..], ys[1..], zs[1..], z);
      MulSub(w, ys[0], zs[0]);
      DifferenceOfSums(Mul(ys[0], w), WeightedSum(idxes, xs[1..], ys[1..], z), Mul(zs[0], w), WeightedSum(idxes,
          xs[1..], zs[1..], z));
    }
  }

  /** Values give the same result as others exactly when the errors evaluate to
      nothing. */
  lemma ErrorsCancelIff(xs: seq<Scalar>, ys: seq<Scalar>, zs: seq<Scalar>, z: Scalar)
    requires |xs| == |ys| == |zs|
    ensures LagrangeAt(xs, ys, z) == LagrangeAt(xs, zs, z) <==> LagrangeAt(xs, Differences(ys, zs), z) == 0
  {
    hide Mul, Add, Sub, WeightedSum;
    WeightedDifference(xs, xs, ys, zs, z);
    SubAdd(LagrangeAt(xs, ys, z), LagrangeAt(xs, zs, z));
  }

  /** With one value not zero, that value times its weight remains. */
  lemma {:induction false} OneTerm(idxes: seq<Scalar>, xs: seq<Scalar>, ys: seq<Scalar>, j: nat, z: Scalar)
    requires |xs| == |ys|
    requires forall i :: 0 <= i < |ys| && i != j ==> ys[i] == 0
    ensures WeightedSum(idxes, xs, ys, z) == if j < |xs| then Mul(ys[j], Weight(idxes, xs[j], z)) else 0
  {
    hide Mul, Add, Sub, Weight;
    if xs != [] {
      var w := Weight(idxes, xs[0], z);
      MulOne(w); AddZero(0);
      if j == 0 {
        OneTerm(idxes, xs[1..], ys[1..], |xs|, z);
        AddZero(Mul(ys[0], w));
      } else {
        OneTerm(idxes, xs[1..], ys[1..], j - 1, z);
        if j < |xs| { AddZero(Mul(ys[j], Weight(idxes, xs[j], z))); }
      }
    }
  }

  /** A weight vanishes exactly at the other indices. */
  lemma {:induction false} WeightZeroIff(idxes: seq<Scalar>, j: Scalar, x: Scalar)
    ensures Weight(idxes, j, x) == 0 <==> x != j && x in idxes
  {
    hide Mul, Add, Sub;
    if idxes != [] {
      var k := idxes[0];
      WeightZeroIff(idxes[1..], j, x);
      if k != j {
        SubAdd(j, k); SubAdd(x, k);
        NoZeroDivisors(Sub(x, k), Inv(Sub(j, k)));
        NoZeroDivisors(Helper(k, j, x), Weight(idxes[1..], j, x));
      }
    }
  }

  // ---- evaluation in the group ----

  /** `multi_exp` on points and as many scalars. */
  function MultiExp(points: seq<Scalar>, scalars: seq<Scalar>): Scalar
    requires |points| == |scalars|
  {
    if points == [] then 0 else Add(Mul(points[0], scalars[0]), MultiExp(points[1..], scalars[1..]))
  }

  ghost predicate ArePowers(scalars: seq<Scalar>, x: Scalar, k: nat) {
    forall i :: 0 <= i < |scalars| ==> scalars[i] == Pow(x, k + i)
  }

  lemma {:induction false} MultiExpPowers(points: seq<Scalar>, scalars: seq<Scalar>, x: Scalar, k: nat)
    requires |points| == |scalars| && ArePowers(scalars, x, k)
    ensures MultiExp(points, scalars) == Mul(Pow(x, k), Eval(points, x))
  {
    hide Add, Mul;
    if points == [] {
      MulOne(Pow(x, k));
    } else {
      assert ArePowers(scalars[1..], x, k + 1);
      MultiExpPowers(points[1..], scalars[1..], x, k + 1);
      var e := Eval(points[1..], x);
      MulComm(points[0], Pow(x, k));
      MulAssoc(Pow(x, k), x, e);
      MulAdd(Pow(x, k), points[0], Mul(x, e));
      assert scalars[0] == Pow(x, k + 0);
    }
  }

  /** `blstrs_eval_G1Projective` and `blstrs_eval_G2Projective`: running powers
      and one multi-exponentiation agree with Horner evaluation. */
  method GroupEval(coeff: seq<Scalar>, x: Scalar) returns (r: Scalar)
    ensures r == Eval(coeff, x)
  {
    hide Add, Mul, Eval, MultiExp;
    if |coeff| == 0 { EvalEmpty(x); return 0; }
    if |coeff| == 1 { EvalConstant(coeff[0], x); assert coeff == [coeff[0]]; return coeff[0]; }
    var scalars := [];
    var xx := x;
    MulOne(x);
    for i := 1 to |coeff|
      invariant |scalars| == i - 1 && ArePowers(scalars, x, 1)
      invariant xx == Pow(x, i)
    {
      scalars := scalars + [xx];
      xx := Mul(xx, x);
    }
    MultiExpPowers(coeff[1..], scalars, x, 1);
    EvalHead(coeff, x);
    AddComm(coeff[0], MultiExp(coeff[1..], scalars));
    r := Add(MultiExp(coeff[1..], scalars), coeff[0]);
  }

  lemma EvalHead(p: Coeffs, x: Scalar)
    requires p != []
    ensures Eval(p, x) == Add(p[0], Mul(Pow(x, 1), Eval(p[1..], x)))
  {
    hide Add, Mul;
    MulOne(x);
  }
}
