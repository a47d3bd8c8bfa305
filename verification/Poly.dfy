/** Polynomials over the scalar field as coefficient vectors, lowest degree
    first, and the facts about evaluation and roots the protocols rest on. */
module Poly {
  import opened Field

  type Coeffs = seq<Scalar>

  /** The value at x. */
  function Eval(p: Coeffs, x: Scalar): Scalar {
    if p == [] then 0 else Add(p[0], Mul(x, Eval(p[1..], x)))
  }

  function Pow(x: Scalar, n: nat): Scalar {
    if n == 0 then 1 else Mul(Pow(x, n - 1), x)
  }

  function Coef(p: Coeffs, i: int): Scalar {
    if 0 <= i < |p| then p[i] else 0
  }

  /** The same polynomial, possibly padded with leading zeros. */
  ghost predicate SamePoly(p: Coeffs, q: Coeffs) {
    forall i: nat :: Coef(p, i) == Coef(q, i)
  }

  function Max(a: nat, b: nat): nat { if a < b then b else a }

  function AddP(p: Coeffs, q: Coeffs): Coeffs {
    seq(Max(|p|, |q|), i => Add(Coef(p, i), Coef(q, i)))
  }

  function SubP(p: Coeffs, q: Coeffs): Coeffs {
    seq(Max(|p|, |q|), i => Sub(Coef(p, i), Coef(q, i)))
  }

  function Scale(c: Scalar, p: Coeffs): Coeffs {
    seq(|p|, i requires 0 <= i < |p| => Mul(c, p[i]))
  }

  /** p * (X - a) */
  function TimesXMinus(p: Coeffs, a: Scalar): Coeffs {
    SubP([0] + p, Scale(a, p))
  }

  /** p * (a - X) */
  function TimesMinusX(p: Coeffs, a: Scalar): Coeffs {
    SubP(Scale(a, p + [0]), [0] + p)
  }

  // ---- evaluation is a ring homomorphism ----

  lemma {:induction false} EvalSame(p: Coeffs, q: Coeffs, x: Scalar)
    requires SamePoly(p, q)
    ensures Eval(p, x) == Eval(q, x)
    decreases |p| + |q|
  {
    if p == [] && q == [] {
    } else {
      var p', q' := if p == [] then p else p[1..], if q == [] then q else q[1..];
      assert Coef(p, 0) == Coef(q, 0);
      forall i: nat ensures Coef(p', i) == Coef(q', i) {
        assert Coef(p, i + 1) == Coef(q, i + 1);
      }
      EvalSame(p', q', x);
      MulOne(x);
    }
  }

  lemma {:induction false} EvalAdd(p: Coeffs, q: Coeffs, x: Scalar)
    ensures Eval(AddP(p, q), x) == Add(Eval(p, x), Eval(q, x))
    decreases |p| + |q|
  {
    var s := AddP(p, q);
    if p == [] {
      assert s == q;
    } else if q == [] {
      assert s == p;
    } else {
      assert s[1..] == AddP(p[1..], q[1..]);
      EvalAdd(p[1..], q[1..], x);
      var u, v := Eval(p[1..], x), Eval(q[1..], x);
      MulAdd(x, u, v);
      SumOfPairs(p[0], q[0], Mul(x, u), Mul(x, v));
    }
  }

  lemma {:induction false} EvalScale(c: Scalar, p: Coeffs, x: Scalar)
    ensures Eval(Scale(c, p), x) == Mul(c, Eval(p, x))
  {
    MulOne(c);
    if p != [] {
      assert Scale(c, p)[1..] == Scale(c, p[1..]);
      EvalScale(c, p[1..], x);
      var u := Eval(p[1..], x);
      MulAdd(c, p[0], Mul(x, u));
      MulAssoc(x, c, u); MulComm(x, c); MulAssoc(c, x, u);
    }
  }

  lemma EvalSub(p: Coeffs, q: Coeffs, x: Scalar)
    ensures Eval(SubP(p, q), x) == Sub(Eval(p, x), Eval(q, x))
  {
    hide Add, Sub, Mul, Eval;
    var d := SubP(p, q);
    forall i: nat ensures Coef(AddP(d, q), i) == Coef(p, i) {
      SubAdd(Coef(p, i), Coef(q, i));
      AddZero(0);
    }
    EvalSame(AddP(d, q), p, x);
    EvalAdd(d, q, x);
    SubAdd(Eval(d, x), Eval(q, x));
  }

  lemma EvalShift(p: Coeffs, x: Scalar)
    ensures Eval([0] + p, x) == Mul(x, Eval(p, x))
  {
    assert ([0] + p)[1..] == p;
    AddZero(Mul(x, Eval(p, x)));
  }

  lemma EvalPad(p: Coeffs, x: Scalar)
    ensures Eval(p + [0], x) == Eval(p, x)
  {
    EvalSame(p + [0], p, x);
  }

  /** Appending a leading coefficient adds one power: evaluation is the sum of
      the coefficients times the powers of x. */
  lemma {:induction false} EvalSnoc(p: Coeffs, c: Scalar, x: Scalar)
    ensures Eval(p + [c], x) == Add(Eval(p, x), Mul(c, Pow(x, |p|)))
  {
    MulOne(x); MulOne(c); AddZero(c);
    if p == [] {
      assert Eval([c], x) == Add(c, Mul(x, Eval([], x)));
    } else {
      assert (p + [c])[0] == p[0] && (p + [c])[1..] == p[1..] + [c];
      EvalSnoc(p[1..], c, x);
      var u, w := Eval(p[1..], x), Pow(x, |p| - 1);
      MulAdd(x, u, Mul(c, w));
      assert Mul(x, Mul(c, w)) == Mul(c, Pow(x, |p|)) by {
        MulComm(x, Mul(c, w)); MulAssoc(c, w, x);
      }
      AddAssoc(p[0], Mul(x, u), Mul(c, Pow(x, |p|)));
    }
  }

  lemma EvalTimesXMinus(p: Coeffs, a: Scalar, x: Scalar)
    ensures Eval(TimesXMinus(p, a), x) == Mul(Sub(x, a), Eval(p, x))
  {
    EvalSub([0] + p, Scale(a, p), x);
    EvalShift(p, x); EvalScale(a, p, x);
    MulSub(Eval(p, x), x, a);
  }

  lemma EvalTimesMinusX(p: Coeffs, a: Scalar, x: Scalar)
    ensures Eval(TimesMinusX(p, a), x) == Mul(Sub(a, x), Eval(p, x))
  {
    EvalSub(Scale(a, p + [0]), [0] + p, x);
    EvalShift(p, x); EvalScale(a, p + [0], x); EvalPad(p, x);
    MulSub(Eval(p, x), a, x);
  }

  // ---- products ----

  /** The i-th coefficient of p * q. */
  function ProductCoef(p: Coeffs, q: Coeffs, i: int): Scalar {
    if p == [] then 0 else Add(Mul(p[0], Coef(q, i)), ProductCoef(p[1..], q, i - 1))
  }

  function Product(p: Coeffs, q: Coeffs): Coeffs {
    seq(|p| + |q|, i => ProductCoef(p, q, i))
  }

  lemma {:induction false} ProductCoefSupport(p: Coeffs, q: Coeffs, i: int)
    requires i < 0 || i >= |p| + |q|
    ensures ProductCoef(p, q, i) == 0
  {
    if p != [] {
      ProductCoefSupport(p[1..], q, i - 1);
      MulOne(p[0]); AddZero(0);
    }
  }

  lemma {:induction false} EvalProduct(p: Coeffs, q: Coeffs, x: Scalar)
    ensures Eval(Product(p, q), x) == Mul(Eval(p, x), Eval(q, x))
  {
    if p == [] {
      EvalSame(Product(p, q), [], x);
      MulOne(Eval(q, x));
    } else {
      var rest := [0] + Product(p[1..], q);
      var whole := AddP(Scale(p[0], q), rest);
      forall i: nat ensures Coef(Product(p, q), i) == Coef(whole, i) {
        ProductSplit(p, q, i);
      }
      EvalSame(Product(p, q), whole, x);
      EvalAdd(Scale(p[0], q), rest, x);
      EvalScale(p[0], q, x); EvalShift(Product(p[1..], q), x);
      EvalProduct(p[1..], q, x);
      var u, v := Eval(p[1..], x), Eval(q, x);
      MulAssoc(x, u, v);
      MulAdd(v, p[0], Mul(x, u));
    }
  }

  lemma ProductSplit(p: Coeffs, q: Coeffs, i: nat)
    requires p != []
    ensures Coef(Product(p, q), i)
         == Coef(AddP(Scale(p[0], q), [0] + Product(p[1..], q)), i)
  {
    hide Add, Mul;
    MulOne(p[0]); AddZero(0);
    var a, b := Coef(Scale(p[0], q), i), Coef([0] + Product(p[1..], q), i);
    assert a == Mul(p[0], Coef(q, i));
    assert b == ProductCoef(p[1..], q, i - 1) by {
      if i == 0 || i - 1 >= |p[1..]| + |q| { ProductCoefSupport(p[1..], q, i - 1); }
    }
    if i >= |p| + |q| { ProductCoefSupport(p, q, i); }
  }

  // ---- trimming ----

  ghost predicate Trimmed(p: Coeffs) { p == [] || p[|p| - 1] != 0 }

  lemma {:induction false} TrimmedUnique(p: Coeffs, q: Coeffs)
    requires Trimmed(p) && Trimmed(q) && SamePoly(p, q)
    ensures p == q
  {
    if p != [] || q != [] {
      var top: nat := Max(|p|, |q|) - 1;
      assert Coef(p, top) == Coef(q, top);
    }
    forall i | 0 <= i < |p| ensures p[i] == q[i] {
      assert Coef(p, i) == Coef(q, i);
    }
  }

  // ---- roots ----

  /** The quotient of p by X - r. */
  function Quotient(p: Coeffs, r: Scalar): (q: Coeffs)
    ensures |q| == if p == [] then 0 else |p| - 1
  {
    if |p| <= 1 then [] else [Eval(p[1..], r)] + Quotient(p[1..], r)
  }

  /** p(x) - p(r) == (x - r) * q(x) */
  lemma {:induction false} QuotientCorrect(p: Coeffs, r: Scalar, x: Scalar)
    ensures Sub(Eval(p, x), Eval(p, r)) == Mul(Sub(x, r), Eval(Quotient(p, r), x))
  {
    MulOne(x); MulOne(r); MulOne(Sub(x, r)); AddZero(Eval(p, r));
    if |p| == 1 {
      assert p[1..] == [];
    } else if |p| > 1 {
      var t := p[1..];
      var q' := Quotient(t, r);
      var ex, er, e := Eval(t, x), Eval(t, r), Eval(q', x);
      QuotientCorrect(t, r, x);
      assert Eval(Quotient(p, r), x) == Add(er, Mul(x, e)) by {
        assert ([er] + q')[1..] == q';
      }
      QuotientStep(p[0], x, r, ex, er, e);
    }
  }

  lemma QuotientStep(c: Scalar, x: Scalar, r: Scalar, ex: Scalar, er: Scalar, e: Scalar)
    requires Sub(ex, er) == Mul(Sub(x, r), e)
    ensures Sub(Add(c, Mul(x, ex)), Add(c, Mul(r, er))) == Mul(Sub(x, r), Add(er, Mul(x, e)))
  {
    hide Mul, Sub, Add;
    var d := Sub(x, r);
    calc {
      Sub(Add(c, Mul(x, ex)), Add(c, Mul(r, er)));
    == { SumOfPairs(c, Mul(x, ex), c, Mul(r, er)); AddZero(c); AddZero(Sub(Mul(x, ex), Mul(r, er))); }
      Sub(Mul(x, ex), Mul(r, er));
    == { SubAdd(ex, er); }
      Sub(Mul(x, Add(Mul(d, e), er)), Mul(r, er));
    == { MulAdd(x, Mul(d, e), er); }
      Sub(Add(Mul(x, Mul(d, e)), Mul(x, er)), Mul(r, er));
    == { SumOfPairs(Mul(x, Mul(d, e)), Mul(x, er), 0, Mul(r, er));
         AddZero(Mul(r, er)); AddZero(Mul(x, Mul(d, e))); }
      Add(Mul(x, Mul(d, e)), Sub(Mul(x, er), Mul(r, er)));
    == { MulSub(er, x, r); }
      Add(Mul(x, Mul(d, e)), Mul(d, er));
    == { MulAssoc(x, d, e); MulComm(x, d); MulAssoc(d, x, e); }
      Add(Mul(d, Mul(x, e)), Mul(d, er));
    == { MulAdd(d, er, Mul(x, e)); AddComm(Mul(d, Mul(x, e)), Mul(d, er)); }
      Mul(d, Add(er, Mul(x, e)));
    }
  }

  ghost predicate Distinct(xs: seq<Scalar>) {
    forall i, j :: 0 <= i < j < |xs| ==> xs[i] != xs[j]
  }

  ghost predicate Vanishes(p: Coeffs, xs: seq<Scalar>) {
    forall i :: 0 <= i < |xs| ==> Eval(p, xs[i]) == 0
  }

  /** Root counting: a polynomial with at least as many roots as coefficients
      is zero. */
  lemma {:induction false} TooManyRoots(p: Coeffs, xs: seq<Scalar>)
    requires |p| <= |xs| && Distinct(xs) && Vanishes(p, xs)
    ensures SamePoly(p, [])
    decreases |p|
  {
    if p != [] {
      var r, rest, q := xs[0], xs[1..], Quotient(p, xs[0]);
      forall i | 0 <= i < |rest| ensures Eval(q, rest[i]) == 0 {
        assert rest[i] == xs[i + 1] && xs[0] != xs[i + 1];
        QuotientCorrect(p, r, rest[i]);
        AddZero(0);
        SubAdd(rest[i], r);
        NoZeroDivisors(Sub(rest[i], r), Eval(q, rest[i]));
      }
      TooManyRoots(q, rest);
      QuotientZero(p, r);
    }
  }

  /** If the quotient is zero, p is the constant p(r). */
  lemma {:induction false} QuotientZero(p: Coeffs, r: Scalar)
    requires p != [] && SamePoly(Quotient(p, r), []) && Eval(p, r) == 0
    ensures SamePoly(p, [])
  {
    MulOne(r); AddZero(p[0]);
    if |p| == 1 {
      assert p[1..] == [];
    } else {
      var t := p[1..];
      var q := Quotient(p, r);
      assert Coef(q, 0) == 0 && q[0] == Eval(t, r);
      forall i: nat ensures Coef(Quotient(t, r), i) == 0 {
        assert Coef(q, i + 1) == Coef([], i + 1);
      }
      QuotientZero(t, r);
      forall i: nat ensures Coef(p, i) == 0 {
        if i > 0 { assert Coef(t, i - 1) == Coef([], i - 1); }
      }
    }
  }

  /** A polynomial is determined by as many points as it has coefficients. */
  lemma PointsDetermine(p: Coeffs, q: Coeffs, xs: seq<Scalar>)
    requires |p| <= |xs| && |q| <= |xs| && Distinct(xs)
    requires forall i :: 0 <= i < |xs| ==> Eval(p, xs[i]) == Eval(q, xs[i])
    ensures SamePoly(p, q)
  {
    hide Add, Sub, Mul, Eval;
    var d := SubP(p, q);
    forall i | 0 <= i < |xs| ensures Eval(d, xs[i]) == 0 {
      EvalSub(p, q, xs[i]);
      AddZero(Eval(p, xs[i]));
    }
    TooManyRoots(d, xs);
    forall i: nat ensures Coef(p, i) == Coef(q, i) {
      assert Coef(d, i) == Coef([], i);
      SubAdd(Coef(p, i), Coef(q, i));
    }
  }
}
