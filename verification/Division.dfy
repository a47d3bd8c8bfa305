/** `BlstrsPolynomial`: coefficient vectors kept in trimmed form. */
module Division {
  import opened SetFacts
  import opened Field
  import opened Poly
  import opened Interpolation

  /** A polynomial value: no trailing zero coefficient. */
  type Polynomial = p: Coeffs | Trimmed(p)

  datatype Result<+T> = Ok(value: T) | Err(error: string)

  const USIZE_MAX: nat := 0xFFFF_FFFF_FFFF_FFFF

  /** `degree`: the length minus one, wrapping to usize::MAX for zero. */
  function Degree(p: Polynomial): nat {
    if p == [] then USIZE_MAX else |p| - 1
  }

  /** `new`: pops trailing zeros. */
  method New(coeffs: Coeffs) returns (p: Polynomial)
    ensures SamePoly(p, coeffs) && |p| <= |coeffs|
  {
    var c := coeffs;
    while c != [] && c[|c| - 1] == 0
      invariant SamePoly(c, coeffs) && |c| <= |coeffs|
      decreases |c|
    {
      c := c[..|c| - 1];
    }
    p := c;
  }

  /** `add`: folds the shorter vector into the longer one. */
  method AddPolynomials(p: Polynomial, q: Polynomial) returns (r: Polynomial)
    ensures SamePoly(r, AddP(p, q)) && |r| <= Max(|p|, |q|)
    ensures forall x :: Eval(r, x) == Add(Eval(p, x), Eval(q, x))
  {
    hide Add, Mul, Eval;
    var larger: Coeffs, smaller: Coeffs := if |p| > |q| then p else q, if |p| > |q| then q else p;
    ghost var l := larger;
    for i := 0 to |smaller|
      invariant |larger| == |l|
      invariant forall k :: 0 <= k < i ==> larger[k] == Add(l[k], smaller[k])
      invariant forall k :: i <= k < |l| ==> larger[k] == l[k]
    {
      larger := larger[i := Add(larger[i], smaller[i])];
    }
    forall i | 0 <= i < |larger| ensures larger[i] == AddP(p, q)[i] {
      AddComm(Coef(p, i), Coef(q, i)); AddZero(l[i]);
    }
    assert larger == AddP(p, q);
    r := New(larger);
    forall x ensures Eval(r, x) == Add(Eval(p, x), Eval(q, x)) {
      EvalSame(r, AddP(p, q), x); EvalAdd(p, q, x);
    }
  }

  // ---- long division ----

  /** p == q * d + r, coefficient by coefficient. */
  ghost predicate DivisionIdentity(p: Coeffs, q: Coeffs, d: Coeffs, r: Coeffs) {
    forall i: nat :: Coef(p, i) == Add(ProductCoef(q, d, i), Coef(r, i))
  }

  /** Setting a zero coefficient of q to s adds s * X^k * d to the product. */
  lemma {:induction false} ProductUpdate(q: Coeffs, d: Coeffs, k: nat, s: Scalar, i: int)
    requires k < |q| && q[k] == 0
    ensures ProductCoef(q[k := s], d, i) == Add(ProductCoef(q, d, i), Mul(s, Coef(d, i - k)))
  {
    hide Mul, Add;
    var q' := q[k := s];
    if k == 0 {
      assert q'[1..] == q[1..];
      var rest := ProductCoef(q[1..], d, i - 1);
      MulOne(Coef(d, i)); AddZero(rest);
      AddComm(Mul(s, Coef(d, i)), rest);
    } else {
      assert q'[1..] == q[1..][k - 1 := s];
      ProductUpdate(q[1..], d, k - 1, s, i - 1);
      AddAssoc(Mul(q[0], Coef(d, i)), ProductCoef(q[1..], d, i - 1), Mul(s, Coef(d, i - k)));
    }
  }

  /** One elimination step: subtract s * X^k * d from r. */
  function Eliminate(r: Coeffs, d: Coeffs, s: Scalar, k: nat): Coeffs {
    seq(|r|, i requires 0 <= i < |r| => Sub(r[i], Mul(s, Coef(d, i - k))))
  }

  lemma EliminateKeepsIdentity(p: Coeffs, q: Coeffs, d: Coeffs, r: Coeffs, s: Scalar, k: nat, r': Coeffs)
    requires DivisionIdentity(p, q, d, r)
    requires k < |q| && q[k] == 0 && k + |d| <= |r|
    requires SamePoly(r', Eliminate(r, d, s, k))
    ensures DivisionIdentity(p, q[k := s], d, r')
  {
    hide Mul, Add, Sub;
    forall i: nat ensures Coef(p, i) == Add(ProductCoef(q[k := s], d, i), Coef(r', i)) {
      var m, t := ProductCoef(q, d, i), Mul(s, Coef(d, i - k));
      ProductUpdate(q, d, k, s, i);
      MulOne(s); AddZero(0);
      assert Coef(r', i) == Coef(Eliminate(r, d, s, k), i) == Sub(Coef(r, i), t);
      SubAdd(Coef(r, i), t);
      AddComm(Sub(Coef(r, i), t), t);
      AddAssoc(m, t, Sub(Coef(r, i), t));
    }
  }

  /** The leading coefficient is cancelled. */
  lemma LeadingCancels(r: Coeffs, d: Coeffs)
    requires d != [] && d[|d| - 1] != 0 && |d| <= |r|
    ensures var s := Mul(r[|r| - 1], Inv(d[|d| - 1]));
            Coef(Eliminate(r, d, s, |r| - |d|), |r| - 1) == 0
  {
    hide Mul, Sub;
    var a, b := r[|r| - 1], d[|d| - 1];
    MulAssoc(a, Inv(b), b); MulOne(a); MulComm(Inv(b), b);
    AddZero(a);
  }

  /** `div_ref`: long division; the remainder is the loop's final `r`. */
  method DivRef(self: Polynomial, rhs: Polynomial) returns (res: Result<Polynomial>, ghost rem: Polynomial)
    ensures res.Err? <==> rhs == []
    ensures res.Ok? ==> DivisionIdentity(self, res.value, rhs, rem) && |rem| < |rhs|
    ensures res.Ok? ==> |res.value| <= if |self| < |rhs| then 0 else |self| - |rhs| + 1
  {
    hide Mul, Add, Sub, Eliminate;
    rem := self;
    if rhs == [] { return Err("Division by 0!"), rem; }
    if self == [] || Degree(self) < Degree(rhs) {
      forall i: nat ensures Coef(self, i) == Add(ProductCoef([], rhs, i), Coef(self, i)) {
        AddZero(Coef(self, i));
      }
      return Ok([]), rem;
    }
    var d := |rhs| - 1;
    var q: Coeffs := seq(|self| - 1 - d + 1, _ => 0);
    var r := self;
    var c := Inv(rhs[d]);
    ZeroProduct(q, rhs, self);
    while r != [] && |r| - 1 >= d
      invariant |q| == |self| - d
      invariant |r| <= |self|
      invariant forall k :: 0 <= k < |q| && k <= |r| - 1 - d ==> q[k] == 0
      invariant DivisionIdentity(self, q, rhs, r)
      decreases |r|
    {
      var s := Mul(r[|r| - 1], c);
      var k := |r| - 1 - d;
      LeadingCancels(r, rhs);
      var r' := EliminateAndTrim(r, rhs, s, k);
      EliminateKeepsIdentity(self, q, rhs, r, s, k, r');
      r := r';
      q := q[k := s];
    }
    rem := r;
    var t := New(q);
    ProductSame(t, q, rhs);
    res := Ok(t);
  }

  /** The update of `r` in the loop: a map over the coefficients, then `new`. */
  method EliminateAndTrim(r: Coeffs, d: Coeffs, s: Scalar, k: nat) returns (r': Polynomial)
    requires r != [] && k + |d| == |r|
    requires Coef(Eliminate(r, d, s, k), |r| - 1) == 0
    ensures SamePoly(r', Eliminate(r, d, s, k)) && |r'| < |r|
  {
    hide Mul, Sub;
    var e := seq(|r|, i requires 0 <= i < |r| =>
      if i >= k then Sub(r[i], Mul(s, d[i - k])) else r[i]);
    MulOne(s);
    forall i | 0 <= i < |r| ensures e[i] == Eliminate(r, d, s, k)[i] {
      AddZero(r[i]);
    }
    assert e == Eliminate(r, d, s, k);
    r' := New(e);
    assert Coef(r', |r| - 1) == Coef(e, |r| - 1);
  }

  lemma {:induction false} ZeroProductCoef(q: Coeffs, d: Coeffs, i: int)
    requires forall k :: 0 <= k < |q| ==> q[k] == 0
    ensures ProductCoef(q, d, i) == 0
  {
    if q != [] {
      ZeroProductCoef(q[1..], d, i - 1);
      MulOne(Coef(d, i)); AddZero(0);
    }
  }

  lemma ZeroProduct(q: Coeffs, d: Coeffs, p: Coeffs)
    requires forall k :: 0 <= k < |q| ==> q[k] == 0
    ensures DivisionIdentity(p, q, d, p)
  {
    forall i: nat ensures Coef(p, i) == Add(ProductCoef(q, d, i), Coef(p, i)) {
      ZeroProductCoef(q, d, i); AddZero(Coef(p, i));
    }
  }

  lemma {:induction false} ProductCoefSame(p: Coeffs, q: Coeffs, d: Coeffs, i: int)
    requires SamePoly(p, q)
    ensures ProductCoef(p, d, i) == ProductCoef(q, d, i)
    decreases |p| + |q|
  {
    hide Mul, Add;
    if p != [] || q != [] {
      var p', q' := if p == [] then p else p[1..], if q == [] then q else q[1..];
      assert Coef(p, 0) == Coef(q, 0);
      forall k: nat ensures Coef(p', k) == Coef(q', k) {
        assert Coef(p, k + 1) == Coef(q, k + 1);
      }
      ProductCoefSame(p', q', d, i - 1);
      MulOne(Coef(d, i)); AddZero(ProductCoef(p', d, i - 1)); AddZero(ProductCoef(q', d, i - 1));
    }
  }

  lemma ProductSame(p: Coeffs, q: Coeffs, d: Coeffs)
    requires SamePoly(p, q)
    ensures forall i: int :: ProductCoef(p, d, i) == ProductCoef(q, d, i)
  {
    forall i: int ensures ProductCoef(p, d, i) == ProductCoef(q, d, i) {
      ProductCoefSame(p, q, d, i);
    }
  }

  /** The identity on coefficients is the identity on values. */
  lemma EvalDivision(p: Coeffs, q: Coeffs, d: Coeffs, r: Coeffs, x: Scalar)
    requires DivisionIdentity(p, q, d, r)
    ensures Eval(p, x) == Add(Mul(Eval(q, x), Eval(d, x)), Eval(r, x))
  {
    hide Mul, Add, Eval;
    var s := AddP(Product(q, d), r);
    forall i: nat ensures Coef(p, i) == Coef(s, i) {
      if i >= |q| + |d| { ProductCoefSupport(q, d, i); AddZero(Coef(r, i)); AddZero(0); }
      AddZero(0);
    }
    EvalSame(p, s, x);
    EvalAdd(Product(q, d), r, x);
    EvalProduct(q, d, x);
  }

  // ---- the quotient and the remainder are determined ----

  lemma {:induction false} ProductCoefSub(p: Coeffs, q: Coeffs, d: Coeffs, i: int)
    ensures ProductCoef(SubP(p, q), d, i) == Sub(ProductCoef(p, d, i), ProductCoef(q, d, i))
    decreases |p| + |q|
  {
    hide Mul, Add, Sub;
    AddZero(0); MulOne(Coef(d, i));
    var s := SubP(p, q);
    if p != [] || q != [] {
      var p', q' := if p == [] then p else p[1..], if q == [] then q else q[1..];
      assert s[1..] == SubP(p', q');
      ProductCoefSub(p', q', d, i - 1);
      var u, v := ProductCoef(p', d, i - 1), ProductCoef(q', d, i - 1);
      MulSub(Coef(d, i), Coef(p, 0), Coef(q, 0));
      DifferenceOfSums(Mul(Coef(p, 0), Coef(d, i)), u, Mul(Coef(q, 0), Coef(d, i)), v);
      AddZero(u); AddZero(v);
    }
  }

  /** The leading coefficient of a product is the product of the leading ones. */
  lemma {:induction false} ProductLeading(q: Coeffs, d: Coeffs)
    requires q != [] && d != []
    ensures ProductCoef(q, d, |q| + |d| - 2) == Mul(q[|q| - 1], d[|d| - 1])
  {
    hide Mul, Add;
    var top := |q| + |d| - 2;
    MulOne(q[0]);
    if |q| == 1 {
      assert q[1..] == [];
      AddZero(Mul(q[0], d[|d| - 1]));
    } else {
      ProductLeading(q[1..], d);
      AddZero(ProductCoef(q[1..], d, top - 1));
    }
  }

  /** Quotient and remainder with a short remainder are unique. */
  lemma DivisionUnique(p: Coeffs, d: Polynomial, q: Polynomial, r: Polynomial, q': Polynomial, r': Polynomial)
    requires d != [] && |r| < |d| && |r'| < |d|
    requires DivisionIdentity(p, q, d, r) && DivisionIdentity(p, q', d, r')
    ensures q == q' && r == r'
  {
    hide Mul, Add, Sub, SubP;
    var diff := SubP(q, q');
    var t := Trim(diff);
    TrimCorrect(diff);
    forall i: nat ensures ProductCoef(t, d, i) == Sub(Coef(r', i), Coef(r, i)) {
      ProductCoefSame(t, diff, d, i);
      ProductCoefSub(q, q', d, i);
      CrossSubtract(ProductCoef(q, d, i), Coef(r, i), ProductCoef(q', d, i), Coef(r', i));
    }
    if t != [] {
      ProductLeading(t, d);
      NoZeroDivisors(t[|t| - 1], d[|d| - 1]);
      AddZero(0);
      assert false;
    }
    forall i: nat ensures Coef(q, i) == Coef(q', i) && Coef(r, i) == Coef(r', i) {
      SubPCoef(q, q', i);
      SubAdd(Coef(q, i), Coef(q', i));
      SubAdd(Coef(r', i), Coef(r, i));
      assert Coef(t, i) == Coef(diff, i);
      assert ProductCoef(t, d, i) == 0;
    }
    TrimmedUnique(q, q');
    TrimmedUnique(r, r');
  }

  lemma CrossSubtract(a: Scalar, b: Scalar, c: Scalar, e: Scalar)
    requires Add(a, b) == Add(c, e)
    ensures Sub(a, c) == Sub(e, b)
  {
  }

  lemma SubPCoef(p: Coeffs, q: Coeffs, i: nat)
    ensures Coef(SubP(p, q), i) == Sub(Coef(p, i), Coef(q, i))
  {
  }

  function Trim(p: Coeffs): Coeffs {
    if p != [] && p[|p| - 1] == 0 then Trim(p[..|p| - 1]) else p
  }

  lemma {:induction false} TrimCorrect(p: Coeffs)
    ensures Trimmed(Trim(p)) && SamePoly(Trim(p), p)
  {
    if p != [] && p[|p| - 1] == 0 {
      TrimCorrect(p[..|p| - 1]);
      assert SamePoly(p[..|p| - 1], p);
    }
  }

  // ---- sampling ----

  /** `overflowing_add(1)` on a usize. */
  function Successor(degree: nat): nat {
    if degree == USIZE_MAX then 0 else degree + 1
  }

  /** `sample`: fills the map up to degree + 1 points and interpolates.  The
      random scalars are a parameter; more fixed points than that is a panic. */
  method Sample(degree: nat, fixedPoints: map<nat, Scalar>, random: nat -> Scalar)
    returns (p: Polynomial, ghost points: map<nat, Scalar>)
    requires |fixedPoints| <= Successor(degree) <= P
    requires forall k :: k in fixedPoints ==> k < P
    ensures |p| <= Successor(degree)
    ensures forall k: nat :: k in fixedPoints ==> Eval(p, FromNat(k)) == fixedPoints[k]
    ensures |points| == (if degree == USIZE_MAX then 0 else degree + 1) && Fills(points, fixedPoints, random)
    ensures forall k: nat :: k in points ==> Eval(p, FromNat(k)) == points[k]
  {
    hide Add, Mul, Eval, Fills;
    assert Fills(fixedPoints, fixedPoints, random) by { NothingToFill(fixedPoints, random); }
    var all := FillPoints(Successor(degree), fixedPoints, random);
    points := all;
    Filled(all, fixedPoints, random);
    var xs, ys := ListPoints(all);
    var c := Interpolate(xs, ys);
    p := New(c);
    forall k: nat | k in points ensures Eval(p, FromNat(k)) == points[k] {
      var m :| 0 <= m < |xs| && xs[m] == k;
      EvalSame(p, c, xs[m]);
    }
  }

  /** points extends fixedPoints by random values at the smallest free points. */
  ghost predicate Fills(points: map<nat, Scalar>, fixedPoints: map<nat, Scalar>, random: nat -> Scalar) {
    && (forall k :: k in points ==> k < P)
    && (forall k :: k in fixedPoints ==> k in points && points[k] == fixedPoints[k])
    && (forall k :: k in points && k !in fixedPoints ==> points[k] == random(k))
    && (forall j: nat, k: nat :: j < k && k in points && k !in fixedPoints ==> j in points)
  }

  lemma NothingToFill(fixedPoints: map<nat, Scalar>, random: nat -> Scalar)
    requires forall k :: k in fixedPoints ==> k < P
    ensures Fills(fixedPoints, fixedPoints, random)
  {
  }

  lemma Filled(points: map<nat, Scalar>, fixedPoints: map<nat, Scalar>, random: nat -> Scalar)
    requires Fills(points, fixedPoints, random)
    ensures forall k :: k in points ==> k < P
    ensures forall k :: k in fixedPoints ==> k in points && points[k] == fixedPoints[k]
  {
  }

  lemma FillOne(points: map<nat, Scalar>, fixedPoints: map<nat, Scalar>, random: nat -> Scalar, i: nat)
    requires Fills(points, fixedPoints, random) && i < P && UpTo(i) <= points.Keys
    ensures i !in points ==> Fills(points[i := random(i)], fixedPoints, random)
    ensures points[i := random(i)].Keys == points.Keys + {i}
    ensures i in points ==> points.Keys + {i} == points.Keys
  {
    hide UpTo;
  }

  /** The loop of `sample`: random values at the smallest free indices. */
  method FillPoints(count: nat, fixedPoints: map<nat, Scalar>, random: nat -> Scalar)
    returns (points: map<nat, Scalar>)
    requires |fixedPoints| <= count <= P && Fills(fixedPoints, fixedPoints, random)
    ensures |points| == count && Fills(points, fixedPoints, random)
  {
    hide UpTo, Fills;
    points := fixedPoints;
    var i: nat := 0;
    UpToStep(points.Keys, 0);
    while |points| < count
      invariant |points| <= count && Fills(points, fixedPoints, random)
      invariant UpTo(i) <= points.Keys
      decreases count - i
    {
      SubsetSize(UpTo(i), points.Keys);
      UpToStep(points.Keys, i);
      FillOne(points, fixedPoints, random, i);
      if i !in points {
        points := points[i := random(i)];
      }
      i := i + 1;
    }
  }

  lemma UpToStep(s: set<nat>, i: nat)
    ensures UpTo(0) <= s
    ensures UpTo(i) <= s ==> UpTo(i + 1) <= s + {i}
  {
  }

  method ListPoints(points: map<nat, Scalar>) returns (xs: seq<Scalar>, ys: seq<Scalar>)
    requires forall k :: k in points ==> k < P
    ensures |xs| == |ys| == |points| && Distinct(xs)
    ensures forall m :: 0 <= m < |xs| ==> xs[m] in points && ys[m] == points[xs[m]]
    ensures forall k :: k in points ==> k in xs
  {
    xs, ys := [], [];
    var keys := points.Keys;
    while keys != {}
      invariant keys <= points.Keys && |xs| == |ys| && Distinct(xs)
      invariant |xs| + |keys| == |points|
      invariant forall m :: 0 <= m < |xs| ==> xs[m] in points && xs[m] !in keys && ys[m] == points[xs[m]]
      invariant forall k :: k in points ==> k in keys || k in xs
      decreases |keys|
    {
      var k: nat :| k in keys;
      xs, ys := xs + [FromNat(k)], ys + [points[k]];
      keys := keys - {k};
    }
  }
}
