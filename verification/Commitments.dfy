/** Feldman and KZG polynomial commitments and the KZG vector commitment, with
    group elements written as discrete logarithms and the pairing as a product. */
module Commitments {
  import opened Field
  import opened Poly
  import opened Interpolation
  import opened Division

  type Group = Scalar

  // ---- Feldman ----

  class Feldman {
    const generator: Group
    const maxDegree: nat

    constructor (maxDegree: nat, generator: Group)
      ensures this.maxDegree == maxDegree && this.generator == generator
    {
      this.maxDegree, this.generator := maxDegree, generator;
    }

    /** `commit`: the zero polynomial has degree usize::MAX and is refused. */
    method Commit(poly: Polynomial) returns (r: Result<seq<Group>>)
      ensures r.Err? <==> (if poly == [] then maxDegree < USIZE_MAX else |poly| > maxDegree + 1)
      ensures r.Ok? ==> r.value == Scale(generator, poly)
    {
      hide Mul;
      if Degree(poly) > maxDegree { return Err("Polynomial degree is too large!"); }
      var commitment := [];
      for i := 0 to |poly|
        invariant |commitment| == i
        invariant forall k :: 0 <= k < i ==> commitment[k] == Mul(generator, poly[k])
      {
        commitment := commitment + [Mul(generator, poly[i])];
      }
      assert commitment == Scale(generator, poly);
      r := Ok(commitment);
    }

    /** `verify_from_commitment`: running powers of x. */
    method VerifyFromCommitment(commitment: seq<Group>, x: Scalar, value: Group) returns (ok: bool)
      ensures ok <==> value == Eval(commitment, x)
    {
      hide Mul, Add, Eval, Pow;
      if |commitment| == 0 {
        EvalEmpty(x);
        return value == 0;
      }
      var xPows, sum := x, commitment[0];
      EvalConstant(commitment[0], x); PowOne(x);
      assert commitment[..1] == [commitment[0]];
      for i := 1 to |commitment|
        invariant sum == Eval(commitment[..i], x)
        invariant xPows == Pow(x, i)
      {
        EvalSnoc(commitment[..i], commitment[i], x);
        assert commitment[..i + 1] == commitment[..i] + [commitment[i]];
        PowStep(x, i);
        sum := Add(sum, Mul(commitment[i], xPows));
        xPows := Mul(xPows, x);
      }
      assert commitment[..|commitment|] == commitment;
      ok := value == sum;
    }

    /** `verify` */
    method Verify(commitment: seq<Group>, x: Scalar, y: Scalar) returns (ok: bool)
      ensures ok <==> Mul(generator, y) == Eval(commitment, x)
    {
      ok := VerifyFromCommitment(commitment, x, Mul(generator, y));
    }
  }

  lemma PowOne(x: Scalar)
    ensures Pow(x, 1) == x
  {
    assert Pow(x, 0) == 1;
    MulOne(x);
  }

  lemma PowStep(x: Scalar, i: nat)
    ensures Pow(x, i + 1) == Mul(Pow(x, i), x)
  {
  }

  /** Feldman verification against a commitment accepts exactly the value of
      the committed polynomial. */
  lemma FeldmanExact(g: Group, p: Polynomial, x: Scalar, y: Scalar)
    requires g != 0
    ensures Mul(g, y) == Eval(Scale(g, p), x) <==> y == Eval(p, x)
  {
    hide Mul, Eval;
    EvalScale(g, p, x);
    CancelLeft(g, y, Eval(p, x));
  }

  lemma CancelLeft(g: Scalar, a: Scalar, b: Scalar)
    requires g != 0
    ensures Mul(g, a) == Mul(g, b) <==> a == b
  {
    hide Mul;
    Cancel(g, a); Cancel(g, b);
  }

  // ---- KZG ----

  function Powers(g: Group, tau: Scalar, n: nat): seq<Group> {
    seq(n, i requires 0 <= i => Mul(g, Pow(tau, i)))
  }

  /** `powers_of_tau` */
  method PowersOfTau(maxDegree: nat, generator: Group, tau: Scalar) returns (powers: seq<Group>)
    ensures powers == Powers(generator, tau, maxDegree + 1)
  {
    hide Mul;
    powers := [];
    var exp: Scalar := 1;
    for i := 0 to maxDegree + 1
      invariant exp == Pow(tau, i)
      invariant powers == Powers(generator, tau, i)
    {
      powers := powers + [Mul(generator, exp)];
      exp := Mul(exp, tau);
    }
  }

  /** `eval_poly_at_tau`: a fold over the zip of powers and coefficients. */
  function EvalAtTau(powers: seq<Group>, poly: Coeffs): Group {
    if powers == [] || poly == [] then 0
    else
      var k := if |powers| < |poly| then |powers| else |poly|;
      Add(EvalAtTau(powers[..k - 1], poly[..k - 1]), Mul(powers[k - 1], poly[k - 1]))
  }

  lemma {:induction false} EvalAtTauCorrect(g: Group, tau: Scalar, n: nat, p: Coeffs)
    requires |p| <= n
    ensures EvalAtTau(Powers(g, tau, n), p) == Mul(g, Eval(p, tau))
    decreases |p|
  {
    hide Mul, Add, Eval, Pow;
    if p == [] {
      EvalEmpty(tau); MulOne(g);
    } else {
      var k := |p|;
      var p' := p[..k - 1];
      assert Powers(g, tau, n)[..k - 1] == Powers(g, tau, k - 1);
      EvalAtTauCorrect(g, tau, k - 1, p');
      EvalSnoc(p', p[k - 1], tau);
      assert p == p' + [p[k - 1]];
      var c, w := p[k - 1], Pow(tau, k - 1);
      MulAdd(g, Eval(p', tau), Mul(c, w));
      MulAssoc(g, w, c); MulComm(w, c);
    }
  }

  /** `Bls12::pairing` on discrete logarithms. */
  function Pairing(a: Group, b: Group): Scalar { Mul(a, b) }

  class KZG {
    const powersOfTau: seq<Group>
    const g2Tau: Group
    const g1: Group
    const g2: Group
    ghost const tau: Scalar

    ghost predicate Valid() {
      g1 != 0 && g2 != 0 && g2Tau == Mul(g2, tau) && powersOfTau == Powers(g1, tau, |powersOfTau|)
    }

    /** `new`: tau is the random scalar, the generators are not the identity. */
    constructor (maxDegree: nat, g1: Group, g2: Group, tau: Scalar)
      requires g1 != 0 && g2 != 0
      ensures Valid() && this.tau == tau && |powersOfTau| == maxDegree + 1
      ensures this.g1 == g1 && this.g2 == g2
    {
      var powers := PowersOfTau(maxDegree, g1, tau);
      this.powersOfTau, this.g1, this.g2, this.tau := powers, g1, g2, tau;
      this.g2Tau := Mul(g2, tau);
    }

    /** `commit` */
    method Commit(poly: Polynomial) returns (r: Result<Group>)
      requires Valid()
      ensures r.Err? <==> |poly| > |powersOfTau|
      ensures r.Ok? ==> r.value == Mul(g1, Eval(poly, tau))
    {
      if |poly| > |powersOfTau| { return Err("Polynomial degree too large!"); }
      EvalAtTauCorrect(g1, tau, |powersOfTau|, poly);
      r := Ok(EvalAtTau(powersOfTau, poly));
    }

    /** `open`: the value at x and a commitment to (poly - value) / (X - x). */
    method Open(poly: Polynomial, x: Scalar) returns (r: Result<(Scalar, Group)>)
      requires Valid()
      ensures r.Err? <==> |poly| > |powersOfTau|
      ensures r.Ok? ==> r.value.0 == Eval(poly, x)
      ensures r.Ok? ==> exists w ::
        (r.value.1 == Mul(g1, w) && Mul(w, Sub(tau, x)) == Sub(Eval(poly, tau), Eval(poly, x)))
    {
      hide Mul, Add, Sub, Neg, Eval;
      if |poly| > |powersOfTau| { return Err("Polynomial degree too large!"); }
      var divisor := New([Neg(x), 1]);
      var eval := Horner(poly, x);
      var shift := New([Neg(eval)]);
      var dividend := AddPolynomials(poly, shift);
      var quotient, rem := DivRef(dividend, divisor);
      LinearDivisor(divisor, x);
      WitnessFits(poly, dividend, quotient.value, |powersOfTau|);
      ShiftedValue(poly, shift, eval, tau); ShiftedValue(poly, shift, eval, x);
      AddZero(eval);
      ExactQuotient(dividend, quotient.value, divisor, rem, x, tau);
      EvalAtTauCorrect(g1, tau, |powersOfTau|, quotient.value);
      r := Ok((eval, EvalAtTau(powersOfTau, quotient.value)));
      assert Mul(Eval(quotient.value, tau), Sub(tau, x)) == Sub(Eval(poly, tau), Eval(poly, x));
    }

    /** `verify_from_commitment`: e(C - v, g2) == e(W, g2^tau - g2^x) */
    method VerifyFromCommitment(commitment: Group, x: Scalar, value: Group, proof: Group) returns (ok: bool)
      ensures ok <==> Checks(g2, g2Tau, commitment, x, value, proof)
    {
      ok := Pairing(Sub(commitment, value), g2) == Pairing(proof, Sub(g2Tau, Mul(g2, x)));
    }

    /** `verify` */
    method Verify(commitment: Group, x: Scalar, y: Scalar, proof: Group) returns (ok: bool)
      ensures ok <==> Checks(g2, g2Tau, commitment, x, Mul(g1, y), proof)
    {
      ok := VerifyFromCommitment(commitment, x, Mul(g1, y), proof);
    }

    /** Completeness and exactness, end to end: against an honest commitment
        and opening, exactly the true value verifies. */
    method CommitOpenVerify(poly: Polynomial, x: Scalar, y: Scalar) returns (r: Result<bool>)
      requires Valid()
      ensures r.Err? <==> |poly| > |powersOfTau|
      ensures r.Ok? ==> (r.value <==> y == Eval(poly, x))
    {
      hide Mul, Sub, Eval;
      var c := Commit(poly);
      var o := Open(poly, x);
      if c.Err? || o.Err? { return Err("Polynomial degree too large!"); }
      var ok := Verify(c.value, x, y, o.value.1);
      ghost var w :| o.value.1 == Mul(g1, w) && Mul(w, Sub(tau, x)) == Sub(Eval(poly, tau), Eval(poly, x));
      PairingExact(g1, g2, tau, x, Eval(poly, tau), Eval(poly, x), y, w);
      r := Ok(ok);
    }
  }

  ghost predicate Checks(g2: Group, g2Tau: Group, commitment: Group, x: Scalar, value: Group, proof: Group) {
    Mul(Sub(commitment, value), g2) == Mul(proof, Sub(g2Tau, Mul(g2, x)))
  }

  /** With an honest proof w for the value v, the pairing check at y passes
      exactly when y == v. */
  lemma PairingExact(g1: Group, g2: Group, tau: Scalar, x: Scalar, c: Scalar, v: Scalar, y: Scalar, w: Scalar)
    requires g1 != 0 && g2 != 0 && Mul(w, Sub(tau, x)) == Sub(c, v)
    ensures Checks(g2, Mul(g2, tau), Mul(g1, c), x, Mul(g1, y), Mul(g1, w)) <==> y == v
  {
    hide Mul, Sub, Add;
    assert Mul(Sub(Mul(g1, c), Mul(g1, y)), g2) == Mul(g2, Mul(g1, Sub(c, y))) by {
      MulSub(g1, c, y); MulComm(Mul(g1, Sub(c, y)), g2);
    }
    assert Mul(Mul(g1, w), Sub(Mul(g2, tau), Mul(g2, x))) == Mul(g2, Mul(g1, Sub(c, v))) by {
      var d := Sub(tau, x);
      MulSub(g2, tau, x);
      MulComm(Mul(g1, w), Mul(g2, d)); MulAssoc(g2, d, Mul(g1, w));
      MulComm(d, Mul(g1, w)); MulAssoc(g1, w, d);
    }
    CancelLeft(g2, Mul(g1, Sub(c, y)), Mul(g1, Sub(c, v)));
    CancelLeft(g1, Sub(c, y), Sub(c, v));
    SubAdd(c, y); SubAdd(c, v);
    SubInjective(c, y, v);
  }

  lemma SubInjective(a: Scalar, b: Scalar, c: Scalar)
    ensures Sub(a, b) == Sub(a, c) <==> b == c
  {
  }

  lemma LinearDivisor(d: Polynomial, x: Scalar)
    requires SamePoly(d, [Neg(x), 1]) && |d| <= 2
    ensures |d| == 2
    ensures forall z :: Eval(d, z) == Sub(z, x)
  {
    hide Mul, Add, Sub, Neg;
    assert Coef(d, 1) == Coef([Neg(x), 1], 1) == 1;
    forall z ensures Eval(d, z) == Sub(z, x) {
      EvalSame(d, [Neg(x), 1], z);
      assert [Neg(x), 1][1..] == [1];
      EvalConstant(1, z); MulOne(z);
      SubAdd(z, x); AddComm(z, Neg(x));
    }
  }

  lemma WitnessFits(poly: Coeffs, dividend: Coeffs, quotient: Coeffs, n: nat)
    requires |poly| <= n && |dividend| <= Max(|poly|, 1)
    requires |quotient| <= if |dividend| < 2 then 0 else |dividend| - 2 + 1
    ensures |quotient| <= n
  {
  }

  /** Dividing by a linear factor of the dividend leaves no remainder. */
  lemma ExactQuotient(p: Coeffs, q: Coeffs, d: Coeffs, rem: Coeffs, x: Scalar, tau: Scalar)
    requires DivisionIdentity(p, q, d, rem) && |rem| < 2
    requires forall z :: Eval(d, z) == Sub(z, x)
    requires Eval(p, x) == 0
    ensures Mul(Eval(q, tau), Sub(tau, x)) == Eval(p, tau)
  {
    hide Mul, Add, Sub, Eval;
    EvalDivision(p, q, d, rem, x);
    EvalDivision(p, q, d, rem, tau);
    AddZero(x); MulOne(Eval(q, x)); AddZero(Eval(rem, x));
    if rem == [] {
      EvalEmpty(x); EvalEmpty(tau);
    } else {
      assert rem == [rem[0]];
      EvalConstant(rem[0], x); EvalConstant(rem[0], tau);
    }
    assert Eval(d, x) == 0;
    assert Eval(rem, x) == 0;
    AddZero(Mul(Eval(q, tau), Sub(tau, x)));
  }

  lemma ShiftedValue(poly: Coeffs, shift: Coeffs, v: Scalar, z: Scalar)
    requires SamePoly(shift, [Neg(v)])
    ensures Add(Eval(poly, z), Eval(shift, z)) == Sub(Eval(poly, z), v)
  {
    hide Mul, Add, Sub, Neg, Eval;
    EvalSame(shift, [Neg(v)], z);
    EvalConstant(Neg(v), z);
    SubAdd(Eval(poly, z), v);
  }

  // ---- vector commitment ----

  function Indices(n: nat): seq<Scalar>
    requires n <= P
  {
    seq(n, i requires 0 <= i < n => FromNat(i))
  }

  /** `BlstrsKZGVec`; hash_to_scalar under the domain tag is a parameter. */
  class KZGVec<T> {
    const poly: KZG
    const hash: T -> Scalar

    ghost predicate Valid() { poly.Valid() }

    constructor (maxLen: nat, g1: Group, g2: Group, tau: Scalar, hash: T -> Scalar)
      requires maxLen > 0 && g1 != 0 && g2 != 0
      ensures Valid() && |poly.powersOfTau| == maxLen && this.hash == hash
    {
      this.poly := new KZG(maxLen - 1, g1, g2, tau);
      this.hash := hash;
    }

    /** The polynomial whose values at 0, 1, ... are the hashes of the items. */
    method VecPoly(vec: seq<T>) returns (p: Polynomial)
      requires |vec| <= P
      ensures |p| <= |vec|
      ensures forall i :: 0 <= i < |vec| ==> Eval(p, FromNat(i)) == hash(vec[i])
    {
      hide Mul, Add, Eval;
      var xs := Indices(|vec|);
      var ys := seq(|vec|, i requires 0 <= i < |vec| => hash(vec[i]));
      var c := Interpolate(xs, ys);
      p := New(c);
      forall i | 0 <= i < |vec| ensures Eval(p, FromNat(i)) == hash(vec[i]) {
        assert Eval(c, xs[i]) == ys[i];
        EvalSame(p, c, FromNat(i));
      }
    }

    /** `commit` */
    method Commit(vec: seq<T>) returns (r: Result<Group>)
      requires Valid() && |vec| <= P
      ensures r.Ok? <==> FitsDegree(vec)
      ensures r.Ok? ==> forall p :: Commits(p, vec) ==> r.value == Mul(poly.g1, Eval(p, poly.tau))
    {
      hide Mul, Add, Eval;
      var p := VecPoly(vec);
      r := poly.Commit(p);
      UniqueVecPoly(p, vec); OneVecPoly(p, vec);
    }

    ghost predicate Commits(p: Coeffs, vec: seq<T>)
      requires |vec| <= P
    {
      |p| <= |vec| && forall i :: 0 <= i < |vec| ==> Eval(p, FromNat(i)) == hash(vec[i])
    }

    /** The polynomial of the vector is within the degree limit, as it is for
        every vector of at most the maximal length. */
    ghost predicate FitsDegree(vec: seq<T>)
      requires |vec| <= P
    {
      exists p: Polynomial :: Commits(p, vec) && |p| <= |poly.powersOfTau|
    }

    lemma OneVecPoly(p: Polynomial, vec: seq<T>)
      requires |vec| <= P && Commits(p, vec)
      ensures FitsDegree(vec) <==> |p| <= |poly.powersOfTau|
    {
      hide Mul, Add, Eval;
      forall q: Polynomial | Commits(q, vec) ensures q == p {
        PointsDetermine(q, p, Indices(|vec|));
        TrimmedUnique(q, p);
      }
    }

    /** w is the value at tau of (p - p(index)) / (X - index). */
    ghost predicate IsQuotient(w: Scalar, vec: seq<T>, index: nat)
      requires |vec| <= P
    {
      forall p :: Commits(p, vec) ==>
        Mul(w, Sub(poly.tau, FromNat(index))) == Sub(Eval(p, poly.tau), Eval(p, FromNat(index)))
    }

    lemma UniqueVecPoly(p: Coeffs, vec: seq<T>)
      requires |vec| <= P && Commits(p, vec)
      ensures forall q, x :: Commits(q, vec) ==> Eval(q, x) == Eval(p, x)
    {
      hide Mul, Add, Eval;
      forall q, x | Commits(q, vec) ensures Eval(q, x) == Eval(p, x) {
        PointsDetermine(q, p, Indices(|vec|));
        EvalSame(q, p, x);
      }
    }

    /** `open` */
    method Open(vec: seq<T>, index: nat) returns (r: Result<Group>)
      requires Valid() && |vec| <= P
      ensures r.Ok? <==> FitsDegree(vec)
      ensures r.Ok? ==> exists w :: r.value == Mul(poly.g1, w) && IsQuotient(w, vec, index)
    {
      hide Mul, Add, Sub, Eval;
      var p := VecPoly(vec);
      var o := poly.Open(p, FromNat(index));
      UniqueVecPoly(p, vec); OneVecPoly(p, vec);
      r := if o.Ok? then Ok(o.value.1) else Err(o.error);
    }

    /** `verify` */
    method Verify(commitment: Group, index: nat, item: T, proof: Group) returns (ok: bool)
      ensures ok <==> Checks(poly.g2, poly.g2Tau, commitment, FromNat(index), Mul(poly.g1, hash(item)), proof)
    {
      ok := poly.Verify(commitment, FromNat(index), hash(item), proof);
    }

    /** End to end: every in-range index of a committed vector opens, and the
        opening verifies exactly for items with the committed item's hash. */
    method CommitOpenVerify(vec: seq<T>, index: nat, item: T) returns (ok: bool)
      requires Valid() && |vec| <= P && |vec| <= |poly.powersOfTau|
      requires index < |vec|
      ensures ok <==> hash(item) == hash(vec[index])
    {
      hide Mul, Add, Sub, Eval;
      var p := VecPoly(vec);
      OneVecPoly(p, vec);
      var c := Commit(vec);
      var o := Open(vec, index);
      ok := Verify(c.value, index, item, o.value);
      ghost var w :| o.value == Mul(poly.g1, w) && IsQuotient(w, vec, index);
      PairingExact(poly.g1, poly.g2, poly.tau, FromNat(index), Eval(p, poly.tau), hash(vec[index]), hash(item), w);
    }
  }
}
