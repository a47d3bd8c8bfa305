/** The scalar field: residues modulo an arbitrary prime, with the operations
    the curve library offers.  Proofs elsewhere hide these definitions and use
    the laws at the end of the module. */
module Field {

  ghost predicate IsPrime(p: nat) {
    p >= 2 && forall d {:trigger p % d} :: 2 <= d < p ==> p % d != 0
  }

  type Prime = p: nat | IsPrime(p) witness 2

  /** The group order: any prime. */
  const P: Prime

  type Scalar = x: nat | x < P witness 0

  function Add(a: Scalar, b: Scalar): Scalar {
    if a + b < P then a + b else a + b - P
  }

  function Sub(a: Scalar, b: Scalar): Scalar {
    if b <= a then a - b else a + P - b
  }

  function Neg(a: Scalar): Scalar { Sub(0, a) }

  /** The product modulo P, as a times repeated addition (see MulIsModular). */
  function Mul(a: Scalar, b: Scalar): Scalar
    decreases a
  {
    if a == 0 then 0 else Add(b, Mul(a - 1, b))
  }

  /** `Scalar::from` for an unsigned integer. */
  function FromNat(n: nat): (r: Scalar)
    ensures (n < P ==> r == n) && (n - r) % P == 0
  {
    assert n < P ==> n % P == n by { if n < P { ModUnique(n, P, 0, n); } }
    assert (n - n % P) % P == 0 by { ModUnique(n - n % P, P, n / P, 0); }
    n % P
  }

  /** Sums and differences are those of integers, modulo P. */
  lemma AddIsModular(a: Scalar, b: Scalar)
    ensures Add(a, b) == (a + b) % P && Sub(a, b) == (a - b) % P
  {
    ModUnique(a + b, P, if a + b < P then 0 else 1, Add(a, b));
    ModUnique(a - b, P, if b <= a then 0 else -1, Sub(a, b));
  }

  // ---- integer division ----

  lemma QuotientUnique(m: nat, q: int, r: int, q': int, r': int)
    requires 0 <= r < m && 0 <= r' < m && m * q + r == m * q' + r'
    ensures q == q' && r == r'
  {
    assert m * (q - q') == r' - r;
    ProductSize(m, q - q');
  }

  lemma ProductSize(m: int, k: int)
    requires m >= 0
    ensures k >= 1 ==> m * k >= m
    ensures k <= 0 ==> m * k <= 0
    ensures k <= -1 ==> m * k <= -m
  {
  }

  lemma ModUnique(x: int, m: nat, q: int, r: int)
    requires 0 <= r < m && x == m * q + r
    ensures x % m == r
  {
    QuotientUnique(m, q, r, x / m, x % m);
  }

  // ---- multiplication is multiplication modulo P ----

  lemma {:induction false} MulIsModular(a: Scalar, b: Scalar)
    ensures Mul(a, b) == (a * b) % P
    decreases a
  {
    if a == 0 {
      ModUnique(0, P, 0, 0);
    } else {
      MulIsModular(a - 1, b);
      ModStep((a - 1) * b, b);
      OneMore(a, b);
    }
  }

  lemma OneMore(a: int, b: int)
    ensures a * b == (a - 1) * b + b
  {
  }

  lemma ModStep(x: nat, b: Scalar)
    ensures (x + b) % P == Add(b, x % P)
  {
    var q, r := x / P, x % P;
    if r + b < P {
      ModUnique(x + b, P, q, r + b);
    } else {
      assert P * (q + 1) == P * q + P;
      ModUnique(x + b, P, q + 1, r + b - P);
    }
  }

  // ---- field laws ----

  lemma AddComm(a: Scalar, b: Scalar)
    ensures Add(a, b) == Add(b, a)
  {
  }

  lemma AddZero(a: Scalar)
    ensures Add(a, 0) == a && Add(0, a) == a && Sub(a, 0) == a && Sub(a, a) == 0
  {
  }

  lemma AddAssoc(a: Scalar, b: Scalar, c: Scalar)
    ensures Add(Add(a, b), c) == Add(a, Add(b, c))
  {
  }

  /** Subtraction undoes addition. */
  lemma SubAdd(a: Scalar, b: Scalar)
    ensures Add(Sub(a, b), b) == a && Sub(Add(a, b), b) == a && Sub(Add(a, b), a) == b
    ensures Sub(a, b) == Add(a, Neg(b))
    ensures Sub(a, b) == 0 <==> a == b
  {
  }

  /** (a + b) - (c + d) == (a - c) + (b - d), and the same for sums. */
  lemma SumOfPairs(a: Scalar, b: Scalar, c: Scalar, d: Scalar)
    ensures Sub(Add(a, b), Add(c, d)) == Add(Sub(a, c), Sub(b, d))
    ensures Add(Add(a, b), Add(c, d)) == Add(Add(a, c), Add(b, d))
  {
    DifferenceOfSums(a, b, c, d);
    AddAssoc(a, b, Add(c, d)); AddAssoc(b, c, d); AddComm(b, c);
    AddAssoc(c, b, d); AddAssoc(a, c, Add(b, d));
  }

  lemma DifferenceOfSums(a: Scalar, b: Scalar, c: Scalar, d: Scalar)
    ensures Sub(Add(a, b), Add(c, d)) == Add(Sub(a, c), Sub(b, d))
  {
  }

  lemma {:induction false} MulAddRight(a: Scalar, b: Scalar, c: Scalar)
    ensures Mul(a, Add(b, c)) == Add(Mul(a, b), Mul(a, c))
    decreases a
  {
    if a == 0 {
    } else {
      MulAddRight(a - 1, b, c);
      SumOfPairs(b, c, Mul(a - 1, b), Mul(a - 1, c));
    }
  }

  lemma MulComm(a: Scalar, b: Scalar)
    ensures Mul(a, b) == Mul(b, a)
  {
    MulIsModular(a, b);
    MulIsModular(b, a);
    assert a * b == b * a;
  }

  lemma MulAdd(a: Scalar, b: Scalar, c: Scalar)
    ensures Mul(a, Add(b, c)) == Add(Mul(a, b), Mul(a, c))
    ensures Mul(Add(b, c), a) == Add(Mul(b, a), Mul(c, a))
  {
    hide Mul, Add;
    MulAddRight(a, b, c);
    MulComm(a, Add(b, c)); MulComm(a, b); MulComm(a, c);
  }

  lemma MulSub(a: Scalar, b: Scalar, c: Scalar)
    ensures Mul(a, Sub(b, c)) == Sub(Mul(a, b), Mul(a, c))
    ensures Mul(Sub(b, c), a) == Sub(Mul(b, a), Mul(c, a))
  {
    hide Mul, Add, Sub;
    SubAdd(b, c);
    MulAdd(a, Sub(b, c), c);
    SubAdd(Mul(a, Sub(b, c)), Mul(a, c));
    SubAdd(Mul(Sub(b, c), a), Mul(c, a));
  }

  lemma {:induction false} MulAssoc(a: Scalar, b: Scalar, c: Scalar)
    ensures Mul(Mul(a, b), c) == Mul(a, Mul(b, c))
    decreases a
  {
    hide Add;
    if a == 0 {
    } else {
      MulAssoc(a - 1, b, c);
      MulAdd(c, b, Mul(a - 1, b));
    }
  }

  lemma MulOne(a: Scalar)
    ensures Mul(a, 1) == a && Mul(1, a) == a && Mul(a, 0) == 0 && Mul(0, a) == 0
  {
    MulComm(a, 0);
    MulComm(a, 1);
  }

  /** A field has no zero divisors. */
  lemma NoZeroDivisors(a: Scalar, b: Scalar)
    ensures Mul(a, b) == 0 <==> a == 0 || b == 0
  {
    hide Mul;
    MulOne(a); MulOne(b);
    if a != 0 && Mul(a, b) == 0 {
      Cancel(a, b);
      MulOne(Inv(a));
    }
  }

  /** a * c * (1 / a) == c */
  lemma Cancel(a: Scalar, c: Scalar)
    requires a != 0
    ensures Mul(Mul(a, c), Inv(a)) == c
  {
    hide Mul;
    MulComm(a, c);
    MulAssoc(c, a, Inv(a));
    MulOne(c);
  }

  // ---- inverses, from the Bezout coefficients of a and P ----

  function Bezout(a: nat, b: nat): (r: (nat, int, int))
    requires a > 0 || b > 0
    decreases b
  {
    if b == 0 then (a, 1, 0)
    else
      var (g, s, t) := Bezout(b, a % b);
      (g, t, s - (a / b) * t)
  }

  ghost predicate Divides(g: int, a: int) {
    exists k: int :: Times(g, k) == a
  }

  function Times(g: int, k: int): int { g * k }

  lemma {:induction false} BezoutCorrect(a: nat, b: nat)
    requires a > 0 || b > 0
    ensures var r := Bezout(a, b); r.0 > 0 && r.0 == r.1 * a + r.2 * b
    ensures Divides(Bezout(a, b).0, a) && Divides(Bezout(a, b).0, b)
    decreases b
  {
    if b == 0 {
      assert Times(a, 1) == a && Times(a, 0) == 0;
    } else {
      BezoutCorrect(b, a % b);
      var (g, s, t) := Bezout(b, a % b);
      BezoutStep(g, s, t, a, b, a / b, a % b);
    }
  }

  lemma BezoutStep(g: int, s: int, t: int, a: int, b: int, q: int, r: int)
    requires g == s * b + t * r && a == q * b + r && Divides(g, b) && Divides(g, r)
    ensures g == t * a + (s - q * t) * b && Divides(g, a)
  {
    assert t * (q * b + r) == (q * t) * b + t * r;
    var k, l :| Times(g, k) == b && Times(g, l) == r;
    assert Times(g, q * k + l) == a by {
      assert g * (q * k + l) == q * (g * k) + g * l;
    }
  }

  lemma PrimeDivisor(g: int, a: Scalar)
    requires a != 0 && g > 0 && Divides(g, P) && Divides(g, a)
    ensures g == 1
  {
    var k, l :| Times(g, k) == P && Times(g, l) == a;
    ProductSize(g, l);
    if g >= 2 {
      ModUnique(P, g, k, 0);
    }
  }

  lemma InverseExists(a: Scalar)
    requires a != 0
    ensures Mul(a, Bezout(a, P).1 % P) == 1
  {
    BezoutCorrect(a, P);
    var (g, s, t) := Bezout(a, P);
    PrimeDivisor(g, a);
    var q, r := s / P, s % P;
    assert a * r == P * (-t - q * a) + 1 by {
      assert s == P * q + r;
      assert (P * q + r) * a == P * (q * a) + r * a;
      assert P * (-t - q * a) == -(t * P) - P * (q * a);
    }
    ModUnique(a * r, P, -t - q * a, 1);
    MulIsModular(a, r);
  }

  /** The modular inverse; `invert().unwrap()` demands a nonzero argument. */
  function Inv(a: Scalar): (r: Scalar)
    requires a != 0
    ensures Mul(a, r) == 1 && Mul(r, a) == 1 && r != 0
  {
    InverseExists(a);
    MulOne(a);
    MulComm(a, Bezout(a, P).1 % P);
    Bezout(a, P).1 % P
  }
}
