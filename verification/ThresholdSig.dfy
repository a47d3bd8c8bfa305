/** Threshold BLS signatures: sharing, partial signing, combining, and the set
    that collects partial signatures.  Keys and signatures are discrete
    logarithms; `h` is the logarithm of the hashed message. */
module ThresholdSig {
  import opened SetFacts
  import opened Field
  import opened Poly
  import opened Division
  import opened Lagrange

  /** Data tagged with the 1-based index of a share. */
  datatype Partial = Partial(idx: nat, data: Scalar)

  function ToPk(sk: Scalar): Scalar { Mul(1, sk) }

  function Sign(sk: Scalar, h: Scalar): Scalar { Mul(h, sk) }

  /** `verify`: the product of e(-g1, sig) and e(pk, h) is the identity. */
  predicate Verify(pk: Scalar, sig: Scalar, h: Scalar) {
    Add(Mul(Neg(1), sig), Mul(pk, h)) == 0
  }

  predicate VerifyPartial(pk: Partial, sig: Partial, h: Scalar) {
    pk.idx == sig.idx && Verify(pk.data, sig.data, h)
  }

  /** The signature scheme is exact: only the key's own signature verifies. */
  lemma VerifyExact(pk: Scalar, sig: Scalar, h: Scalar)
    ensures Verify(pk, sig, h) <==> sig == Sign(pk, h)
  {
    hide Mul, Add, Sub;
    MulComm(pk, h);
    MulSub(sig, 0, 1); MulOne(sig);
    AddComm(Neg(sig), Mul(pk, h));
    SubAdd(Mul(pk, h), sig);
  }

  /** `share`: the values at 1..n of a random polynomial with value sk at 0.
      A zero threshold underflows and panics. */
  method Share(sk: Scalar, n: nat, threshold: nat, random: nat -> Scalar)
    returns (shares: seq<Partial>, ghost p: Polynomial)
    requires 1 <= threshold < USIZE_MAX && threshold <= P
    ensures |p| <= threshold && Eval(p, 0) == sk
    ensures forall k: nat :: 1 <= k < threshold ==> Eval(p, FromNat(k)) == random(k)
    ensures |shares| == n
    ensures forall i :: 0 <= i < n ==> shares[i] == Partial(i + 1, Eval(p, FromNat(i + 1)))
  {
    hide Mul, Add, Eval, Fills, FromNat, UpTo;
    ghost var only := map[0 := sk];
    assert 0 in only && FromNat(0) == 0;
    ghost var points: map<nat, Scalar>;
    var poly: Polynomial;
    poly, points := Sample(threshold - 1, map[0 := sk], random);
    p := poly;
    SharePoints(points, sk, random);
    shares := [];
    for i := 1 to n + 1
      invariant |shares| == i - 1
      invariant forall k :: 0 <= k < i - 1 ==> shares[k] == Partial(k + 1, Eval(p, FromNat(k + 1)))
    {
      shares := shares + [Partial(i, Eval(poly, FromNat(i)))];
    }
  }

  /** The sampled points beside 0 are 1..threshold - 1, with random values. */
  lemma SharePoints(points: map<nat, Scalar>, sk: Scalar, random: nat -> Scalar)
    requires Fills(points, map[0 := sk], random)
    ensures 0 in points && points[0] == sk
    ensures forall k: nat :: 1 <= k < |points| ==> k in points && points[k] == random(k)
  {
    assert 0 in map[0 := sk];
    forall k: nat | 1 <= k < |points| ensures k in points {
      if k !in points {
        SubsetSize(points.Keys, UpTo(k));
        assert false;
      }
    }
  }

  function Indices(sigs: seq<Partial>): seq<Scalar> {
    seq(|sigs|, i requires 0 <= i < |sigs| => FromNat(sigs[i].idx))
  }

  function Values(sigs: seq<Partial>): seq<Scalar> {
    seq(|sigs|, i requires 0 <= i < |sigs| => sigs[i].data)
  }

  /** `combine`: Lagrange evaluation at zero in the exponent. */
  function Combine(threshold: nat, sigs: seq<Partial>): (r: Result<Scalar>)
    ensures r.Err? <==> |sigs| < threshold
  {
    if |sigs| < threshold then Err("Not enough sigs!")
    else Ok(LagrangeAt(Indices(sigs), Values(sigs), 0))
  }

  ghost predicate DistinctIndices(sigs: seq<Partial>) {
    forall i, j :: 0 <= i < j < |sigs| ==> sigs[i].idx != sigs[j].idx
  }

  /** Any `threshold` or more signatures under distinct shares of p combine to
      the signature under p(0). */
  lemma CombineCorrect(p: Coeffs, threshold: nat, sigs: seq<Partial>, h: Scalar)
    requires |p| <= threshold <= |sigs| && DistinctIndices(sigs)
    requires forall s :: s in sigs ==> s.idx < P && s.data == Sign(Eval(p, FromNat(s.idx)), h)
    ensures Combine(threshold, sigs) == Ok(Sign(Eval(p, 0), h))
  {
    hide Mul, Eval, LagrangeAt;
    var xs, ys, q := Indices(sigs), Values(sigs), Scale(h, p);
    forall i | 0 <= i < |xs| ensures ys[i] == Eval(q, xs[i]) {
      assert sigs[i] in sigs;
      EvalScale(h, p, xs[i]);
    }
    LagrangeReproduces(q, xs, ys, 0);
    EvalScale(h, p, 0);
  }

  /** `SignatureSet` */
  class SignatureSet {
    const threshold: nat
    const h: Scalar
    var keys: set<Partial>
    var sigs: seq<Partial>
    /** The keys the collected signatures verified under, in order. */
    ghost var signers: seq<Partial>

    ghost predicate Valid()
      reads this
    {
      && |signers| == |sigs|
      && (forall i :: 0 <= i < |sigs| ==> signers[i] in keys && VerifyPartial(signers[i], sigs[i], h))
      && (forall i, j :: 0 <= i < j < |signers| ==> signers[i] != signers[j])
    }

    constructor (threshold: nat, h: Scalar)
      ensures Valid() && this.threshold == threshold && this.h == h
      ensures keys == {} && sigs == []
    {
      this.threshold, this.h, keys, sigs, signers := threshold, h, {}, [], [];
    }

    /** `insert`: one verified signature per key. */
    method Insert(key: Partial, sig: Partial)
      requires Valid()
      modifies this
      ensures Valid()
      ensures var accepted := key !in old(keys) && key.idx == sig.idx && sig.data == Mul(h, key.data);
              && keys == (if accepted then old(keys) + {key} else old(keys))
              && sigs == (if accepted then old(sigs) + [sig] else old(sigs))
    {
      hide Mul;
      VerifyExact(key.data, sig.data, h);
      if key !in keys && VerifyPartial(key, sig, h) {
        keys := keys + {key};
        sigs := sigs + [sig];
        signers := signers + [key];
      }
    }

    /** `can_combine` */
    predicate CanCombine()
      reads this
    {
      |sigs| >= threshold
    }

    /** `combine`: as soon as it succeeds it yields the signature under the
        shared secret, whatever was inserted and in whatever order, and the
        set starts over with every used key still spent. */
    method CombineSet() returns (r: Result<Scalar>)
      requires Valid()
      modifies this
      ensures Valid() && keys == old(keys)
      ensures r.Ok? <==> |old(sigs)| >= threshold
      ensures sigs == if r.Ok? then [] else old(sigs)
      ensures r.Ok? ==> forall p :: |p| <= threshold && SharesOf(p, keys) ==> r.value == Sign(Eval(p, 0), h)
    {
      if !CanCombine() { return Err("Cannot combine yet!"); }
      r := Combine(threshold, sigs);
      forall p | |p| <= threshold && SharesOf(p, keys) ensures r.value == Sign(Eval(p, 0), h) {
        CollectedCombine(p);
      }
      sigs, signers := [], [];
    }

    lemma CollectedCombine(p: Coeffs)
      requires Valid() && CanCombine() && |p| <= threshold && SharesOf(p, keys)
      ensures Combine(threshold, sigs) == Ok(Sign(Eval(p, 0), h))
    {
      hide Mul, Add, Eval, Verify, Combine;
      forall i | 0 <= i < |sigs|
        ensures sigs[i].idx < P && sigs[i].data == Sign(Eval(p, FromNat(sigs[i].idx)), h)
        ensures signers[i] == Partial(sigs[i].idx, Eval(p, FromNat(sigs[i].idx)))
      {
        var k := signers[i];
        assert k in keys;
        VerifyExact(k.data, sigs[i].data, h);
        MulOne(Eval(p, FromNat(k.idx)));
      }
      CombineCorrect(p, threshold, sigs, h);
    }
  }

  /** Every key is the public key of a share of p. */
  ghost predicate SharesOf(p: Coeffs, keys: set<Partial>) {
    forall k :: k in keys ==> k.idx < P && k.data == ToPk(Eval(p, FromNat(k.idx)))
  }
}
