/** Key formation from the agreed transcripts: completing the shares of the
    chosen dealers, and what their sums are shares of. */
module Dkg {
  import opened Types
  import opened Field
  import opened Poly
  import opened Interpolation
  import opened Lagrange
  import opened Transcripts
  import opened Choice

  /** A node's shares, stored under dealers. */
  type Shares = map<Replica, seq<Scalar>>

  // ---- summing shares ----

  function VecAdd(u: seq<Scalar>, v: seq<Scalar>): seq<Scalar>
    requires |u| == |v| == 2
  {
    [Add(u[0], v[0]), Add(u[1], v[1])]
  }

  /** The sum of the shares of the dealers of ts. */
  function SumShares(ts: seq<Transcript>, shares: Shares): seq<Scalar>
    requires ts != [] && HasShares(ts, shares)
    ensures |SumShares(ts, shares)| == 2
  {
    var k := |ts| - 1;
    if k == 0 then shares[ts[0].id] else VecAdd(SumShares(ts[..k], shares), shares[ts[k].id])
  }

  /** Every dealer's share is added in, once for each transcript. */
  lemma {:induction false} SumAdds(ts: seq<Transcript>, us: seq<Transcript>, shares: Shares)
    requires ts != [] && us != [] && HasShares(ts, shares) && HasShares(us, shares)
    ensures HasShares(ts + us, shares)
    ensures var s, t := SumShares(ts, shares), SumShares(us, shares);
            SumShares(ts + us, shares) == [Add(s[0], t[0]), Add(s[1], t[1])]
    ensures |ts| == 1 ==> SumShares(ts, shares) == shares[ts[0].id]
    decreases |us|
  {
    hide Add;
    var k := |us| - 1;
    assert (ts + us)[..|ts + us| - 1] == ts + us[..k] && (ts + us)[|ts + us| - 1] == us[k];
    if k == 0 {
      assert ts + us[..k] == ts;
    } else {
      SumAdds(ts, us[..k], shares);
      var s, t, u := SumShares(ts, shares), SumShares(us[..k], shares), shares[us[k].id];
      AddAssoc(s[0], t[0], u[0]); AddAssoc(s[1], t[1], u[1]);
    }
  }

  predicate HasShares(ts: seq<Transcript>, shares: Shares) {
    forall i :: 0 <= i < |ts| ==> ts[i].id in shares && |shares[ts[i].id]| == 2
  }

  /** The two secret polynomials of a dealer. */
  datatype Dealing = Dealing(p0: Coeffs, p1: Coeffs)

  type Dealings = map<Replica, Dealing>

  ghost predicate HoldsFrom(d: Replica, shares: Shares, deals: Dealings, x: Scalar) {
    d in deals && d in shares && shares[d] == [Eval(deals[d].p0, x), Eval(deals[d].p1, x)]
  }

  /** The node at point x holds the values there of all dealers of ts. */
  ghost predicate Holds(ts: seq<Transcript>, shares: Shares, deals: Dealings, x: Scalar) {
    forall i :: 0 <= i < |ts| ==> HoldsFrom(ts[i].id, shares, deals, x)
  }

  /** Every dealer of ts shared polynomials of degree at most f. */
  ghost predicate LowDegree(ts: seq<Transcript>, deals: Dealings, f: nat) {
    forall i :: 0 <= i < |ts| ==>
      (ts[i].id in deals && |deals[ts[i].id].p0| <= f + 1 && |deals[ts[i].id].p1| <= f + 1)
  }

  /** The sums of the chosen dealers' polynomials. */
  ghost function SumDealings(ts: seq<Transcript>, deals: Dealings): Dealing
    requires ts != [] && forall i :: 0 <= i < |ts| ==> ts[i].id in deals
  {
    var k := |ts| - 1;
    if k == 0 then deals[ts[0].id]
    else
      var d := SumDealings(ts[..k], deals);
      Dealing(AddP(d.p0, deals[ts[k].id].p0), AddP(d.p1, deals[ts[k].id].p1))
  }

  /** Linearity: summed shares are shares of the summed polynomials. */
  lemma {:induction false} SumLinear(ts: seq<Transcript>, shares: Shares, deals: map<Replica, Dealing>, x: Scalar)
    requires ts != [] && Holds(ts, shares, deals, x)
    ensures HasShares(ts, shares)
    ensures var d := SumDealings(ts, deals);
            SumShares(ts, shares) == [Eval(d.p0, x), Eval(d.p1, x)]
  {
    hide Add, Eval, AddP;
    var k := |ts| - 1;
    if k > 0 {
      SumLinear(ts[..k], shares, deals, x);
      var d, e := SumDealings(ts[..k], deals), deals[ts[k].id];
      EvalAdd(d.p0, e.p0, x); EvalAdd(d.p1, e.p1, x);
    }
  }

  lemma {:induction false} SumDegree(ts: seq<Transcript>, deals: Dealings, f: nat)
    requires ts != [] && LowDegree(ts, deals, f)
    ensures |SumDealings(ts, deals).p0| <= f + 1 && |SumDealings(ts, deals).p1| <= f + 1
  {
    if |ts| > 1 { SumDegree(ts[..|ts| - 1], deals, f); }
  }

  /** beta - (p0 + a * p1): the polynomial the broadcast values lie on. */
  ghost function PublicPoly(d: Dealing, a: Scalar, beta: Scalar): Coeffs {
    SubP([beta], AddP(d.p0, Scale(a, d.p1)))
  }

  function PublicShare(thSk: seq<Scalar>, a: Scalar, beta: Scalar): Scalar
    requires |thSk| == 2
  {
    Sub(beta, Add(thSk[0], Mul(a, thSk[1])))
  }

  lemma PublicShareOnPoly(d: Dealing, a: Scalar, beta: Scalar, x: Scalar)
    ensures Eval(PublicPoly(d, a, beta), x) == PublicShare([Eval(d.p0, x), Eval(d.p1, x)], a, beta)
    ensures |PublicPoly(d, a, beta)| <= Max(1, Max(|d.p0|, |d.p1|))
  {
    hide Add, Mul, Sub, Eval;
    EvalSub([beta], AddP(d.p0, Scale(a, d.p1)), x);
    EvalConstant(beta, x);
    EvalAdd(d.p0, Scale(a, d.p1), x);
    EvalScale(a, d.p1, x);
  }

  /** `sum_secret_key` */
  method SumSecretKey(decided: seq<Transcript>, shares: Shares) returns (sum: seq<Scalar>)
    requires decided != [] && HasShares(decided, shares)
    ensures sum == SumShares(decided, shares)
  {
    sum := shares[decided[0].id];
    assert decided[..1][0] == decided[0];
    for i := 1 to |decided|
      invariant |sum| == 2 && sum == SumShares(decided[..i], shares)
    {
      assert decided[..i + 1][..i] == decided[..i];
      sum := VecAdd(sum, shares[decided[i].id]);
    }
    assert decided[..|decided|] == decided;
  }

  class Node {
    const myid: Replica
    const n: nat
    const f: nat
    var shares: Shares
    var thSk: seq<Scalar>
    var thPkShares: map<Replica, Scalar>

    constructor (myid: Replica, n: nat, f: nat)
      ensures this.myid == myid && this.n == n && this.f == f
      ensures shares == map[] && thPkShares == map[]
    {
      this.myid, this.n, this.f := myid, n, f;
      shares, thSk, thPkShares := map[], [], map[];
    }

    /** What checked transcripts promise: their ids partition the nodes, and
        shares are pairs. */
    ghost predicate Checked(res: seq<Transcript>, valid: Transcript -> bool)
      reads this
    {
      && myid < n
      && (forall t :: t in res && valid(t) ==> Partition(t, n))
      && (forall t, s :: t in res && valid(t) && s in t.supple ==> |s.share| == 2)
      && (forall d :: d in shares ==> |shares[d]| == 2)
    }

    /** Takes a share from the transcript for every chosen dealer without one.
        A node that signed such a transcript finds none in it and panics: then
        `ok` is false and nothing is claimed. */
    method FillShares(decided: seq<Transcript>, ghost res: seq<Transcript>, ghost valid: Transcript -> bool)
      returns (ok: bool)
      requires Checked(res, valid) && forall t :: t in decided ==> t in res && valid(t)
      modifies this`shares
      ensures ok <==> Fillable(decided, old(shares), myid)
      ensures ok ==> Filled(decided, old(shares), shares, myid)
    {
      hide Partition, HasCert, HasSupple, FilledUpTo, FillableAt;
      ghost var held := shares;
      NothingFilled(decided, held, myid);
      for i := 0 to |decided|
        invariant FilledUpTo(decided, i, held, shares, myid)
      {
        var t := decided[i];
        assert t in decided;
        FillNext(decided, i, held, shares, myid, n);
        if t.id !in shares {
          var found := FindSupple(t, myid);
          if found.None? { return false; }
          FirstShareIff(t.supple, myid);
          shares := shares[t.id := found.value];
        }
      }
      FilledToTheEnd(decided, held, shares, myid);
      ok := true;
    }

    /** `handle_acs_result`: choose, complete the shares, sum them, and broadcast
        this node's share of the public key.  Without a valid transcript, or
        without a share for a chosen dealer, the program panics. */
    method HandleAcsResult(res: seq<Transcript>, valid: Transcript -> bool, a: Scalar, beta: Scalar)
      returns (ok: bool, decided: seq<Transcript>, share: Scalar)
      requires Checked(res, valid)
      modifies this
      ensures decided == Choose(res, valid, f)
      ensures ok <==> decided != [] && Fillable(decided, old(shares), myid)
      ensures ok ==> Filled(decided, old(shares), shares, myid)
      ensures ok ==> thSk == SumShares(decided, shares) && share == Sub(beta, Add(thSk[0], Mul(a, thSk[1])))
      ensures ok ==> thPkShares == if myid in old(thPkShares) then old(thPkShares) else old(thPkShares)[myid := share]
    {
      hide Partition, Fillable, Add, Mul, Sub;
      share := 0;
      var sorted := SortTranscripts(res);
      SortMembers(res);
      decided := SelectValid(sorted, valid, f);
      TakeValidMembers(sorted, valid, f + 1);
      ok := FillShares(decided, res, valid);
      if !ok || decided == [] { return false, decided, share; }
      thSk := SumSecretKey(decided, shares);
      share := PublicShare(thSk, a, beta);
      if myid !in thPkShares { thPkShares := thPkShares[myid := share]; }
    }
  }

  /** The ids of the first i chosen transcripts. */
  ghost function IdsBefore(decided: seq<Transcript>, i: nat): set<Replica>
    requires i <= |decided|
  {
    set j | 0 <= j < i :: decided[j].id
  }

  lemma IdsNext(decided: seq<Transcript>, i: nat)
    requires i < |decided|
    ensures IdsBefore(decided, i + 1) == IdsBefore(decided, i) + {decided[i].id}
    ensures IdsBefore(decided, 0) == {}
  {
  }

  /** No earlier chosen transcript carries the same id. */
  ghost predicate FirstUnder(decided: seq<Transcript>, i: nat)
    requires i < |decided|
  {
    decided[i].id !in IdsBefore(decided, i)
  }

  /** Where a chosen dealer's share is neither held nor taken from an earlier
      chosen transcript under its id, the node has not signed the transcript. */
  ghost predicate FillableAt(decided: seq<Transcript>, i: nat, held: Shares, myid: Replica)
    requires i < |decided|
  {
    decided[i].id in held || !FirstUnder(decided, i) || !HasCert(decided[i].cert, myid)
  }

  ghost predicate Fillable(decided: seq<Transcript>, held: Shares, myid: Replica) {
    forall i :: 0 <= i < |decided| ==> FillableAt(decided, i, held, myid)
  }

  /** The first supplementary share for a node, if there is one. */
  function FirstShare(supple: seq<SuppleShare>, myid: Replica): Option<seq<Scalar>> {
    if supple == [] then None
    else if supple[0].id == myid + 1 then Some(supple[0].share)
    else FirstShare(supple[1..], myid)
  }

  lemma {:induction false} FirstShareIff(supple: seq<SuppleShare>, myid: Replica)
    ensures FirstShare(supple, myid).Some? <==> HasSupple(supple, myid)
    ensures FirstShare(supple, myid).Some? ==> exists i ::
      && 0 <= i < |supple| && supple[i].id == myid + 1 && supple[i].share == FirstShare(supple, myid).value
      && forall j :: 0 <= j < i ==> supple[j].id != myid + 1
  {
    if supple != [] {
      FirstShareIff(supple[1..], myid);
      if supple[0].id == myid + 1 {
        assert supple[0].id - 1 == myid;
      } else {
        RestServes(supple, myid);
        if FirstShare(supple, myid).Some? {
          var i :| 0 <= i < |supple[1..]| && supple[1..][i].id == myid + 1
            && supple[1..][i].share == FirstShare(supple, myid).value
            && forall j :: 0 <= j < i ==> supple[1..][j].id != myid + 1;
          assert supple[i + 1] == supple[1..][i];
          assert forall j :: 1 <= j < i + 1 ==> supple[j] == supple[1..][j - 1];
        }
      }
    }
  }

  lemma RestServes(supple: seq<SuppleShare>, r: int)
    requires supple != [] && supple[0].id - 1 != r
    ensures HasSupple(supple, r) <==> HasSupple(supple[1..], r)
  {
    if HasSupple(supple, r) {
      var i :| 0 <= i < |supple| && supple[i].id - 1 == r;
      assert supple[1..][i - 1] == supple[i];
    }
    if HasSupple(supple[1..], r) {
      var i :| 0 <= i < |supple[1..]| && supple[1..][i].id - 1 == r;
      assert supple[i + 1] == supple[1..][i];
    }
  }

  /** Where the share for a chosen transcript's dealer comes from. */
  function ShareOf(t: Transcript, held: Shares, myid: Replica): Option<seq<Scalar>> {
    if t.id in held then Some(held[t.id]) else FirstShare(t.supple, myid)
  }

  /** Every chosen dealer has a share: the one held, or else the node's own in the
      first chosen transcript under its id. */
  ghost predicate Filled(decided: seq<Transcript>, before: Shares, after: Shares, myid: Replica) {
    && HasShares(decided, after)
    && after.Keys == before.Keys + IdsBefore(decided, |decided|)
    && (forall d :: d in before ==> after[d] == before[d])
    && (forall i :: 0 <= i < |decided| && FirstUnder(decided, i) ==>
          ShareOf(decided[i], before, myid) == Some(after[decided[i].id]))
  }

  /** After i chosen transcripts. */
  ghost predicate FilledUpTo(decided: seq<Transcript>, i: nat, held: Shares, shares: Shares, myid: Replica)
    requires i <= |decided|
  {
    && shares.Keys == held.Keys + IdsBefore(decided, i)
    && (forall d :: d in shares ==> |shares[d]| == 2)
    && (forall d :: d in held ==> shares[d] == held[d])
    && (forall j :: 0 <= j < i ==> DoneAt(decided, j, held, shares, myid))
  }

  ghost predicate DoneAt(decided: seq<Transcript>, j: nat, held: Shares, shares: Shares, myid: Replica)
    requires j < |decided|
  {
    && FillableAt(decided, j, held, myid) && decided[j].id in shares
    && (FirstUnder(decided, j) ==> ShareOf(decided[j], held, myid) == Some(shares[decided[j].id]))
  }

  lemma NothingFilled(decided: seq<Transcript>, held: Shares, myid: Replica)
    requires forall d :: d in held ==> |held[d]| == 2
    ensures FilledUpTo(decided, 0, held, held, myid)
  {
  }

  /** The next transcript needs nothing, or a share that is found exactly when
      the node has not signed it. */
  lemma FillNext(decided: seq<Transcript>, i: nat, held: Shares, shares: Shares, myid: Replica, n: nat)
    requires i < |decided| && FilledUpTo(decided, i, held, shares, myid) && Partition(decided[i], n) && myid < n
    ensures decided[i].id in shares ==> FilledUpTo(decided, i + 1, held, shares, myid)
    ensures decided[i].id !in shares ==>
      var found := FirstShare(decided[i].supple, myid);
      && (found.None? ==> !FillableAt(decided, i, held, myid))
      && (found.Some? && |found.value| == 2 ==>
            FilledUpTo(decided, i + 1, held, shares[decided[i].id := found.value], myid))
  {
    hide Partition, HasCert, HasSupple, FirstShare, IdsBefore, DoneAt;
    var t := decided[i];
    NotSigned(t, n, myid);
    FirstShareIff(t.supple, myid);
    IdsNext(decided, i);
    if t.id in shares {
      DoneHeld(decided, i, held, shares, myid);
    } else if FirstShare(t.supple, myid).Some? && |FirstShare(t.supple, myid).value| == 2 {
      FillOneMore(decided, i, held, shares, FirstShare(t.supple, myid).value, myid);
    }
  }

  lemma DoneHeld(decided: seq<Transcript>, i: nat, held: Shares, shares: Shares, myid: Replica)
    requires i < |decided| && FilledUpTo(decided, i, held, shares, myid) && decided[i].id in shares
    ensures DoneAt(decided, i, held, shares, myid)
  {
    hide IdsBefore;
  }

  lemma FillOneMore(decided: seq<Transcript>, i: nat, held: Shares, shares: Shares, share: seq<Scalar>, myid: Replica)
    requires i < |decided| && FilledUpTo(decided, i, held, shares, myid) && decided[i].id !in shares && |share| == 2
    requires FillableAt(decided, i, held, myid) && ShareOf(decided[i], held, myid) == Some(share)
    ensures FilledUpTo(decided, i + 1, held, shares[decided[i].id := share], myid)
  {
    hide FillableAt, ShareOf, IdsBefore;
    IdsNext(decided, i);
    var more := shares[decided[i].id := share];
    forall j | 0 <= j < i + 1 ensures DoneAt(decided, j, held, more, myid) {
      assert j < i ==> DoneAt(decided, j, held, shares, myid);
    }
  }

  lemma FilledToTheEnd(decided: seq<Transcript>, held: Shares, shares: Shares, myid: Replica)
    requires FilledUpTo(decided, |decided|, held, shares, myid)
    ensures Filled(decided, held, shares, myid) && Fillable(decided, held, myid)
  {
    hide FillableAt, ShareOf, IdsBefore;
    forall j | 0 <= j < |decided|
      ensures FillableAt(decided, j, held, myid) && decided[j].id in shares
      ensures FirstUnder(decided, j) ==> ShareOf(decided[j], held, myid) == Some(shares[decided[j].id])
    {
      assert DoneAt(decided, j, held, shares, myid);
    }
  }

  lemma NotSigned(t: Transcript, n: nat, myid: Replica)
    requires Partition(t, n) && myid < n
    ensures HasSupple(t.supple, myid) <==> !HasCert(t.cert, myid)
  {
  }

  /** A transcript under an id nobody dealt under, signed by all four nodes:
      it passes the id check, and every node that chooses it panics. */
  lemma ForeignIdPanics()
    returns (t: Transcript)
    ensures t.id == 9 && Partition(t, 4)
    ensures forall myid: Replica, held :: myid < 4 && 9 !in held ==> !Fillable([t], held, myid)
    ensures forall valid: Transcript -> bool, f :: valid(t) ==> Choose([t], valid, f) == [t]
  {
    t := Transcript(9, [CertEntry(0, 0), CertEntry(1, 0), CertEntry(2, 0), CertEntry(3, 0)], []);
    forall r | 0 <= r < 4 ensures HasCert(t.cert, r) {
      assert t.cert[r].replica == r;
    }
    forall myid: Replica, held | myid < 4 && 9 !in held ensures !Fillable([t], held, myid) {
      assert !FillableAt([t], 0, held, myid);
    }
    forall valid: Transcript -> bool, f | valid(t) ensures Choose([t], valid, f) == [t] {
      ChooseOnly(t, valid, f);
    }
  }

  lemma ChooseOnly(t: Transcript, valid: Transcript -> bool, f: nat)
    requires valid(t)
    ensures Choose([t], valid, f) == [t]
  {
    assert [t][..0] == [] && [t][1..] == [];
    assert StableSort([t]) == Insert([], t) == [t];
    assert TakeValid([t], valid, f + 1) == [t] + TakeValid([], valid, f);
    assert [t] + [] == [t];
  }

  /** `find` over the supplementary shares. */
  method FindSupple(t: Transcript, myid: Replica) returns (r: Option<seq<Scalar>>)
    ensures r == FirstShare(t.supple, myid)
  {
    var i := 0;
    while i < |t.supple|
      invariant 0 <= i <= |t.supple|
      invariant FirstShare(t.supple[i..], myid) == FirstShare(t.supple, myid)
    {
      if t.supple[i].id == myid + 1 { return Some(t.supple[i].share); }
      assert t.supple[i..][1..] == t.supple[i + 1..];
      i := i + 1;
    }
    r := None;
  }

  // ---- the key ----

  /** Key formation: a node that holds the chosen dealers' values at its point
      ends with a share of the summed secrets, and broadcasts the value at its
      point of one polynomial whose value at 0 is beta - (s0 + a * s1). */
  lemma KeyShares(decided: seq<Transcript>, shares: Shares, deals: Dealings, x: Scalar, a: Scalar, beta: Scalar)
    requires decided != [] && Holds(decided, shares, deals, x)
    ensures HasShares(decided, shares)
    ensures var d := SumDealings(decided, deals);
            && SumShares(decided, shares) == [Eval(d.p0, x), Eval(d.p1, x)]
            && PublicShare(SumShares(decided, shares), a, beta) == Eval(PublicPoly(d, a, beta), x)
            && Eval(PublicPoly(d, a, beta), 0) == PublicShare([Eval(d.p0, 0), Eval(d.p1, 0)], a, beta)
  {
    hide Add, Mul, Sub, Eval, PublicPoly;
    SumLinear(decided, shares, deals, x);
    PublicShareOnPoly(SumDealings(decided, deals), a, beta, x);
    PublicShareOnPoly(SumDealings(decided, deals), a, beta, 0);
  }

  /** ... so f + 1 or more broadcast values at distinct points interpolate at 0
      to the public key of the summed secrets. */
  lemma PublicKeyReconstructs(decided: seq<Transcript>, deals: Dealings, f: nat, xs: seq<Scalar>, bs: seq<Scalar>,
      a: Scalar, beta: Scalar)
    requires decided != [] && LowDegree(decided, deals, f)
    requires |xs| == |bs| >= f + 1 && Distinct(xs)
    requires forall i :: 0 <= i < |xs| ==> bs[i] == Eval(PublicPoly(SumDealings(decided, deals), a, beta), xs[i])
    ensures var d := SumDealings(decided, deals);
            LagrangeAt(xs, bs, 0) == PublicShare([Eval(d.p0, 0), Eval(d.p1, 0)], a, beta)
  {
    hide Add, Mul, Sub, Eval, PublicPoly, LagrangeAt;
    var d := SumDealings(decided, deals);
    SumDegree(decided, deals, f);
    PublicShareOnPoly(d, a, beta, 0);
    LagrangeReproduces(PublicPoly(d, a, beta), xs, bs, 0);
  }

  // ---- values that are not what they should be ----

  /** The value every node should broadcast. */
  ghost function TrueShares(d: Dealing, xs: seq<Scalar>, a: Scalar, beta: Scalar): (bs: seq<Scalar>)
    ensures |bs| == |xs|
  {
    seq(|xs|, i requires 0 <= i < |xs| => Eval(PublicPoly(d, a, beta), xs[i]))
  }

  /** Values go into the reconstruction unchecked. If it interpolates them all,
      the key is right exactly when the errors interpolate to 0 at 0. */
  lemma PublicKeyRightIff(decided: seq<Transcript>, deals: Dealings, f: nat, xs: seq<Scalar>, bs: seq<Scalar>,
      a: Scalar, beta: Scalar)
    requires decided != [] && LowDegree(decided, deals, f)
    requires |xs| == |bs| >= f + 1 && Distinct(xs)
    ensures var d := SumDealings(decided, deals);
            LagrangeAt(xs, bs, 0) == PublicShare([Eval(d.p0, 0), Eval(d.p1, 0)], a, beta)
            <==> LagrangeAt(xs, Differences(bs, TrueShares(d, xs, a, beta)), 0) == 0
  {
    hide Add, Mul, Sub, Eval, PublicPoly, LagrangeAt;
    var bs' := TrueShares(SumDealings(decided, deals), xs, a, beta);
    PublicKeyReconstructs(decided, deals, f, xs, bs', a, beta);
    ErrorsCancelIff(xs, bs, bs', 0);
  }

  /** ... so a single wrong value then always makes it wrong: points are node
      numbers plus one, never 0. */
  lemma OneWrongShare(decided: seq<Transcript>, deals: Dealings, f: nat, xs: seq<Scalar>, bs: seq<Scalar>, j: nat,
      a: Scalar, beta: Scalar)
    requires decided != [] && LowDegree(decided, deals, f)
    requires |xs| == |bs| >= f + 1 && Distinct(xs) && 0 !in xs && j < |xs|
    requires var bs' := TrueShares(SumDealings(decided, deals), xs, a, beta);
             bs[j] != bs'[j] && forall i :: 0 <= i < |xs| && i != j ==> bs[i] == bs'[i]
    ensures var d := SumDealings(decided, deals);
            LagrangeAt(xs, bs, 0) != PublicShare([Eval(d.p0, 0), Eval(d.p1, 0)], a, beta)
  {
    hide Add, Mul, Sub, Eval, PublicPoly, WeightedSum, Weight;
    var bs' := TrueShares(SumDealings(decided, deals), xs, a, beta);
    PublicKeyRightIff(decided, deals, f, xs, bs, a, beta);
    var e := Differences(bs, bs');
    forall i | 0 <= i < |xs| ensures e[i] == 0 <==> i != j { SubAdd(bs[i], bs'[i]); }
    OneTerm(xs, xs, e, j, 0);
    WeightZeroIff(xs, xs[j], 0);
    NoZeroDivisors(e[j], Weight(xs, xs[j], 0));
  }

  // ---- what a completed set of shares is ----

  /** The share the node has for the transcript's dealer is that dealer's value. */
  ghost predicate SoundFor(t: Transcript, held: Shares, deals: Dealings, x: Scalar, myid: Replica) {
    t.id in deals && ShareOf(t, held, myid) == Some([Eval(deals[t.id].p0, x), Eval(deals[t.id].p1, x)])
  }

  /** ... for every chosen dealer. */
  ghost predicate SoundAt(decided: seq<Transcript>, held: Shares, deals: Dealings, x: Scalar, myid: Replica) {
    forall i :: 0 <= i < |decided| && FirstUnder(decided, i) ==> SoundFor(decided[i], held, deals, x, myid)
  }

  lemma {:induction false} FirstIndex(decided: seq<Transcript>, i: nat) returns (j: nat)
    requires i < |decided|
    ensures j <= i && FirstUnder(decided, j) && decided[j].id == decided[i].id
  {
    if FirstUnder(decided, i) {
      j := i;
    } else {
      var k :| 0 <= k < i && decided[k].id == decided[i].id;
      j := FirstIndex(decided, k);
    }
  }

  /** A completed set of shares consists of the chosen dealers' values exactly
      when, for each of them, what was held, or else the node's own share in the
      first chosen transcript under its id, is that dealer's value. */
  lemma HoldsIff(decided: seq<Transcript>, held: Shares, shares: Shares, deals: Dealings, x: Scalar, myid: Replica)
    requires Filled(decided, held, shares, myid)
    ensures Holds(decided, shares, deals, x) <==> SoundAt(decided, held, deals, x, myid)
  {
    hide Eval, FirstShare;
    if SoundAt(decided, held, deals, x, myid) {
      forall i | 0 <= i < |decided| ensures HoldsFrom(decided[i].id, shares, deals, x) {
        var j := FirstIndex(decided, i);
        assert SoundFor(decided[j], held, deals, x, myid);
      }
    } else {
      var i :| 0 <= i < |decided| && FirstUnder(decided, i) && !SoundFor(decided[i], held, deals, x, myid);
      assert !HoldsFrom(decided[i].id, shares, deals, x);
    }
  }

  /** For sound held shares that is to say: every chosen transcript's own share
      is its dealer's value, wherever none is held. */
  lemma HoldsWhenServed(decided: seq<Transcript>, held: Shares, shares: Shares, deals: Dealings, x: Scalar,
      myid: Replica)
    requires Filled(decided, held, shares, myid)
    requires forall i :: 0 <= i < |decided| ==> decided[i].id in held ==> HoldsFrom(decided[i].id, held, deals, x)
    ensures Holds(decided, shares, deals, x) <==>
      forall i :: 0 <= i < |decided| && FirstUnder(decided, i) && decided[i].id !in held ==>
        SoundFor(decided[i], map[], deals, x, myid)
  {
    hide Eval, FirstShare;
    HoldsIff(decided, held, shares, deals, x, myid);
    forall i | 0 <= i < |decided| && FirstUnder(decided, i) && decided[i].id in held
      ensures SoundFor(decided[i], held, deals, x, myid)
    {
      assert HoldsFrom(decided[i].id, held, deals, x);
    }
    forall i | 0 <= i < |decided| && FirstUnder(decided, i) && decided[i].id !in held
      ensures SoundFor(decided[i], map[], deals, x, myid) <==> SoundFor(decided[i], held, deals, x, myid)
    {
    }
  }

  /** Sums depend only on the chosen dealers, not on their transcripts. */
  lemma {:induction false} SumsById(ts: seq<Transcript>, us: seq<Transcript>, deals: Dealings)
    requires SameKeys(ts, us) && ts != [] && forall i :: 0 <= i < |ts| ==> ts[i].id in deals
    ensures forall i :: 0 <= i < |us| ==> us[i].id in deals
    ensures SumDealings(ts, deals) == SumDealings(us, deals)
  {
    hide AddP;
    forall i | 0 <= i < |us| ensures us[i].id in deals { assert SameKey(ts[i], us[i]); }
    var k := |ts| - 1;
    if k > 0 {
      assert forall i :: 0 <= i < k ==> SameKey(ts[..k][i], us[..k][i]) by {
        forall i | 0 <= i < k ensures SameKey(ts[..k][i], us[..k][i]) { assert SameKey(ts[i], us[i]); }
      }
      SumsById(ts[..k], us[..k], deals);
    }
    assert SameKey(ts[k], us[k]);
  }

  // ---- a foreign id that spoils the key ----

  /** Nodes 0, 1 and 2 signed; node 3 is served a share of another polynomial
      than dealer 1's, which are zero. */
  function ForeignShare(): Transcript {
    Transcript(1, [CertEntry(0, 0), CertEntry(1, 0), CertEntry(2, 0)], [SuppleShare(4, [1, 0])])
  }

  function ZeroDealings(): Dealings { map[1 := Dealing([], [])] }

  /** What node i holds of dealer 1 before and after. */
  function HeldBy(i: nat): Shares { if i < 3 then map[1 := [0, 0]] else map[] }

  function HasAfter(i: nat): Shares { map[1 := if i < 3 then [0, 0] else [1, 0]] }

  /** The values the four nodes broadcast. */
  function FourValues(a: Scalar, beta: Scalar): seq<Scalar> {
    seq(4, i requires 0 <= i => PublicShare(HasAfter(i)[1], a, beta))
  }

  lemma ForeignPartition()
    ensures Partition(ForeignShare(), 4)
  {
    var t := ForeignShare();
    forall r | 0 <= r < 3 ensures HasCert(t.cert, r) { assert t.cert[r].replica == r; }
    assert t.supple[0].id - 1 == 3;
  }

  lemma ForeignFilled(i: nat)
    requires i < 4
    ensures Fillable([ForeignShare()], HeldBy(i), i) && Filled([ForeignShare()], HeldBy(i), HasAfter(i), i)
  {
    var ts := [ForeignShare()];
    assert ts[0].id == 1;
    if i == 3 {
      assert !HasCert(ts[0].cert, 3);
      assert FirstShare(ts[0].supple, 3) == Some([1, 0]);
    }
  }

  /** A dealer signed by all it needs sends its transcript under another dealer's
      id: it partitions the nodes and is chosen, every node completes its shares,
      those it serves with shares of its own polynomials, and interpolation of
      all values misses the key of the named dealer. */
  lemma ForeignIdSpoilsKey(a: Scalar, beta: Scalar)
    requires P > 4
    ensures Partition(ForeignShare(), 4)
    ensures forall valid: Transcript -> bool :: valid(ForeignShare()) ==>
      Choose([ForeignShare()], valid, 1) == [ForeignShare()]
    ensures forall i: nat :: i < 4 ==>
      Fillable([ForeignShare()], HeldBy(i), i) && Filled([ForeignShare()], HeldBy(i), HasAfter(i), i)
    ensures LagrangeAt([1, 2, 3, 4], FourValues(a, beta), 0) != PublicShare([0, 0], a, beta)
  {
    hide Add, Mul, Sub, Neg, LagrangeAt, PublicPoly, Partition;
    ForeignPartition();
    forall valid: Transcript -> bool | valid(ForeignShare())
      ensures Choose([ForeignShare()], valid, 1) == [ForeignShare()]
    {
      ChooseOnly(ForeignShare(), valid, 1);
    }
    forall i: nat | i < 4
      ensures Fillable([ForeignShare()], HeldBy(i), i) && Filled([ForeignShare()], HeldBy(i), HasAfter(i), i)
    {
      ForeignFilled(i);
    }
    var xs: seq<Scalar>, bs := [1, 2, 3, 4], FourValues(a, beta);
    var d := SumDealings([ForeignShare()], ZeroDealings());
    assert d == Dealing([], []);
    forall i | 0 <= i < 4
      ensures TrueShares(d, xs, a, beta)[i] == PublicShare([0, 0], a, beta)
    {
      PublicShareOnPoly(d, a, beta, xs[i]);
      EvalEmpty(xs[i]);
    }
    EvalEmpty(0);
    ValuesDiffer(a, beta);
    OneWrongShare([ForeignShare()], ZeroDealings(), 1, xs, bs, 3, a, beta);
  }

  lemma ValuesDiffer(a: Scalar, beta: Scalar)
    ensures PublicShare([1, 0], a, beta) != PublicShare([0, 0], a, beta)
  {
    hide Mul;
    MulOne(a);
    AddZero(0); AddZero(1);
    SubAdd(beta, 1); SubAdd(beta, 0);
  }
}
