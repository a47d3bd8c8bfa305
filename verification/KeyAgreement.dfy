/** From common subset to common key: nodes that have output, each on its own
    and in its own order, end with shares of one secret. */
module KeyAgreement {
  import opened Types
  import opened Field
  import opened Poly
  import opened Interpolation
  import opened Lagrange
  import opened SetFacts
  import opened Transcripts
  import opened Aacs
  import opened Choice
  import opened Dkg

  /** Every transcript carries the id of the node that broadcast it. */
  ghost predicate OwnIds(env: Env) {
    forall r :: r in env.trans ==> env.trans[r].id == r
  }

  lemma {:induction false} BagMembers(s: set<Replica>, trans: map<Replica, Transcript>,
      t: Transcript) returns (r: Replica)
    requires (forall q :: q in s ==> q in trans) && t in Bag(s, trans)
    ensures r in s && trans[r] == t
    decreases s
  {
    Inhabited(s);
    var p :| p in s;
    BagPick(s, trans, p);
    if trans[p] == t { r := p; } else { r := BagMembers(s - {p}, trans, t); }
  }

  /** If they do, no two different ones tie. */
  lemma OwnIdsNoTies(env: Env, s: set<Replica>)
    requires OwnIds(env) && s <= env.trans.Keys
    ensures NoTies(Bag(s, env.trans))
  {
    forall a, b | a in Bag(s, env.trans) && b in Bag(s, env.trans) && SameKey(a, b) ensures a == b {
      var p := BagMembers(s, env.trans, a);
      var q := BagMembers(s, env.trans, b);
    }
  }

  /** Nodes that have output choose the same dealers in the same order, whatever
      ids the transcripts carry. */
  lemma SameChoice(a: Context, b: Context, valid: Transcript -> bool, f: nat)
    requires a.Valid() && b.Valid() && a.env == b.env && a.terminated && b.terminated
    ensures |a.results| == |b.results| == 1
    ensures SameKeys(Choose(a.results[0], valid, f), Choose(b.results[0], valid, f))
    ensures OwnIds(a.env) ==> Choose(a.results[0], valid, f) == Choose(b.results[0], valid, f)
  {
    hide Context.Valid, IsFinal, OwnIds, NoTies, Choose, Ahead;
    Agreement(a, b);
    SameDealers(a.results[0], b.results[0], valid, f);
    if OwnIds(a.env) {
      ResultNoTies(a);
      NoTiesNoChosen(a.results[0], valid, f);
      ChoiceAgreement(a.results[0], b.results[0], valid, f);
    }
  }

  lemma ResultNoTies(a: Context)
    requires a.Valid() && a.terminated && OwnIds(a.env)
    ensures NoTies(multiset(a.results[0]))
  {
    var s :| Lists(a.env, a.quorum, s, a.results[0]);
    OwnIdsNoTies(a.env, s);
  }

  lemma NoTiesNoChosen(res: seq<Transcript>, valid: Transcript -> bool, f: nat)
    requires NoTies(multiset(res))
    ensures NoChosenTies(res, valid, f)
  {
    forall a, b | a in res && b in res && SameKey(a, b) ensures a == b {
      assert a in multiset(res) && b in multiset(res);
    }
  }

  /** One node's key formation: its number and point, the shares it held and the
      completed ones, and the value it broadcast. */
  datatype Formation = Formation(myid: Replica, x: Scalar, held: Shares, shares: Shares, b: Scalar)

  /** The node has output and its handling of the output succeeded. */
  ghost predicate Formed(c: Context, env: Env, m: Formation, valid: Transcript -> bool, f: nat, a: Scalar, beta: Scalar)
    reads c
  {
    && c.Valid() && c.terminated && c.env == env && |c.results| == 1
    && var decided := Choose(c.results[0], valid, f);
      && decided != [] && Filled(decided, m.held, m.shares, m.myid)
      && m.b == PublicShare(SumShares(decided, m.shares), a, beta)
  }

  /** What the node has of each dealer it chose is that dealer's value at its
      point: the share it held, or else its own in the first chosen transcript
      under the dealer's id. */
  ghost predicate Sound(c: Context, m: Formation, valid: Transcript -> bool, f: nat, deals: Dealings)
    reads c
  {
    |c.results| == 1 && SoundAt(Choose(c.results[0], valid, f), m.held, deals, m.x, m.myid)
  }

  /** The node's completed shares are the values of the dealers it chose, its key
      is the summed polynomials at its point, and so is what it broadcast. */
  ghost predicate Holding(c: Context, m: Formation, valid: Transcript -> bool, f: nat, deals: Dealings, d: Dealing,
      a: Scalar, beta: Scalar)
    reads c
  {
    && |c.results| == 1
    && var decided := Choose(c.results[0], valid, f);
      && decided != [] && HasShares(decided, m.shares) && Holds(decided, m.shares, deals, m.x)
      && SumShares(decided, m.shares) == [Eval(d.p0, m.x), Eval(d.p1, m.x)]
      && m.b == Eval(PublicPoly(d, a, beta), m.x)
  }

  /** The dealers the first node chose, all of degree at most f. */
  ghost predicate Dealt(c: Context, valid: Transcript -> bool, f: nat, deals: Dealings)
    reads c
  {
    |c.results| == 1 && LowDegree(Choose(c.results[0], valid, f), deals, f)
  }

  lemma NodeHoldsIff(first: Context, c: Context, env: Env, m0: Formation, m: Formation,
      valid: Transcript -> bool, f: nat, deals: Dealings, a: Scalar, beta: Scalar)
    requires Formed(first, env, m0, valid, f, a, beta) && Dealt(first, valid, f, deals)
    requires Formed(c, env, m, valid, f, a, beta)
    ensures Holding(c, m, valid, f, deals, SumDealings(Choose(first.results[0], valid, f), deals), a, beta)
       <==> Sound(c, m, valid, f, deals)
  {
    hide Add, Mul, Sub, Eval, PublicPoly, Choose, SumDealings, SumShares, PublicShare, OwnIds, Context.Valid, SoundAt,
      Filled, Holds;
    var decided := Choose(c.results[0], valid, f);
    SameChoice(first, c, valid, f);
    HoldsIff(decided, m.held, m.shares, deals, m.x, m.myid);
    SumsById(Choose(first.results[0], valid, f), decided, deals);
    if Sound(c, m, valid, f, deals) {
      KeyShares(decided, m.shares, deals, m.x, a, beta);
    }
  }

  function Points(ms: seq<Formation>): seq<Scalar> { seq(|ms|, i requires 0 <= i < |ms| => ms[i].x) }

  function Values(ms: seq<Formation>): seq<Scalar> { seq(|ms|, i requires 0 <= i < |ms| => ms[i].b) }

  /** Key agreement, for any transcripts and ids: each node ends with shares of one
      pair of secrets, the same for all, exactly when what it has of each chosen
      dealer is that dealer's value; the values of f + 1 or more nodes interpolate
      at 0 to beta - (s0 + a * s1) exactly when their errors interpolate to 0, and
      so they do when every node is sound. */
  lemma KeyAgreed(nodes: seq<Context>, env: Env, ms: seq<Formation>,
      valid: Transcript -> bool, f: nat, deals: Dealings, a: Scalar, beta: Scalar)
    returns (d: Dealing)
    requires |nodes| == |ms| >= f + 1 && Distinct(Points(ms))
    requires forall i :: 0 <= i < |nodes| ==> Formed(nodes[i], env, ms[i], valid, f, a, beta)
    requires Dealt(nodes[0], valid, f, deals)
    ensures |d.p0| <= f + 1 && |d.p1| <= f + 1
    ensures forall i :: 0 <= i < |nodes| ==>
      (Holding(nodes[i], ms[i], valid, f, deals, d, a, beta) <==> Sound(nodes[i], ms[i], valid, f, deals))
    ensures LagrangeAt(Points(ms), Values(ms), 0) == PublicShare([Eval(d.p0, 0), Eval(d.p1, 0)], a, beta)
      <==> LagrangeAt(Points(ms), Differences(Values(ms), TrueShares(d, Points(ms), a, beta)), 0) == 0
    ensures (forall i :: 0 <= i < |nodes| ==> Sound(nodes[i], ms[i], valid, f, deals)) ==>
      LagrangeAt(Points(ms), Values(ms), 0) == PublicShare([Eval(d.p0, 0), Eval(d.p1, 0)], a, beta)
  {
    hide Add, Mul, Sub, Eval, PublicPoly, LagrangeAt, Choose, SumDealings, SumShares, HasShares, PublicShare,
      Context.Valid, Sound, Filled, Holds;
    assert Formed(nodes[0], env, ms[0], valid, f, a, beta);
    var decided := Choose(nodes[0].results[0], valid, f);
    d := SumDealings(decided, deals);
    SumDegree(decided, deals, f);
    forall i | 0 <= i < |nodes|
      ensures Holding(nodes[i], ms[i], valid, f, deals, d, a, beta) <==> Sound(nodes[i], ms[i], valid, f, deals)
    {
      NodeHoldsIff(nodes[0], nodes[i], env, ms[0], ms[i], valid, f, deals, a, beta);
    }
    PublicKeyRightIff(decided, deals, f, Points(ms), Values(ms), a, beta);
    if forall i :: 0 <= i < |nodes| ==> Sound(nodes[i], ms[i], valid, f, deals) {
      PublicKeyReconstructs(decided, deals, f, Points(ms), Values(ms), a, beta);
    }
  }
}
