/** When a round's outcomes stay within the honest start values: exactly when
    faulty nodes cannot leave that range or two values are in play. */
module RoundRange {
  import opened Types
  import opened SetFacts
  import opened BinAA
  import opened BinAARuns
  import opened RoundSafety

  // ---- staying in range ----

  /** x lies between two honest start values. */
  ghost predicate Between(c: Config, x: Val) {
    exists u, w :: c.Justified(u) && c.Justified(w) && u <= x <= w
  }

  /** Faulty nodes can only send values between honest ones. */
  ghost predicate FaultyBetween(c: Config) { forall v :: v in c.InPlay() ==> Between(c, v) }

  /** Every decided value lies between two honest start values. */
  ghost predicate InRange(c: Config, s: System) {
    forall i :: i in s.nodes && Terminated(s.nodes[i]) ==> Between(c, s.nodes[i].value.termVal.value)
  }

  lemma MidpointBetween(u: Val, w: Val)
    ensures u <= w ==> u <= TruncDiv(u + w, 2) <= w
    ensures w <= u ==> w <= TruncDiv(u + w, 2) <= u
  {
  }

  lemma MeanBetween(c: Config, x: Val, y: Val)
    requires Between(c, x) && Between(c, y)
    ensures Between(c, TruncDiv(x + y, 2))
  {
    hide TruncDiv;
    MidpointBetween(x, y);
    var u, w :| c.Justified(u) && c.Justified(w) && u <= x <= w;
    var u', w' :| c.Justified(u') && c.Justified(w') && u' <= y <= w';
    var lo, hi := if x <= y then u else u', if x <= y then w' else w;
    assert c.Justified(lo) && c.Justified(hi) && lo <= TruncDiv(x + y, 2) <= hi;
  }

  lemma JustifiedBetween(c: Config, x: Val)
    requires c.Justified(x)
    ensures Between(c, x)
  {
    assert x <= x <= x;
  }

  lemma HonestBetween(c: Config, x: Val)
    requires FromHonest(c, x)
    ensures Between(c, x)
  {
    hide TruncDiv, Between;
    if c.Justified(x) {
      JustifiedBetween(c, x);
    } else {
      var u, w :| c.Justified(u) && c.Justified(w) && x == TruncDiv(u + w, 2);
      JustifiedBetween(c, u); JustifiedBetween(c, w);
      MeanBetween(c, u, w);
    }
  }

  lemma ClosedInRange(c: Config, s: System)
    requires FaultyBetween(c) && Closed(c, s)
    ensures InRange(c, s)
  {
    hide TruncDiv, Between, Config.InPlay;
    forall i | i in s.nodes && Terminated(s.nodes[i]) ensures Between(c, s.nodes[i].value.termVal.value) {
      var x := s.nodes[i].value.termVal.value;
      assert ClosedNode(c.InPlay(), s.nodes[i]);
      if x !in c.InPlay() {
        var u, w :| u in c.InPlay() && w in c.InPlay() && x == TruncDiv(u + w, 2);
        MeanBetween(c, u, w);
      }
    }
  }

  /** A termination value lies between two honest start values, in every run in
      which faulty values do or two values are in play. */
  lemma TerminationInRange(c: Config, run: seq<System>, k: nat)
    requires c.Valid() && (FaultyBetween(c) || AnyTwo(c)) && IsRun(c, run) && k < |run|
    ensures InRange(c, run[k])
  {
    hide Next, Between, FromHonest, FaultyBetween, Closed;
    if FaultyBetween(c) {
      RunClosed(c, run, k);
      ClosedInRange(c, run[k]);
    } else {
      var a, b :| c.TwoValued(a, b);
      TwoValuedSafe(c, run, k, a, b);
      forall i | i in run[k].nodes && Terminated(run[k].nodes[i])
          ensures Between(c, run[k].nodes[i].value.termVal.value) {
        HonestBetween(c, run[k].nodes[i].value.termVal.value);
      }
    }
  }

  // ---- leaving the range ----

  /** Node j's slot 0 holds w0; its slot 1, opened with z, has counted `echo1`
      and, once these are enough, sent its ECHO2 for u. */
  ghost predicate Deceived(st: Option<RoundState>, w0: Val, z: Val, u: Val, echo1: set<Replica>, minth: nat,
      highth: nat) {
    && st.Some? && Good(st.value, minth, highth) && |st.value.slots| == 2 && st.value.termVal.None?
    && st.value.slots[0].value == w0
    && st.value.slots[1].value == z && st.value.slots[1].echo1 == echo1 && st.value.slots[1].echo2 == {}
    && st.value.echo1vals == (if |echo1| >= highth then {u} else {})
  }

  /** Slot 1 counts every ECHO1 that is not for w0. */
  lemma StepDeceived(st: Option<RoundState>, w0: Val, z: Val, u: Val, echo1: set<Replica>, x: Val, q: Replica,
      minth: nat, highth: nat)
    requires Separated(minth, highth) && Deceived(st, w0, z, u, echo1, minth, highth) && x != w0
    requires |echo1 + {q}| >= highth ==> x == u
    ensures var out := Step(st, Echo1(x, q), minth, highth);
            && Deceived(Some(out.state), w0, z, u, echo1 + {q}, minth, highth)
            && (|echo1| < minth <= |echo1 + {q}| ==> out.echo1 == Some(x))
            && (|echo1| < highth <= |echo1 + {q}| ==> out.echo2 == Some(x))
  {
    hide Midpoint, Good;
    InsertSize(echo1, q);
    StepKeepsGood(st, Echo1(x, q), minth, highth);
    GoodFlags(st.value, minth, highth);
    assert {} + {u} == {u};
  }

  lemma GoodFlags(s: RoundState, minth: nat, highth: nat)
    requires Good(s, minth, highth)
    ensures forall k :: 0 <= k < |s.slots| ==> GoodSlot(s.slots[k], minth, highth)
  {
  }

  /** s' extends s by steps of node j alone. */
  ghost predicate Extends(s: System, s': System, j: Replica) {
    && s'.nodes.Keys == s.nodes.Keys && s.sent1 <= s'.sent1 && s.sent2 <= s'.sent2
    && forall i :: i in s.nodes && i != j ==> s'.nodes[i] == s.nodes[i]
  }

  lemma ExtendsTwice(s: System, s1: System, s2: System, j: Replica)
    requires Extends(s, s1, j) && Extends(s1, s2, j)
    ensures Extends(s, s2, j)
  {
  }

  lemma Give1(c: Config, s: System, j: Replica, q: Replica, x: Val) returns (s': System)
    requires c.Valid() && Reachable(c, s) && j in s.nodes && j in c.inputs && (q, x) in s.sent1 && q != j
    ensures Reachable(c, s') && Extends(s, s', j)
    ensures var out := Step(s.nodes[j], Echo1(x, q), c.MinThreshold(), c.HighThreshold());
            && s'.nodes[j] == Some(out.state)
            && (out.echo1.Some? ==> (j, out.echo1.value) in s'.sent1) && (out.echo2.Some? ==>
                (j, out.echo2.value) in s'.sent2)
  {
    hide Reachable, Step, Next;
    var out := Step(s.nodes[j], Echo1(x, q), c.MinThreshold(), c.HighThreshold());
    s' := System(s.nodes[j := Some(out.state)], s.sent1 + Sends(j, out.echo1), s.sent2 + Sends(j, out.echo2));
    DeliverIsNext(c, s, s', j, q, x);
    ReachStep(c, s, s');
  }

  lemma Give2(c: Config, s: System, j: Replica, q: Replica, x: Val) returns (s': System)
    requires c.Valid() && Reachable(c, s) && j in s.nodes && (q, x) in s.sent2
    ensures Reachable(c, s') && Extends(s, s', j)
    ensures s'.nodes[j] == Some(Step(s.nodes[j], Echo2(x, q), c.MinThreshold(), c.HighThreshold()).state)
  {
    hide Reachable, Step;
    s' := s.(nodes := s.nodes[j := Some(Step(s.nodes[j], Echo2(x, q), c.MinThreshold(), c.HighThreshold()).state)]);
    assert Deliver2(c, s, s', j, q, x);
    ReachStep(c, s, s');
  }

  /** Delivering an ECHO1 for x from every node of qs to a deceived node. */
  lemma {:induction false} GiveAll1(c: Config, s: System, j: Replica, qs: set<Replica>, x: Val, w0: Val, z: Val,
      u: Val, echo1: set<Replica>) returns (s': System)
    requires c.Valid() && c.t > 0 && Reachable(c, s) && j in s.nodes && j in c.inputs && x != w0
    requires forall q :: q in qs ==> (q, x) in s.sent1 && q != j
    requires Deceived(s.nodes[j], w0, z, u, echo1, c.MinThreshold(), c.HighThreshold())
    requires |echo1 + qs| >= c.HighThreshold() ==> x == u
    ensures Reachable(c, s') && Extends(s, s', j)
    ensures Deceived(s'.nodes[j], w0, z, u, echo1 + qs, c.MinThreshold(), c.HighThreshold())
    ensures |echo1| < c.MinThreshold() <= |echo1 + qs| ==> (j, x) in s'.sent1
    ensures |echo1| < c.HighThreshold() <= |echo1 + qs| ==> (j, x) in s'.sent2
    decreases qs
  {
    hide Reachable, Step, Deceived, Separated;
    Thresholds(c);
    if qs == {} {
      s' := s;
      assert echo1 + qs == echo1;
    } else {
      Inhabited(qs);
      var q :| q in qs;
      SubsetSize(echo1 + {q}, echo1 + qs);
      StepDeceived(s.nodes[j], w0, z, u, echo1, x, q, c.MinThreshold(), c.HighThreshold());
      var s1 := Give1(c, s, j, q, x);
      assert echo1 + qs == echo1 + {q} + (qs - {q});
      s' := GiveAll1(c, s1, j, qs - {q}, x, w0, z, u, echo1 + {q});
      ExtendsTwice(s, s1, s', j);
    }
  }

  /** Slot 1 of the node has counted `echo2`, and decides z when they are enough. */
  ghost predicate Deciding(st: Option<RoundState>, w0: Val, z: Val, echo2: set<Replica>, highth: nat) {
    && st.Some? && |st.value.slots| == 2 && st.value.slots[0].value == w0
    && st.value.slots[1].value == z && st.value.slots[1].echo2 == echo2
    && (|echo2| >= highth ==> st.value.termVal == Some(z))
  }

  lemma {:induction false} GiveAll2(c: Config, s: System, j: Replica, qs: set<Replica>, x: Val, w0: Val, z: Val,
      echo2: set<Replica>) returns (s': System)
    requires c.Valid() && Reachable(c, s) && j in s.nodes && x != w0 && forall q :: q in qs ==> (q, x) in s.sent2
    requires Deciding(s.nodes[j], w0, z, echo2, c.HighThreshold())
    ensures Reachable(c, s') && Extends(s, s', j)
    ensures Deciding(s'.nodes[j], w0, z, echo2 + qs, c.HighThreshold())
    decreases qs
  {
    hide Reachable, Step, Deciding;
    if qs == {} {
      s' := s;
      assert echo2 + qs == echo2;
    } else {
      Inhabited(qs);
      var q :| q in qs;
      StepDeciding(s.nodes[j], w0, z, echo2, x, q, c.MinThreshold(), c.HighThreshold());
      var s1 := Give2(c, s, j, q, x);
      assert echo2 + qs == echo2 + {q} + (qs - {q});
      s' := GiveAll2(c, s1, j, qs - {q}, x, w0, z, echo2 + {q});
      ExtendsTwice(s, s1, s', j);
    }
  }

  lemma StepDeciding(st: Option<RoundState>, w0: Val, z: Val, echo2: set<Replica>, x: Val, q: Replica, minth: nat,
      highth: nat)
    requires Deciding(st, w0, z, echo2, highth) && x != w0
    ensures Deciding(Some(Step(st, Echo2(x, q), minth, highth).state), w0, z, echo2 + {q}, highth)
  {
  }

  // ---- the run ----

  /** Who deceives: m is the honest node whose value u everyone will amplify,
      q0 sends w0, and faulty nodes send z. */
  datatype Plot = Plot(m: Replica, u: Val, q0: Replica, w0: Val, z: Val) {
    ghost predicate Fits(c: Config) {
      && c.Valid() && |c.faulty| == c.t > 0
      && m in c.inputs && c.inputs[m] == u && u != w0 && z != w0
    }

    ghost predicate Sent(c: Config, s: System) {
      && s.nodes.Keys == c.inputs.Keys
      && (m, u) in s.sent1 && (q0, w0) in s.sent1
      && (forall f :: f in c.faulty ==> (f, z) in s.sent1 && (f, z) in s.sent2)
    }

    /** j has seen nothing yet, or only w0. */
    ghost predicate Fresh(s: System, j: Replica)
      requires j in s.nodes
    {
      (s.nodes[j] == None && j != q0) || s.nodes[j] == Some(NewWithEcho(w0, j))
    }
  }

  /** j sees w0 first, then z from all faulty nodes, then u: it amplifies u. */
  lemma Deceive(c: Config, p: Plot, s: System, j: Replica) returns (s': System)
    requires p.Fits(c) && Reachable(c, s) && p.Sent(c, s) && j in s.nodes && p.Fresh(s, j) && j != p.m
    ensures Reachable(c, s') && Extends(s, s', j) && (j, p.u) in s'.sent1
    ensures Deceived(s'.nodes[j], p.w0, p.z, p.u, c.faulty + {p.m}, c.MinThreshold(), c.HighThreshold())
  {
    hide Reachable, Deceived, Step;
    var s1 := s;
    var r := j;
    if s.nodes[j] == None {
      s1 := Give1(c, s, j, p.q0, p.w0);
      FirstStep(p.w0, p.q0, c.MinThreshold(), c.HighThreshold());
      r := p.q0;
    }
    var f := Pick(c.faulty, {});
    var s2 := Give1(c, s1, j, f, p.z);
    Thresholds(c);
    SecondStep(p.w0, r, p.z, p.u, f, c.MinThreshold(), c.HighThreshold());
    ExtendsTwice(s, s1, s2, j);
    assert {f} + c.faulty == c.faulty;
    var s3 := GiveAll1(c, s2, j, c.faulty, p.z, p.w0, p.z, p.u, {f});
    ExtendsTwice(s, s2, s3, j);
    InsertSize(c.faulty, p.m);
    s' := GiveAll1(c, s3, j, {p.m}, p.u, p.w0, p.z, p.u, c.faulty);
    ExtendsTwice(s, s3, s', j);
  }

  lemma FirstStep(w0: Val, q: Replica, minth: nat, highth: nat)
    ensures Step(None, Echo1(w0, q), minth, highth) == Outcome(NewWithEcho(w0, q), None, None)
  {
  }

  lemma SecondStep(w0: Val, r: Replica, z: Val, u: Val, f: Replica, minth: nat, highth: nat)
    requires Separated(minth, highth) && z != w0
    ensures var out := Step(Some(NewWithEcho(w0, r)), Echo1(z, f), minth, highth);
            Deceived(Some(out.state), w0, z, u, {f}, minth, highth)
  {
  }

  ghost predicate AllDeceived(c: Config, p: Plot, s: System, js: set<Replica>, echo1: set<Replica>)
    requires c.Valid()
  {
    forall j :: j in js ==> j in s.nodes && Deceived(s.nodes[j], p.w0, p.z, p.u, echo1, c.MinThreshold(),
        c.HighThreshold())
  }

  lemma {:induction false} DeceiveAll(c: Config, p: Plot, s: System, js: set<Replica>) returns (s': System)
    requires p.Fits(c) && Reachable(c, s) && p.Sent(c, s)
    requires forall j :: j in js ==> j in s.nodes && p.Fresh(s, j) && j != p.m
    ensures Reachable(c, s') && p.Sent(c, s') && AllDeceived(c, p, s', js, c.faulty + {p.m})
    ensures s.sent1 <= s'.sent1 && forall j :: j in js ==> (j, p.u) in s'.sent1
    ensures forall i :: i in s.nodes && i !in js ==> s'.nodes[i] == s.nodes[i]
    decreases js
  {
    hide Reachable, Deceived;
    if js == {} {
      s' := s;
    } else {
      Inhabited(js);
      var j :| j in js;
      var s1 := Deceive(c, p, s, j);
      s' := DeceiveAll(c, p, s1, js - {j});
      forall i | i in js ensures (i, p.u) in s'.sent1 { assert i == j || i in js - {j}; }
    }
  }

  /** These nodes decide z as soon as they count enough ECHO2. */
  ghost predicate AllDeciding(c: Config, p: Plot, s: System, js: set<Replica>)
    requires c.Valid()
  {
    forall j :: j in js ==> j in s.nodes && Deciding(s.nodes[j], p.w0, p.z, {}, c.HighThreshold())
  }

  /** A deceived node hears u from all the others and sends its ECHO2 for u. */
  lemma CommitOne(c: Config, p: Plot, s: System, j: Replica, all: set<Replica>) returns (s': System)
    requires p.Fits(c) && Reachable(c, s) && j in s.nodes && j in all
    requires Deceived(s.nodes[j], p.w0, p.z, p.u, c.faulty + {p.m}, c.MinThreshold(), c.HighThreshold())
    requires all == c.inputs.Keys - {p.m} && forall q :: q in all ==> (q, p.u) in s.sent1
    ensures Reachable(c, s') && Extends(s, s', j) && (j, p.u) in s'.sent2
    ensures Deciding(s'.nodes[j], p.w0, p.z, {}, c.HighThreshold())
  {
    hide Reachable, Deceived, Deciding, Extends;
    Enough(c, p, all, j);
    s' := GiveAll1(c, s, j, all - {j}, p.u, p.w0, p.z, p.u, c.faulty + {p.m});
    StillThere(s, s', j);
    DeceivedDecides(s'.nodes[j], p.w0, p.z, p.u, c.faulty + {p.m} + (all - {j}), c.MinThreshold(), c.HighThreshold());
  }

  lemma StillThere(s: System, s': System, j: Replica)
    requires Extends(s, s', j) && j in s.nodes
    ensures j in s'.nodes
  {
  }

  /** So do all of them. */
  lemma {:induction false} CommitAll(c: Config, p: Plot, s: System, js: set<Replica>, all: set<Replica>)
    returns (s': System)
    requires p.Fits(c) && Reachable(c, s) && p.Sent(c, s) && js <= all && AllDeceived(c, p, s, js, c.faulty + {p.m})
    requires all == c.inputs.Keys - {p.m} && forall j :: j in all ==> (j, p.u) in s.sent1
    ensures Reachable(c, s') && p.Sent(c, s') && AllDeciding(c, p, s', js)
    ensures s.sent2 <= s'.sent2 && forall j :: j in js ==> (j, p.u) in s'.sent2
    ensures forall i :: i in s.nodes && i !in js ==> s'.nodes[i] == s.nodes[i]
    decreases js
  {
    hide Reachable, Deceived, Deciding;
    if js == {} {
      s' := s;
    } else {
      Inhabited(js);
      var j :| j in js;
      var s1 := CommitOne(c, p, s, j, all);
      s' := CommitAll(c, p, s1, js - {j}, all);
      forall i | i in js ensures (i, p.u) in s'.sent2 { assert i == j || i in js - {j}; }
    }
  }

  /** The sizes that make it work: faulty nodes, m and all others but one are
      n - 1 or more. */
  lemma Enough(c: Config, p: Plot, all: set<Replica>, j: Replica)
    requires p.Fits(c) && all == c.inputs.Keys - {p.m} && j in all
    ensures |c.faulty + {p.m}| < c.HighThreshold() <= |c.faulty + {p.m} + (all - {j})|
    ensures |c.faulty + all| >= c.HighThreshold()
  {
    hide UpTo;
    InsertSize(c.faulty, p.m);
    Most(c, c.faulty + {p.m} + (all - {j}), j);
    Most(c, c.faulty + all, p.m);
  }

  lemma Most(c: Config, s: set<Replica>, missing: Replica)
    requires c.Valid() && c.t > 0 && c.inputs.Keys + c.faulty <= s + {missing}
    ensures |s| >= c.HighThreshold()
  {
    forall q | q in UpTo(c.n) ensures q in s + {missing} {
      assert q in c.inputs.Keys + c.faulty;
    }
    SubsetSize(UpTo(c.n), s + {missing});
    InsertSize(s, missing);
  }

  /** In the end node i decides z. */
  lemma Plotted(c: Config, p: Plot, s: System, i: Replica) returns (s': System)
    requires p.Fits(c) && Reachable(c, s) && p.Sent(c, s) && i in c.inputs && i != p.m
    requires forall j :: j in s.nodes && j != p.m ==> p.Fresh(s, j)
    ensures Reachable(c, s') && i in s'.nodes && s'.nodes[i].Some? && s'.nodes[i].value.termVal == Some(p.z)
  {
    hide Reachable, Deceived, Deciding;
    var all := c.inputs.Keys - {p.m};
    Enough(c, p, all, i);
    var s1 := DeceiveAll(c, p, s, all);
    var s2 := CommitAll(c, p, s1, all, all);
    var s3 := GiveAll2(c, s2, i, c.faulty, p.z, p.w0, p.z, {});
    assert {} + c.faulty == c.faulty;
    s' := GiveAll2(c, s3, i, all, p.u, p.w0, p.z, c.faulty);
    DecidingDecided(s'.nodes[i], p.w0, p.z, c.faulty + all, c.HighThreshold());
  }

  lemma DeceivedDecides(st: Option<RoundState>, w0: Val, z: Val, u: Val, echo1: set<Replica>, minth: nat, highth: nat)
    requires Deceived(st, w0, z, u, echo1, minth, highth) && highth > 0
    ensures Deciding(st, w0, z, {}, highth)
  {
  }

  lemma DecidingDecided(st: Option<RoundState>, w0: Val, z: Val, echo2: set<Replica>, highth: nat)
    requires Deciding(st, w0, z, echo2, highth) && |echo2| >= highth
    ensures st.Some? && st.value.termVal == Some(z)
  {
  }

  /** Faulty nodes say z in both messages. */
  lemma {:induction false} SayAll(c: Config, s: System, fs: set<Replica>, z: Val) returns (s': System)
    requires c.Valid() && Reachable(c, s) && fs <= c.faulty && z in c.values
    ensures Reachable(c, s') && s'.nodes == s.nodes && s.sent1 <= s'.sent1 && s.sent2 <= s'.sent2
    ensures forall f :: f in fs ==> (f, z) in s'.sent1 && (f, z) in s'.sent2
    decreases fs
  {
    hide Reachable;
    if fs == {} {
      s' := s;
    } else {
      Inhabited(fs);
      var f :| f in fs;
      var s0 := SayAll(c, s, fs - {f}, z);
      var s1 := s0.(sent1 := s0.sent1 + {(f, z)});
      InjectIsNext(c, s0, s1, f, z);
      ReachStep(c, s0, s1);
      s' := s1.(sent2 := s1.sent2 + {(f, z)});
      InjectIsNext(c, s1, s', f, z);
      ReachStep(c, s1, s');
    }
  }

  /** If some faulty value is no honest node's and three values are in play, some
      honest node decides that faulty value in some run. */
  lemma FaultyValueDecided(c: Config, z: Val) returns (i: Replica, s: System)
    requires c.Valid() && |c.faulty| == c.t > 0 && z in c.values && !c.Justified(z) && !AnyTwo(c)
    ensures Reachable(c, s) && i in s.nodes && s.nodes[i].Some? && s.nodes[i].value.termVal == Some(z)
  {
    hide Reachable, Next, AnyTwo;
    var m, y;
    i, m, y := Witnesses(c, z);
    var s0 := InitialSystem(c);
    var s1 := s0.(nodes := s0.nodes[m := Some(NewWithEcho(c.inputs[m], m))], sent1 := s0.sent1 + {(m, c.inputs[m])});
    StartIsNext(c, s0, s1, m);
    ReachStep(c, s0, s1);
    var s2: System, q0: Replica;
    if y == c.inputs[i] {
      q0 := i;
      s2 := s1.(nodes := s1.nodes[i := Some(NewWithEcho(y, i))], sent1 := s1.sent1 + {(i, y)});
      StartIsNext(c, s1, s2, i);
    } else {
      q0 := Pick(c.faulty, {});
      s2 := s1.(sent1 := s1.sent1 + {(q0, y)});
      InjectIsNext(c, s1, s2, q0, y);
    }
    ReachStep(c, s1, s2);
    var s3 := SayAll(c, s2, c.faulty, z);
    s := Plotted(c, Plot(m, c.inputs[m], q0, y, z), s3, i);
  }

  ghost predicate AlwaysInRange(c: Config)
    requires c.Valid()
  {
    forall s :: Reachable(c, s) ==> InRange(c, s)
  }

  /** Against t faulty nodes all decisions of all runs lie between honest start
      values exactly when faulty values do or two values are in play. */
  lemma RangeIff(c: Config)
    requires c.Valid() && |c.faulty| == c.t
    ensures AlwaysInRange(c) <==> FaultyBetween(c) || AnyTwo(c)
  {
    hide Next, InRange, Between, AnyTwo;
    if FaultyBetween(c) || AnyTwo(c) {
      forall s | Reachable(c, s) ensures InRange(c, s) {
        var run :| IsRun(c, run) && run[|run| - 1] == s;
        TerminationInRange(c, run, |run| - 1);
      }
    } else {
      var z := Outside(c);
      var i, s := FaultyValueDecided(c, z);
      NotInRange(c, s, i, z);
    }
  }

  lemma Outside(c: Config) returns (z: Val)
    requires !FaultyBetween(c)
    ensures z in c.values && c.faulty != {} && !c.Justified(z) && !Between(c, z)
  {
    hide Between;
    z :| z in c.InPlay() && !Between(c, z);
    if c.Justified(z) { JustifiedBetween(c, z); }
    JustifiedIff(c, z);
  }

  lemma NotInRange(c: Config, s: System, i: Replica, z: Val)
    requires i in s.nodes && s.nodes[i].Some? && s.nodes[i].value.termVal == Some(z) && !Between(c, z)
    ensures !InRange(c, s)
  {
    assert Terminated(s.nodes[i]);
  }

  /** Unanimous honest nodes decide nothing but their value, in all runs, exactly
      when faulty nodes have at most one value besides. */
  lemma UnanimousIff(c: Config, v: Val)
    requires c.Valid() && |c.faulty| == c.t && c.inputs.Values == {v}
    ensures AlwaysDecides(c, v) <==> AnyTwo(c)
  {
    hide Next, AnyTwo, Reachable;
    RangeIff(c);
    forall x ensures Between(c, x) <==> x == v { OnlyBetween(c, v, x); }
    if FaultyBetween(c) {
      assert c.TwoValued(v, v + 1);
      TwoIsAny(c, v, v + 1);
    }
  }

  lemma TwoIsAny(c: Config, a: Val, b: Val)
    requires c.TwoValued(a, b)
    ensures AnyTwo(c)
  {
  }

  lemma OnlyBetween(c: Config, v: Val, x: Val)
    requires c.inputs.Values == {v}
    ensures Between(c, x) <==> x == v
  {
    forall u ensures c.Justified(u) <==> u == v { JustifiedIff(c, u); }
    JustifiedBetween(c, v);
  }

  ghost predicate AlwaysDecides(c: Config, v: Val)
    requires c.Valid()
  {
    forall s, i :: Reachable(c, s) && i in s.nodes && Terminated(s.nodes[i]) ==> s.nodes[i].value.termVal == Some(v)
  }

  // ---- a round that ends on three values ----

  /** Four nodes, two values: 0 and 1 start with 0, node 2 with 100, and faulty
      node 3 may send both. */
  ghost function FourNodes(): Config { Config(4, 1, {3}, map[0 := 0, 1 := 0, 2 := 100], {0, 100}) }

  function TwoSlots(a: Slot, b: Slot, vals: set<Val>, term: Option<Val>): Option<RoundState> {
    Some(RawState([a, b], vals, term))
  }

  /** A slot after one more ECHO1, with thresholds 2 and 3. */
  function Bump1(s: Slot, q: Replica): Slot {
    var e := s.echo1 + {q};
    if |e| >= 2 && !s.sent1 then s.(echo1 := e, sent1 := true)
    else if |e| >= 3 && !s.sent2 then s.(echo1 := e, sent2 := true)
    else s.(echo1 := e)
  }

  lemma OpenSlot(w: Val, r: Replica, v: Val, q: Replica)
    requires v != w
    ensures Step(Some(NewWithEcho(w, r)), Echo1(v, q), 2, 3)
         == Outcome(TwoSlots(Slot(w, {r}, {}, false, false), Slot(v, {q}, {}, false, false), {}, None).value, None,
             None)
  {
    var x, y := Slot(w, {r}, {}, false, false), Slot(v, {q}, {}, false, false);
    assert [x] + [y] == [x, y];
  }

  lemma BumpStep1(a: Slot, b: Slot, vals: set<Val>, v: Val, q: Replica)
    requires a.value != b.value && (v == a.value || v == b.value)
    ensures var out, s := Step(TwoSlots(a, b, vals, None), Echo1(v, q), 2, 3), if v == a.value then a else b;
      && out.state.slots == (if v == a.value then [Bump1(a, q), b] else [a, Bump1(b, q)])
      && out.echo1 == (if Bump1(s, q).sent1 && !s.sent1 then Some(v) else None)
      && out.echo2 == (if Bump1(s, q).sent2 && !s.sent2 then Some(v) else None)
      && out.state.echo1vals == (if out.echo2.Some? then vals + {v} else vals)
      && out.state.termVal == (if out.echo2.Some? && |vals + {v}| == 2 then Some(Midpoint(vals + {v})) else None)
  {
    hide Midpoint;
    assert forall x :: [a, b][0 := x] == [x, b] && [a, b][1 := x] == [a, x];
  }

  lemma BumpStep2(a: Slot, b: Slot, vals: set<Val>, v: Val, q: Replica)
    requires a.value != b.value && (v == a.value || v == b.value)
    ensures var out, s := Step(TwoSlots(a, b, vals, None), Echo2(v, q), 2, 3).state, if v == a.value then a else b;
      && out.slots == (if v == a.value then [a.(echo2 := a.echo2 + {q}), b] else [a, b.(echo2 := b.echo2 + {q})])
      && out.echo1vals == vals
      && out.termVal == (if |s.echo2 + {q}| >= 3 then Some(v) else None)
  {
    assert forall x :: [a, b][0 := x] == [x, b] && [a, b][1 := x] == [a, x];
  }

  lemma Pair2(a: Replica, b: Replica)
    requires a != b
    ensures {a} + {b} == {a, b} && |{a, b}| == 2
  {
  }

  lemma Triple(a: Replica, b: Replica, d: Replica)
    requires a != b && a != d && b != d
    ensures {a, b} + {d} == {a, b, d} && |{a, b, d}| == 3
  {
  }

  /** Four ECHO1 make node 0 amplify 100 and send ECHO2 for 0. */
  lemma Node0Echoes(s: System) returns (s': System)
    requires FourNodes().Valid() && Reachable(FourNodes(), s) && 0 in s.nodes && s.nodes[0] == Some(NewWithEcho(0, 0))
    requires {(2, 100), (3, 100), (1, 0), (3, 0)} <= s.sent1
    ensures Reachable(FourNodes(), s') && Extends(s, s', 0) && (0, 100) in s'.sent1 && (0, 0) in s'.sent2
    ensures s'.nodes[0] == TwoSlots(Slot(0, {0, 1, 3}, {}, true, true), Slot(100, {2, 3}, {}, true, false), {0}, None)
  {
    hide Reachable, Step, Midpoint;
    var c := FourNodes();
    Pair2(2, 3); Pair2(0, 1); Triple(0, 1, 3);
    var s1 := Give1(c, s, 0, 2, 100);
    OpenSlot(0, 0, 100, 2);
    var a1, b1 := Slot(0, {0}, {}, false, false), Slot(100, {2}, {}, false, false);
    var s2 := Give1(c, s1, 0, 3, 100);
    BumpStep1(a1, b1, {}, 100, 3);
    var b2 := Slot(100, {2, 3}, {}, true, false);
    assert s2.nodes[0] == TwoSlots(a1, b2, {}, None);
    var s3 := Give1(c, s2, 0, 1, 0);
    BumpStep1(a1, b2, {}, 0, 1);
    var a3 := Slot(0, {0, 1}, {}, true, false);
    assert s3.nodes[0] == TwoSlots(a3, b2, {}, None);
    s' := Give1(c, s3, 0, 3, 0);
    BumpStep1(a3, b2, {}, 0, 3);
    assert {} + {0} == {0 as Val};
  }

  /** Five ECHO1 make node 2 send ECHO2 for both values and decide 50. */
  lemma Node2Decides(s: System) returns (s': System)
    requires FourNodes().Valid() && Reachable(FourNodes(), s) && 2 in s.nodes && s.nodes[2] == Some(NewWithEcho(100, 2))
    requires {(0, 0), (1, 0), (3, 0), (0, 100), (3, 100)} <= s.sent1
    ensures Reachable(FourNodes(), s') && Extends(s, s', 2) && (2, 0) in s'.sent2 && (2, 100) in s'.sent2
    ensures s'.nodes[2].Some? && s'.nodes[2].value.termVal == Some(50)
  {
    hide Reachable, Midpoint, Step;
    var c := FourNodes();
    Pair2(0, 1); Triple(0, 1, 3);
    var s1 := Give1(c, s, 2, 0, 0);
    OpenSlot(100, 2, 0, 0);
    var a1, b1 := Slot(100, {2}, {}, false, false), Slot(0, {0}, {}, false, false);
    var s2 := Give1(c, s1, 2, 1, 0);
    BumpStep1(a1, b1, {}, 0, 1);
    var b2 := Slot(0, {0, 1}, {}, true, false);
    assert s2.nodes[2] == TwoSlots(a1, b2, {}, None);
    var s3 := Give1(c, s2, 2, 3, 0);
    BumpStep1(a1, b2, {}, 0, 3);
    var b3 := Slot(0, {0, 1, 3}, {}, true, true);
    assert {} + {0} == {0 as Val};
    assert s3.nodes[2] == TwoSlots(a1, b3, {0}, None);
    s' := Node2Ends(s3);
  }

  lemma Node2Ends(s: System) returns (s': System)
    requires FourNodes().Valid() && Reachable(FourNodes(), s) && 2 in s.nodes
    requires s.nodes[2] == TwoSlots(Slot(100, {2}, {}, false, false), Slot(0, {0, 1, 3}, {}, true, true), {0}, None)
    requires {(0, 100), (3, 100)} <= s.sent1
    ensures Reachable(FourNodes(), s') && Extends(s, s', 2) && (2, 100) in s'.sent2
    ensures s'.nodes[2].Some? && s'.nodes[2].value.termVal == Some(50)
  {
    hide Reachable, Midpoint, Step;
    var c := FourNodes();
    Pair2(2, 0); Triple(2, 0, 3);
    var a, b := Slot(100, {2}, {}, false, false), Slot(0, {0, 1, 3}, {}, true, true);
    var s1 := Give1(c, s, 2, 0, 100);
    BumpStep1(a, b, {0}, 100, 0);
    var a1 := Slot(100, {2, 0}, {}, true, false);
    assert s1.nodes[2] == TwoSlots(a1, b, {0}, None);
    s' := Give1(c, s1, 2, 3, 100);
    BumpStep1(a1, b, {0}, 100, 3);
    assert {0} + {100} == {0, 100 as Val};
    MidpointOfPair(0, 100);
  }

  /** Three ECHO2 make node 0 decide 0. */
  lemma Node0Decides(s: System) returns (s': System)
    requires FourNodes().Valid() && Reachable(FourNodes(), s) && 0 in s.nodes
    requires s.nodes[0] == TwoSlots(Slot(0, {0, 1, 3}, {}, true, true), Slot(100, {2, 3}, {}, true, false), {0}, None)
    requires {(0, 0), (2, 0), (3, 0)} <= s.sent2
    ensures Reachable(FourNodes(), s') && Extends(s, s', 0)
    ensures s'.nodes[0].Some? && s'.nodes[0].value.termVal == Some(0)
  {
    hide Reachable, Step;
    var c := FourNodes();
    Pair2(0, 2); Triple(0, 2, 3);
    var a, b := Slot(0, {0, 1, 3}, {}, true, true), Slot(100, {2, 3}, {}, true, false);
    var s1 := Give2(c, s, 0, 0, 0);
    BumpStep2(a, b, {0}, 0, 0);
    assert {} + {0} == {0 as Replica};
    assert s1.nodes[0] == TwoSlots(a.(echo2 := {0}), b, {0}, None);
    var s2 := Give2(c, s1, 0, 2, 0);
    BumpStep2(a.(echo2 := {0}), b, {0}, 0, 2);
    assert s2.nodes[0] == TwoSlots(a.(echo2 := {0, 2}), b, {0}, None);
    s' := Give2(c, s2, 0, 3, 0);
    BumpStep2(a.(echo2 := {0, 2}), b, {0}, 0, 3);
  }

  /** Three ECHO1 and three ECHO2 make node 1 decide 100. */
  lemma Node1Decides(s: System) returns (s': System)
    requires FourNodes().Valid() && Reachable(FourNodes(), s) && 1 in s.nodes && s.nodes[1] == Some(NewWithEcho(0, 1))
    requires {(2, 100), (3, 100), (0, 100)} <= s.sent1 && {(2, 100), (3, 100)} <= s.sent2
    ensures Reachable(FourNodes(), s') && Extends(s, s', 1)
    ensures s'.nodes[1].Some? && s'.nodes[1].value.termVal == Some(100)
  {
    hide Reachable, Step, Midpoint;
    var c := FourNodes();
    Pair2(2, 3); Triple(2, 3, 0);
    var a, b1 := Slot(0, {1}, {}, false, false), Slot(100, {2}, {}, false, false);
    var s1 := Give1(c, s, 1, 2, 100);
    OpenSlot(0, 1, 100, 2);
    var s2 := Give1(c, s1, 1, 3, 100);
    BumpStep1(a, b1, {}, 100, 3);
    var b2 := Slot(100, {2, 3}, {}, true, false);
    assert s2.nodes[1] == TwoSlots(a, b2, {}, None);
    var s3 := Give1(c, s2, 1, 0, 100);
    BumpStep1(a, b2, {}, 100, 0);
    assert {} + {100} == {100 as Val};
    assert s3.nodes[1] == TwoSlots(a, Slot(100, {2, 3, 0}, {}, true, true), {100}, None);
    s' := Node1Ends(s3);
  }

  lemma Node1Ends(s: System) returns (s': System)
    requires FourNodes().Valid() && Reachable(FourNodes(), s) && 1 in s.nodes
    requires s.nodes[1] == TwoSlots(Slot(0, {1}, {}, false, false), Slot(100, {2, 3, 0}, {}, true, true), {100}, None)
    requires {(1, 100), (2, 100), (3, 100)} <= s.sent2
    ensures Reachable(FourNodes(), s') && Extends(s, s', 1)
    ensures s'.nodes[1].Some? && s'.nodes[1].value.termVal == Some(100)
  {
    hide Reachable, Step;
    var c := FourNodes();
    Pair2(1, 2); Triple(1, 2, 3);
    var a, b := Slot(0, {1}, {}, false, false), Slot(100, {2, 3, 0}, {}, true, true);
    var s1 := Give2(c, s, 1, 1, 100);
    BumpStep2(a, b, {100}, 100, 1);
    assert {} + {1} == {1 as Replica};
    assert s1.nodes[1] == TwoSlots(a, b.(echo2 := {1}), {100}, None);
    var s2 := Give2(c, s1, 1, 2, 100);
    BumpStep2(a, b.(echo2 := {1}), {100}, 100, 2);
    assert s2.nodes[1] == TwoSlots(a, b.(echo2 := {1, 2}), {100}, None);
    s' := Give2(c, s2, 1, 3, 100);
    BumpStep2(a, b.(echo2 := {1, 2}), {100}, 100, 3);
  }

  lemma StartNode(s: System, i: Replica) returns (s': System)
    requires FourNodes().Valid() && Reachable(FourNodes(), s) && i in s.nodes && i in FourNodes().inputs
    ensures Reachable(FourNodes(), s') && Extends(s, s', i) && (i, FourNodes().inputs[i]) in s'.sent1
    ensures s'.nodes[i] == Some(NewWithEcho(FourNodes().inputs[i], i))
  {
    hide Reachable;
    var v := FourNodes().inputs[i];
    s' := s.(nodes := s.nodes[i := Some(NewWithEcho(v, i))], sent1 := s.sent1 + {(i, v)});
    StartIsNext(FourNodes(), s, s', i);
    ReachStep(FourNodes(), s, s');
  }

  /** Nodes 0, 1 and 2 have ended on 0, 100 and 50. */
  ghost predicate EndsOnThree(s: System) {
    && {0, 1, 2} <= s.nodes.Keys
    && Terminated(s.nodes[0]) && s.nodes[0].value.termVal.value == 0
    && Terminated(s.nodes[1]) && s.nodes[1].value.termVal.value == 100
    && Terminated(s.nodes[2]) && s.nodes[2].value.termVal.value == 50
  }

  /** One round, two values, and a faulty node that only repeats them: honest
      nodes can end it on three different values. */
  lemma ThreeOutcomes()
    ensures FourNodes().Valid() && Echoing(FourNodes()) && AnyTwo(FourNodes())
    ensures exists s :: Reachable(FourNodes(), s) && EndsOnThree(s)
  {
    hide Reachable;
    FourValid();
    var c := FourNodes();
    var s0 := InitialSystem(c);
    var s1 := StartNode(s0, 0);
    var s2 := StartNode(s1, 1);
    var s3 := StartNode(s2, 2);
    var s4 := SayAll(c, s3, {3}, 0);
    var s5 := SayAll(c, s4, {3}, 100);
    var s6 := Node0Echoes(s5);
    var s7 := Node2Decides(s6);
    var s8 := Node0Decides(s7);
    var s9 := Node1Decides(s8);
    assert EndsOnThree(s9);
  }

  lemma FourValid()
    ensures FourNodes().Valid() && Echoing(FourNodes()) && AnyTwo(FourNodes())
  {
    var c := FourNodes();
    assert |c.faulty| == 1;
    assert c.inputs[0] == 0 && c.inputs[2] == 100;
    assert c.Justified(0) && c.Justified(100) && c.TwoValued(0, 100);
  }
}
