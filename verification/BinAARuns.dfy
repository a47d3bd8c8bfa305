/** Runs of one Binary Approximate Agreement instance: when it sends, when and
    on what it terminates, and which thresholds make double processing harmless. */
module BinAARuns {
  import opened Types
  import opened SetFacts
  import opened BinAA

  /** The state after a sequence of messages. */
  function Run(msgs: seq<Message>, minth: nat, highth: nat): (st: Option<RoundState>)
    ensures st.None? <==> msgs == []
  {
    if msgs == [] then None
    else
      Some(Step(Run(msgs[..|msgs| - 1], minth, highth), msgs[|msgs| - 1], minth, highth).state)
  }

  lemma {:induction false} RunGood(msgs: seq<Message>, minth: nat, highth: nat)
    requires Separated(minth, highth)
    ensures msgs != [] ==> Good(Run(msgs, minth, highth).value, minth, highth)
  {
    hide Step, Good;
    if msgs != [] {
      var p := msgs[..|msgs| - 1];
      RunGood(p, minth, highth);
      StepKeepsGood(Run(p, minth, highth), msgs[|msgs| - 1], minth, highth);
    }
  }

  /** The senders of an ECHO1 (or of an ECHO2) for v. */
  ghost function Senders(msgs: seq<Message>, v: Val, first: bool): set<Replica> {
    if msgs == [] then {}
    else
      var m, s := msgs[|msgs| - 1], Senders(msgs[..|msgs| - 1], v, first);
      if m.Echo1? == first && m.value == v then s + {m.sender} else s
  }

  ghost predicate TwoValued(msgs: seq<Message>, a: Val, b: Val) {
    a != b && forall m :: m in msgs ==> m.value == a || m.value == b
  }

  /** What the state records about v. */
  function SlotOf(st: Option<RoundState>, v: Val): Slot
  {
    if st.None? then Slot(v, {}, {}, false, false)
    else if st.value.slots[0].value == v then st.value.slots[0]
    else if |st.value.slots| == 1 then Slot(v, {}, {}, false, false)
    else st.value.slots[1]
  }

  predicate Terminated(st: Option<RoundState>) { st.Some? && st.value.termVal.Some? }

  ghost predicate Pair(st: Option<RoundState>, a: Val, b: Val) {
    && a != b
    && (st.Some? ==>
          && 1 <= |st.value.slots| <= 2
          && (st.value.slots[0].value == a || st.value.slots[0].value == b)
          && (|st.value.slots| == 2 ==> st.value.slots[1].value == if st.value.slots[0].value == a then b else a))
  }

  /** In a two-valued run a message touches only the record of its value, and
      what it sends is backed by the count. */
  lemma StepSets(st: Option<RoundState>, m: Message, w: Val, minth: nat, highth: nat)
    requires Pair(st, m.value, w)
    ensures var out := Step(st, m, minth, highth);
            var before, after := SlotOf(st, m.value), SlotOf(Some(out.state), m.value);
            && Pair(Some(out.state), m.value, w)
            && SlotOf(Some(out.state), w) == SlotOf(st, w)
            && after.echo1 == (if m.Echo1? && !Terminated(st) then before.echo1 + {m.sender} else before.echo1)
            && after.echo2 == (if m.Echo2? then before.echo2 + {m.sender} else before.echo2)
            && (out.echo1.Some? ==> out.echo1.value == m.value && |after.echo1| >= minth)
            && (out.echo2.Some? ==> out.echo2.value == m.value && |after.echo1| >= highth)
            && (after.sent1 ==> before.sent1 || |after.echo1| >= minth)
            && (after.sent2 ==> before.sent2 || |after.echo1| >= highth)
  {
    hide CountEcho, CountEcho2;
    if st.Some? {
      var k := if st.value.slots[0].value == m.value then 0 else 1;
      if k < |st.value.slots| { CountSets(st.value, k, m, minth, highth); }
    }
  }

  lemma CountSets(s: RoundState, k: nat, m: Message, minth: nat, highth: nat)
    requires k < |s.slots|
    ensures var out := CountEcho(s, k, m.value, m.sender, minth, highth);
            var before, after := s.slots[k], out.state.slots[k];
            && |out.state.slots| == |s.slots| && (forall j :: 0 <= j < |s.slots| && j != k ==>
                out.state.slots[j] == s.slots[j])
            && after.value == before.value && after.echo1 == before.echo1 + {m.sender} && after.echo2 == before.echo2
            && (out.echo1.Some? ==> out.echo1.value == m.value && |after.echo1| >= minth)
            && (out.echo2.Some? ==> out.echo2.value == m.value && |after.echo1| >= highth)
            && (after.sent1 ==> before.sent1 || |after.echo1| >= minth)
            && (after.sent2 ==> before.sent2 || |after.echo1| >= highth)
    ensures var out := CountEcho2(s, k, m.sender, highth);
            var before, after := s.slots[k], out.slots[k];
            && |out.slots| == |s.slots| && (forall j :: 0 <= j < |s.slots| && j != k ==> out.slots[j] == s.slots[j])
            && after == before.(echo2 := before.echo2 + {m.sender})
  {
  }

  /** ... exactly when the count crosses a threshold, in reachable states. */
  lemma StepView(st: Option<RoundState>, m: Message, w: Val, minth: nat, highth: nat)
    requires Separated(minth, highth) && Pair(st, m.value, w)
    requires st.Some? ==> Good(st.value, minth, highth)
    ensures var out := Step(st, m, minth, highth);
            var before, after := SlotOf(st, m.value), SlotOf(Some(out.state), m.value);
            && Pair(Some(out.state), m.value, w)
            && SlotOf(Some(out.state), w) == SlotOf(st, w)
            && after.echo1 == (if m.Echo1? && !Terminated(st) then before.echo1 + {m.sender} else before.echo1)
            && after.echo2 == (if m.Echo2? then before.echo2 + {m.sender} else before.echo2)
            && (out.echo1 == if |before.echo1| + 1 == |after.echo1| == minth then Some(m.value) else None)
            && (out.echo2 == if |before.echo1| + 1 == |after.echo1| == highth then Some(m.value) else None)
  {
    hide CountEcho, CountEcho2, Good;
    StepSets(st, m, w, minth, highth);
    InsertSize(SlotOf(st, m.value).echo1, m.sender);
    if st.Some? {
      var k := if st.value.slots[0].value == m.value then 0 else 1;
      if k < |st.value.slots| { CountCrosses(st.value, k, m, minth, highth); }
    }
  }

  lemma CountCrosses(s: RoundState, k: nat, m: Message, minth: nat, highth: nat)
    requires Separated(minth, highth) && Good(s, minth, highth) && k < |s.slots|
    ensures var out := CountEcho(s, k, m.value, m.sender, minth, highth);
            var before, after := s.slots[k], out.state.slots[k];
            && |out.state.slots| == |s.slots| && after.echo1 == before.echo1 + {m.sender}
            && (out.echo1 == if |before.echo1| + 1 == |after.echo1| == minth then Some(m.value) else None)
            && (out.echo2 == if |before.echo1| + 1 == |after.echo1| == highth then Some(m.value) else None)
  {
    InsertSize(s.slots[k].echo1, m.sender);
  }

  /** ... an ECHO2 sets the termination value when it completes a quorum; */
  lemma StepTerm2(st: Option<RoundState>, m: Message, w: Val, minth: nat, highth: nat, out: RoundState)
    requires Pair(st, m.value, w) && m.Echo2?
    requires out == Step(st, m, minth, highth).state
    ensures out.echo1vals == if st.Some? then st.value.echo1vals else {}
    ensures var old_ := if st.Some? then st.value.termVal else None;
            && (out.termVal == old_ || (out.termVal == Some(m.value) && |SlotOf(Some(out), m.value).echo2| >= highth))
            && (highth >= 2 ==> out.termVal == if |SlotOf(Some(out), m.value).echo2| >= highth then Some(m.value)
                else old_)
    ensures Sent2(Some(out), m.value) == Sent2(st, m.value) && Sent2(Some(out), w) == Sent2(st, w)
  {
  }

  /** ... an ECHO1 sets it when both values have sent their ECHO2. */
  lemma StepTerm1(st: Option<RoundState>, m: Message, w: Val, minth: nat, highth: nat, out: Outcome)
    requires Pair(st, m.value, w) && m.Echo1?
    requires out == Step(st, m, minth, highth)
    requires Terminated(st) || (st.Some? ==> st.value.echo1vals == Sent2(st, m.value) + Sent2(st, w))
    ensures Terminated(st) ==> out.state == st.value
    ensures !Terminated(st) ==>
      && out.state.termVal == (if out.echo2.Some? && SlotOf(st, w).sent2 then Some(TruncDiv(m.value + w, 2)) else None)
      && out.state.echo1vals == Sent2(Some(out.state), m.value) + Sent2(Some(out.state), w)
      && Sent2(Some(out.state), w) == Sent2(st, w)
  {
    hide CountEcho;
    if st.Some? && st.value.termVal.None? {
      var s := st.value;
      if s.slots[0].value == m.value {
        CountTerm(s, 0, m.value, w, SlotOf(st, w).sent2, m.sender, minth, highth);
      } else if |s.slots| == 2 {
        CountTerm(s, 1, m.value, w, SlotOf(st, w).sent2, m.sender, minth, highth);
      }
    }
  }

  lemma CountTerm(st: RoundState, k: nat, v: Val, w: Val, wSent: bool, q: Replica, minth: nat, highth: nat)
    requires k < |st.slots| && st.termVal.None? && v != w
    requires st.echo1vals == (if st.slots[k].sent2 then {v} else {}) + (if wSent then {w} else {})
    ensures var out := CountEcho(st, k, v, q, minth, highth);
            && out.state.termVal == (if out.echo2.Some? && wSent then Some(TruncDiv(v + w, 2)) else None)
            && |out.state.slots| == |st.slots|
            && out.state.echo1vals == (if out.state.slots[k].sent2 then {v} else {}) + (if wSent then {w} else {})
            && out.state.slots[k].value == st.slots[k].value
            && (forall j :: 0 <= j < |st.slots| && j != k ==> out.state.slots[j] == st.slots[j])
  {
    hide Midpoint, TruncDiv;
    PairVals(st.echo1vals, v, w, st.slots[k].sent2, wSent);
  }

  /** The values of the sent ECHO2s once v's is sent as well. */
  lemma PairVals(vals: set<Val>, v: Val, w: Val, vSent: bool, wSent: bool)
    requires v != w && vals == (if vSent then {v} else {}) + (if wSent then {w} else {})
    ensures vals + {v} == {v} + (if wSent then {w} else {})
    ensures |vals + {v}| == if wSent then 2 else 1
    ensures wSent ==> Midpoint(vals + {v}) == TruncDiv(v + w, 2)
  {
    hide Midpoint, TruncDiv;
    MidpointOfPair(v, w);
    if wSent { assert vals + {v} == {v, w}; } else { assert vals + {v} == {v}; }
  }

  ghost function Sent2(st: Option<RoundState>, v: Val): set<Val>
  {
    if SlotOf(st, v).sent2 then {v} else {}
  }

  /** What the state knows about the messages seen so far. */
  ghost predicate RunInv(st: Option<RoundState>, msgs: seq<Message>, v: Val, w: Val, highth: nat)
  {
    && SlotOf(st, v).echo2 == Senders(msgs, v, false)
    && SlotOf(st, v).echo1 <= Senders(msgs, v, true)
    && (!Terminated(st) ==>
          && SlotOf(st, v).echo1 == Senders(msgs, v, true)
          && |Senders(msgs, v, false)| < highth
          && (st.Some? ==> st.value.echo1vals == Sent2(st, v) + Sent2(st, w))
          && !(SlotOf(st, v).sent2 && SlotOf(st, w).sent2))
    && (Terminated(st) ==> Backed(msgs, v, w, st.value.termVal.value, highth))
  }

  /** x has n-t ECHO2 senders, or is the midpoint of two values with n-t ECHO1
      senders each. */
  ghost predicate Backed(msgs: seq<Message>, a: Val, b: Val, x: Val, highth: nat) {
    || ((x == a || x == b) && |Senders(msgs, x, false)| >= highth)
    || (x == TruncDiv(a + b, 2) && |Senders(msgs, a, true)| >= highth && |Senders(msgs, b, true)| >= highth)
  }

  lemma SendersGrow(msgs: seq<Message>, v: Val, first: bool)
    requires msgs != []
    ensures Senders(msgs[..|msgs| - 1], v, first) <= Senders(msgs, v, first)
    ensures |Senders(msgs[..|msgs| - 1], v, first)| <= |Senders(msgs, v, first)|
  {
    SubsetSize(Senders(msgs[..|msgs| - 1], v, first), Senders(msgs, v, first));
  }

  lemma SendersSnoc(msgs: seq<Message>, m: Message, more: seq<Message>, v: Val, first: bool)
    requires more == msgs + [m]
    ensures Senders(more, v, first)
         == if m.Echo1? == first && m.value == v then Senders(msgs, v, first) + {m.sender} else Senders(msgs, v, first)
  {
    assert more[..|more| - 1] == msgs;
  }

  /** Every two-valued run satisfies the invariant, for both values. */
  lemma {:induction false} RunInvariant(msgs: seq<Message>, a: Val, b: Val, minth: nat, highth: nat)
    requires Separated(minth, highth) && TwoValued(msgs, a, b)
    ensures Pair(Run(msgs, minth, highth), a, b)
    ensures RunInv(Run(msgs, minth, highth), msgs, a, b, highth)
    ensures RunInv(Run(msgs, minth, highth), msgs, b, a, highth)
  {
    hide Step, Midpoint, TruncDiv, Separated;
    assert highth >= 2 by { HighAtLeastTwo(minth, highth); }
    if msgs != [] {
      var p, m := msgs[..|msgs| - 1], msgs[|msgs| - 1];
      assert TwoValued(p, a, b) && m in msgs;
      RunInvariant(p, a, b, minth, highth);
      RunGood(p, minth, highth);
      var w := if m.value == a then b else a;
      InvStep(Run(p, minth, highth), Run(msgs, minth, highth), msgs, m, w, minth, highth);
    }
  }

  lemma HighAtLeastTwo(minth: nat, highth: nat)
    requires Separated(minth, highth)
    ensures highth >= 2
  {
  }

  lemma BackedGrows(msgs: seq<Message>, a: Val, b: Val, x: Val, highth: nat)
    requires msgs != [] && Backed(msgs[..|msgs| - 1], a, b, x, highth)
    ensures Backed(msgs, a, b, x, highth) && Backed(msgs, b, a, x, highth)
  {
    hide TruncDiv;
    SendersGrow(msgs, a, true); SendersGrow(msgs, b, true); SendersGrow(msgs, x, false);
  }

  lemma InvStep(st: Option<RoundState>, st': Option<RoundState>, msgs: seq<Message>, m: Message, w: Val, minth: nat,
      highth: nat)
    requires Separated(minth, highth) && msgs != [] && m == msgs[|msgs| - 1]
    requires Pair(st, m.value, w) && (st.Some? ==> Good(st.value, minth, highth))
    requires RunInv(st, msgs[..|msgs| - 1], m.value, w, highth) && RunInv(st, msgs[..|msgs| - 1], w, m.value, highth)
    requires st' == Some(Step(st, m, minth, highth).state)
    ensures Pair(st', m.value, w)
    ensures RunInv(st', msgs, m.value, w, highth) && RunInv(st', msgs, w, m.value, highth)
  {
    hide Step, Midpoint, TruncDiv, SlotOf, Good, Pair, Backed, Separated, Sent2;
    StepView(st, m, w, minth, highth);
    SendersGrow(msgs, m.value, true); SendersGrow(msgs, w, true);
    if Terminated(st) { BackedGrows(msgs, m.value, w, st.value.termVal.value, highth); }
    if m.Echo2? {
      InvStep2(st, st', msgs, m, w, minth, highth);
    } else {
      InvStep1(st, st', msgs, m, w, minth, highth);
    }
  }

  lemma InvStep2(st: Option<RoundState>, st': Option<RoundState>, msgs: seq<Message>, m: Message, w: Val, minth: nat,
      highth: nat)
    requires Separated(minth, highth) && msgs != [] && m == msgs[|msgs| - 1] && m.Echo2?
    requires Pair(st, m.value, w) && (st.Some? ==> Good(st.value, minth, highth))
    requires RunInv(st, msgs[..|msgs| - 1], m.value, w, highth) && RunInv(st, msgs[..|msgs| - 1], w, m.value, highth)
    requires st' == Some(Step(st, m, minth, highth).state)
    requires Terminated(st) ==> Backed(msgs, m.value, w, st.value.termVal.value, highth)
    requires Terminated(st) ==> Backed(msgs, w, m.value, st.value.termVal.value, highth)
    ensures RunInv(st', msgs, m.value, w, highth) && RunInv(st', msgs, w, m.value, highth)
  {
    hide Step, Midpoint, TruncDiv, SlotOf, Good, Pair;
    StepView(st, m, w, minth, highth);
    StepTerm2(st, m, w, minth, highth, st'.value);
    NothingSent(st, m.value); NothingSent(st, w);
  }

  lemma NothingSent(st: Option<RoundState>, v: Val)
    ensures st.None? ==> !SlotOf(st, v).sent2
  {
  }

  lemma NoSlotNotSent(st: Option<RoundState>, v: Val)
    ensures st.None? ==> Sent2(st, v) == {}
  {
  }

  lemma BothBacked(msgs: seq<Message>, v: Val, w: Val, highth: nat)
    ensures |Senders(msgs, v, true)| >= highth && |Senders(msgs, w, true)| >= highth ==>
              Backed(msgs, v, w, TruncDiv(v + w, 2), highth) && Backed(msgs, w, v, TruncDiv(v + w, 2), highth)
  {
    hide TruncDiv;
  }

  lemma InvStep1(st: Option<RoundState>, st': Option<RoundState>, msgs: seq<Message>, m: Message, w: Val, minth: nat,
      highth: nat)
    requires Separated(minth, highth) && msgs != [] && m == msgs[|msgs| - 1] && m.Echo1?
    requires Pair(st, m.value, w) && (st.Some? ==> Good(st.value, minth, highth))
    requires RunInv(st, msgs[..|msgs| - 1], m.value, w, highth) && RunInv(st, msgs[..|msgs| - 1], w, m.value, highth)
    requires st' == Some(Step(st, m, minth, highth).state)
    requires Terminated(st) ==> Backed(msgs, m.value, w, st.value.termVal.value, highth)
    requires Terminated(st) ==> Backed(msgs, w, m.value, st.value.termVal.value, highth)
    ensures RunInv(st', msgs, m.value, w, highth) && RunInv(st', msgs, w, m.value, highth)
  {
    hide Step, Midpoint, TruncDiv, SlotOf, Good, Pair, Separated, Backed, Sent2, Senders;
    var out := Step(st, m, minth, highth);
    var prev := msgs[..|msgs| - 1];
    SendersSnoc(prev, m, msgs, m.value, true); SendersSnoc(prev, m, msgs, w, true);
    SendersSnoc(prev, m, msgs, m.value, false); SendersSnoc(prev, m, msgs, w, false);
    StepView(st, m, w, minth, highth);
    StepTerm1(st, m, w, minth, highth, out);
    if Terminated(st) { return; }
    InsertSize(SlotOf(st, m.value).echo1, m.sender);
    BothBacked(msgs, m.value, w, highth);
    NoSlotNotSent(st, m.value); NoSlotNotSent(st, w);
    StepKeepsGood(st, m, minth, highth);
    SentMeansCount(st', m.value, minth, highth); SentMeansCount(st', w, minth, highth);
    if st.Some? { SentMeansCount(st, m.value, minth, highth); SentMeansCount(st, w, minth, highth); }
    NothingSent(st, m.value); NothingSent(st, w);
  }

  lemma SentMeansCount(st: Option<RoundState>, v: Val, minth: nat, highth: nat)
    requires st.Some?
    ensures Good(st.value, minth, highth) && highth > 0 ==> (SlotOf(st, v).sent2 <==> |SlotOf(st, v).echo1| >= highth)
  {
  }

  /** An instance has terminated exactly when some value has n-t ECHO2 senders
      or both values have n-t ECHO1 senders, and then on a backed value. */
  lemma TerminationExact(msgs: seq<Message>, a: Val, b: Val, minth: nat, highth: nat)
    requires Separated(minth, highth) && TwoValued(msgs, a, b)
    ensures var st := Run(msgs, minth, highth);
            && (Terminated(st) <==>
                  || |Senders(msgs, a, false)| >= highth || |Senders(msgs, b, false)| >= highth
                  || (|Senders(msgs, a, true)| >= highth && |Senders(msgs, b, true)| >= highth))
            && (Terminated(st) ==> Backed(msgs, a, b, st.value.termVal.value, highth))
  {
    hide Step, Midpoint, TruncDiv, SlotOf, Pair;
    var st := Run(msgs, minth, highth);
    RunInvariant(msgs, a, b, minth, highth);
    RunGood(msgs, minth, highth);
    if st.Some? {
      SentMeansCount(st, a, minth, highth); SentMeansCount(st, b, minth, highth);
    }
  }

  /** m is the message with which the ECHO1 senders of its value reach th. */
  ghost predicate Crosses(msgs: seq<Message>, m: Message, th: nat) {
    |Senders(msgs, m.value, true)| < th == |Senders(msgs + [m], m.value, true)|
  }

  /** An ECHO1 for v goes out exactly when v's distinct ECHO1 senders reach t+1,
      an ECHO2 exactly when they reach n-t. */
  lemma EmissionExact(msgs: seq<Message>, m: Message, a: Val, b: Val, minth: nat, highth: nat)
    requires Separated(minth, highth) && TwoValued(msgs + [m], a, b)
    ensures var st := Run(msgs, minth, highth);
            var out := Step(st, m, minth, highth);
            && (out.echo1 == if !Terminated(st) && Crosses(msgs, m, minth) then Some(m.value) else None)
            && (out.echo2 == if !Terminated(st) && Crosses(msgs, m, highth) then Some(m.value) else None)
  {
    hide Step, Midpoint, TruncDiv, SlotOf, Separated, Senders, TwoValued, Backed, Sent2, Good, Run;
    var st := Run(msgs, minth, highth);
    TwoValuedSnoc(msgs, m, a, b);
    var w := if m.value == a then b else a;
    RunInvariant(msgs, a, b, minth, highth);
    RunGood(msgs, minth, highth);
    StepView(st, m, w, minth, highth);
    SendersSnoc(msgs, m, msgs + [m], m.value, true);
    InsertSize(Senders(msgs, m.value, true), m.sender);
  }

  lemma TwoValuedSnoc(msgs: seq<Message>, m: Message, a: Val, b: Val)
    requires TwoValued(msgs + [m], a, b)
    ensures TwoValued(msgs, a, b) && a != b && (m.value == a || m.value == b)
  {
    assert m in msgs + [m];
    forall x | x in msgs ensures x.value == a || x.value == b { assert x in msgs + [m]; }
  }

  lemma {:induction false} SendersMonotone(msgs: seq<Message>, i: nat, j: nat, v: Val)
    requires i <= j <= |msgs|
    ensures |Senders(msgs[..i], v, true)| <= |Senders(msgs[..j], v, true)|
    decreases j
  {
    if i < j {
      assert msgs[..j][..j - 1] == msgs[..j - 1];
      SendersGrow(msgs[..j], v, true);
      SendersMonotone(msgs, i, j - 1, v);
    }
  }

  /** ... and so at most once per run and value. */
  lemma EmissionOnce(msgs: seq<Message>, i: nat, j: nat, a: Val, b: Val, minth: nat, highth: nat)
    requires Separated(minth, highth) && TwoValued(msgs, a, b) && i < j < |msgs|
    ensures var first := Step(Run(msgs[..i], minth, highth), msgs[i], minth, highth);
            var second := Step(Run(msgs[..j], minth, highth), msgs[j], minth, highth);
            && !(first.echo1.Some? && second.echo1 == first.echo1)
            && !(first.echo2.Some? && second.echo2 == first.echo2)
  {
    hide Step, Run, Separated, Terminated;
    assert msgs[..i] + [msgs[i]] == msgs[..i + 1] && msgs[..j] + [msgs[j]] == msgs[..j + 1];
    EmissionExact(msgs[..i], msgs[i], a, b, minth, highth);
    EmissionExact(msgs[..j], msgs[j], a, b, minth, highth);
    SendersMonotone(msgs, i + 1, j, msgs[i].value);
  }

  // ---- runs with any number of values ----

  /** The senders of ECHO1s (or of ECHO2s) for v, or for any other value. */
  ghost function Heard(msgs: seq<Message>, v: Val, same: bool, first: bool): set<Replica> {
    if msgs == [] then {}
    else
      var m, s := msgs[|msgs| - 1], Heard(msgs[..|msgs| - 1], v, same, first);
      if m.Echo1? == first && (m.value == v) == same then s + {m.sender} else s
  }

  lemma HeardSnoc(msgs: seq<Message>, m: Message, more: seq<Message>, v: Val, same: bool, first: bool)
    requires more == msgs + [m]
    ensures var s := Heard(msgs, v, same, first);
            Heard(more, v, same, first) == if m.Echo1? == first && (m.value == v) == same then s + {m.sender} else s
    ensures |Heard(msgs, v, same, first)| <= |Heard(more, v, same, first)|
  {
    assert more[..|more| - 1] == msgs;
    SubsetSize(Heard(msgs, v, same, first), Heard(more, v, same, first));
  }

  /** What a state records in its first or second slot. */
  ghost function Echoes(st: RoundState, same: bool, first: bool): set<Replica> {
    var k := if same then 0 else 1;
    if k >= |st.slots| then {} else if first then st.slots[k].echo1 else st.slots[k].echo2
  }

  /** One step in reachable states, for any value: the second slot stands for all
      values but the first slot's. */
  lemma StepAny(st: RoundState, m: Message, minth: nat, highth: nat)
    requires Separated(minth, highth) && Good(st, minth, highth)
    ensures var out, same := Step(Some(st), m, minth, highth), m.value == st.slots[0].value;
            var before, after := Echoes(st, same, true), Echoes(out.state, same, true);
            && Good(out.state, minth, highth) && out.state.slots[0].value == st.slots[0].value
            && (|st.slots| == 2 ==> |out.state.slots| == 2 && out.state.slots[1].value == st.slots[1].value)
            && (|st.slots| == 1 && |out.state.slots| == 2 ==> out.state.slots[1].value == m.value)
            && Echoes(out.state, !same, true) == Echoes(st, !same, true)
            && Echoes(out.state, !same, false) == Echoes(st, !same, false)
            && after == (if m.Echo1? && st.termVal.None? then before + {m.sender} else before)
            && Echoes(out.state, same, false)
               == (if m.Echo2? then Echoes(st, same, false) + {m.sender} else Echoes(st, same, false))
            && (out.echo1 == if |before| < minth == |after| then Some(m.value) else None)
            && (out.echo2 == if |before| < highth == |after| then Some(m.value) else None)
  {
    hide CountEcho, CountEcho2, Good, Separated;
    StepKeepsGood(Some(st), m, minth, highth);
    assert 1 <= |st.slots| <= 2 by { GoodSize(st, minth, highth); }
    var k := if st.slots[0].value == m.value then 0 else 1;
    InsertSize(Echoes(st, k == 0, true), m.sender);
    if k < |st.slots| {
      CountSets(st, k, m, minth, highth);
      CountCrosses(st, k, m, minth, highth);
    } else {
      FirstSender(m.sender, minth, highth);
    }
  }

  lemma GoodSize(st: RoundState, minth: nat, highth: nat)
    requires Good(st, minth, highth)
    ensures 1 <= |st.slots| <= 2
  {
  }

  lemma FirstSender(q: Replica, minth: nat, highth: nat)
    requires Separated(minth, highth)
    ensures |{q}| == 1 && minth > 1 && highth > 1 && {} + {q} == {q}
  {
  }

  /** What it decides. */
  lemma StepAnyTerm(st: RoundState, m: Message, minth: nat, highth: nat)
    requires Separated(minth, highth) && Good(st, minth, highth)
    ensures var out, same := Step(Some(st), m, minth, highth), m.value == st.slots[0].value;
            && (m.Echo2? ==> out.state.echo1vals == st.echo1vals)
            && (m.Echo2? ==>
                  out.state.termVal == (
                    if |Echoes(out.state, same, false)| >= highth
                    then Some(out.state.slots[if same then 0 else 1].value) else st.termVal))
            && (m.Echo1? && st.termVal.Some? ==> out.state == st)
            && (m.Echo1? && st.termVal.None? ==>
                  && out.state.echo1vals == (if out.echo2.Some? then st.echo1vals + {m.value} else st.echo1vals)
                  && out.state.termVal == (
                       if out.echo2.Some? && |out.state.echo1vals| == 2
                       then Some(Midpoint(out.state.echo1vals)) else None))
  {
    hide Midpoint;
    FirstSender(m.sender, minth, highth);
  }

  /** What the state knows about a run that began with value a. */
  ghost predicate AnyInv(st: RoundState, msgs: seq<Message>, a: Val, highth: nat) {
    && st.slots[0].value == a
    && (forall same :: Echoes(st, same, false) == Heard(msgs, a, same, false))
    && (st.termVal.None? ==>
          && (forall same :: Echoes(st, same, true) == Heard(msgs, a, same, true))
          && (forall same :: |Heard(msgs, a, same, false)| < highth)
          && EchoedOne(st.echo1vals, a, |Heard(msgs, a, true, true)| >= highth, |Heard(msgs, a, false,
              true)| >= highth))
    && (st.termVal.Some? ==> AnyQuorum(msgs, a, highth))
  }

  /** At most one value's ECHO2 was sent: a's own, or another's. */
  ghost predicate EchoedOne(vals: set<Val>, a: Val, own: bool, other: bool) {
    && !(own && other)
    && (other ==> |vals| == 1 && a !in vals)
    && (!other ==> vals == if own then {a} else {})
  }

  /** Enough ECHO2s for a, or for the other values together, or enough ECHO1s for
      both. */
  ghost predicate AnyQuorum(msgs: seq<Message>, a: Val, highth: nat) {
    || |Heard(msgs, a, true, false)| >= highth || |Heard(msgs, a, false, false)| >= highth
    || (|Heard(msgs, a, true, true)| >= highth && |Heard(msgs, a, false, true)| >= highth)
  }

  /** In every run the first slot counts the first message's value and the second
      one all others. */
  lemma {:induction false} AnyRun(msgs: seq<Message>, minth: nat, highth: nat)
    requires Separated(minth, highth) && msgs != []
    ensures AnyInv(Run(msgs, minth, highth).value, msgs, msgs[0].value, highth)
  {
    hide Step, Separated, Good, AnyInv, Heard;
    var p, m := msgs[..|msgs| - 1], msgs[|msgs| - 1];
    assert msgs == p + [m];
    if p == [] {
      AnyStart(m, minth, highth);
    } else {
      AnyRun(p, minth, highth);
      RunGood(p, minth, highth);
      AnyStep(Run(p, minth, highth).value, p, m, msgs, p[0].value, minth, highth);
    }
  }

  lemma AnyStart(m: Message, minth: nat, highth: nat)
    requires Separated(minth, highth)
    ensures AnyInv(Step(None, m, minth, highth).state, [m], m.value, highth)
  {
    assert [m][..0] == [];
    FirstSender(m.sender, minth, highth);
    forall same, first
      ensures Heard([m], m.value, same, first) == if m.Echo1? == first && same then {m.sender} else {}
    {
      HeardSnoc([], m, [m], m.value, same, first);
    }
  }

  lemma AnyStep(st: RoundState, p: seq<Message>, m: Message, msgs: seq<Message>, a: Val, minth: nat, highth: nat)
    requires Separated(minth, highth) && Good(st, minth, highth) && AnyInv(st, p, a, highth) && msgs == p + [m]
    ensures AnyInv(Step(Some(st), m, minth, highth).state, msgs, a, highth)
  {
    hide Step, Good, Separated, Heard, Echoes, Midpoint, EchoedOne;
    StepAny(st, m, minth, highth);
    StepAnyTerm(st, m, minth, highth);
    forall same, first
      ensures Heard(msgs, a, same, first)
        == if m.Echo1? == first && (m.value == a) == same then Heard(p, a, same, first) + {m.sender}
           else Heard(p, a, same, first)
      ensures |Heard(p, a, same, first)| <= |Heard(msgs, a, same, first)|
    {
      HeardSnoc(p, m, msgs, a, same, first);
    }
    if m.Echo1? && st.termVal.None? {
      AnyStep1(st, p, m, msgs, a, minth, highth);
    }
  }

  lemma AnyStep1(st: RoundState, p: seq<Message>, m: Message, msgs: seq<Message>, a: Val, minth: nat, highth: nat)
    requires Separated(minth, highth) && Good(st, minth, highth) && AnyInv(st, p, a, highth) && msgs == p + [m]
    requires m.Echo1? && st.termVal.None?
    ensures AnyInv(Step(Some(st), m, minth, highth).state, msgs, a, highth)
  {
    hide Step, Good, Separated, Heard, Echoes, Midpoint, EchoedOne;
    StepAny(st, m, minth, highth);
    StepAnyTerm(st, m, minth, highth);
    var out, same := Step(Some(st), m, minth, highth), m.value == a;
    HeardSnoc(p, m, msgs, a, same, true); HeardSnoc(p, m, msgs, a, !same, true);
    HeardSnoc(p, m, msgs, a, same, false); HeardSnoc(p, m, msgs, a, !same, false);
    InsertSize(Heard(p, a, same, true), m.sender);
    var own, other := |Heard(p, a, true, true)| >= highth, |Heard(p, a, false, true)| >= highth;
    assert !(own && other) by { NotBoth(st.echo1vals, a, own, other); }
    EchoMore(st.echo1vals, a, m.value, own, other, out.echo2.Some?);
    assert out.echo2.Some? <==> |Heard(p, a, same, true)| < highth <= |Heard(msgs, a, same, true)|;
  }

  lemma NotBoth(vals: set<Val>, a: Val, own: bool, other: bool)
    requires EchoedOne(vals, a, own, other)
    ensures !(own && other)
  {
  }

  lemma EchoMore(vals: set<Val>, a: Val, v: Val, own: bool, other: bool, sent: bool)
    requires EchoedOne(vals, a, own, other) && (sent ==> if v == a then !own else !other)
    ensures sent ==> |vals + {v}| == if own || other then 2 else 1
    ensures sent && !own && !other ==> EchoedOne(vals + {v}, a, v == a, v != a)
  {
    if sent {
      InsertSize(vals, v);
      if !own && !other { assert vals + {v} == {v}; }
    }
  }

  /** However many values there are, an instance has terminated exactly when the
      first message's value has n-t ECHO2 senders, or all others together have, or
      both have n-t ECHO1 senders. */
  lemma AnyTerminationExact(msgs: seq<Message>, minth: nat, highth: nat)
    requires Separated(minth, highth) && msgs != []
    ensures Terminated(Run(msgs, minth, highth)) <==> AnyQuorum(msgs, msgs[0].value, highth)
  {
    hide Heard, Separated, Run;
    AnyRun(msgs, minth, highth);
  }

  /** And it answers a message exactly when the distinct ECHO1 senders of the
      first message's value, or those of all others together, reach t+1 or n-t,
      with an echo of the very value received. */
  lemma AnyEmissionExact(msgs: seq<Message>, m: Message, minth: nat, highth: nat)
    requires Separated(minth, highth) && msgs != []
    ensures var st, a := Run(msgs, minth, highth), msgs[0].value;
            var out, same := Step(st, m, minth, highth), m.value == a;
            var before, after := |Heard(msgs, a, same, true)|, |Heard(msgs + [m], a, same, true)|;
            && (out.echo1 == if !Terminated(st) && before < minth == after then Some(m.value) else None)
            && (out.echo2 == if !Terminated(st) && before < highth == after then Some(m.value) else None)
  {
    hide Heard, Separated, Run, Step, Good, Echoes, AnyQuorum, EchoedOne;
    var a := msgs[0].value;
    AnyRun(msgs, minth, highth);
    RunGood(msgs, minth, highth);
    StepAny(Run(msgs, minth, highth).value, m, minth, highth);
    HeardSnoc(msgs, m, msgs + [m], a, m.value == a, true);
  }

  // ---- the thresholds for which double processing is harmless ----

  /** Sending every message twice in a row never matters, after any run. */
  ghost predicate DoublingHarmless(minth: nat, highth: nat) {
    forall msgs: seq<Message>, m: Message ::
      var st1 := Some(Step(Run(msgs, minth, highth), m, minth, highth).state);
      StepTwice(st1, m, minth, highth)
  }

  ghost predicate StepTwice(st1: Option<RoundState>, m: Message, minth: nat, highth: nat) {
    st1.Some? && Step(st1, m, minth, highth) == Outcome(st1.value, None, None)
  }

  /** n messages from distinct senders for the value 0. */
  function Chorus(n: nat): seq<Message> {
    if n == 0 then [] else Chorus(n - 1) + [Echo1(0, n - 1)]
  }

  lemma {:induction false} ChorusState(n: nat, minth: nat, highth: nat)
    requires 1 <= n < minth && n < highth
    ensures Run(Chorus(n), minth, highth) == Some(Counting(UpTo(n)))
  {
    hide Step;
    var c := Chorus(n);
    assert c[..|c| - 1] == Chorus(n - 1);
    InsertSize(UpTo(n - 1), n - 1);
    if n == 1 {
      assert UpTo(1) == {0};
      ChorusStep({}, 0, minth, highth);
    } else {
      ChorusState(n - 1, minth, highth);
      ChorusStep(UpTo(n - 1), n - 1, minth, highth);
    }
  }

  function Counting(s: set<Replica>): RoundState {
    RawState([Slot(0, s, {}, false, false)], {}, None)
  }

  lemma ChorusStep(s: set<Replica>, q: Replica, minth: nat, highth: nat)
    requires |s + {q}| < minth && |s + {q}| < highth
    ensures Step(Some(Counting(s)), Echo1(0, q), minth, highth) == Outcome(Counting(s + {q}), None, None)
    ensures Step(None, Echo1(0, q), minth, highth) == Outcome(Counting({q}), None, None)
  {
  }

  /** Exactly the separated thresholds make double processing harmless: t+1 and
      n-t with t >= 1 and n - t >= 2, except n = 2t + 1. */
  lemma DoublingHarmlessIff(minth: nat, highth: nat)
    ensures DoublingHarmless(minth, highth) <==> Separated(minth, highth)
  {
    if Separated(minth, highth) {
      forall msgs: seq<Message>, m: Message
        ensures StepTwice(Some(Step(Run(msgs, minth, highth), m, minth, highth).state), m, minth, highth)
      {
        RunGood(msgs, minth, highth);
        StepIdempotent(Run(msgs, minth, highth), m, minth, highth);
      }
    } else if minth <= 1 || highth <= 1 {
      var m := Echo1(0, 0);
      var st1 := Some(Step(Run([], minth, highth), m, minth, highth).state);
      assert {0} + {0} == {0 as Replica};
      assert !StepTwice(st1, m, minth, highth);
    } else {
      var n := minth - 1;
      ChorusState(n, minth, highth);
      var m := Echo1(0, n);
      var st := Run(Chorus(n), minth, highth);
      InsertSize(UpTo(n), n);
      var st1 := Some(Step(st, m, minth, highth).state);
      InsertSize(UpTo(n) + {n}, n);
      assert !StepTwice(st1, m, minth, highth);
    }
  }
}
