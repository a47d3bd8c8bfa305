/** One round of Binary Approximate Agreement among n nodes of which at most t
    are faulty: what honest nodes send and terminate on in any run. */
module RoundSafety {
  import opened Types
  import opened SetFacts
  import opened BinAA
  import opened BinAARuns

  /** n nodes, the faulty ones, and the values honest nodes start the round
      with.  `values` is what faulty nodes may send. */
  datatype Config = Config(n: nat, t: nat, faulty: set<Replica>, inputs: map<Replica, Val>, values: set<Val>) {

    ghost predicate Valid() {
      && n >= 3 * t + 1
      && |faulty| <= t
      && (forall q: Replica :: q in inputs <==> q < n && q !in faulty)
    }

    function MinThreshold(): nat { t + 1 }

    function HighThreshold(): nat
      requires n >= t
    {
      n - t
    }

    /** Some honest node starts the round with v. */
    ghost predicate Justified(v: Val) { exists i :: i in inputs && inputs[i] == v }

    /** The values that can be sent at all: faulty nodes need to exist to send. */
    function InPlay(): set<Val> {
      inputs.Values + (if faulty == {} then {} else values)
    }

    /** Every message of the round carries a or b. */
    ghost predicate TwoValued(a: Val, b: Val) { a != b && forall v :: v in InPlay() ==> v == a || v == b }
  }

  /** The honest nodes' states and every message sent so far. */
  datatype System = System(nodes: map<Replica, Option<RoundState>>, sent1: set<(Replica, Val)>,
                           sent2: set<(Replica, Val)>)

  ghost predicate Init(c: Config, s: System) {
    s.nodes.Keys == c.inputs.Keys && (forall i :: i in s.nodes ==> s.nodes[i] == None) && s.sent1 == {} && s.sent2 == {}
  }

  /** `start_round`: replaces whatever was buffered for the round. */
  ghost predicate Start(c: Config, s: System, s': System, i: Replica) {
    && i in s.nodes && i in c.inputs
    && s' == s.(nodes := s.nodes[i := Some(NewWithEcho(c.inputs[i], i))], sent1 := s.sent1 + {(i, c.inputs[i])})
  }

  function Sends(i: Replica, v: Option<Val>): set<(Replica, Val)> { if v.Some? then {(i, v.value)} else {} }

  /** An ECHO1 reaches the other nodes; of its own a node processes only the one
      it starts the round with. */
  ghost predicate Deliver1(c: Config, s: System, s': System, i: Replica, q: Replica, v: Val)
    requires c.Valid()
  {
    && i in s.nodes && i in c.inputs && (q, v) in s.sent1 && (q != i || v == c.inputs[i])
    && var out := Step(s.nodes[i], Echo1(v, q), c.MinThreshold(), c.HighThreshold());
       s' == System(s.nodes[i := Some(out.state)], s.sent1 + Sends(i, out.echo1), s.sent2 + Sends(i, out.echo2))
  }

  ghost predicate Deliver2(c: Config, s: System, s': System, i: Replica, q: Replica, v: Val)
    requires c.Valid()
  {
    && i in s.nodes && (q, v) in s.sent2
    && s' == s.(nodes := s.nodes[i := Some(Step(s.nodes[i], Echo2(v, q), c.MinThreshold(), c.HighThreshold()).state)])
  }

  /** A faulty node sends, under its own name, any value it may send. */
  ghost predicate Inject(c: Config, s: System, s': System, q: Replica, v: Val) {
    && q in c.faulty && v in c.values
    && (s' == s.(sent1 := s.sent1 + {(q, v)}) || s' == s.(sent2 := s.sent2 + {(q, v)}))
  }

  ghost predicate Next(c: Config, s: System, s': System)
    requires c.Valid()
  {
    || (exists i :: Start(c, s, s', i))
    || (exists i, q, v :: Deliver1(c, s, s', i, q, v))
    || (exists i, q, v :: Deliver2(c, s, s', i, q, v))
    || (exists q, v :: Inject(c, s, s', q, v))
  }

  ghost predicate IsRun(c: Config, run: seq<System>)
    requires c.Valid()
  {
    run != [] && Init(c, run[0]) && forall k :: 0 <= k < |run| - 1 ==> Next(c, run[k], run[k + 1])
  }

  // ---- the invariant ----

  ghost predicate NodeInv(c: Config, st: Option<RoundState>, sent1: set<(Replica, Val)>, sent2: set<(Replica, Val)>,
      a: Val, b: Val)
    requires c.Valid()
  {
    && Pair(st, a, b)
    && Flagged(c, SlotOf(st, a)) && Flagged(c, SlotOf(st, b))
    && Logged(SlotOf(st, a), a, sent1, sent2) && Logged(SlotOf(st, b), b, sent1, sent2)
    && (st.Some? && !Terminated(st) ==> st.value.echo1vals == Sent2(st, a) + Sent2(st, b))
    && (Terminated(st) ==> FromHonest(c, st.value.termVal.value))
  }

  /** What the slot has sent was backed by its count. */
  ghost predicate Flagged(c: Config, s: Slot)
    requires c.Valid()
  {
    (s.sent1 ==> |s.echo1| >= c.MinThreshold()) && (s.sent2 ==> |s.echo1| >= c.HighThreshold())
  }

  /** Every sender a slot counts has sent that message. */
  ghost predicate Logged(s: Slot, v: Val, sent1: set<(Replica, Val)>, sent2: set<(Replica, Val)>) {
    (forall q :: q in s.echo1 ==> (q, v) in sent1) && (forall q :: q in s.echo2 ==> (q, v) in sent2)
  }

  /** x is a start value of an honest node or the midpoint of two of them. */
  ghost predicate FromHonest(c: Config, x: Val) {
    c.Justified(x) || exists u, w :: c.Justified(u) && c.Justified(w) && x == TruncDiv(u + w, 2)
  }

  ghost predicate HonestJustified(c: Config, sent: set<(Replica, Val)>, a: Val, b: Val) {
    forall q, v :: (q, v) in sent ==> v in {a, b} && (q !in c.faulty ==> c.Justified(v))
  }

  ghost predicate Inv(c: Config, s: System, a: Val, b: Val)
    requires c.Valid()
  {
    && s.nodes.Keys == c.inputs.Keys
    && HonestJustified(c, s.sent1, a, b) && HonestJustified(c, s.sent2, a, b)
    && (forall i :: i in s.nodes ==> NodeInv(c, s.nodes[i], s.sent1, s.sent2, a, b))
  }

  /** More than t senders include an honest one. */
  lemma Quorum(c: Config, senders: set<Replica>) returns (h: Replica)
    requires |senders| > |c.faulty|
    ensures h in senders && h !in c.faulty
  {
    if senders <= c.faulty { SubsetSize(senders, c.faulty); assert false; }
    h :| h in senders && h !in c.faulty;
  }

  /** A quorum of logged senders justifies the value. */
  lemma QuorumJustifies(c: Config, senders: set<Replica>, v: Val, sent: set<(Replica, Val)>, a: Val, b: Val)
    requires c.Valid() && |senders| > c.t
    requires forall q :: q in senders ==> (q, v) in sent
    requires HonestJustified(c, sent, a, b)
    ensures c.Justified(v)
  {
    var h := Quorum(c, senders);
  }

  lemma Thresholds(c: Config)
    requires c.Valid()
    ensures c.t > 0 ==> Separated(c.MinThreshold(), c.HighThreshold())
    ensures c.MinThreshold() > c.t && c.HighThreshold() > c.t
  {
  }

  /** At a node of the system that is: t + 1 and n - t distinct senders make it
      send, and n - t of ECHO2s, or of ECHO1s twice, end the round. */
  lemma SendsAt(c: Config, msgs: seq<Message>, m: Message)
    requires c.Valid() && c.t > 0 && msgs != []
    ensures var st, a := Run(msgs, c.MinThreshold(), c.HighThreshold()), msgs[0].value;
            var out := Step(st, m, c.MinThreshold(), c.HighThreshold());
            var before := |Heard(msgs, a, m.value == a, true)|;
            var after := |Heard(msgs + [m], a, m.value == a, true)|;
            && (out.echo1.Some? <==> !Terminated(st) && before <= c.t < after)
            && (out.echo2.Some? <==> !Terminated(st) && before + c.t < c.n <= after + c.t)
            && (Terminated(st) <==>
                  || |Heard(msgs, a, true, false)| + c.t >= c.n || |Heard(msgs, a, false, false)| + c.t >= c.n
                  || (|Heard(msgs, a, true, true)| + c.t >= c.n && |Heard(msgs, a, false, true)| + c.t >= c.n))
  {
    hide Run, Step, Heard, Terminated;
    Thresholds(c);
    AnyEmissionExact(msgs, m, c.MinThreshold(), c.HighThreshold());
    AnyTerminationExact(msgs, c.MinThreshold(), c.HighThreshold());
    HeardSnoc(msgs, m, msgs + [m], msgs[0].value, m.value == msgs[0].value, true);
    HeardInsert(msgs, m, msgs[0].value, m.value == msgs[0].value);
  }

  lemma HeardInsert(msgs: seq<Message>, m: Message, v: Val, same: bool)
    ensures |Heard(msgs + [m], v, same, true)| <= |Heard(msgs, v, same, true)| + 1
  {
    HeardSnoc(msgs, m, msgs + [m], v, same, true);
    InsertSize(Heard(msgs, v, same, true), m.sender);
  }

  lemma NodeInvGrows(c: Config, st: Option<RoundState>, sent1: set<(Replica, Val)>, sent2: set<(Replica, Val)>,
      more1: set<(Replica, Val)>, more2: set<(Replica, Val)>, a: Val, b: Val)
    requires c.Valid() && NodeInv(c, st, sent1, sent2, a, b) && sent1 <= more1 && sent2 <= more2
    ensures NodeInv(c, st, more1, more2, a, b)
  {
    hide Pair, SlotOf, FromHonest, Sent2, Flagged;
  }

  lemma PairSymmetric(c: Config, st: Option<RoundState>, sent1: set<(Replica, Val)>, sent2: set<(Replica, Val)>,
      a: Val, b: Val)
    requires c.Valid() && NodeInv(c, st, sent1, sent2, a, b)
    ensures NodeInv(c, st, sent1, sent2, b, a)
  {
    hide SlotOf, FromHonest, Flagged;
  }

  /** One delivery keeps the receiving node's invariant, and what the node sends
      is justified. */
  lemma DeliverKeeps(c: Config, st: Option<RoundState>, sent1: set<(Replica, Val)>, sent2: set<(Replica, Val)>,
      m: Message, w: Val)
    requires c.Valid() && NodeInv(c, st, sent1, sent2, m.value, w)
    requires HonestJustified(c, sent1, m.value, w) && HonestJustified(c, sent2, m.value, w)
    requires if m.Echo1? then (m.sender, m.value) in sent1 else (m.sender, m.value) in sent2
    ensures var out := Step(st, m, c.MinThreshold(), c.HighThreshold());
            && NodeInv(c, Some(out.state), sent1, sent2, m.value, w)
            && (out.echo1.Some? ==> out.echo1.value == m.value && c.Justified(m.value))
            && (out.echo2.Some? ==> out.echo2.value == m.value && c.Justified(m.value))
  {
    hide Step, SlotOf, Pair, TruncDiv, FromHonest, HonestJustified, Sent2;
    var minth, highth, v := c.MinThreshold(), c.HighThreshold(), m.value;
    var out := Step(st, m, minth, highth);
    Thresholds(c);
    StepSets(st, m, w, minth, highth);
    var after := SlotOf(Some(out.state), v);
    SubsetSize(SlotOf(st, v).echo1, after.echo1);
    if out.echo1.Some? || out.echo2.Some? {
      QuorumJustifies(c, after.echo1, v, sent1, v, w);
    }
    DecidesHonest(c, st, sent1, sent2, m, w);
  }

  /** What the delivery decides is a start value of an honest node or the midpoint
      of two, and undecided nodes keep track of the values they sent. */
  lemma DecidesHonest(c: Config, st: Option<RoundState>, sent1: set<(Replica, Val)>, sent2: set<(Replica, Val)>,
      m: Message, w: Val)
    requires c.Valid() && NodeInv(c, st, sent1, sent2, m.value, w)
    requires HonestJustified(c, sent1, m.value, w) && HonestJustified(c, sent2, m.value, w)
    requires var out := Step(st, m, c.MinThreshold(), c.HighThreshold());
             && Logged(SlotOf(Some(out.state), m.value), m.value, sent1, sent2)
             && (out.echo2.Some? ==> c.Justified(m.value))
    ensures var end := Step(st, m, c.MinThreshold(), c.HighThreshold()).state;
            && (Terminated(Some(end)) ==> FromHonest(c, end.termVal.value))
            && (!Terminated(Some(end)) ==> end.echo1vals == Sent2(Some(end), m.value) + Sent2(Some(end), w))
  {
    hide Step, SlotOf, Pair, TruncDiv, FromHonest, HonestJustified, Sent2, Flagged;
    var minth, highth, v := c.MinThreshold(), c.HighThreshold(), m.value;
    var out := Step(st, m, minth, highth);
    Thresholds(c);
    if m.Echo1? {
      StepTerm1(st, m, w, minth, highth, out);
      if out.state.termVal.Some? && !Terminated(st) {
        SentJustifies(c, st, sent1, sent2, v, w);
        MidpointFromHonest(c, v, w);
      }
    } else {
      StepTerm2(st, m, w, minth, highth, out.state);
      NoSlotNotSent(st, v); NoSlotNotSent(st, w);
      var after := SlotOf(Some(out.state), v);
      if |after.echo2| >= highth {
        QuorumJustifies(c, after.echo2, v, sent2, v, w);
        JustifiedFromHonest(c, v);
      }
    }
  }

  lemma JustifiedFromHonest(c: Config, v: Val)
    requires c.Justified(v)
    ensures FromHonest(c, v)
  {
  }

  lemma MidpointFromHonest(c: Config, v: Val, w: Val)
    requires c.Justified(v) && c.Justified(w)
    ensures FromHonest(c, TruncDiv(v + w, 2))
  {
    hide TruncDiv;
  }

  /** A value whose ECHO2 a node has sent is justified. */
  lemma SentJustifies(c: Config, st: Option<RoundState>, sent1: set<(Replica, Val)>, sent2: set<(Replica, Val)>,
      v: Val, w: Val)
    requires c.Valid() && NodeInv(c, st, sent1, sent2, v, w) && HonestJustified(c, sent1, v, w)
    ensures SlotOf(st, w).sent2 ==> c.Justified(w)
  {
    hide TruncDiv, FromHonest;
    if SlotOf(st, w).sent2 {
      QuorumJustifies(c, SlotOf(st, w).echo1, w, sent1, v, w);
    }
  }

  lemma NodeKeeps(c: Config, s: System, s': System, i: Replica, a: Val, b: Val)
    requires c.Valid() && Inv(c, s, a, b) && i in s.nodes
    requires s'.nodes.Keys == s.nodes.Keys && forall j :: j in s.nodes && j != i ==> s'.nodes[j] == s.nodes[j]
    requires s.sent1 <= s'.sent1 && s.sent2 <= s'.sent2
    requires HonestJustified(c, s'.sent1, a, b) && HonestJustified(c, s'.sent2, a, b)
    requires NodeInv(c, s'.nodes[i], s'.sent1, s'.sent2, a, b)
    ensures Inv(c, s', a, b)
  {
    hide NodeInv, HonestJustified;
    forall j | j in s'.nodes ensures NodeInv(c, s'.nodes[j], s'.sent1, s'.sent2, a, b) {
      if j != i { NodeInvGrows(c, s.nodes[j], s.sent1, s.sent2, s'.sent1, s'.sent2, a, b); }
    }
  }

  lemma InputInPlay(c: Config, i: Replica)
    requires i in c.inputs
    ensures c.inputs[i] in c.InPlay() && c.Justified(c.inputs[i])
  {
  }

  lemma FaultyInPlay(c: Config, q: Replica, v: Val)
    requires q in c.faulty && v in c.values
    ensures v in c.InPlay()
  {
  }

  lemma StartedNode(c: Config, i: Replica, sent1: set<(Replica, Val)>, sent2: set<(Replica, Val)>, a: Val, b: Val)
    requires c.Valid() && c.TwoValued(a, b) && i in c.inputs && (i, c.inputs[i]) in sent1
    ensures NodeInv(c, Some(NewWithEcho(c.inputs[i], i)), sent1, sent2, a, b)
  {
    hide TruncDiv, FromHonest;
    InputInPlay(c, i);
  }

  lemma StartKeeps(c: Config, s: System, s': System, i: Replica, a: Val, b: Val)
    requires c.Valid() && c.TwoValued(a, b) && Inv(c, s, a, b) && Start(c, s, s', i)
    ensures Inv(c, s', a, b)
  {
    hide TruncDiv, FromHonest, NodeInv;
    InputInPlay(c, i);
    StartedNode(c, i, s'.sent1, s'.sent2, a, b);
    NodeKeeps(c, s, s', i, a, b);
  }

  lemma SentIsEither(c: Config, sent: set<(Replica, Val)>, q: Replica, v: Val, a: Val, b: Val)
    requires HonestJustified(c, sent, a, b) && (q, v) in sent
    ensures v == a || v == b
  {
  }

  lemma EitherOrder(c: Config, sent: set<(Replica, Val)>, a: Val, b: Val)
    requires HonestJustified(c, sent, a, b)
    ensures HonestJustified(c, sent, b, a)
  {
  }

  lemma SendsJustified(c: Config, sent: set<(Replica, Val)>, i: Replica, v: Option<Val>, a: Val, b: Val)
    requires HonestJustified(c, sent, a, b) && (v.Some? ==> (v.value == a || v.value == b) && c.Justified(v.value))
    ensures HonestJustified(c, sent + Sends(i, v), a, b)
  {
  }

  /** ... the same for a message of either value. */
  lemma DeliverEither(c: Config, st: Option<RoundState>, sent1: set<(Replica, Val)>, sent2: set<(Replica, Val)>,
      m: Message, a: Val, b: Val)
    requires c.Valid() && NodeInv(c, st, sent1, sent2, a, b)
    requires HonestJustified(c, sent1, a, b) && HonestJustified(c, sent2, a, b)
    requires if m.Echo1? then (m.sender, m.value) in sent1 else (m.sender, m.value) in sent2
    ensures var out := Step(st, m, c.MinThreshold(), c.HighThreshold());
            && NodeInv(c, Some(out.state), sent1, sent2, a, b)
            && (out.echo1.Some? ==> (out.echo1.value == a || out.echo1.value == b) && c.Justified(out.echo1.value))
            && (out.echo2.Some? ==> (out.echo2.value == a || out.echo2.value == b) && c.Justified(out.echo2.value))
  {
    hide Step, NodeInv, HonestJustified;
    SentIsEither(c, if m.Echo1? then sent1 else sent2, m.sender, m.value, a, b);
    if m.value == a {
      DeliverKeeps(c, st, sent1, sent2, m, b);
    } else {
      EitherOrder(c, sent1, a, b); EitherOrder(c, sent2, a, b);
      PairSymmetric(c, st, sent1, sent2, a, b);
      DeliverKeeps(c, st, sent1, sent2, m, a);
      PairSymmetric(c, Some(Step(st, m, c.MinThreshold(), c.HighThreshold()).state), sent1, sent2, b, a);
    }
  }

  lemma Deliver1Keeps(c: Config, s: System, s': System, i: Replica, q: Replica, v: Val, a: Val, b: Val)
    requires c.Valid() && Inv(c, s, a, b) && Deliver1(c, s, s', i, q, v)
    ensures Inv(c, s', a, b)
  {
    hide Step, NodeInv, HonestJustified;
    var out := Step(s.nodes[i], Echo1(v, q), c.MinThreshold(), c.HighThreshold());
    DeliverEither(c, s.nodes[i], s.sent1, s.sent2, Echo1(v, q), a, b);
    SendsJustified(c, s.sent1, i, out.echo1, a, b);
    SendsJustified(c, s.sent2, i, out.echo2, a, b);
    NodeInvGrows(c, Some(out.state), s.sent1, s.sent2, s'.sent1, s'.sent2, a, b);
    NodeKeeps(c, s, s', i, a, b);
  }

  lemma Deliver2Keeps(c: Config, s: System, s': System, i: Replica, q: Replica, v: Val, a: Val, b: Val)
    requires c.Valid() && Inv(c, s, a, b) && Deliver2(c, s, s', i, q, v)
    ensures Inv(c, s', a, b)
  {
    hide Step, NodeInv, HonestJustified;
    DeliverEither(c, s.nodes[i], s.sent1, s.sent2, Echo2(v, q), a, b);
    NodeKeeps(c, s, s', i, a, b);
  }

  lemma InjectKeeps(c: Config, s: System, s': System, q: Replica, v: Val, a: Val, b: Val)
    requires c.Valid() && c.TwoValued(a, b) && Inv(c, s, a, b) && Inject(c, s, s', q, v)
    ensures Inv(c, s', a, b)
  {
    hide NodeInv;
    FaultyInPlay(c, q, v);
    forall j | j in s'.nodes ensures NodeInv(c, s'.nodes[j], s'.sent1, s'.sent2, a, b) {
      NodeInvGrows(c, s.nodes[j], s.sent1, s.sent2, s'.sent1, s'.sent2, a, b);
    }
  }

  lemma NextKeeps(c: Config, s: System, s': System, a: Val, b: Val)
    requires c.Valid() && c.TwoValued(a, b) && Inv(c, s, a, b) && Next(c, s, s')
    ensures Inv(c, s', a, b)
  {
    hide Inv, Start, Deliver1, Deliver2, Inject;
    if i :| Start(c, s, s', i) {
      StartKeeps(c, s, s', i, a, b);
    } else if i, q, v :| Deliver1(c, s, s', i, q, v) {
      Deliver1Keeps(c, s, s', i, q, v, a, b);
    } else if i, q, v :| Deliver2(c, s, s', i, q, v) {
      Deliver2Keeps(c, s, s', i, q, v, a, b);
    } else {
      var q, v :| Inject(c, s, s', q, v);
      InjectKeeps(c, s, s', q, v, a, b);
    }
  }

  lemma {:induction false} RunInv(c: Config, run: seq<System>, k: nat, a: Val, b: Val)
    requires c.Valid() && c.TwoValued(a, b) && IsRun(c, run) && k < |run|
    ensures Inv(c, run[k], a, b)
  {
    hide Next, TruncDiv, FromHonest;
    if k > 0 {
      RunInv(c, run, k - 1, a, b);
      NextKeeps(c, run[k - 1], run[k], a, b);
    }
  }

  // ---- safety ----

  /** What a round promises in a state of the system. */
  ghost predicate Safe(c: Config, s: System) {
    && (forall q, v :: (q, v) in s.sent1 && q !in c.faulty ==> c.Justified(v))
    && (forall q, v :: (q, v) in s.sent2 && q !in c.faulty ==> c.Justified(v))
    && (forall i :: i in s.nodes && Terminated(s.nodes[i]) ==> FromHonest(c, s.nodes[i].value.termVal.value))
  }

  /** In every two-valued run honest nodes amplify, send and terminate only on
      honest start values or midpoints of two of them. */
  lemma TwoValuedSafe(c: Config, run: seq<System>, k: nat, a: Val, b: Val)
    requires c.Valid() && c.TwoValued(a, b) && IsRun(c, run) && k < |run|
    ensures Safe(c, run[k])
  {
    hide Next, FromHonest, TruncDiv;
    RunInv(c, run, k, a, b);
  }

  // ---- exactly when a round is safe ----

  ghost predicate Reachable(c: Config, s: System)
    requires c.Valid()
  {
    exists run :: IsRun(c, run) && run[|run| - 1] == s
  }

  lemma ReachStep(c: Config, s: System, s': System)
    requires c.Valid() && Reachable(c, s) && Next(c, s, s')
    ensures Reachable(c, s')
  {
    hide Next;
    var run :| IsRun(c, run) && run[|run| - 1] == s;
    var more := run + [s'];
    assert forall k :: 0 <= k < |more| - 1 ==> Next(c, more[k], more[k + 1]);
    assert IsRun(c, more) && more[|more| - 1] == s';
  }

  /** Faulty nodes can only repeat honest start values. */
  ghost predicate Echoing(c: Config) { forall v :: v in c.InPlay() ==> c.Justified(v) }

  ghost predicate AnyTwo(c: Config) { exists a, b :: c.TwoValued(a, b) }

  /** x is a value of w or the midpoint of two of them. */
  ghost predicate FromSet(w: set<Val>, x: Val) {
    x in w || exists a, b :: a in w && b in w && x == TruncDiv(a + b, 2)
  }

  ghost predicate ClosedNode(w: set<Val>, st: Option<RoundState>) {
    st.Some? ==>
      && (forall k :: 0 <= k < |st.value.slots| ==> st.value.slots[k].value in w)
      && st.value.echo1vals <= w
      && (st.value.termVal.Some? ==> FromSet(w, st.value.termVal.value))
  }

  /** Nothing but the values in play is sent, and what is decided is made of them. */
  ghost predicate Closed(c: Config, s: System) {
    && s.nodes.Keys == c.inputs.Keys
    && (forall q, v :: (q, v) in s.sent1 ==> v in c.InPlay())
    && (forall q, v :: (q, v) in s.sent2 ==> v in c.InPlay())
    && (forall i :: i in s.nodes ==> ClosedNode(c.InPlay(), s.nodes[i]))
  }

  lemma StepClosed(w: set<Val>, st: Option<RoundState>, m: Message, minth: nat, highth: nat)
    requires ClosedNode(w, st) && m.value in w
    ensures var out := Step(st, m, minth, highth);
            && ClosedNode(w, Some(out.state))
            && (out.echo1.Some? ==> out.echo1.value == m.value)
            && (out.echo2.Some? ==> out.echo2.value == m.value)
  {
    hide CountEcho, CountEcho2, FromSet;
    if st.Some? {
      CountClosed(w, st.value, 0, m, minth, highth);
      if |st.value.slots| > 1 { CountClosed(w, st.value, 1, m, minth, highth); }
    }
  }

  lemma CountClosed(w: set<Val>, s: RoundState, k: nat, m: Message, minth: nat, highth: nat)
    requires ClosedNode(w, Some(s)) && m.value in w && k < |s.slots|
    ensures var out := CountEcho(s, k, m.value, m.sender, minth, highth);
            && ClosedNode(w, Some(out.state))
            && (out.echo1.Some? ==> out.echo1.value == m.value)
            && (out.echo2.Some? ==> out.echo2.value == m.value)
    ensures ClosedNode(w, Some(CountEcho2(s, k, m.sender, highth)))
  {
    hide Midpoint, FromSet, TruncDiv;
    ValueFromSet(w, s.slots[k].value);
    MidpointFromSet(w, s.echo1vals + {m.value});
  }

  lemma ValueFromSet(w: set<Val>, v: Val)
    requires v in w
    ensures FromSet(w, v)
  {
  }

  lemma MidpointFromSet(w: set<Val>, vals: set<Val>)
    requires vals <= w
    ensures |vals| == 2 ==> FromSet(w, Midpoint(vals))
  {
    hide Midpoint, TruncDiv;
    if |vals| == 2 {
      TwoElements(vals);
      var x, y :| x < y && vals == {x, y};
      assert x in vals && y in vals;
      MidpointOfPair(x, y);
    }
  }

  lemma StartClosed(c: Config, s: System, s': System, i: Replica)
    requires Closed(c, s) && Start(c, s, s', i)
    ensures Closed(c, s')
  {
    hide FromSet;
    assert c.inputs[i] in c.InPlay();
  }

  lemma Deliver1Closed(c: Config, s: System, s': System, i: Replica, q: Replica, v: Val)
    requires c.Valid() && Closed(c, s) && Deliver1(c, s, s', i, q, v)
    ensures Closed(c, s')
  {
    hide Step, FromSet, ClosedNode;
    StepClosed(c.InPlay(), s.nodes[i], Echo1(v, q), c.MinThreshold(), c.HighThreshold());
  }

  lemma Deliver2Closed(c: Config, s: System, s': System, i: Replica, q: Replica, v: Val)
    requires c.Valid() && Closed(c, s) && Deliver2(c, s, s', i, q, v)
    ensures Closed(c, s')
  {
    hide Step, FromSet, ClosedNode;
    StepClosed(c.InPlay(), s.nodes[i], Echo2(v, q), c.MinThreshold(), c.HighThreshold());
  }

  lemma InjectClosed(c: Config, s: System, s': System, q: Replica, v: Val)
    requires Closed(c, s) && Inject(c, s, s', q, v)
    ensures Closed(c, s')
  {
    hide FromSet, ClosedNode;
    assert v in c.InPlay();
  }

  lemma NextClosed(c: Config, s: System, s': System)
    requires c.Valid() && Closed(c, s) && Next(c, s, s')
    ensures Closed(c, s')
  {
    hide Step, FromSet, Closed, Start, Deliver1, Deliver2, Inject;
    if i :| Start(c, s, s', i) {
      StartClosed(c, s, s', i);
    } else if i, q, v :| Deliver1(c, s, s', i, q, v) {
      Deliver1Closed(c, s, s', i, q, v);
    } else if i, q, v :| Deliver2(c, s, s', i, q, v) {
      Deliver2Closed(c, s, s', i, q, v);
    } else {
      var q, v :| Inject(c, s, s', q, v);
      InjectClosed(c, s, s', q, v);
    }
  }

  lemma {:induction false} RunClosed(c: Config, run: seq<System>, k: nat)
    requires c.Valid() && IsRun(c, run) && k < |run|
    ensures Closed(c, run[k])
  {
    hide Next, FromSet;
    if k > 0 {
      RunClosed(c, run, k - 1);
      NextClosed(c, run[k - 1], run[k]);
    }
  }

  /** Where faulty nodes only repeat honest values, closed states are safe. */
  lemma EchoingSafe(c: Config, s: System)
    requires Echoing(c) && Closed(c, s)
    ensures Safe(c, s)
  {
    hide TruncDiv, Config.InPlay;
    forall i | i in s.nodes && Terminated(s.nodes[i]) ensures FromHonest(c, s.nodes[i].value.termVal.value) {
      assert ClosedNode(c.InPlay(), s.nodes[i]);
    }
  }

  /** Node i has seen one other honest node and the faulty nodes of g in slot 1. */
  ghost predicate Besieged(c: Config, s: System, i: Replica, j: Replica, g: set<Replica>, z: Val)
    requires c.Valid()
  {
    && Reachable(c, s) && i in s.nodes && s.nodes[i].Some?
    && SecondSlot(s.nodes[i].value, {j} + g, z)
    && g <= c.faulty && j !in c.faulty
  }

  /** Slot 1 has counted exactly these senders and sent nothing; slot 0 is not z. */
  ghost predicate SecondSlot(st: RoundState, senders: set<Replica>, z: Val) {
    && |st.slots| == 2 && st.termVal.None? && st.slots[0].value != z
    && st.slots[1].echo1 == senders && !st.slots[1].sent1 && !st.slots[1].sent2
  }

  lemma SiegeStep(st: RoundState, senders: set<Replica>, f: Replica, z: Val, minth: nat, highth: nat)
    requires SecondSlot(st, senders, z) && |senders + {f}| < highth
    ensures var out := Step(Some(st), Echo1(z, f), minth, highth);
            if |senders + {f}| >= minth then out.echo1 == Some(z) else SecondSlot(out.state, senders + {f}, z)
  {
  }

  /** The last faulty sender of z pushes slot 1 over t + 1: node i amplifies z. */
  lemma {:induction false} Siege(c: Config, s: System, i: Replica, j: Replica, g: set<Replica>, z: Val)
    requires c.Valid() && |c.faulty| == c.t && z in c.values && !c.Justified(z)
    requires Besieged(c, s, i, j, g, z) && g < c.faulty && i in c.inputs
    ensures exists s' :: Reachable(c, s') && !Safe(c, s')
    decreases c.faulty - g
  {
    hide Reachable, Step, SecondSlot, Next, Safe;
    var f := Pick(c.faulty, g);
    var s1 := s.(sent1 := s.sent1 + {(f, z)});
    InjectIsNext(c, s, s1, f, z);
    ReachStep(c, s, s1);
    var out := Step(s1.nodes[i], Echo1(z, f), c.MinThreshold(), c.HighThreshold());
    var s2 := System(s1.nodes[i := Some(out.state)], s1.sent1 + Sends(i, out.echo1), s1.sent2 + Sends(i, out.echo2));
    DeliverIsNext(c, s1, s2, i, f, z);
    ReachStep(c, s1, s2);
    var g' := g + {f};
    assert {j} + g + {f} == {j} + g';
    InsertSize(g', j); assert g' + {j} == {j} + g';
    SubsetSize(g', c.faulty);
    SiegeStep(s.nodes[i].value, {j} + g, f, z, c.MinThreshold(), c.HighThreshold());
    if g' == c.faulty {
      assert (i, z) in s2.sent1;
      AmplifiedUnsafe(c, s2, i, z);
    } else {
      Siege(c, s2, i, j, g', z);
    }
  }

  lemma AmplifiedUnsafe(c: Config, s: System, i: Replica, z: Val)
    requires (i, z) in s.sent1 && i !in c.faulty && !c.Justified(z)
    ensures !Safe(c, s)
  {
    hide FromHonest;
  }

  /** Delivers j's start value to node i as a second value. */
  lemma SecondValue(c: Config, s: System, i: Replica, j: Replica, z: Val) returns (s': System)
    requires c.Valid() && Reachable(c, s) && i in s.nodes && i != j && j in c.inputs && s.nodes.Keys == c.inputs.Keys
    requires s.nodes[i].Some? && |s.nodes[i].value.slots| == 1 && s.nodes[i].value.termVal.None?
    requires s.nodes[i].value.slots[0].value != c.inputs[j] && s.nodes[i].value.slots[0].value != z
    ensures Besieged(c, s', i, j, {}, z)
  {
    hide Reachable, Next;
    var s1 := s.(nodes := s.nodes[j := Some(NewWithEcho(c.inputs[j], j))], sent1 := s.sent1 + {(j, c.inputs[j])});
    StartIsNext(c, s, s1, j);
    ReachStep(c, s, s1);
    var out := Step(s1.nodes[i], Echo1(c.inputs[j], j), c.MinThreshold(), c.HighThreshold());
    s' := System(s1.nodes[i := Some(out.state)], s1.sent1 + Sends(i, out.echo1), s1.sent2 + Sends(i, out.echo2));
    DeliverIsNext(c, s1, s', i, j, c.inputs[j]);
    ReachStep(c, s1, s');
    assert {j} + {} == {j};
  }

  lemma InitialSystem(c: Config) returns (s: System)
    requires c.Valid()
    ensures Init(c, s) && Reachable(c, s)
  {
    s := System(map i | i in c.inputs :: None, {}, {});
    assert IsRun(c, [s]) && [s][0] == s;
  }

  /** With a faulty value no honest node holds and three values in play, some
      run is unsafe. */
  lemma ThreeValuesUnsafe(c: Config, i: Replica, j: Replica, y: Val, z: Val)
    requires c.Valid() && |c.faulty| == c.t > 0 && z in c.values && !c.Justified(z)
    requires i in c.inputs && j in c.inputs && i != j && y != c.inputs[j] && y != z
    requires y == c.inputs[i] || y in c.values
    ensures exists s :: Reachable(c, s) && !Safe(c, s)
  {
    hide Reachable, Safe, Next;
    var s0 := InitialSystem(c);
    var s1: System;
    if y == c.inputs[i] {
      s1 := s0.(nodes := s0.nodes[i := Some(NewWithEcho(y, i))], sent1 := s0.sent1 + {(i, y)});
      StartIsNext(c, s0, s1, i);
      ReachStep(c, s0, s1);
    } else {
      var f := Pick(c.faulty, {});
      var m := s0.(sent1 := s0.sent1 + {(f, y)});
      InjectIsNext(c, s0, m, f, y);
      ReachStep(c, s0, m);
      s1 := System(m.nodes[i := Some(NewWithEcho(y, f))], m.sent1 + Sends(i, None), m.sent2 + Sends(i, None));
      DeliverIsNext(c, m, s1, i, f, y);
      ReachStep(c, m, s1);
    }
    var s2 := SecondValue(c, s1, i, j, z);
    Siege(c, s2, i, j, {}, z);
  }

  lemma StartIsNext(c: Config, s: System, s': System, i: Replica)
    requires c.Valid() && Start(c, s, s', i)
    ensures Next(c, s, s')
  {
  }

  lemma InjectIsNext(c: Config, s: System, s': System, q: Replica, v: Val)
    requires c.Valid() && Inject(c, s, s', q, v)
    ensures Next(c, s, s')
  {
  }

  lemma DeliverIsNext(c: Config, s: System, s': System, i: Replica, q: Replica, v: Val)
    requires c.Valid() && Deliver1(c, s, s', i, q, v)
    ensures Next(c, s, s')
  {
  }

  ghost predicate AlwaysSafe(c: Config)
    requires c.Valid()
  {
    forall s :: Reachable(c, s) ==> Safe(c, s)
  }

  /** Against t faulty nodes a round is safe in every run exactly when faulty
      nodes can only repeat honest start values, or two values are in play. */
  lemma SafeIff(c: Config)
    requires c.Valid() && |c.faulty| == c.t
    ensures AlwaysSafe(c) <==> Echoing(c) || AnyTwo(c)
  {
    hide Next, Safe;
    if Echoing(c) || AnyTwo(c) {
      forall s | Reachable(c, s) ensures Safe(c, s) {
        var run :| IsRun(c, run) && run[|run| - 1] == s;
        SafeWhen(c, run);
      }
    } else {
      var z := Unjustified(c);
      var i, j, y := Witnesses(c, z);
      ThreeValuesUnsafe(c, i, j, y, z);
    }
  }

  lemma Unjustified(c: Config) returns (z: Val)
    requires !Echoing(c)
    ensures z in c.values && c.faulty != {} && !c.Justified(z)
  {
    z :| z in c.InPlay() && !c.Justified(z);
    JustifiedIff(c, z);
  }

  lemma JustifiedIff(c: Config, v: Val)
    ensures c.Justified(v) <==> v in c.inputs.Values
  {
  }

  lemma SafeWhen(c: Config, run: seq<System>)
    requires c.Valid() && IsRun(c, run) && (Echoing(c) || AnyTwo(c))
    ensures Safe(c, run[|run| - 1])
  {
    hide Next, FromHonest;
    if Echoing(c) {
      RunClosed(c, run, |run| - 1);
      EchoingSafe(c, run[|run| - 1]);
    } else {
      var a, b :| c.TwoValued(a, b);
      TwoValuedSafe(c, run, |run| - 1, a, b);
    }
  }

  lemma Pick(s: set<Replica>, t: set<Replica>) returns (x: Replica)
    requires !(s <= t)
    ensures x in s && x !in t
  {
    x :| x in s && x !in t;
  }

  lemma HonestNodes(c: Config) returns (i: Replica, j: Replica)
    requires c.Valid() && c.faulty != {}
    ensures i in c.inputs && j in c.inputs && i != j
  {
    hide UpTo;
    Inhabited(c.faulty);
    SubsetSize({}, c.faulty);
    InsertSize(c.faulty, c.n);
    if UpTo(c.n) <= c.faulty { SubsetSize(UpTo(c.n), c.faulty); assert false; }
    i := Pick(UpTo(c.n), c.faulty);
    InsertSize(c.faulty, i);
    if UpTo(c.n) <= c.faulty + {i} { SubsetSize(UpTo(c.n), c.faulty + {i}); assert false; }
    j := Pick(UpTo(c.n), c.faulty + {i});
  }

  lemma Witnesses(c: Config, z: Val) returns (i: Replica, j: Replica, y: Val)
    requires c.Valid() && c.faulty != {} && z in c.values && !c.Justified(z) && !AnyTwo(c)
    ensures i in c.inputs && j in c.inputs && i != j && y != c.inputs[j] && y != z
    ensures y == c.inputs[i] || y in c.values
  {
    i, j := HonestNodes(c);
    var x := c.inputs[j];
    assert c.Justified(x);
    assert !c.TwoValued(x, z);
    y :| y in c.InPlay() && y != x && y != z;
    if y in c.inputs.Values {
      i :| i in c.inputs && c.inputs[i] == y;
    }
  }

  // ---- a third value ----

  /** Slot 1 absorbs every value but the first: with four nodes, inputs 0, 5, 0
      and a faulty node sending 7, some run has an honest node amplify 7. */
  lemma ThirdValueUnsafe()
    ensures exists c: Config, run: seq<System> :: c.Valid() && IsRun(c, run) && !Safe(c, run[|run| - 1])
  {
    var c := Config(4, 1, {3}, map[0 := 0, 1 := 5, 2 := 0], {7});
    assert |c.faulty| == 1;
    assert c.inputs[0] == 0 && c.inputs[1] == 5;
    ThreeValuesUnsafe(c, 0, 1, 0, 7);
    var s :| Reachable(c, s) && !Safe(c, s);
    var run :| IsRun(c, run) && run[|run| - 1] == s;
  }
}
