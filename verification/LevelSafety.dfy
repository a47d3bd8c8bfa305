/** A round of a whole level among n nodes: every node runs one compressed
    interval map, lists travel between them, and at every point of the line the
    round is as safe as one instance for that point alone. */
module LevelSafety {
  import opened Types
  import opened BinAA
  import opened BinAARuns
  import opened Intervals
  import opened LevelSteps
  import opened LevelStart
  import opened RoundSafety
  import opened RoundRange

  /** The nodes, the round, the value each honest node starts point p with, and
      the values faulty nodes may send for p. */
  datatype LevelConfig = LevelConfig(n: nat, t: nat, faulty: set<Replica>, honest: set<Replica>, round: Round,
                                     start: (Replica, Point) -> Val, values: Point -> set<Val>) {

    ghost predicate Valid() {
      n >= 3 * t + 1 && |faulty| <= t && forall q: Replica :: q in honest <==> q < n && q !in faulty
    }

    /** The round at point p alone. */
    ghost function At(p: Point): Config {
      Config(n, t, faulty, map i | i in honest :: start(i, p), values(p))
    }

    function MinThreshold(): nat { t + 1 }

    function HighThreshold(): nat
      requires n >= t
    {
      n - t
    }
  }

  /** The honest nodes' interval maps and every list sent, under its sender. */
  datatype Net = Net(maps: map<Replica, IntervalMap>, lists1: set<(Replica, seq<Entry>)>,
                     lists2: set<(Replica, seq<Entry>)>)

  // ---- the steps ----

  ghost predicate NetInit(c: LevelConfig, s: Net) {
    && s.maps.Keys == c.honest && s.lists1 == {} && s.lists2 == {}
    && forall i, p :: i in s.maps && MIN <= p < MAX ==> RoundAt(s.maps[i], p, c.round) == None
  }

  ghost predicate StartsAt(c: LevelConfig, i: Replica, m': IntervalMap, l: seq<Entry>, p: Point) {
    && RoundAt(m', p, c.round) == Some(NewWithEcho(c.start(i, p), i))
    && forall v :: Covers(l, p, v) ==> v == c.start(i, p)
  }

  /** `start_round` on node i's level. */
  ghost predicate StartLevel(c: LevelConfig, s: Net, s': Net, i: Replica, m': IntervalMap, l: seq<Entry>) {
    && i in s.maps && i in c.honest
    && (forall p :: MIN <= p < MAX ==> StartsAt(c, i, m', l, p) && Covers(l, p, c.start(i, p)))
    && s' == s.(maps := s.maps[i := m'], lists1 := s.lists1 + {(i, l)})
  }

  /** `add_echo` on node i's level for a list that q sent. */
  ghost predicate Receive1(c: LevelConfig, s: Net, s': Net, i: Replica, q: Replica, l: seq<Entry>, m': IntervalMap,
      e1: seq<Entry>, e2: seq<Entry>)
    requires c.Valid()
  {
    && i in s.maps && (q, l) in s.lists1
    && Refines(s.maps[i], m', l, c.round, true, q, c.MinThreshold(), c.HighThreshold())
    && Broadcasts(s.maps[i], e1, l, c.round, true, q, c.MinThreshold(), c.HighThreshold(), true)
    && Broadcasts(s.maps[i], e2, l, c.round, true, q, c.MinThreshold(), c.HighThreshold(), false)
    && s' == Net(s.maps[i := m'], s.lists1 + {(i, e1)}, s.lists2 + {(i, e2)})
  }

  /** `add_echo2` on node i's level. */
  ghost predicate Receive2(c: LevelConfig, s: Net, s': Net, i: Replica, q: Replica, l: seq<Entry>, m': IntervalMap)
    requires c.Valid()
  {
    && i in s.maps && (q, l) in s.lists2
    && Refines(s.maps[i], m', l, c.round, false, q, c.MinThreshold(), c.HighThreshold())
    && s' == s.(maps := s.maps[i := m'])
  }

  /** A faulty node sends any list of values it may send. */
  ghost predicate InjectList(c: LevelConfig, s: Net, s': Net, q: Replica, l: seq<Entry>) {
    && q in c.faulty && (forall p, v :: MIN <= p < MAX && Covers(l, p, v) ==> v in c.values(p))
    && (s' == s.(lists1 := s.lists1 + {(q, l)}) || s' == s.(lists2 := s.lists2 + {(q, l)}))
  }

  /** Node i works on another round. */
  ghost predicate Elsewhere(c: LevelConfig, s: Net, s': Net, i: Replica, m': IntervalMap) {
    && i in s.maps && s' == s.(maps := s.maps[i := m'])
    && forall p :: MIN <= p < MAX ==> RoundAt(m', p, c.round) == RoundAt(s.maps[i], p, c.round)
  }

  ghost predicate NetNext(c: LevelConfig, s: Net, s': Net)
    requires c.Valid()
  {
    || (exists i, m', l :: StartLevel(c, s, s', i, m', l))
    || (exists i, q, l, m', e1, e2 :: Receive1(c, s, s', i, q, l, m', e1, e2))
    || (exists i, q, l, m' :: Receive2(c, s, s', i, q, l, m'))
    || (exists q, l :: InjectList(c, s, s', q, l))
    || (exists i, m' :: Elsewhere(c, s, s', i, m'))
  }

  ghost predicate IsNetRun(c: LevelConfig, run: seq<Net>)
    requires c.Valid()
  {
    run != [] && NetInit(c, run[0]) && forall k :: 0 <= k < |run| - 1 ==> NetNext(c, run[k], run[k + 1])
  }

  // ---- the view of one point ----

  ghost function SentAt(lists: set<(Replica, seq<Entry>)>, p: Point): set<(Replica, Val)> {
    set x, k | x in lists && 0 <= k < |x.1| && x.1[k].start <= p < x.1[k].end :: (x.0, x.1[k].value)
  }

  ghost function View(c: LevelConfig, s: Net, p: Point): System {
    System(map i | i in s.maps :: RoundAt(s.maps[i], p, c.round), SentAt(s.lists1, p), SentAt(s.lists2, p))
  }

  lemma SentCovered(lists: set<(Replica, seq<Entry>)>, q: Replica, l: seq<Entry>, p: Point)
    requires (q, l) in lists
    ensures forall v :: Covers(l, p, v) ==> (q, v) in SentAt(lists, p)
  {
    forall v | Covers(l, p, v) ensures (q, v) in SentAt(lists, p) {
      var k :| 0 <= k < |l| && l[k].start <= p < l[k].end && l[k].value == v;
      assert (q, l).1[k] == l[k];
    }
  }

  /** Sending one more list adds, at p, exactly what the list covers p with. */
  lemma SentMore(lists: set<(Replica, seq<Entry>)>, q: Replica, l: seq<Entry>, p: Point)
    ensures SentAt(lists, p) <= SentAt(lists + {(q, l)}, p)
    ensures forall r, v :: (r, v) in SentAt(lists + {(q, l)}, p) ==>
      ((r, v) in SentAt(lists, p) || (r == q && Covers(l, p, v)))
  {
  }

  lemma JustifiedMore(c: Config, lists: set<(Replica, seq<Entry>)>, q: Replica, l: seq<Entry>, p: Point, a: Val, b: Val)
    requires HonestJustified(c, SentAt(lists, p), a, b)
    requires forall v :: Covers(l, p, v) ==> (v == a || v == b) && (q !in c.faulty ==> c.Justified(v))
    ensures HonestJustified(c, SentAt(lists + {(q, l)}, p), a, b)
  {
    hide SentAt, Covers;
    SentMore(lists, q, l, p);
  }

  // ---- one list, at one point ----

  /** A list received keeps the point's invariant, and what the point sends in
      reply is justified. */
  lemma {:induction false} ListKeeps(c: Config, st: PointState, l: seq<Entry>, p: Point, round: Round, first: bool,
      q: Replica, sent1: set<(Replica, Val)>, sent2: set<(Replica, Val)>, a: Val, b: Val)
    requires c.Valid() && NodeInv(c, RoundIn(st, round), sent1, sent2, a, b)
    requires HonestJustified(c, sent1, a, b) && HonestJustified(c, sent2, a, b)
    requires forall v :: Covers(l, p, v) ==> (q, v) in (if first then sent1 else sent2)
    ensures NodeInv(c, RoundIn(PointRun(st, l, p, round, first, q, c.MinThreshold(), c.HighThreshold()), round),
        sent1, sent2, a, b)
    ensures forall kind1, v :: PointEmits(st, l, p, round, first, q, c.MinThreshold(), c.HighThreshold(), kind1, v) ==>
              (v == a || v == b) && c.Justified(v)
    decreases |l|
  {
    hide NodeInv, HonestJustified, Step, RoundIn, Covers;
    if l != [] {
      var k := |l| - 1;
      PrefixCovers(l, p);
      ListKeeps(c, st, l[..k], p, round, first, q, sent1, sent2, a, b);
      if Inside(l[k], p) {
        var prev := PointRun(st, l[..k], p, round, first, q, c.MinThreshold(), c.HighThreshold());
        var m := MessageOf(first, l[k].value, q);
        DeliverEither(c, RoundIn(prev, round), sent1, sent2, m, a, b);
        StepAtRound(prev, round, m, c.MinThreshold(), c.HighThreshold());
      }
    }
  }

  lemma PrefixCovers(l: seq<Entry>, p: Point)
    requires l != []
    ensures forall v :: Covers(l[..|l| - 1], p, v) ==> Covers(l, p, v)
    ensures Inside(l[|l| - 1], p) ==> Covers(l, p, l[|l| - 1].value)
  {
    forall v | Covers(l[..|l| - 1], p, v) ensures Covers(l, p, v) {
      var i :| 0 <= i < |l| - 1 && l[..|l| - 1][i].start <= p < l[..|l| - 1][i].end && l[..|l| - 1][i].value == v;
      assert l[i] == l[..|l| - 1][i];
    }
  }

  lemma StepAtRound(st: PointState, round: Round, m: Message, minth: nat, highth: nat)
    ensures var at, out := StepAt(st, round, m, minth, highth), Step(RoundIn(st, round), m, minth, highth);
            RoundIn(at.state, round) == Some(out.state) && at.echo1 == out.echo1 && at.echo2 == out.echo2
  {
    hide Step;
  }

  // ---- every step of the net, at one point ----

  lemma StartLevelKeeps(c: LevelConfig, s: Net, s': Net, i: Replica, m': IntervalMap, l: seq<Entry>, p: Point, a: Val,
      b: Val)
    requires c.Valid() && MIN <= p < MAX && c.At(p).TwoValued(a, b) && Inv(c.At(p), View(c, s, p), a, b)
    requires StartLevel(c, s, s', i, m', l)
    ensures Inv(c.At(p), View(c, s', p), a, b)
  {
    hide NodeInv, HonestJustified, SentAt, RoundAt, Covers;
    var cp := c.At(p);
    assert StartsAt(c, i, m', l, p) && cp.inputs[i] == c.start(i, p);
    InputInPlay(cp, i);
    JustifiedMore(cp, s.lists1, i, l, p, a, b);
    SentMore(s.lists1, i, l, p); SentCovered(s'.lists1, i, l, p);
    StartedNode(cp, i, SentAt(s'.lists1, p), SentAt(s.lists2, p), a, b);
    NodeKeeps(cp, View(c, s, p), View(c, s', p), i, a, b);
  }

  lemma Receive1Keeps(c: LevelConfig, s: Net, s': Net, i: Replica, q: Replica, l: seq<Entry>, m': IntervalMap,
      e1: seq<Entry>, e2: seq<Entry>, p: Point, a: Val, b: Val)
    requires c.Valid() && MIN <= p < MAX && Inv(c.At(p), View(c, s, p), a, b)
    requires Receive1(c, s, s', i, q, l, m', e1, e2)
    ensures Inv(c.At(p), View(c, s', p), a, b)
  {
    hide NodeInv, HonestJustified, SentAt, Covers, PointRun, PointEmits, StateAt, RoundIn;
    var cp, v, v' := c.At(p), View(c, s, p), View(c, s', p);
    SentCovered(s.lists1, q, l, p);
    assert i in v.nodes && v.nodes[i] == RoundIn(StateAt(s.maps[i], p), c.round);
    ListKeeps(cp, StateAt(s.maps[i], p), l, p, c.round, true, q, v.sent1, v.sent2, a, b);
    JustifiedMore(cp, s.lists1, i, e1, p, a, b); JustifiedMore(cp, s.lists2, i, e2, p, a, b);
    SentMore(s.lists1, i, e1, p); SentMore(s.lists2, i, e2, p);
    NodeInvGrows(cp, v'.nodes[i], v.sent1, v.sent2, v'.sent1, v'.sent2, a, b);
    NodeKeeps(cp, v, v', i, a, b);
  }

  lemma Receive2Keeps(c: LevelConfig, s: Net, s': Net, i: Replica, q: Replica, l: seq<Entry>, m': IntervalMap,
      p: Point, a: Val, b: Val)
    requires c.Valid() && MIN <= p < MAX && Inv(c.At(p), View(c, s, p), a, b)
    requires Receive2(c, s, s', i, q, l, m')
    ensures Inv(c.At(p), View(c, s', p), a, b)
  {
    hide NodeInv, HonestJustified, SentAt, Covers, PointRun, PointEmits, StateAt, RoundIn;
    var cp, v := c.At(p), View(c, s, p);
    SentCovered(s.lists2, q, l, p);
    assert i in v.nodes && v.nodes[i] == RoundIn(StateAt(s.maps[i], p), c.round);
    ListKeeps(cp, StateAt(s.maps[i], p), l, p, c.round, false, q, v.sent1, v.sent2, a, b);
    NodeKeeps(cp, v, View(c, s', p), i, a, b);
  }

  lemma InjectListKeeps(c: LevelConfig, s: Net, s': Net, q: Replica, l: seq<Entry>, p: Point, a: Val, b: Val)
    requires c.Valid() && MIN <= p < MAX && c.At(p).TwoValued(a, b) && Inv(c.At(p), View(c, s, p), a, b)
    requires InjectList(c, s, s', q, l)
    ensures Inv(c.At(p), View(c, s', p), a, b)
  {
    hide NodeInv, HonestJustified, SentAt, RoundAt, Covers;
    var cp, v, v' := c.At(p), View(c, s, p), View(c, s', p);
    forall x | Covers(l, p, x) ensures x == a || x == b { FaultyInPlay(cp, q, x); }
    JustifiedMore(cp, s.lists1, q, l, p, a, b); JustifiedMore(cp, s.lists2, q, l, p, a, b);
    SentMore(s.lists1, q, l, p); SentMore(s.lists2, q, l, p);
    forall j | j in v'.nodes ensures NodeInv(cp, v'.nodes[j], v'.sent1, v'.sent2, a, b) {
      NodeInvGrows(cp, v.nodes[j], v.sent1, v.sent2, v'.sent1, v'.sent2, a, b);
    }
  }

  lemma NetNextKeeps(c: LevelConfig, s: Net, s': Net, p: Point, a: Val, b: Val)
    requires c.Valid() && MIN <= p < MAX && c.At(p).TwoValued(a, b) && Inv(c.At(p), View(c, s, p), a, b)
    requires NetNext(c, s, s')
    ensures Inv(c.At(p), View(c, s', p), a, b)
  {
    hide Inv, View, StartLevel, Receive1, Receive2, InjectList, Elsewhere;
    if i, m', l :| StartLevel(c, s, s', i, m', l) {
      StartLevelKeeps(c, s, s', i, m', l, p, a, b);
    } else if i, q, l, m', e1, e2 :| Receive1(c, s, s', i, q, l, m', e1, e2) {
      Receive1Keeps(c, s, s', i, q, l, m', e1, e2, p, a, b);
    } else if i, q, l, m' :| Receive2(c, s, s', i, q, l, m') {
      Receive2Keeps(c, s, s', i, q, l, m', p, a, b);
    } else if q, l :| InjectList(c, s, s', q, l) {
      InjectListKeeps(c, s, s', q, l, p, a, b);
    } else {
      var i, m' :| Elsewhere(c, s, s', i, m');
      ElsewhereKeeps(c, s, s', i, m', p);
    }
  }

  lemma ElsewhereKeeps(c: LevelConfig, s: Net, s': Net, i: Replica, m': IntervalMap, p: Point)
    requires MIN <= p < MAX && Elsewhere(c, s, s', i, m')
    ensures View(c, s', p) == View(c, s, p)
  {
    hide RoundAt, SentAt;
  }

  lemma {:induction false} NetRunInv(c: LevelConfig, run: seq<Net>, k: nat, p: Point, a: Val, b: Val)
    requires c.Valid() && MIN <= p < MAX && c.At(p).TwoValued(a, b) && IsNetRun(c, run) && k < |run|
    ensures Inv(c.At(p), View(c, run[k], p), a, b)
  {
    hide NetNext, RoundAt;
    if k > 0 {
      NetRunInv(c, run, k - 1, p, a, b);
      NetNextKeeps(c, run[k - 1], run[k], p, a, b);
    } else {
      NoRound(c.At(p), a, b);
    }
  }

  lemma NoRound(c: Config, a: Val, b: Val)
    requires c.Valid() && a != b
    ensures NodeInv(c, None, {}, {}, a, b)
  {
  }

  // ---- points for which any number of values is in play ----

  lemma ClosedMore(lists: set<(Replica, seq<Entry>)>, q: Replica, l: seq<Entry>, p: Point, w: set<Val>)
    requires (forall r, v :: (r, v) in SentAt(lists, p) ==> v in w) && forall v :: Covers(l, p, v) ==> v in w
    ensures forall r, v :: (r, v) in SentAt(lists + {(q, l)}, p) ==> v in w
  {
    hide SentAt, Covers;
    SentMore(lists, q, l, p);
  }

  /** A list of values in play leaves the point's state and replies in play. */
  lemma {:induction false} ListClosed(w: set<Val>, st: PointState, l: seq<Entry>, p: Point, round: Round, first: bool,
      q: Replica, minth: nat, highth: nat)
    requires ClosedNode(w, RoundIn(st, round)) && forall v :: Covers(l, p, v) ==> v in w
    ensures ClosedNode(w, RoundIn(PointRun(st, l, p, round, first, q, minth, highth), round))
    ensures forall kind1, v :: PointEmits(st, l, p, round, first, q, minth, highth, kind1, v) ==> v in w
    decreases |l|
  {
    hide ClosedNode, Step, RoundIn, Covers;
    if l != [] {
      var k := |l| - 1;
      PrefixCovers(l, p);
      ListClosed(w, st, l[..k], p, round, first, q, minth, highth);
      if Inside(l[k], p) {
        var prev := PointRun(st, l[..k], p, round, first, q, minth, highth);
        var m := MessageOf(first, l[k].value, q);
        StepClosed(w, RoundIn(prev, round), m, minth, highth);
        StepAtRound(prev, round, m, minth, highth);
      }
    }
  }

  lemma NodeClosed(c: Config, v: System, v': System, i: Replica)
    requires Closed(c, v) && i in v.nodes && v'.nodes.Keys == v.nodes.Keys
    requires forall j :: j in v.nodes && j != i ==> v'.nodes[j] == v.nodes[j]
    requires forall r, x :: (r, x) in v'.sent1 || (r, x) in v'.sent2 ==> x in c.InPlay()
    requires ClosedNode(c.InPlay(), v'.nodes[i])
    ensures Closed(c, v')
  {
    hide ClosedNode;
  }

  lemma FreshClosed(w: set<Val>, x: Val, i: Replica)
    requires x in w
    ensures ClosedNode(w, Some(NewWithEcho(x, i)))
  {
  }

  lemma StartLevelClosed(c: LevelConfig, s: Net, s': Net, i: Replica, m': IntervalMap, l: seq<Entry>, p: Point)
    requires c.Valid() && MIN <= p < MAX && Closed(c.At(p), View(c, s, p)) && StartLevel(c, s, s', i, m', l)
    ensures Closed(c.At(p), View(c, s', p))
  {
    hide SentAt, RoundAt, Covers, Config.InPlay, ClosedNode;
    var cp := c.At(p);
    assert StartsAt(c, i, m', l, p) && cp.inputs[i] == c.start(i, p);
    InputInPlay(cp, i);
    ClosedMore(s.lists1, i, l, p, cp.InPlay());
    FreshClosed(cp.InPlay(), c.start(i, p), i);
    NodeClosed(cp, View(c, s, p), View(c, s', p), i);
  }

  lemma Receive1Closed(c: LevelConfig, s: Net, s': Net, i: Replica, q: Replica, l: seq<Entry>, m': IntervalMap,
      e1: seq<Entry>, e2: seq<Entry>, p: Point)
    requires c.Valid() && MIN <= p < MAX && Closed(c.At(p), View(c, s, p)) && Receive1(c, s, s', i, q, l, m', e1, e2)
    ensures Closed(c.At(p), View(c, s', p))
  {
    hide SentAt, Covers, PointRun, PointEmits, StateAt, RoundIn, ClosedNode, Config.InPlay;
    var cp, v := c.At(p), View(c, s, p);
    SentCovered(s.lists1, q, l, p);
    assert i in v.nodes && v.nodes[i] == RoundIn(StateAt(s.maps[i], p), c.round);
    ListClosed(cp.InPlay(), StateAt(s.maps[i], p), l, p, c.round, true, q, c.MinThreshold(), c.HighThreshold());
    ClosedMore(s.lists1, i, e1, p, cp.InPlay()); ClosedMore(s.lists2, i, e2, p, cp.InPlay());
    NodeClosed(cp, v, View(c, s', p), i);
  }

  lemma Receive2Closed(c: LevelConfig, s: Net, s': Net, i: Replica, q: Replica, l: seq<Entry>, m': IntervalMap,
      p: Point)
    requires c.Valid() && MIN <= p < MAX && Closed(c.At(p), View(c, s, p)) && Receive2(c, s, s', i, q, l, m')
    ensures Closed(c.At(p), View(c, s', p))
  {
    hide SentAt, Covers, PointRun, PointEmits, StateAt, RoundIn, ClosedNode, Config.InPlay;
    var cp, v := c.At(p), View(c, s, p);
    SentCovered(s.lists2, q, l, p);
    assert i in v.nodes && v.nodes[i] == RoundIn(StateAt(s.maps[i], p), c.round);
    ListClosed(cp.InPlay(), StateAt(s.maps[i], p), l, p, c.round, false, q, c.MinThreshold(), c.HighThreshold());
    NodeClosed(cp, v, View(c, s', p), i);
  }

  lemma InjectListClosed(c: LevelConfig, s: Net, s': Net, q: Replica, l: seq<Entry>, p: Point)
    requires c.Valid() && MIN <= p < MAX && Closed(c.At(p), View(c, s, p)) && InjectList(c, s, s', q, l)
    ensures Closed(c.At(p), View(c, s', p))
  {
    hide SentAt, RoundAt, Covers, ClosedNode, Config.InPlay;
    var cp := c.At(p);
    forall x | Covers(l, p, x) ensures x in cp.InPlay() { FaultyInPlay(cp, q, x); }
    ClosedMore(s.lists1, q, l, p, cp.InPlay()); ClosedMore(s.lists2, q, l, p, cp.InPlay());
  }

  lemma NetNextClosed(c: LevelConfig, s: Net, s': Net, p: Point)
    requires c.Valid() && MIN <= p < MAX && Closed(c.At(p), View(c, s, p)) && NetNext(c, s, s')
    ensures Closed(c.At(p), View(c, s', p))
  {
    hide Closed, View, StartLevel, Receive1, Receive2, InjectList, Elsewhere;
    if i, m', l :| StartLevel(c, s, s', i, m', l) {
      StartLevelClosed(c, s, s', i, m', l, p);
    } else if i, q, l, m', e1, e2 :| Receive1(c, s, s', i, q, l, m', e1, e2) {
      Receive1Closed(c, s, s', i, q, l, m', e1, e2, p);
    } else if i, q, l, m' :| Receive2(c, s, s', i, q, l, m') {
      Receive2Closed(c, s, s', i, q, l, m', p);
    } else if q, l :| InjectList(c, s, s', q, l) {
      InjectListClosed(c, s, s', q, l, p);
    } else {
      var i, m' :| Elsewhere(c, s, s', i, m');
      ElsewhereKeeps(c, s, s', i, m', p);
    }
  }

  /** In every run, at every point, nothing but the point's values in play is
      sent, and what is decided is made of them. */
  lemma {:induction false} NetRunClosed(c: LevelConfig, run: seq<Net>, k: nat, p: Point)
    requires c.Valid() && MIN <= p < MAX && IsNetRun(c, run) && k < |run|
    ensures Closed(c.At(p), View(c, run[k], p))
  {
    hide NetNext, RoundAt, FromSet;
    if k > 0 {
      NetRunClosed(c, run, k - 1, p);
      NetNextClosed(c, run[k - 1], run[k], p);
    }
  }

  // ---- safety ----

  /** Point p has ended the round on x at node i. */
  ghost predicate EndedAt(c: LevelConfig, s: Net, i: Replica, p: Point, x: Val) {
    i in s.maps && HasTerminated(StateAt(s.maps[i], p), c.round) && StateAt(s.maps[i], p)[c.round].termVal.value == x
  }

  /** Node q has sent a list that covers p with v. */
  ghost predicate SentFor(s: Net, q: Replica, p: Point, v: Val) {
    exists l :: ((q, l) in s.lists1 || (q, l) in s.lists2) && Covers(l, p, v)
  }

  lemma ViewEnded(c: LevelConfig, s: Net, i: Replica, p: Point, x: Val)
    requires EndedAt(c, s, i, p, x)
    ensures var v := View(c, s, p);
            i in v.nodes && Terminated(v.nodes[i]) && v.nodes[i].value.termVal == Some(x)
  {
    hide StateAt, SentAt;
  }

  lemma ViewSent(c: LevelConfig, s: Net, q: Replica, p: Point, x: Val)
    requires SentFor(s, q, p, x)
    ensures (q, x) in View(c, s, p).sent1 || (q, x) in View(c, s, p).sent2
  {
    hide SentAt, Covers;
    var l :| ((q, l) in s.lists1 || (q, l) in s.lists2) && Covers(l, p, x);
    if (q, l) in s.lists1 { SentCovered(s.lists1, q, l, p); } else { SentCovered(s.lists2, q, l, p); }
  }

  /** What is safe at a point alone is safe for the lists and maps. */
  lemma NetSafe(c: LevelConfig, run: seq<Net>, k: nat, p: Point)
    requires c.Valid() && MIN <= p < MAX && (Echoing(c.At(p)) || AnyTwo(c.At(p))) && IsNetRun(c, run) && k < |run|
    ensures Safe(c.At(p), View(c, run[k], p))
  {
    hide NetNext, FromHonest, View, Closed;
    if Echoing(c.At(p)) {
      NetRunClosed(c, run, k, p);
      EchoingSafe(c.At(p), View(c, run[k], p));
    } else {
      var a, b :| c.At(p).TwoValued(a, b);
      NetRunInv(c, run, k, p, a, b);
    }
  }

  /** Safety of the compressed level: in every run, at every point for which
      faulty nodes only repeat honest values or two values are in play, honest
      lists cover the point only with honest start values of that point, and
      honest maps end the round there only on such values or midpoints of two. */
  lemma LevelSafe(c: LevelConfig, run: seq<Net>, k: nat, p: Point)
    requires c.Valid() && MIN <= p < MAX && (Echoing(c.At(p)) || AnyTwo(c.At(p))) && IsNetRun(c, run) && k < |run|
    ensures forall q, v :: SentFor(run[k], q, p, v) && q !in c.faulty ==> c.At(p).Justified(v)
    ensures forall i, x :: EndedAt(c, run[k], i, p, x) ==> FromHonest(c.At(p), x)
  {
    hide IsNetRun, FromHonest, View, SentFor, EndedAt, Echoing, AnyTwo, LevelConfig.At;
    NetSafe(c, run, k, p);
    assert c.At(p).faulty == c.faulty by { AtFaulty(c, p); }
    forall q, v | SentFor(run[k], q, p, v) && q !in c.faulty
        ensures c.At(p).Justified(v) { ViewSent(c, run[k], q, p, v); }
    forall i, x | EndedAt(c, run[k], i, p, x) ensures FromHonest(c.At(p), x) { ViewEnded(c, run[k], i, p, x); }
  }

  lemma AtFaulty(c: LevelConfig, p: Point)
    ensures c.At(p).faulty == c.faulty && c.At(p).inputs.Keys == c.honest
    ensures forall i :: i in c.honest ==> c.At(p).inputs[i] == c.start(i, p)
  {
  }

  /** ... and where faulty values lie between honest ones, or two values are in
      play, the round ends at the point between two honest start values. */
  lemma LevelInRange(c: LevelConfig, run: seq<Net>, k: nat, p: Point)
    requires c.Valid() && MIN <= p < MAX && (FaultyBetween(c.At(p)) || AnyTwo(c.At(p))) && IsNetRun(c, run) && k < |run|
    ensures forall i, x :: EndedAt(c, run[k], i, p, x) ==> Between(c.At(p), x)
  {
    hide IsNetRun, FromHonest, View, EndedAt, Between, FaultyBetween, AnyTwo, Closed, LevelConfig.At;
    forall i, x | EndedAt(c, run[k], i, p, x) ensures Between(c.At(p), x) {
      if FaultyBetween(c.At(p)) {
        NetRunClosed(c, run, k, p);
        ClosedInRange(c.At(p), View(c, run[k], p));
        ViewEnded(c, run[k], i, p, x);
      } else {
        LevelSafe(c, run, k, p);
        HonestBetween(c.At(p), x);
      }
    }
  }

  /** ... so where all honest nodes start a point with the same value, none ends
      the round there on another. */
  lemma UnanimousPoint(c: LevelConfig, run: seq<Net>, k: nat, p: Point, v: Val, i: Replica, x: Val)
    requires c.Valid() && MIN <= p < MAX && AnyTwo(c.At(p)) && IsNetRun(c, run) && k < |run|
    requires forall j :: j in c.honest ==> c.start(j, p) == v
    requires EndedAt(c, run[k], i, p, x)
    ensures x == v
  {
    hide IsNetRun, EndedAt, AnyTwo, LevelConfig.At;
    LevelInRange(c, run, k, p);
    AtFaulty(c, p);
  }

  // ---- across rounds ----

  ghost predicate StartsWithin(c: LevelConfig, p: Point, lo: Val, hi: Val) {
    forall i :: i in c.honest ==> lo <= c.start(i, p) <= hi
  }

  /** Node i has a state in the run in which point p has ended on v. */
  ghost predicate EndsWith(c: LevelConfig, run: seq<Net>, i: Replica, p: Point, v: Val) {
    exists k :: 0 <= k < |run| && EndedAt(c, run[k], i, p, v)
  }

  /** Every value in play for p lies in [lo, hi]. */
  ghost predicate PlaysWithin(c: LevelConfig, p: Point, lo: Val, hi: Val) {
    forall v :: v in c.At(p).InPlay() ==> lo <= v <= hi
  }

  /** In particular so it does when faulty values lie between honest ones. */
  lemma BetweenPlaysWithin(c: LevelConfig, p: Point, lo: Val, hi: Val)
    requires FaultyBetween(c.At(p)) && StartsWithin(c, p, lo, hi)
    ensures PlaysWithin(c, p, lo, hi)
  {
    hide LevelConfig.At, Config.InPlay;
    AtFaulty(c, p);
    forall v | v in c.At(p).InPlay() ensures lo <= v <= hi { assert Between(c.At(p), v); }
  }

  /** A round of the level whose outcomes at point p are the next round's start
      values; for p all values in play lie in [lo, hi], or there are two. */
  ghost predicate Leads(c: LevelConfig, run: seq<Net>, next: LevelConfig, p: Point, lo: Val, hi: Val)
    requires c.Valid()
  {
    && IsNetRun(c, run) && (PlaysWithin(c, p, lo, hi) || AnyTwo(c.At(p)))
    && forall i :: i in next.honest ==> EndsWith(c, run, i, p, next.start(i, p))
  }

  lemma RoundWithin(c: LevelConfig, run: seq<Net>, next: LevelConfig, p: Point, lo: Val, hi: Val)
    requires c.Valid() && MIN <= p < MAX && Leads(c, run, next, p, lo, hi) && StartsWithin(c, p, lo, hi)
    ensures StartsWithin(next, p, lo, hi)
  {
    hide IsNetRun, EndedAt, PlaysWithin, FaultyBetween, AnyTwo, LevelConfig.At;
    AtFaulty(c, p);
    forall i | i in next.honest ensures lo <= next.start(i, p) <= hi {
      var k :| 0 <= k < |run| && EndedAt(c, run[k], i, p, next.start(i, p));
      if PlaysWithin(c, p, lo, hi) {
        EndsWithin(c, run, k, p, i, next.start(i, p), lo, hi);
      } else {
        LevelInRange(c, run, k, p);
      }
    }
  }

  /** What is decided is made of values in play, so it lies where they do. */
  lemma EndsWithin(c: LevelConfig, run: seq<Net>, k: nat, p: Point, i: Replica, x: Val, lo: Val, hi: Val)
    requires c.Valid() && MIN <= p < MAX && IsNetRun(c, run) && k < |run|
    requires PlaysWithin(c, p, lo, hi) && EndedAt(c, run[k], i, p, x)
    ensures lo <= x <= hi
  {
    hide IsNetRun, EndedAt, View, TruncDiv, LevelConfig.At, Config.InPlay;
    NetRunClosed(c, run, k, p);
    ViewEnded(c, run[k], i, p, x);
    var w := c.At(p).InPlay();
    assert ClosedNode(w, View(c, run[k], p).nodes[i]);
    if x !in w {
      var u, v :| u in w && v in w && x == TruncDiv(u + v, 2);
      MidpointBetween(u, v);
    }
  }

  /** Range validity: through any number of rounds, however many values the
      honest nodes come to hold, every honest value of a point stays between the
      least and the greatest honest input of that point, as long as in each round
      faulty values for it do or two values are in play. */
  lemma {:induction false} RangeKept(cs: seq<LevelConfig>, runs: seq<seq<Net>>, p: Point, lo: Val, hi: Val)
    requires |cs| == |runs| + 1 && MIN <= p < MAX && StartsWithin(cs[0], p, lo, hi)
    requires forall r :: 0 <= r < |runs| ==> cs[r].Valid() && Leads(cs[r], runs[r], cs[r + 1], p, lo, hi)
    ensures StartsWithin(cs[|runs|], p, lo, hi)
    decreases |runs|
  {
    hide Leads, StartsWithin, LevelConfig.Valid;
    if runs != [] {
      var k := |runs| - 1;
      RangeKept(cs[..k + 1], runs[..k], p, lo, hi);
      RoundWithin(cs[k], runs[k], cs[k + 1], p, lo, hi);
    }
  }

  // ---- at a point, these steps are those of one instance ----

  /** Entry k is the one entry of the list that covers p. */
  ghost predicate Once(l: seq<Entry>, p: Point, k: nat) {
    k < |l| && Inside(l[k], p) && forall j :: 0 <= j < |l| && j != k ==> !Inside(l[j], p)
  }

  /** As in the list of a whole line that a node starts a round with. */
  lemma ChainOnce(l: seq<Entry>, p: Point) returns (k: nat)
    requires Chain(l, MIN, MAX) && MIN <= p < MAX
    ensures Once(l, p, k)
  {
    k := ChainFind(l, MIN, MAX, p);
  }

  lemma {:induction false} ChainFind(l: seq<Entry>, lo: Point, hi: Point, p: Point) returns (k: nat)
    requires Chain(l, lo, hi) && lo <= p < hi
    ensures Once(l, p, k)
    decreases |l|
  {
    hide Chain;
    ChainSome(l, lo, hi);
    ChainTail(l, lo, hi);
    ChainSpan(l[1..], l[0].end, hi);
    assert forall j :: 1 <= j < |l| ==> l[j] == l[1..][j - 1];
    if p < l[0].end {
      k := 0;
    } else {
      k := ChainFind(l[1..], l[0].end, hi, p);
      k := k + 1;
    }
  }

  lemma ChainSome(l: seq<Entry>, lo: Point, hi: Point)
    requires Chain(l, lo, hi) && lo < hi
    ensures l != [] && l[0].start == lo
  {
  }

  lemma {:induction false} NeverRun(st: PointState, l: seq<Entry>, p: Point, round: Round, first: bool, q: Replica,
      minth: nat, highth: nat)
    requires forall j :: 0 <= j < |l| ==> !Inside(l[j], p)
    ensures PointRun(st, l, p, round, first, q, minth, highth) == st
    ensures forall kind1, v :: !PointEmits(st, l, p, round, first, q, minth, highth, kind1, v)
  {
    hide StepAt;
    if l != [] { NeverRun(st, l[..|l| - 1], p, round, first, q, minth, highth); }
  }

  /** Then the point takes one step, and sends what this step sends. */
  lemma {:induction false} OnceRun(st: PointState, l: seq<Entry>, p: Point, k: nat, round: Round, first: bool,
      q: Replica, minth: nat, highth: nat)
    requires Once(l, p, k)
    ensures var out := Step(RoundIn(st, round), MessageOf(first, l[k].value, q), minth, highth);
            && RoundIn(PointRun(st, l, p, round, first, q, minth, highth), round) == Some(out.state)
            && forall kind1, v :: PointEmits(st, l, p, round, first, q, minth, highth, kind1, v) <==>
                 (if kind1 then out.echo1 else out.echo2) == Some(v)
    decreases |l|
  {
    hide StepAt, Step, RoundIn, MessageOf;
    var n := |l| - 1;
    if k == n {
      NeverRun(st, l[..n], p, round, first, q, minth, highth);
      StepAtRound(st, round, MessageOf(first, l[k].value, q), minth, highth);
    } else {
      OnceRun(st, l[..n], p, k, round, first, q, minth, highth);
    }
  }

  lemma OnceCovers(l: seq<Entry>, p: Point, k: nat, v: Val)
    requires Once(l, p, k)
    ensures Covers(l, p, v) <==> v == l[k].value
  {
  }

  lemma SentExactly(lists: set<(Replica, seq<Entry>)>, q: Replica, l: seq<Entry>, p: Point, more: set<(Replica, Val)>)
    requires forall r, v :: (r, v) in more <==> r == q && Covers(l, p, v)
    ensures SentAt(lists + {(q, l)}, p) == SentAt(lists, p) + more
  {
    hide SentAt, Covers;
    SentMore(lists, q, l, p);
    SentCovered(lists + {(q, l)}, q, l, p);
    var a, b := SentAt(lists + {(q, l)}, p), SentAt(lists, p) + more;
    forall x: (Replica, Val) ensures x in a <==> x in b {
      var (r, v) := x;
      assert x == (r, v);
    }
  }

  /** Starting a round. */
  lemma StartProjects(c: LevelConfig, s: Net, s': Net, i: Replica, m': IntervalMap, l: seq<Entry>, p: Point)
    requires StartLevel(c, s, s', i, m', l) && MIN <= p < MAX
    ensures Start(c.At(p), View(c, s, p), View(c, s', p), i)
  {
    hide RoundAt, SentAt, Covers;
    assert StartsAt(c, i, m', l, p) && Covers(l, p, c.start(i, p));
    SentExactly(s.lists1, i, l, p, {(i, c.start(i, p))});
  }

  /** What is sent for the point is what its one step sends. */
  lemma RepliesOnce(m: IntervalMap, lists: set<(Replica, seq<Entry>)>, i: Replica, e: seq<Entry>, l: seq<Entry>,
      p: Point, k: nat, round: Round, q: Replica, minth: nat, highth: nat, kind1: bool)
    requires MIN <= p < MAX && Once(l, p, k) && Broadcasts(m, e, l, round, true, q, minth, highth, kind1)
    ensures var out := Step(RoundAt(m, p, round), Echo1(l[k].value, q), minth, highth);
            SentAt(lists + {(i, e)}, p) == SentAt(lists, p) + Sends(i, if kind1 then out.echo1 else out.echo2)
  {
    hide StateAt, SentAt, Covers, PointRun, PointEmits, Step, RoundIn;
    OnceRun(StateAt(m, p), l, p, k, round, true, q, minth, highth);
    var out := Step(RoundAt(m, p, round), Echo1(l[k].value, q), minth, highth);
    SentExactly(lists, i, e, p, Sends(i, if kind1 then out.echo1 else out.echo2));
  }

  lemma StateOnce(m: IntervalMap, m': IntervalMap, l: seq<Entry>, p: Point, k: nat, round: Round, first: bool,
      q: Replica, minth: nat, highth: nat)
    requires MIN <= p < MAX && Once(l, p, k) && Refines(m, m', l, round, first, q, minth, highth)
    ensures RoundAt(m', p, round)
      == Some(Step(RoundAt(m, p, round), MessageOf(first, l[k].value, q), minth, highth).state)
  {
    hide StateAt, PointRun, PointEmits, Step, RoundIn, Once;
    OnceRun(StateAt(m, p), l, p, k, round, first, q, minth, highth);
  }

  lemma AtIs(c: LevelConfig, p: Point)
    requires c.Valid()
    ensures c.At(p).Valid()
    ensures c.At(p).n == c.n && c.At(p).t == c.t && c.At(p).inputs.Keys == c.honest
  {
  }

  /** Receiving a list of ECHO1s, or of ECHO2s, from another node. */
  lemma Receive1Projects(c: LevelConfig, s: Net, s': Net, i: Replica, q: Replica, l: seq<Entry>, m': IntervalMap,
      e1: seq<Entry>, e2: seq<Entry>, p: Point, k: nat)
    requires c.Valid() && Receive1(c, s, s', i, q, l, m', e1, e2) && i in c.honest && q != i
    requires MIN <= p < MAX && Once(l, p, k)
    ensures Deliver1(c.At(p), View(c, s, p), View(c, s', p), i, q, l[k].value)
  {
    hide SentAt, Covers, Step, RoundAt, Refines, Broadcasts, LevelConfig.At;
    AtIs(c, p);
    var m, minth, highth := s.maps[i], c.MinThreshold(), c.HighThreshold();
    StateOnce(m, m', l, p, k, c.round, true, q, minth, highth);
    RepliesOnce(m, s.lists1, i, e1, l, p, k, c.round, q, minth, highth, true);
    RepliesOnce(m, s.lists2, i, e2, l, p, k, c.round, q, minth, highth, false);
    OnceCovers(l, p, k, l[k].value);
    SentCovered(s.lists1, q, l, p);
  }

  lemma Receive2Projects(c: LevelConfig, s: Net, s': Net, i: Replica, q: Replica, l: seq<Entry>, m': IntervalMap,
      p: Point, k: nat)
    requires c.Valid() && Receive2(c, s, s', i, q, l, m') && MIN <= p < MAX && Once(l, p, k)
    ensures Deliver2(c.At(p), View(c, s, p), View(c, s', p), i, q, l[k].value)
  {
    hide SentAt, Covers, Step, RoundAt, Refines, Broadcasts, LevelConfig.At;
    AtIs(c, p);
    StateOnce(s.maps[i], m', l, p, k, c.round, false, q, c.MinThreshold(), c.HighThreshold());
    OnceCovers(l, p, k, l[k].value);
    SentCovered(s.lists2, q, l, p);
  }

  // ---- the level's own operations are these steps ----

  /** Handling a message for another round, or starting another, is a step of a
      node that works elsewhere: `Level.AddEcho`, `AddEcho2` and `StartRound` all
      keep the other rounds. */
  lemma OtherRoundElsewhere(c: LevelConfig, s: Net, i: Replica, m': IntervalMap, round: Round)
    requires c.Valid() && i in s.maps && round != c.round && OthersKept(s.maps[i], m', round)
    ensures var s' := s.(maps := s.maps[i := m']);
            Elsewhere(c, s, s', i, m') && NetNext(c, s, s')
  {
    hide RoundAt;
    assert Elsewhere(c, s, s.(maps := s.maps[i := m']), i, m');
  }

  /** What `start_round` does is the net's starting step. */
  lemma StartRoundStarts(c: LevelConfig, i: Replica, m: IntervalMap, l: seq<Entry>, val: Val, maxVal: Val)
    requires Tiles(m) && Ready(m, c.round) && Encodes(m, l, MAX, c.round, val, maxVal)
    requires Tiles(Started(m, MAX, c.round, i, val, maxVal))
    requires forall k, p :: Owns(m, k, p) ==> c.start(i, p) == StartValue(m[k], c.round, val, maxVal)
    ensures var m' := Started(m, MAX, c.round, i, val, maxVal);
      forall p :: MIN <= p < MAX ==> StartsAt(c, i, m', l, p) && Covers(l, p, c.start(i, p))
  {
    hide StateAt, Covers, StartValue, Tiles;
    var m' := Started(m, MAX, c.round, i, val, maxVal);
    forall p | MIN <= p < MAX ensures StartsAt(c, i, m', l, p) && Covers(l, p, c.start(i, p)) {
      var k := OwnerOf(m, p);
      KeyInRange(m, k);
      StateOf(m', k, p);
    }
  }
}
