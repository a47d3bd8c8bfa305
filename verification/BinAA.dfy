/** One round of Binary Approximate Agreement for one checkpoint: the state that
    counts ECHO1 and ECHO2 messages, as a value and as the mutable object. */
module BinAA {
  import opened Types
  import opened SetFacts

  /** Integer division of i64 truncates towards zero. */
  function TruncDiv(a: int, b: int): int
    requires b > 0
  {
    if a >= 0 then a / b else -((-a) / b)
  }

  /** What remains is smaller than the divisor, and on the dividend's side of 0. */
  lemma TruncDivIs(a: int, b: int)
    requires b > 0
    ensures var rest := a - TruncDiv(a, b) * b;
            if a >= 0 then 0 <= rest < b else -b < rest <= 0
  {
    var n := if a >= 0 then a else -a;
    DivMod(n, b);
    assert a < 0 ==> TruncDiv(a, b) * b == -(n / b * b);
  }

  lemma DivMod(n: nat, b: int)
    requires b > 0
    ensures 0 <= n - n / b * b < b
  {
  }

  datatype Slot = Slot(value: Val, echo1: set<Replica>, echo2: set<Replica>, sent1: bool, sent2: bool)

  datatype RawState = RawState(slots: seq<Slot>, echo1vals: set<Val>, termVal: Option<Val>)

  /** A round object always holds the slot of the first value it saw. */
  type RoundState = s: RawState | s.slots != []
    witness RawState([Slot(0, {}, {}, false, false)], {}, None)

  datatype Message = Echo1(value: Val, sender: Replica) | Echo2(value: Val, sender: Replica)

  /** A state together with the ECHO1 and ECHO2 values the step sends. */
  datatype Outcome = Outcome(state: RoundState, echo1: Option<Val>, echo2: Option<Val>)

  // ---- the step functions ----

  function NewWithEcho(v: Val, q: Replica): RoundState {
    RawState([Slot(v, {q}, {}, false, false)], {}, None)
  }

  function NewWithEcho2(v: Val, q: Replica): RoundState {
    RawState([Slot(v, {}, {q}, false, false)], {}, None)
  }

  lemma TwoElements(s: set<int>)
    requires |s| == 2
    ensures exists a, b :: a < b && s == {a, b}
  {
    var x := AnyInt(s);
    var t := s - {x};
    assert |t| == 1;
    var y := AnyInt(t);
    assert |t - {y}| == 0;
    if x < y { assert s == {x, y}; } else { assert s == {y, x}; }
  }

  lemma HasLeast(s: set<int>)
    requires |s| == 2
    ensures exists a :: a in s && forall x :: x in s ==> a <= x
  {
    TwoElements(s);
    var a, b :| a < b && s == {a, b};
    assert a in s && forall x :: x in s ==> a <= x;
  }

  lemma OneOther(s: set<int>, a: int)
    requires |s| == 2 && a in s
    ensures exists b :: b != a && s == {a, b}
  {
    TwoElements(s);
    var x, y :| x < y && s == {x, y};
    var b := if a == x then y else x;
    assert b != a && s == {a, b};
  }

  /** The truncated mean of the two elements. */
  function Midpoint(s: set<Val>): Val
    requires |s| == 2
  {
    HasLeast(s);
    var a :| a in s && forall x :: x in s ==> a <= x;
    OneOther(s, a);
    var b :| b in s && b != a;
    TruncDiv(a + b, 2)
  }

  lemma MidpointOfPair(a: Val, b: Val)
    requires a != b
    ensures |{a, b}| == 2 && Midpoint({a, b}) == TruncDiv(a + b, 2)
  {
  }

  /** Counts an ECHO1 of q in slot k and crosses at most one threshold. */
  function CountEcho(st: RoundState, k: nat, v: Val, q: Replica, minth: nat, highth: nat): Outcome
    requires k < |st.slots|
  {
    var s := st.slots[k].(echo1 := st.slots[k].echo1 + {q});
    if |s.echo1| >= minth && !s.sent1 then
      Outcome(st.(slots := st.slots[k := s.(sent1 := true)]), Some(v), None)
    else if |s.echo1| >= highth && !s.sent2 then
      var vals := st.echo1vals + {v};
      var term := if |vals| == 2 then Some(Midpoint(vals)) else st.termVal;
      Outcome(RawState(st.slots[k := s.(sent2 := true)], vals, term), None, Some(v))
    else
      Outcome(st.(slots := st.slots[k := s]), None, None)
  }

  function AddEcho(st: RoundState, v: Val, q: Replica, minth: nat, highth: nat): Outcome
  {
    if st.termVal.Some? then Outcome(st, None, None)
    else if st.slots[0].value == v then CountEcho(st, 0, v, q, minth, highth)
    else if |st.slots| == 1 then
      Outcome(st.(slots := st.slots + [Slot(v, {q}, {}, false, false)]), None, None)
    else CountEcho(st, 1, v, q, minth, highth)
  }

  function CountEcho2(st: RoundState, k: nat, q: Replica, highth: nat): RoundState
    requires k < |st.slots|
  {
    var s := st.slots[k].(echo2 := st.slots[k].echo2 + {q});
    RawState(st.slots[k := s], st.echo1vals, if |s.echo2| >= highth then Some(s.value) else st.termVal)
  }

  function AddEcho2(st: RoundState, v: Val, q: Replica, highth: nat): RoundState
  {
    if st.slots[0].value == v then CountEcho2(st, 0, q, highth)
    else if |st.slots| == 1 then st.(slots := st.slots + [Slot(v, {}, {q}, false, false)])
    else CountEcho2(st, 1, q, highth)
  }

  /** What an instance does with a message: create the round on the first one,
      count afterwards. */
  function Step(st: Option<RoundState>, m: Message, minth: nat, highth: nat): Outcome
  {
    match (st, m)
    case (None, Echo1(v, q)) => Outcome(NewWithEcho(v, q), None, None)
    case (None, Echo2(v, q)) => Outcome(NewWithEcho2(v, q), None, None)
    case (Some(s), Echo1(v, q)) => AddEcho(s, v, q, minth, highth)
    case (Some(s), Echo2(v, q)) => Outcome(AddEcho2(s, v, q, highth), None, None)
  }

  // ---- reachable states and idempotence ----

  /** The thresholds are not met by a first sender and not met together. */
  predicate Separated(minth: nat, highth: nat) {
    minth >= 2 && highth >= 2 && minth != highth
  }

  ghost predicate GoodSlot(s: Slot, minth: nat, highth: nat) {
    && (s.sent1 <==> |s.echo1| >= minth)
    && (s.sent2 <==> |s.echo1| >= highth)
  }

  /** Holds in every reachable state: flags record exactly the counts. */
  ghost predicate Good(st: RoundState, minth: nat, highth: nat) {
    && 1 <= |st.slots| <= 2
    && (forall k :: 0 <= k < |st.slots| ==> GoodSlot(st.slots[k], minth, highth))
  }

  lemma CountKeepsGood(st: RoundState, k: nat, v: Val, q: Replica, minth: nat, highth: nat)
    requires Separated(minth, highth) && Good(st, minth, highth) && k < |st.slots|
    ensures Good(CountEcho(st, k, v, q, minth, highth).state, minth, highth)
    ensures Good(CountEcho2(st, k, q, highth), minth, highth)
  {
    InsertSize(st.slots[k].echo1, q);
  }

  lemma StepKeepsGood(st: Option<RoundState>, m: Message, minth: nat, highth: nat)
    requires Separated(minth, highth) && (st.Some? ==> Good(st.value, minth, highth))
    ensures Good(Step(st, m, minth, highth).state, minth, highth)
  {
    hide CountEcho, CountEcho2;
    if st.Some? {
      CountKeepsGood(st.value, 0, m.value, m.sender, minth, highth);
      if |st.value.slots| == 2 { CountKeepsGood(st.value, 1, m.value, m.sender, minth, highth); }
    }
  }

  lemma CountIdempotent(st: RoundState, k: nat, v: Val, q: Replica, minth: nat, highth: nat)
    requires Separated(minth, highth) && Good(st, minth, highth) && k < |st.slots|
    ensures var st1 := CountEcho(st, k, v, q, minth, highth).state;
            CountEcho(st1, k, v, q, minth, highth) == Outcome(st1, None, None)
  {
    InsertSize(st.slots[k].echo1, q);
    var st1 := CountEcho(st, k, v, q, minth, highth).state;
    assert st1.slots[k].echo1 + {q} == st1.slots[k].echo1;
    assert st1.slots[k := st1.slots[k]] == st1.slots;
  }

  lemma Count2Idempotent(st: RoundState, k: nat, q: Replica, highth: nat)
    requires k < |st.slots|
    ensures var st1 := CountEcho2(st, k, q, highth);
            CountEcho2(st1, k, q, highth) == st1
  {
    var st1 := CountEcho2(st, k, q, highth);
    assert st1.slots[k].echo2 + {q} == st1.slots[k].echo2;
    assert st1.slots[k := st1.slots[k]] == st1.slots;
  }

  /** A slot counting q already, below both thresholds, is left alone. */
  lemma FreshSlotIdempotent(st: RoundState, k: nat, m: Message, minth: nat, highth: nat)
    requires Separated(minth, highth) && k < |st.slots|
    requires st.slots[k] == match m { case Echo1(v, q) => Slot(v, {q}, {}, false, false)
                                      case Echo2(v, q) => Slot(v, {}, {q}, false, false) }
    ensures CountEcho(st, k, m.value, m.sender, minth, highth) == Outcome(st, None, None) || m.Echo2?
    ensures CountEcho2(st, k, m.sender, highth) == st || m.Echo1?
  {
    assert {m.sender} + {m.sender} == {m.sender};
    assert st.slots[k := st.slots[k]] == st.slots;
  }

  /** Processing the same message again changes nothing and sends nothing. */
  lemma StepIdempotent(st: Option<RoundState>, m: Message, minth: nat, highth: nat)
    requires Separated(minth, highth) && (st.Some? ==> Good(st.value, minth, highth))
    ensures var st1 := Step(st, m, minth, highth).state;
            Step(Some(st1), m, minth, highth) == Outcome(st1, None, None)
  {
    hide CountEcho, CountEcho2;
    var st1 := Step(st, m, minth, highth).state;
    if st.None? {
      FreshSlotIdempotent(st1, 0, m, minth, highth);
    } else if m.Echo1? && st.value.termVal.Some? {
    } else if st.value.slots[0].value != m.value && |st.value.slots| == 1 {
      FreshSlotIdempotent(st1, 1, m, minth, highth);
    } else {
      var k := if st.value.slots[0].value == m.value then 0 else 1;
      CountShape(st.value, k, m, minth, highth);
      CountIdempotent(st.value, k, m.value, m.sender, minth, highth);
      Count2Idempotent(st.value, k, m.sender, highth);
    }
  }

  /** Counting keeps the number of slots and their values. */
  lemma CountShape(st: RoundState, k: nat, m: Message, minth: nat, highth: nat)
    requires k < |st.slots|
    ensures var st1 := CountEcho(st, k, m.value, m.sender, minth, highth).state;
            |st1.slots| == |st.slots| && forall j :: 0 <= j < |st.slots| ==> st1.slots[j].value == st.slots[j].value
    ensures var st2 := CountEcho2(st, k, m.sender, highth);
            |st2.slots| == |st.slots| && forall j :: 0 <= j < |st.slots| ==> st2.slots[j].value == st.slots[j].value
  {
  }
}
