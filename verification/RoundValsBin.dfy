/** The mutable round object, proved against the step functions. */
module RoundValsBin {
  import opened Types
  import opened BinAA

  /** `RoundStateBin` */
  class RoundStateBin {
    var slots: seq<Slot>
    var echo1vals: set<Val>
    var echo2vals: seq<Val>
    var termVal: Option<Val>

    ghost predicate Valid()
      reads this
    {
      slots != []
    }

    ghost function State(): RoundState
      requires Valid()
      reads this
    {
      RawState(slots, echo1vals, termVal)
    }

    constructor NewWithEcho(v: Val, q: Replica)
      ensures Valid() && State() == BinAA.NewWithEcho(v, q) && echo2vals == []
    {
      slots, echo1vals, echo2vals, termVal := [Slot(v, {q}, {}, false, false)], {}, [], None;
    }

    constructor NewWithEcho2(v: Val, q: Replica)
      ensures Valid() && State() == BinAA.NewWithEcho2(v, q) && echo2vals == []
    {
      slots, echo1vals, echo2vals, termVal := [Slot(v, {}, {q}, false, false)], {}, [], None;
    }

    /** `add_echo` */
    method AddEcho(v: Val, q: Replica, minth: nat, highth: nat) returns (echo1: Option<Val>, echo2: Option<Val>)
      requires Valid()
      modifies this
      ensures Valid() && BinAA.AddEcho(old(State()), v, q, minth, highth) == Outcome(State(), echo1, echo2)
      ensures echo2vals == old(echo2vals)
    {
      echo1, echo2 := None, None;
      if termVal.Some? { return; }
      if slots[0].value == v {
        echo1, echo2 := Count(0, v, q, minth, highth);
      } else if |slots| == 1 {
        slots := slots + [Slot(v, {q}, {}, false, false)];
      } else {
        echo1, echo2 := Count(1, v, q, minth, highth);
      }
    }

    /** The body both arms of `add_echo` share. */
    method Count(k: nat, v: Val, q: Replica, minth: nat, highth: nat) returns (echo1: Option<Val>, echo2: Option<Val>)
      requires k < |slots| && termVal.None?
      modifies this`slots, this`echo1vals, this`termVal
      ensures Valid() && CountEcho(old(State()), k, v, q, minth, highth) == Outcome(State(), echo1, echo2)
    {
      hide Midpoint;
      echo1, echo2 := None, None;
      slots := slots[k := slots[k].(echo1 := slots[k].echo1 + {q})];
      if |slots[k].echo1| >= minth && !slots[k].sent1 {
        echo1 := Some(v);
        slots := slots[k := slots[k].(sent1 := true)];
      } else if |slots[k].echo1| >= highth && !slots[k].sent2 {
        echo2 := Some(v);
        echo1vals := echo1vals + {v};
        if |echo1vals| == 2 {
          termVal := Some(Midpoint(echo1vals));
        }
        slots := slots[k := slots[k].(sent2 := true)];
      }
      ghost var was := old(slots)[k].(echo1 := old(slots)[k].echo1 + {q});
      assert old(slots)[k := was][k := slots[k]] == old(slots)[k := slots[k]];
    }

    /** `add_echo2` */
    method AddEcho2(v: Val, q: Replica, highth: nat)
      requires Valid()
      modifies this
      ensures Valid() && State() == BinAA.AddEcho2(old(State()), v, q, highth)
      ensures var k := if old(slots)[0].value == v then 0 else 1;
        echo2vals == old(echo2vals) + (if k < |old(slots)| && |slots[k].echo2| >= highth then [v] else [])
    {
      if slots[0].value == v {
        slots := slots[0 := slots[0].(echo2 := slots[0].echo2 + {q})];
        if |slots[0].echo2| >= highth {
          echo2vals := echo2vals + [v];
          termVal := Some(v);
        }
      } else if |slots| == 1 {
        slots := slots + [Slot(v, {}, {q}, false, false)];
      } else {
        slots := slots[1 := slots[1].(echo2 := slots[1].echo2 + {q})];
        if |slots[1].echo2| >= highth {
          echo2vals := echo2vals + [v];
          termVal := Some(slots[1].value);
        }
      }
    }
  }
}
