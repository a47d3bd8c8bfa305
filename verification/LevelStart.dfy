/** Starting a round: the canonical run-length encoding of the line. */
module LevelStart {
  import opened Types
  import opened BinAA
  import opened Intervals
  import opened LevelSteps

  predicate HasTerminated(st: PointState, round: Round) {
    round in st && st[round].termVal.Some?
  }

  /** The value `Interval::start_round` starts the round with. */
  function StartValue(iv: Interval, round: Round, val: Val, maxVal: Val): Val
    requires round > 0 ==> HasTerminated(iv.state, round - 1)
  {
    if round > 0 then iv.state[round - 1].termVal.value
    else if iv.start <= val <= iv.end then maxVal else 0
  }

  /** `Interval::start_round` */
  function StartInterval(iv: Interval, round: Round, myid: Replica, val: Val, maxVal: Val): Interval
    requires round > 0 ==> HasTerminated(iv.state, round - 1)
  {
    iv.(state := iv.state[round := NewWithEcho(StartValue(iv, round, val, maxVal), myid)])
  }

  /** The list is the run-length encoding of [lo, hi): consecutive, non-empty
      entries in which neighbours differ. */
  ghost predicate Chain(list: seq<Entry>, lo: Point, hi: Point) {
    && (list == [] ==> lo == hi)
    && (list != [] ==> list[0].start == lo && list[|list| - 1].end == hi)
    && (forall i :: 0 <= i < |list| ==> list[i].start < list[i].end)
    && (forall i :: 0 <= i < |list| - 1 ==> list[i].end == list[i + 1].start && list[i].value != list[i + 1].value)
  }

  lemma ChainPush(list: seq<Entry>, lo: Point, mid: Point, hi: Point, v: Val)
    requires Chain(list, lo, mid) && mid < hi
    ensures Chain(Compress1(list + [Entry(mid, hi, v)]), lo, hi)
  {
  }

  lemma ChainTidy(list: seq<Entry>, lo: Point, hi: Point)
    requires Chain(list, lo, hi)
    ensures Tidy(list)
  {
  }

  ghost predicate Ready(m: IntervalMap, round: Round) {
    round > 0 ==> forall k :: k in m ==> HasTerminated(m[k].state, round - 1)
  }

  lemma AllKeysListed(m: IntervalMap, keys: seq<Point>)
    requires Tiles(m) && forall k :: k in keys <==> k in m && MIN <= k < MAX
    ensures forall k :: k in m <==> k in keys
    ensures forall j :: 0 <= j < |keys| ==> keys[j] in m
  {
    forall k | k in m ensures k in keys { KeyInRange(m, k); }
  }

  lemma TerminatedPointwise(m: IntervalMap, round: Round)
    requires Tiles(m)
    ensures (forall k :: k in m ==> HasTerminated(m[k].state, round))
       <==> (forall p :: MIN <= p < MAX ==> RoundAt(m, p, round).Some? && RoundAt(m, p, round).value.termVal.Some?)
  {
    hide StateAt, Tiles;
    forall p | MIN <= p < MAX
      ensures HasTerminated(StateAt(m, p), round)
        <==> RoundAt(m, p, round).Some? && RoundAt(m, p, round).value.termVal.Some?
    {
    }
    forall k | k in m ensures MIN <= k < MAX && StateAt(m, k) == m[k].state {
      KeyInRange(m, k);
      StateOf(m, k, k);
    }
    forall p | MIN <= p < MAX ensures exists k :: k in m && StateAt(m, p) == m[k].state {
      var k := OwnerOf(m, p);
      StateOf(m, k, p);
    }
  }

  /** The map when the intervals below bound have started the round. */
  ghost function Started(m: IntervalMap, bound: Point, round: Round, myid: Replica, val: Val, maxVal: Val): IntervalMap
    requires Ready(m, round)
  {
    map k | k in m :: if k < bound then StartInterval(m[k], round, myid, val, maxVal) else m[k]
  }

  /** Below bound the list gives each point its interval's start value, and
      nothing beyond. */
  ghost predicate Encodes(m: IntervalMap, list: seq<Entry>, bound: Point, round: Round, val: Val, maxVal: Val)
    requires Ready(m, round)
  {
    && (forall k, p, v :: Owns(m, k, p) && k < bound ==> (Covers(list, p, v) <==> v == StartValue(m[k], round, val,
        maxVal)))
    && (forall p, v :: bound <= p ==> !Covers(list, p, v))
  }

  lemma MinAligned(m: IntervalMap)
    requires Tiles(m)
    ensures Aligned(m, MIN)
  {
    forall k ensures !Straddles(m, k, MIN) {
      if k in m { KeyInRange(m, k); }
    }
  }

  lemma KeyPlace(m: IntervalMap, k: Point)
    requires Tiles(m) && k in m
    ensures m[k].start == k && k < m[k].end <= MAX
  {
    assert Placed(m, k);
  }

  lemma StartNothing(m: IntervalMap, round: Round, myid: Replica, val: Val, maxVal: Val)
    requires Tiles(m) && Ready(m, round)
    ensures Started(m, MIN, round, myid, val, maxVal) == m
    ensures Chain([], MIN, MIN)
    ensures Encodes(m, [], MIN, round, val, maxVal)
  {
    forall k | k in m ensures k >= MIN { KeyInRange(m, k); }
  }

  lemma StartedAt(m: IntervalMap, k: Point, round: Round, myid: Replica, val: Val, maxVal: Val)
    requires Ready(m, round) && k in m
    ensures k in Started(m, k, round, myid, val, maxVal) && Started(m, k, round, myid, val, maxVal)[k] == m[k]
    ensures round > 0 ==> HasTerminated(m[k].state, round - 1)
  {
  }

  lemma StartedStep(m: IntervalMap, k: Point, next: Point, round: Round, myid: Replica, val: Val, maxVal: Val)
    requires Ready(m, round) && k in m && k < next
    requires forall l :: l in m && k < l ==> next <= l
    ensures Started(m, next, round, myid, val, maxVal)
         == Started(m, k, round, myid, val, maxVal)[k := StartInterval(m[k], round, myid, val, maxVal)]
  {
    hide StartInterval, StartValue;
  }

  lemma EncodesStep(m: IntervalMap, list: seq<Entry>, k: Point, round: Round, val: Val, maxVal: Val)
    requires Tiles(m) && Ready(m, round) && k in m && Chain(list, MIN, k)
    requires Encodes(m, list, k, round, val, maxVal)
    ensures Encodes(m, Compress1(list + [Entry(k, m[k].end, StartValue(m[k], round, val, maxVal))]), m[k].end, round,
        val, maxVal)
  {
    hide StartValue, Covers, Compress1;
    KeyPlace(m, k);
    ChainTidy(list, MIN, k);
    var e := Entry(k, m[k].end, StartValue(m[k], round, val, maxVal));
    PushCorrect(list, e);
    var r := Compress1(list + [e]);
    forall l, p, v | Owns(m, l, p) && l < m[k].end
      ensures Covers(r, p, v) <==> v == StartValue(m[l], round, val, maxVal)
    {
      KeyPlace(m, l);
      OwnerOrder(m, k, l);
    }
  }

  /** Starting a round keeps the level valid and resets every point's round. */
  lemma StartedValid(m: IntervalMap, round: Round, myid: Replica, val: Val, maxVal: Val, minth: nat, highth: nat)
    requires Tiles(m) && Ready(m, round) && AllGood(m, minth, highth) && Separated(minth, highth)
    ensures var s := Started(m, MAX, round, myid, val, maxVal);
            && Tiles(s) && AllGood(s, minth, highth)
            && forall k, p :: Owns(m, k, p) ==> k in s && StateAt(s, p) == s[k].state
  {
    hide StartValue, Good, StateAt;
    var s := Started(m, MAX, round, myid, val, maxVal);
    forall k | k in m ensures Placed(s, k) { assert Placed(m, k); KeyInRange(m, k); }
    forall p | MIN <= p < MAX ensures HasOwner(s, p) {
      var k := OwnerOf(m, p);
      assert Owns(s, k, p);
    }
    assert Tiles(s);
    forall k | k in s ensures GoodPoint(s[k].state, minth, highth) {
      KeyInRange(m, k);
      StartedGood(m[k], round, myid, val, maxVal, minth, highth);
    }
    forall k, p | Owns(m, k, p) ensures k in s && StateAt(s, p) == s[k].state {
      StateOf(s, k, p);
    }
  }

  /** Starting a round leaves all others alone, at every point. */
  lemma StartedOthers(m: IntervalMap, round: Round, myid: Replica, val: Val, maxVal: Val)
    requires Tiles(m) && Ready(m, round) && Tiles(Started(m, MAX, round, myid, val, maxVal))
    ensures OthersKept(m, Started(m, MAX, round, myid, val, maxVal), round)
  {
    hide StartValue, StateAt, Tiles;
    var s := Started(m, MAX, round, myid, val, maxVal);
    forall p, r | MIN <= p < MAX && r != round ensures RoundAt(s, p, r) == RoundAt(m, p, r) {
      var k := OwnerOf(m, p);
      KeyInRange(m, k);
      assert Owns(s, k, p);
      StateOf(m, k, p); StateOf(s, k, p);
    }
  }

  lemma StartedGood(iv: Interval, round: Round, myid: Replica, val: Val, maxVal: Val, minth: nat, highth: nat)
    requires round > 0 ==> HasTerminated(iv.state, round - 1)
    requires GoodPoint(iv.state, minth, highth) && Separated(minth, highth)
    ensures GoodPoint(StartInterval(iv, round, myid, val, maxVal).state, minth, highth)
  {
  }

  /** A round after the first starts every point with its own last value. */
  lemma StartIsPointwise(m: IntervalMap, list: seq<Entry>, round: Round, val: Val, maxVal: Val)
    requires Tiles(m) && round > 0 && Ready(m, round) && Encodes(m, list, MAX, round, val, maxVal)
    ensures forall p, v :: MIN <= p < MAX ==>
      (Covers(list, p, v) <==> HasTerminated(StateAt(m, p), round - 1) && v == StateAt(m, p)[round - 1].termVal.value)
  {
    hide StateAt, Covers;
    forall p, v | MIN <= p < MAX
      ensures Covers(list, p, v) <==>
        (HasTerminated(StateAt(m, p), round - 1) && v == StateAt(m, p)[round - 1].termVal.value)
    {
      var k := OwnerOf(m, p);
      StateOf(m, k, p);
      KeyInRange(m, k);
    }
  }

  /** The first round starts every point of an interval with the maximum if the
      interval holds the node's value, its end included, and else with 0. */
  lemma FirstStartIsPointwise(m: IntervalMap, list: seq<Entry>, val: Val, maxVal: Val)
    requires Tiles(m) && Encodes(m, list, MAX, 0, val, maxVal)
    ensures forall k, p, v :: Owns(m, k, p) ==>
      (Covers(list, p, v) <==> v == if m[k].start <= val <= m[k].end then maxVal else 0)
  {
    hide Covers, Tiles;
    forall k, p, v | Owns(m, k, p)
      ensures Covers(list, p, v) <==> v == if m[k].start <= val <= m[k].end then maxVal else 0
    {
      KeyInRange(m, k);
    }
  }

  // ---- the initial level ----

  function ThreeParts(lo: Point, hi: Point): IntervalMap {
    map[MIN := Interval(MIN, lo, map[])][lo := Interval(lo, hi, map[])][hi := Interval(hi, MAX, map[])]
  }

  /** The three intervals partition the line exactly when the bounds are ordered
      and the last interval is not empty. */
  lemma ThreePartsTile(lo: Point, hi: Point)
    requires Fits(lo) && Fits(hi)
    ensures Tiles(ThreeParts(lo, hi)) <==> lo <= hi < MAX
  {
    var m := ThreeParts(lo, hi);
    if lo <= hi < MAX {
      forall p | MIN <= p < MAX ensures HasOwner(m, p) {
        assert Owns(m, if p >= hi then hi else if p < lo then MIN else lo, p);
      }
    } else {
      assert !Placed(m, if hi == MAX then hi else lo);
    }
  }

  /** val lies strictly inside the middle interval of a new level. */
  lemma ValInside(val: Val, sep: Val)
    requires sep > 0
    ensures (TruncDiv(val, sep) - 1) * sep < val < (TruncDiv(val, sep) + 2) * sep
  {
    var q := TruncDiv(val, sep);
    assert (q - 1) * sep == q * sep - sep && (q + 2) * sep == q * sep + 2 * sep;
    if val >= 0 {
      assert q * sep <= val < q * sep + sep;
    } else {
      var n := (-val) / sep;
      assert n * sep <= -val < n * sep + sep;
      assert q * sep == -(n * sep);
    }
  }

  lemma ChainTail(list: seq<Entry>, lo: Point, hi: Point)
    requires Chain(list, lo, hi) && list != []
    ensures Chain(list[1..], list[0].end, hi) && lo < list[0].end
    ensures |list| == 1 ==> list[0].end == hi
  {
  }

  lemma {:induction false} ChainSpan(list: seq<Entry>, lo: Point, hi: Point)
    requires Chain(list, lo, hi)
    ensures lo <= hi
    ensures forall i :: 0 <= i < |list| ==> lo <= list[i].start && list[i].end <= hi
    decreases |list|
  {
    if list != [] {
      ChainTail(list, lo, hi);
      ChainSpan(list[1..], list[0].end, hi);
      assert forall i :: 1 <= i < |list| ==> list[i] == list[1..][i - 1];
    }
  }

  /** At a point below the first entry's end, the list says the first value;
      elsewhere what the rest says. */
  lemma ChainCovers(list: seq<Entry>, lo: Point, hi: Point, p: Point, v: Val)
    requires Chain(list, lo, hi) && list != [] && lo <= p
    ensures Covers(list, p, v) <==> if p < list[0].end then v == list[0].value else Covers(list[1..], p, v)
  {
    ChainTail(list, lo, hi);
    ChainSpan(list[1..], list[0].end, hi);
    assert forall i :: 1 <= i < |list| ==> list[i] == list[1..][i - 1];
    if p < list[0].end {
      assert v == list[0].value ==> list[0].start <= p < list[0].end && list[0].value == v;
    } else if Covers(list[1..], p, v) {
      var i :| 0 <= i < |list[1..]| && list[1..][i].start <= p < list[1..][i].end && list[1..][i].value == v;
      assert list[i + 1] == list[1..][i];
    }
  }

  /** The encoding is canonical: two chains over the same stretch that give every
      point the same values are the same list. */
  lemma {:induction false} ChainUnique(a: seq<Entry>, b: seq<Entry>, lo: Point, hi: Point)
    requires Chain(a, lo, hi) && Chain(b, lo, hi)
    requires forall p, v :: lo <= p < hi ==> (Covers(a, p, v) <==> Covers(b, p, v))
    ensures a == b
    decreases |a|
  {
    hide Covers, Chain;
    if a == [] || b == [] {
      ChainEmpty(a, b, lo, hi);
    } else {
      ChainTail(a, lo, hi); ChainTail(b, lo, hi);
      ChainSpan(a[1..], a[0].end, hi); ChainSpan(b[1..], b[0].end, hi);
      ChainCovers(a, lo, hi, lo, a[0].value); ChainCovers(b, lo, hi, lo, a[0].value);
      FirstEntries(a, b, lo, hi); FirstEntries(b, a, lo, hi);
      var mid := a[0].end;
      forall p, v | mid <= p < hi ensures Covers(a[1..], p, v) <==> Covers(b[1..], p, v) {
        ChainCovers(a, lo, hi, p, v); ChainCovers(b, lo, hi, p, v);
      }
      ChainUnique(a[1..], b[1..], mid, hi);
      SameHeads(a, b, lo, hi);
      assert a == [a[0]] + a[1..] && b == [b[0]] + b[1..];
    }
  }

  lemma SameHeads(a: seq<Entry>, b: seq<Entry>, lo: Point, hi: Point)
    requires Chain(a, lo, hi) && Chain(b, lo, hi) && a != [] && b != []
    requires a[0].value == b[0].value && a[0].end == b[0].end
    ensures a[0] == b[0]
  {
  }

  lemma ChainEmpty(a: seq<Entry>, b: seq<Entry>, lo: Point, hi: Point)
    requires Chain(a, lo, hi) && Chain(b, lo, hi) && (a == [] || b == [])
    ensures a == b
  {
    ChainSpan(a, lo, hi); ChainSpan(b, lo, hi);
  }

  /** The first entry of a does not end before that of b. */
  lemma FirstEntries(a: seq<Entry>, b: seq<Entry>, lo: Point, hi: Point)
    requires Chain(a, lo, hi) && Chain(b, lo, hi) && a != [] && b != []
    requires a[0].value == b[0].value
    requires forall p, v :: lo <= p < hi ==> (Covers(a, p, v) <==> Covers(b, p, v))
    ensures a[0].end >= b[0].end
  {
    hide Covers;
    var e := a[0].end;
    if e < b[0].end {
      ChainTail(a, lo, hi);
      ChainSpan(b, lo, hi);
      var v := a[1].value;
      ChainCovers(b, lo, hi, e, v);
      ChainCovers(a, lo, hi, e, v);
      ChainCovers(a[1..], e, hi, e, v);
    }
  }

  /** The first round of a new level is the three-part list around val. */
  lemma FirstRoundList(list: seq<Entry>, lo: Point, hi: Point, val: Val, maxVal: Val)
    requires MIN < lo < val < hi < MAX && maxVal != 0
    requires Chain(list, MIN, MAX) && Encodes(ThreeParts(lo, hi), list, MAX, 0, val, maxVal)
    ensures list == [Entry(MIN, lo, 0), Entry(lo, hi, maxVal), Entry(hi, MAX, 0)]
  {
    hide Covers;
    var target := [Entry(MIN, lo, 0), Entry(lo, hi, maxVal), Entry(hi, MAX, 0)];
    assert Chain(target, MIN, MAX);
    forall p, v | MIN <= p < MAX ensures Covers(list, p, v) <==> Covers(target, p, v) {
      var m := ThreeParts(lo, hi);
      var k := if p < lo then MIN else if p < hi then lo else hi;
      assert Owns(m, k, p);
      ThreeCovers(lo, hi, maxVal, p, v);
    }
    ChainUnique(list, target, MIN, MAX);
  }

  lemma ThreeCovers(lo: Point, hi: Point, maxVal: Val, p: Point, v: Val)
    requires MIN < lo < hi < MAX && MIN <= p < MAX
    ensures Covers([Entry(MIN, lo, 0), Entry(lo, hi, maxVal), Entry(hi, MAX, 0)], p, v)
       <==> v == if lo <= p < hi then maxVal else 0
  {
    var t := [Entry(MIN, lo, 0), Entry(lo, hi, maxVal), Entry(hi, MAX, 0)];
    var i := if p < lo then 0 else if p < hi then 1 else 2;
    assert t[i].start <= p < t[i].end;
  }
}
