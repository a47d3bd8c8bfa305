/** Intervals of checkpoints with identical state, maps of intervals that tile
    the line, and the run-length lists exchanged between nodes. */
module Intervals {
  import opened Types
  import opened BinAA

  type Round = nat
  type Point = int

  const MIN: Point := -0x8000_0000_0000_0000
  const MAX: Point := 0x7FFF_FFFF_FFFF_FFFF

  predicate Fits(x: int) { MIN <= x <= MAX }

  /** i64 arithmetic wraps around. */
  function Wrap64(x: int): (r: int)
    ensures Fits(r) && (r - x) % 0x1_0000_0000_0000_0000 == 0
    ensures r == x <==> Fits(x)
  {
    (x - MIN) % 0x1_0000_0000_0000_0000 + MIN
  }

  /** The rounds of one checkpoint. */
  type PointState = map<Round, RoundState>

  datatype Interval = Interval(start: Point, end: Point, state: PointState)

  type IntervalMap = map<Point, Interval>

  /** One message entry: `value` for every point of [start, end). */
  datatype Entry = Entry(start: Point, end: Point, value: Val)

  // ---- one checkpoint ----

  datatype PointOutcome = PointOutcome(state: PointState, echo1: Option<Val>, echo2: Option<Val>)

  /** `Interval::add_echo` and `Interval::add_echo2` on the state they update. */
  function StepAt(st: PointState, round: Round, m: Message, minth: nat, highth: nat): PointOutcome {
    var out := Step(if round in st then Some(st[round]) else None, m, minth, highth);
    PointOutcome(st[round := out.state], out.echo1, out.echo2)
  }

  ghost predicate GoodPoint(st: PointState, minth: nat, highth: nat) {
    forall r :: r in st ==> Good(st[r], minth, highth)
  }

  lemma StepAtGood(st: PointState, round: Round, m: Message, minth: nat, highth: nat)
    requires Separated(minth, highth) && GoodPoint(st, minth, highth)
    ensures GoodPoint(StepAt(st, round, m, minth, highth).state, minth, highth)
  {
    hide Step, Good, Separated;
    StepKeepsGood(if round in st then Some(st[round]) else None, m, minth, highth);
  }

  /** A message for one round leaves all others alone. */
  lemma StepAtOthers(st: PointState, round: Round, m: Message, minth: nat, highth: nat, r: Round)
    requires r != round
    ensures var st' := StepAt(st, round, m, minth, highth).state;
            (r in st' <==> r in st) && (r in st ==> st'[r] == st[r])
  {
    hide Step;
  }

  lemma StepAtIdempotent(st: PointState, round: Round, m: Message, minth: nat, highth: nat)
    requires Separated(minth, highth) && GoodPoint(st, minth, highth)
    ensures var st1 := StepAt(st, round, m, minth, highth).state;
            StepAt(st1, round, m, minth, highth) == PointOutcome(st1, None, None)
  {
    hide Step, Good, Separated;
    StepIdempotent(if round in st then Some(st[round]) else None, m, minth, highth);
    var st1 := StepAt(st, round, m, minth, highth).state;
    assert st1[round := st1[round]] == st1;
  }

  // ---- interval maps ----

  ghost predicate Owns(m: IntervalMap, k: Point, p: Point) {
    k in m && m[k].start <= p < m[k].end
  }

  ghost predicate HasOwner(m: IntervalMap, p: Point) { exists k :: Owns(m, k, p) }

  ghost predicate Placed(m: IntervalMap, k: Point)
    requires k in m
  {
    m[k].start == k && MIN <= k < m[k].end <= MAX
  }

  /** The intervals partition [MIN, MAX), each stored under its start. */
  ghost predicate Tiles(m: IntervalMap) {
    && (forall k :: k in m ==> Placed(m, k))
    && (forall k, l :: k in m && l in m && k < l ==> m[k].end <= l)
    && (forall p :: MIN <= p < MAX ==> HasOwner(m, p))
  }

  /** The state the map holds for point p. */
  ghost function StateAt(m: IntervalMap, p: Point): PointState {
    if HasOwner(m, p) then
      var k :| Owns(m, k, p);
      m[k].state
    else map[]
  }

  /** A round at one point, if the point has it. */
  ghost function RoundIn(st: PointState, round: Round): Option<RoundState> {
    if round in st then Some(st[round]) else None
  }

  ghost function RoundAt(m: IntervalMap, p: Point, round: Round): Option<RoundState> { RoundIn(StateAt(m, p), round) }

  /** At every point all rounds but one are there, or not, as they were. */
  ghost predicate OthersKept(m: IntervalMap, m': IntervalMap, round: Round) {
    forall p, r :: MIN <= p < MAX && r != round ==> RoundAt(m', p, r) == RoundAt(m, p, r)
  }

  lemma OwnerUnique(m: IntervalMap, k: Point, l: Point, p: Point)
    requires Tiles(m) && Owns(m, k, p) && Owns(m, l, p)
    ensures k == l
  {
    assert Placed(m, k) && Placed(m, l);
  }

  lemma StateOf(m: IntervalMap, k: Point, p: Point)
    requires Tiles(m) && Owns(m, k, p)
    ensures StateAt(m, p) == m[k].state
  {
    hide Tiles;
    assert HasOwner(m, p);
    var l :| Owns(m, l, p) && StateAt(m, p) == m[l].state;
    OwnerUnique(m, k, l, p);
  }

  ghost predicate AllGood(m: IntervalMap, minth: nat, highth: nat) {
    forall k :: k in m ==> GoodPoint(m[k].state, minth, highth)
  }

  /** `Interval::split` */
  function SplitInterval(iv: Interval, at: Point): (Interval, Interval) {
    (iv.(end := at), iv.(start := at))
  }

  ghost predicate Straddles(m: IntervalMap, k: Point, x: Point) {
    k in m && m[k].start < x < m[k].end
  }

  /** The map with interval k cut at x. */
  ghost function Cut(m: IntervalMap, k: Point, x: Point): IntervalMap
    requires Straddles(m, k, x)
  {
    m[k := m[k].(end := x)][x := m[k].(start := x)]
  }

  lemma CutTiles(m: IntervalMap, k: Point, x: Point)
    requires Tiles(m) && Straddles(m, k, x)
    ensures Tiles(Cut(m, k, x)) && x !in m
    ensures forall p :: MIN <= p < MAX ==> StateAt(Cut(m, k, x), p) == StateAt(m, p)
  {
    var c := Cut(m, k, x);
    assert Placed(m, k);
    forall p | MIN <= p < MAX ensures HasOwner(c, p) {
      var l := CutOwner(m, k, x, p);
    }
    assert Tiles(c) by { CutPlaced(m, k, x); }
    forall p | MIN <= p < MAX ensures StateAt(c, p) == StateAt(m, p) {
      var l := CutOwner(m, k, x, p);
      StateOf(c, l, p);
      var o :| Owns(m, o, p) && m[o].state == c[l].state;
      StateOf(m, o, p);
    }
  }

  lemma CutOwner(m: IntervalMap, k: Point, x: Point, p: Point) returns (l: Point)
    requires Tiles(m) && Straddles(m, k, x) && MIN <= p < MAX && x !in m
    ensures Owns(Cut(m, k, x), l, p)
    ensures exists o :: Owns(m, o, p) && m[o].state == Cut(m, k, x)[l].state
  {
    assert HasOwner(m, p);
    var o :| Owns(m, o, p);
    assert Placed(m, k);
    l := if o == k && p >= x then x else o;
  }

  lemma CutPlaced(m: IntervalMap, k: Point, x: Point)
    requires Tiles(m) && Straddles(m, k, x) && x !in m
    ensures var c := Cut(m, k, x);
            && (forall l :: l in c ==> Placed(c, l))
            && (forall l, o :: l in c && o in c && l < o ==> c[l].end <= o)
  {
    var c := Cut(m, k, x);
    assert Placed(m, k);
    forall l | l in c ensures Placed(c, l) {
      if l != x { assert Placed(m, l); }
    }
    forall l, o | l in c && o in c && l < o ensures c[l].end <= o {
      if l != x && o != x {
      } else if l == x {
        assert m[k].end <= o by { assert k < o; }
      } else {
        assert l < k ==> m[l].end <= k;
      }
    }
  }

  ghost predicate Aligned(m: IntervalMap, x: Point) { forall k :: !Straddles(m, k, x) }

  /** The map cut at x wherever an interval straddles it. */
  ghost function CutIf(m: IntervalMap, x: Point): IntervalMap {
    if Aligned(m, x) then m
    else
      var k :| Straddles(m, k, x);
      Cut(m, k, x)
  }

  lemma StraddlerUnique(m: IntervalMap, k: Point, l: Point, x: Point)
    requires Tiles(m) && Straddles(m, k, x) && Straddles(m, l, x)
    ensures k == l
  {
    OwnerUnique(m, k, l, x);
  }

  lemma CutIfOf(m: IntervalMap, k: Point, x: Point)
    requires Tiles(m) && Straddles(m, k, x)
    ensures CutIf(m, x) == Cut(m, k, x)
  {
    var l :| Straddles(m, l, x) && CutIf(m, x) == Cut(m, l, x);
    StraddlerUnique(m, k, l, x);
  }

  lemma CutIfCorrect(m: IntervalMap, x: Point)
    requires Tiles(m)
    ensures Tiles(CutIf(m, x)) && Aligned(CutIf(m, x), x)
    ensures forall p :: MIN <= p < MAX ==> StateAt(CutIf(m, x), p) == StateAt(m, p)
    ensures forall y :: Aligned(m, y) ==> Aligned(CutIf(m, x), y)
  {
    hide StateAt;
    if !Aligned(m, x) {
      var k :| Straddles(m, k, x) && CutIf(m, x) == Cut(m, k, x);
      CutTiles(m, k, x);
      var c := Cut(m, k, x);
      forall l ensures !Straddles(c, l, x) {
        if Straddles(m, l, x) { StraddlerUnique(m, k, l, x); }
      }
      forall y, l | Aligned(m, y) ensures !Straddles(c, l, y) {
        assert !Straddles(m, k, y) && !Straddles(m, l, y);
      }
    }
  }

  // ---- stepping a range of whole intervals ----

  ghost function Stepped(m: IntervalMap, lo: Point, hi: Point, round: Round, msg: Message, minth: nat,
      highth: nat): IntervalMap {
    map k | k in m :: if lo <= k < hi then m[k].(state := StepAt(m[k].state, round, msg, minth, highth).state) else m[k]
  }

  lemma SteppedCorrect(m: IntervalMap, lo: Point, hi: Point, round: Round, msg: Message, minth: nat, highth: nat)
    requires Tiles(m) && Aligned(m, lo) && Aligned(m, hi)
    ensures var s := Stepped(m, lo, hi, round, msg, minth, highth);
            && Tiles(s)
            && (forall y :: Aligned(m, y) ==> Aligned(s, y))
            && forall p :: MIN <= p < MAX ==>
                 StateAt(s, p) == if lo <= p < hi then StepAt(StateAt(m, p), round, msg, minth, highth).state
                     else StateAt(m, p)
  {
    hide StepAt, StateAt;
    var s := Stepped(m, lo, hi, round, msg, minth, highth);
    forall k | k in s ensures Placed(s, k) { assert Placed(m, k); }
    forall p | MIN <= p < MAX ensures HasOwner(s, p) {
      assert HasOwner(m, p);
      var k :| Owns(m, k, p);
      assert Owns(s, k, p);
    }
    assert Tiles(s);
    forall p | MIN <= p < MAX
      ensures StateAt(s, p) == if lo <= p < hi then StepAt(StateAt(m, p), round, msg, minth, highth).state
          else StateAt(m, p)
    {
      assert HasOwner(s, p);
      var k :| Owns(s, k, p);
      assert Owns(m, k, p);
      StateOf(s, k, p); StateOf(m, k, p);
      assert Placed(m, k) && !Straddles(m, k, lo) && !Straddles(m, k, hi);
    }
    forall y, k | Aligned(m, y) ensures !Straddles(s, k, y) {
      assert !Straddles(m, k, y);
    }
  }

  // ---- run-length lists ----

  /** Some entry of the list gives point p the value v. */
  ghost predicate Covers(list: seq<Entry>, p: Point, v: Val) {
    exists i :: 0 <= i < |list| && list[i].start <= p < list[i].end && list[i].value == v
  }

  /** No entry runs backwards. */
  ghost predicate Forward(list: seq<Entry>) {
    forall i :: 0 <= i < |list| ==> list[i].start <= list[i].end
  }

  /** No two neighbouring entries touch and share a value. */
  ghost predicate Compressed(list: seq<Entry>) {
    forall i :: 0 <= i < |list| - 1 ==> !(list[i].end == list[i + 1].start && list[i].value == list[i + 1].value)
  }

  /** The list with its last two entries merged if they touch and share a value. */
  function Compress1(list: seq<Entry>): seq<Entry> {
    var num := |list|;
    if num > 1 && list[num - 2].value == list[num - 1].value && list[num - 2].end == list[num - 1].start then
      list[..num - 2] + [Entry(list[num - 2].start, list[num - 1].end, list[num - 1].value)]
    else list
  }

  /** Pushing an entry and compressing adds exactly its coverage, and keeps the
      list compressed. */
  lemma PushCorrect(list: seq<Entry>, e: Entry)
    requires Forward(list) && Compressed(list) && e.start <= e.end
    ensures var r := Compress1(list + [e]);
            && r != [] && Forward(r) && Compressed(r)
            && forall p, v :: Covers(r, p, v) <==> Covers(list, p, v) || (e.start <= p < e.end && e.value == v)
  {
    forall p, v
      ensures Covers(Compress1(list + [e]), p, v) <==> Covers(list, p, v) || (e.start <= p < e.end && e.value == v)
    {
      PushCovers(list, e, p, v);
    }
  }

  lemma PushCovers(list: seq<Entry>, e: Entry, p: Point, v: Val)
    requires Forward(list) && e.start <= e.end
    ensures Covers(Compress1(list + [e]), p, v) <==> Covers(list, p, v) || (e.start <= p < e.end && e.value == v)
  {
    var r, n := Compress1(list + [e]), |list|;
    if Covers(list, p, v) {
      var i :| 0 <= i < n && list[i].start <= p < list[i].end && list[i].value == v;
      assert r[i].start <= p < r[i].end && r[i].value == v;
    }
    if e.start <= p < e.end && e.value == v {
      assert r[|r| - 1].start <= p < r[|r| - 1].end && r[|r| - 1].value == v;
    }
    if Covers(r, p, v) {
      var i :| 0 <= i < |r| && r[i].start <= p < r[i].end && r[i].value == v;
      if i < n { assert list[i].start <= p < list[i].end || e.start <= p < e.end; }
    }
  }

  lemma CoversSnoc(list: seq<Entry>, e: Entry, p: Point, v: Val)
    ensures Covers(list + [e], p, v) <==> Covers(list, p, v) || (e.start <= p < e.end && e.value == v)
  {
    var l := list + [e];
    if Covers(list, p, v) {
      var i :| 0 <= i < |list| && list[i].start <= p < list[i].end && list[i].value == v;
      assert l[i] == list[i];
    }
    assert l[|list|] == e;
  }

  /** `Level::compress`: merges the last entry into the one before it, which
      compresses a list compressed up to its last entry and keeps what it says. */
  method Compress(list: seq<Entry>) returns (r: seq<Entry>)
    ensures r == Compress1(list)
    ensures list != [] && Forward(list) && Compressed(list[..|list| - 1]) ==>
              Forward(r) && Compressed(r) && forall p, v :: Covers(r, p, v) <==> Covers(list, p, v)
  {
    hide Covers;
    if list != [] && Forward(list) && Compressed(list[..|list| - 1]) {
      ghost var init, e := list[..|list| - 1], list[|list| - 1];
      assert list == init + [e];
      PushCorrect(init, e);
      forall p, v ensures Covers(Compress1(list), p, v) <==> Covers(list, p, v) { CoversSnoc(init, e, p, v); }
    }
    r := list;
    var num := |r|;
    if num > 1 {
      var last := r[num - 1];
      if r[num - 2].value == last.value && r[num - 2].end == last.start {
        r := r[num - 2 := r[num - 2].(end := last.end)];
        r := r[..num - 1];
      }
    }
  }
}
