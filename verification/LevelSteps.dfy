/** What processing one message list does to an interval map and to the lists of
    messages to send, point by point. */
module LevelSteps {
  import opened Types
  import opened SetFacts
  import opened BinAA
  import opened Intervals

  // ---- the specification: one instance per point ----

  ghost predicate Inside(e: Entry, p: Point) { e.start <= p < e.end }

  /** The message kind a list of entries carries. */
  function MessageOf(first: bool, v: Val, q: Replica): Message {
    if first then Echo1(v, q) else Echo2(v, q)
  }

  /** Point p's state after one step for each entry that covers p. */
  ghost function PointRun(st: PointState, es: seq<Entry>, p: Point, round: Round, first: bool, q: Replica, minth: nat,
      highth: nat): PointState
  {
    if es == [] then st
    else
      var e := es[|es| - 1];
      var prev := PointRun(st, es[..|es| - 1], p, round, first, q, minth, highth);
      if Inside(e, p) then StepAt(prev, round, MessageOf(first, e.value, q), minth, highth).state else prev
  }

  /** Point p's instance sends v (as ECHO1 or as ECHO2) in one of those steps. */
  ghost predicate PointEmits(st: PointState, es: seq<Entry>, p: Point, round: Round, first: bool, q: Replica,
      minth: nat, highth: nat, kind1: bool, v: Val)
  {
    es != [] &&
    var e := es[|es| - 1];
    var prev := PointRun(st, es[..|es| - 1], p, round, first, q, minth, highth);
    var out := StepAt(prev, round, MessageOf(first, e.value, q), minth, highth);
    || PointEmits(st, es[..|es| - 1], p, round, first, q, minth, highth, kind1, v)
    || (Inside(e, p) && (if kind1 then out.echo1 else out.echo2) == Some(v))
  }

  // ---- sorted iteration over a BTreeMap ----

  ghost predicate Sorted(ks: seq<Point>) { forall i, j :: 0 <= i < j < |ks| ==> ks[i] < ks[j] }

  lemma HasMinimum(s: set<Point>)
    requires s != {}
    ensures exists k :: k in s && forall l :: l in s ==> k <= l
  {
    var x := AnyInt(s);
    var t := s - {x};
    if t == {} {
      forall l | l in s ensures l == x {
        assert l == x || l in t;
      }
    } else {
      HasMinimum(t);
      var k :| k in t && forall l :: l in t ==> k <= l;
      var least := Lesser(x, k);
      assert forall l :: l in s ==> l == x || l in t;
      assert least in s && forall l :: l in s ==> least <= l;
    }
  }

  /** The keys of the map from lo (inclusive) to hi (exclusive), ascending. */
  method KeysBetween(m: IntervalMap, lo: Point, hi: Point) returns (ks: seq<Point>)
    ensures Sorted(ks)
    ensures forall k :: k in ks <==> k in m && lo <= k < hi
  {
    var rest: set<Point> := set k | k in m.Keys && lo <= k < hi;
    ks := [];
    while rest != {}
      invariant Sorted(ks)
      invariant forall i, k :: 0 <= i < |ks| && k in rest ==> ks[i] < k
      invariant forall k :: (k in ks || k in rest) <==> k in m && lo <= k < hi
      decreases rest
    {
      HasMinimum(rest);
      var k :| k in rest && forall l :: l in rest ==> k <= l;
      ks := ks + [k];
      rest := rest - {k};
    }
  }

  // ---- what the two loops of one entry do to the map ----

  /** The pieces of the straddling interval k that the first loop inserts. */
  function Pieces(m: IntervalMap, k: Point, start: Point, end: Point, st: PointState): IntervalMap
    requires k in m
  {
    var (first, second) := SplitInterval(m[k], start);
    if m[k].end > end then
      var (piece, rest) := SplitInterval(second, end);
      map[k := first][start := piece.(state := st)][end := rest]
    else map[k := first][start := second.(state := st)]
  }

  function Lesser(a: Point, b: Point): Point { if a < b then a else b }

  lemma EndAligned(m: IntervalMap, k: Point)
    requires Tiles(m) && k in m
    ensures Aligned(m, m[k].end)
  {
    forall l ensures !Straddles(m, l, m[k].end) {
      if Straddles(m, l, m[k].end) {
        OwnerOrder(m, k, l);
      }
    }
  }

  lemma OwnerOrder(m: IntervalMap, k: Point, l: Point)
    requires Tiles(m) && k in m && l in m
    ensures k == l || m[k].end <= m[l].start || m[l].end <= m[k].start
  {
    assert Placed(m, k) && Placed(m, l);
  }

  /** After both cuts the straddled part of the entry is one whole interval. */
  lemma PieceIsWhole(m: IntervalMap, k: Point, start: Point, end: Point)
    requires Tiles(m) && Straddles(m, k, start) && start <= end
    ensures var hi := Lesser(end, m[k].end);
            var c := Cut(m, k, start);
            var c2 := (if start < hi < m[k].end then
                         c[start := c[start].(end := hi)][hi := c[start].(start := hi)] else c);
            && Tiles(c) && CutIf(c, hi) == c2 && Tiles(c2) && Aligned(c2, start) && Aligned(c2, hi)
            && forall l :: l in c2 && start <= l < hi ==> l == start
  {
    hide StateAt;
    var hi := Lesser(end, m[k].end);
    var c := Cut(m, k, start);
    CutIfOf(m, k, start); CutIfCorrect(m, start); CutTiles(m, k, start);
    CutIfCorrect(c, hi);
    if start < hi < m[k].end {
      CutIfOf(c, start, hi);
    } else if hi == m[k].end {
      EndAligned(c, start);
    }
    var c2 := CutIf(c, hi);
    forall l | l in c2 && start <= l < hi ensures l == start {
      OwnerOrder(c2, start, l);
      assert Placed(c2, l);
    }
  }

  lemma PiecesAreStepped(m: IntervalMap, k: Point, start: Point, end: Point, round: Round, msg: Message, minth: nat,
      highth: nat)
    requires Tiles(m) && Straddles(m, k, start) && start <= end
    ensures m + Pieces(m, k, start, end, StepAt(m[k].state, round, msg, minth, highth).state)
         == Stepped(CutIf(Cut(m, k, start), Lesser(end, m[k].end)), start, Lesser(end, m[k].end), round, msg, minth,
             highth)
  {
    hide StepAt, StateAt, Tiles, CutIf, Aligned, Stepped, Pieces, Cut;
    PieceIsWhole(m, k, start, end);
    CutTiles(m, k, start);
    PlacedAt(m, k);
    var hi := Lesser(end, m[k].end);
    var st := StepAt(m[k].state, round, msg, minth, highth).state;
    var c2 := CutIf(Cut(m, k, start), hi);
    PiecesAre(m, k, start, end, st, c2);
    if start == end {
      SteppedNone(c2, start, round, msg, minth, highth);
    } else {
      SteppedOne(c2, start, hi, round, msg, minth, highth);
    }
  }

  /** The inserted pieces are the cuts, with the new state in the middle one. */
  lemma PiecesAre(m: IntervalMap, k: Point, start: Point, end: Point, st: PointState, c2: IntervalMap)
    requires k in m && m[k].start == k < start <= end && Straddles(m, k, start) && start !in m
    requires var hi, c := Lesser(end, m[k].end), Cut(m, k, start);
             c2 == (if start < hi < m[k].end then c[start := c[start].(end := hi)][hi := c[start].(start := hi)] else c)
    ensures start in c2 && c2[start].state == m[k].state
    ensures m + Pieces(m, k, start, end, st) == if start == end then c2 else c2[start := c2[start].(state := st)]
  {
    if start == end {
      PiecesEmpty(m, k, start, st);
    } else if end < m[k].end {
      PiecesThree(m, k, start, end, st);
    } else {
      PiecesTwo(m, k, start, end, st);
    }
  }

  lemma PiecesEmpty(m: IntervalMap, k: Point, start: Point, st: PointState)
    requires k in m && m[k].start == k < start && Straddles(m, k, start)
    ensures m + Pieces(m, k, start, start, st) == Cut(m, k, start)
  {
  }

  lemma PiecesTwo(m: IntervalMap, k: Point, start: Point, end: Point, st: PointState)
    requires k in m && m[k].start == k < start < end && Straddles(m, k, start) && m[k].end <= end
    ensures m + Pieces(m, k, start, end, st) == Cut(m, k, start)[start := Cut(m, k, start)[start].(state := st)]
  {
  }

  lemma PiecesThree(m: IntervalMap, k: Point, start: Point, end: Point, st: PointState)
    requires k in m && m[k].start == k < start < end < m[k].end && Straddles(m, k, start)
    ensures var c := Cut(m, k, start);
            var c2 := c[start := c[start].(end := end)][end := c[start].(start := end)];
            m + Pieces(m, k, start, end, st) == c2[start := c2[start].(state := st)]
  {
  }

  lemma SteppedNone(m: IntervalMap, x: Point, round: Round, msg: Message, minth: nat, highth: nat)
    ensures Stepped(m, x, x, round, msg, minth, highth) == m
  {
    hide StepAt;
  }

  lemma PlacedAt(m: IntervalMap, k: Point)
    requires Tiles(m) && k in m
    ensures m[k].start == k && k < m[k].end
  {
    assert Placed(m, k);
  }

  /** Stepping a range that is one interval updates that interval. */
  lemma SteppedOne(m: IntervalMap, lo: Point, hi: Point, round: Round, msg: Message, minth: nat, highth: nat)
    requires lo in m && lo < hi
    requires forall l :: l in m && lo <= l < hi ==> l == lo
    ensures Stepped(m, lo, hi, round, msg, minth, highth)
         == m[lo := m[lo].(state := StepAt(m[lo].state, round, msg, minth, highth).state)]
  {
    hide StepAt;
  }

  /** The first loop steps the straddled points of the entry. */
  lemma SplitPhaseCorrect(m: IntervalMap, k: Point, start: Point, end: Point, round: Round, msg: Message, minth: nat,
      highth: nat)
    requires Tiles(m) && Straddles(m, k, start) && start <= end
    ensures var hi := Lesser(end, m[k].end);
            var r := m + Pieces(m, k, start, end, StepAt(m[k].state, round, msg, minth, highth).state);
            && Tiles(r) && Aligned(r, start)
            && forall p :: MIN <= p < MAX ==>
                 StateAt(r, p) == if start <= p < hi then StepAt(StateAt(m, p), round, msg, minth, highth).state
                     else StateAt(m, p)
  {
    hide StepAt, StateAt, Tiles, Stepped, Cut, CutIf, Aligned, Pieces;
    var hi := Lesser(end, m[k].end);
    PieceIsWhole(m, k, start, end);
    PiecesAreStepped(m, k, start, end, round, msg, minth, highth);
    CutTiles(m, k, start);
    CutIfCorrect(Cut(m, k, start), hi);
    SteppedCorrect(CutIf(Cut(m, k, start), hi), start, hi, round, msg, minth, highth);
  }

  /** What the second loop leaves behind: every interval of [start, end) is
      stepped, and one that runs past end is cut there. */
  ghost function RangeResult(m: IntervalMap, start: Point, end: Point, round: Round, msg: Message, minth: nat,
      highth: nat): IntervalMap {
    var stepped := map k | k in m :: if start <= k < end then StepPiece(m[k], end, round, msg, minth, highth) else m[k];
    if Aligned(m, end) then stepped
    else
      var k :| Straddles(m, k, end);
      stepped[end := m[k].(start := end)]
  }

  function StepPiece(iv: Interval, end: Point, round: Round, msg: Message, minth: nat, highth: nat): Interval {
    Interval(iv.start, Lesser(iv.end, end), StepAt(iv.state, round, msg, minth, highth).state)
  }

  lemma RangePhaseCorrect(m: IntervalMap, start: Point, end: Point, round: Round, msg: Message, minth: nat, highth: nat)
    requires Tiles(m) && Aligned(m, start) && start <= end
    ensures var r := RangeResult(m, start, end, round, msg, minth, highth);
            && Tiles(r)
            && forall p :: MIN <= p < MAX ==>
                 StateAt(r, p) == if start <= p < end then StepAt(StateAt(m, p), round, msg, minth, highth).state
                     else StateAt(m, p)
  {
    hide StepAt, StateAt, Tiles, Stepped, Cut, CutIf, Aligned, RangeResult;
    CutIfCorrect(m, end);
    SteppedCorrect(CutIf(m, end), start, end, round, msg, minth, highth);
    RangeIsStepped(m, start, end, round, msg, minth, highth);
  }

  lemma RangeIsStepped(m: IntervalMap, start: Point, end: Point, round: Round, msg: Message, minth: nat, highth: nat)
    requires Tiles(m) && Aligned(m, start) && start <= end
    ensures RangeResult(m, start, end, round, msg, minth, highth)
         == Stepped(CutIf(m, end), start, end, round, msg, minth, highth)
  {
    hide StepAt, StateAt, Tiles, Cut, RangeResult;
    if Aligned(m, end) {
      forall k | k in m ensures m[k].start == k && (start <= k < end ==> m[k].end <= end) {
        PlacedAt(m, k);
        assert !Straddles(m, k, end);
      }
      AlignedRange(m, start, end, round, msg, minth, highth);
    } else {
      var k :| Straddles(m, k, end) && CutIf(m, end) == Cut(m, k, end);
      CutRange(m, k, start, end, round, msg, minth, highth);
    }
  }

  lemma AlignedRange(m: IntervalMap, start: Point, end: Point, round: Round, msg: Message, minth: nat, highth: nat)
    requires Aligned(m, end)
    requires forall k :: k in m ==> m[k].start == k
    requires forall k :: k in m && start <= k < end ==> m[k].end <= end
    ensures RangeResult(m, start, end, round, msg, minth, highth) == Stepped(m, start, end, round, msg, minth, highth)
  {
    hide StepAt;
  }

  lemma CutRange(m: IntervalMap, k: Point, start: Point, end: Point, round: Round, msg: Message, minth: nat,
      highth: nat)
    requires Tiles(m) && Aligned(m, start) && Straddles(m, k, end) && start <= end
    ensures RangeResult(m, start, end, round, msg, minth, highth)
         == Stepped(Cut(m, k, end), start, end, round, msg, minth, highth)
  {
    hide StepAt, StateAt, Tiles;
    PlacedAt(m, k);
    assert !Straddles(m, k, start);
    CutTiles(m, k, end);
    var l :| Straddles(m, l, end) && RangeResult(m, start, end, round, msg, minth, highth)
      == (map k | k in m :: if start <= k < end then StepPiece(m[k], end, round, msg, minth, highth)
          else m[k])[end := m[l].(start := end)];
    StraddlerUnique(m, k, l, end);
    forall o | o in m && o != k && start <= o < end ensures m[o].end <= end && m[o].start == o {
      PlacedAt(m, o);
      if m[o].end > end { StraddlerUnique(m, k, o, end); }
    }
    CutStepped(m, k, start, end, round, msg, minth, highth);
  }

  lemma CutStepped(m: IntervalMap, k: Point, start: Point, end: Point, round: Round, msg: Message, minth: nat,
      highth: nat)
    requires k in m && start <= k < end < m[k].end && m[k].start == k && end !in m
    requires forall o :: o in m && o != k && start <= o < end ==> m[o].end <= end && m[o].start == o
    ensures (map o | o in m :: if start <= o < end then StepPiece(m[o], end, round, msg, minth, highth)
        else m[o])[end := m[k].(start := end)]
         == Stepped(Cut(m, k, end), start, end, round, msg, minth, highth)
  {
    hide StepAt;
  }

  // ---- one entry, pointwise ----

  /** Exactly the points of [lo, hi) are stepped from m to m'. */
  ghost predicate SteppedOn(m: IntervalMap, m': IntervalMap, lo: Point, hi: Point, round: Round, msg: Message,
      minth: nat, highth: nat) {
    forall p :: MIN <= p < MAX ==> StateAt(m', p) == StepIf(lo <= p < hi, StateAt(m, p), round, msg, minth, highth)
  }

  ghost function StepIf(c: bool, st: PointState, round: Round, msg: Message, minth: nat, highth: nat): PointState {
    if c then StepAt(st, round, msg, minth, highth).state else st
  }

  ghost predicate Emits(out: PointOutcome, kind1: bool, v: Val) {
    (if kind1 then out.echo1 else out.echo2) == Some(v)
  }

  /** From list to list' exactly what the points of [lo, hi) send is added. */
  ghost predicate EmittedOn(m: IntervalMap, list: seq<Entry>, list': seq<Entry>, lo: Point, hi: Point, round: Round,
      msg: Message, minth: nat, highth: nat, kind1: bool) {
    forall p, v :: MIN <= p < MAX ==> (Covers(list', p, v) <==>
      (Covers(list, p, v) || (lo <= p < hi && Emits(StepAt(StateAt(m, p), round, msg, minth, highth), kind1, v))))
  }

  /** list' covers what list covers and [lo, hi) with v when the step sends v. */
  ghost predicate Adds(list: seq<Entry>, list': seq<Entry>, lo: Point, hi: Point, out: PointOutcome, kind1: bool) {
    forall p, v :: Covers(list', p, v) <==> (Covers(list, p, v) || (lo <= p < hi && Emits(out, kind1, v)))
  }

  lemma AddsIsEmitted(m: IntervalMap, k: Point, list: seq<Entry>, list': seq<Entry>, lo: Point, hi: Point,
      round: Round, msg: Message, minth: nat, highth: nat, kind1: bool)
    requires Tiles(m) && k in m && m[k].start <= lo && hi <= m[k].end
    requires Adds(list, list', lo, hi, StepAt(m[k].state, round, msg, minth, highth), kind1)
    ensures EmittedOn(m, list, list', lo, hi, round, msg, minth, highth, kind1)
  {
    hide StepAt, StateAt, Tiles, Covers;
    forall p, v | MIN <= p < MAX
      ensures Covers(list', p, v) <==>
        (Covers(list, p, v) || (lo <= p < hi && Emits(StepAt(StateAt(m, p), round, msg, minth, highth), kind1, v)))
    {
      if lo <= p < hi { StateOf(m, k, p); }
    }
  }

  // ---- emission lists ----

  ghost predicate Tidy(list: seq<Entry>) { Forward(list) && Compressed(list) }

  /** Pushes what a step sends for [lo, hi) and compresses. */
  method Emit(list: seq<Entry>, lo: Point, hi: Point, sent: Option<Val>, ghost out: PointOutcome, ghost kind1: bool)
    returns (r: seq<Entry>)
    requires Tidy(list) && lo <= hi && sent == if kind1 then out.echo1 else out.echo2
    ensures Tidy(r) && Adds(list, r, lo, hi, out, kind1)
  {
    r := list;
    if sent.Some? {
      PushCorrect(list, Entry(lo, hi, sent.value));
      r := Intervals.Compress(list + [Entry(lo, hi, sent.value)]);
    }
  }

  lemma SteppedIntro(m: IntervalMap, m': IntervalMap, lo: Point, hi: Point, round: Round, msg: Message, minth: nat,
      highth: nat)
    requires forall p :: MIN <= p < MAX ==>
      StateAt(m', p) == if lo <= p < hi then StepAt(StateAt(m, p), round, msg, minth, highth).state else StateAt(m, p)
    ensures SteppedOn(m, m', lo, hi, round, msg, minth, highth)
  {
    hide StepAt, StateAt;
  }

  lemma NoStraddler(m: IntervalMap, keys: seq<Point>, x: Point)
    requires Tiles(m) && forall k :: k in m && MIN <= k < MAX ==> k in keys
    requires forall j :: 0 <= j < |keys| ==> !Straddles(m, keys[j], x)
    ensures Aligned(m, x)
  {
    forall k ensures !Straddles(m, k, x) {
      if k in m { assert Placed(m, k); }
    }
  }

  lemma NothingHappens(m: IntervalMap, m': IntervalMap, e1: seq<Entry>, e2: seq<Entry>, x: Point, round: Round,
      msg: Message, minth: nat, highth: nat)
    requires m' == m + map[]
    ensures m' == m
    ensures SteppedOn(m, m', x, x, round, msg, minth, highth)
    ensures EmittedOn(m, e1, e1, x, x, round, msg, minth, highth, true)
    ensures EmittedOn(m, e2, e2, x, x, round, msg, minth, highth, false)
  {
    hide StepAt, StateAt, Covers;
    assert m' == m;
  }

  lemma EmittedExtend(m: IntervalMap, k: Point, e: seq<Entry>, l: seq<Entry>, r: seq<Entry>, start: Point, top: Point,
      round: Round, msg: Message, minth: nat, highth: nat, kind1: bool)
    requires Tiles(m) && k in m && start <= k <= top <= m[k].end
    requires EmittedOn(m, e, l, start, k, round, msg, minth, highth, kind1)
    requires Adds(l, r, k, top, StepAt(m[k].state, round, msg, minth, highth), kind1)
    ensures EmittedOn(m, e, r, start, top, round, msg, minth, highth, kind1)
  {
    PlacedAt(m, k);
    AddsIsEmitted(m, k, l, r, k, top, round, msg, minth, highth, kind1);
    EmittedJoin(m, e, l, r, start, k, top, round, msg, minth, highth, kind1);
  }

  lemma EmittedJoin(m: IntervalMap, e: seq<Entry>, l: seq<Entry>, r: seq<Entry>, lo: Point, mid: Point, hi: Point,
      round: Round, msg: Message, minth: nat, highth: nat, kind1: bool)
    requires lo <= mid <= hi
    requires EmittedOn(m, e, l, lo, mid, round, msg, minth, highth, kind1)
    requires EmittedOn(m, l, r, mid, hi, round, msg, minth, highth, kind1)
    ensures EmittedOn(m, e, r, lo, hi, round, msg, minth, highth, kind1)
  {
    hide StepAt, StateAt, Covers;
  }

  // ---- the order in which the second loop meets the intervals ----

  /** The points below this one are done after i keys. */
  ghost function Bound(keys: seq<Point>, i: nat, end: Point): Point
    requires i <= |keys|
  {
    if i < |keys| then keys[i] else end
  }

  lemma OwnerOf(m: IntervalMap, p: Point) returns (k: Point)
    requires Tiles(m) && MIN <= p < MAX
    ensures Owns(m, k, p)
  {
    assert HasOwner(m, p);
    k :| Owns(m, k, p);
  }

  lemma FirstKey(m: IntervalMap, keys: seq<Point>, start: Point, end: Point)
    requires Tiles(m) && Aligned(m, start) && MIN <= start <= end <= MAX && Sorted(keys)
    requires forall k :: k in keys <==> k in m && start <= k < end
    ensures Bound(keys, 0, end) == start
  {
    if start < end {
      var k := OwnerOf(m, start);
      PlacedAt(m, k);
      assert !Straddles(m, k, start);
      assert start in keys;
    }
    HeadMember(keys);
  }

  lemma HeadMember(keys: seq<Point>)
    ensures keys == [] || keys[0] in keys
  {
  }

  lemma NextKey(m: IntervalMap, keys: seq<Point>, i: nat, start: Point, end: Point)
    requires Tiles(m) && end <= MAX && Sorted(keys) && i < |keys|
    requires forall k :: k in keys <==> k in m && start <= k < end
    ensures keys[i] in m && Bound(keys, i + 1, end) == Lesser(m[keys[i]].end, end)
    ensures m[keys[i]].end > end ==> i + 1 == |keys|
    ensures forall l :: l in m && keys[i] < l ==> Bound(keys, i + 1, end) <= l
  {
    var k := keys[i];
    assert k in keys;
    PlacedAt(m, k);
    assert Placed(m, k);
    var e := m[k].end;
    if e < end {
      var l := OwnerOf(m, e);
      PlacedAt(m, l);
      OwnerOrder(m, k, l);
      assert l == e && e in keys;
      var j :| 0 <= j < |keys| && keys[j] == e;
      assert keys[i + 1] in keys;
      PlacedAt(m, keys[i + 1]);
    } else {
      assert i + 1 < |keys| ==> keys[i + 1] in keys;
    }
  }

  // ---- the map while the second loop runs ----

  ghost function InPlace(m: IntervalMap, start: Point, bound: Point, end: Point, round: Round, msg: Message,
      minth: nat, highth: nat): IntervalMap {
    map k | k in m :: if start <= k < bound && m[k].end <= end then StepPiece(m[k], end, round, msg, minth,
        highth) else m[k]
  }

  lemma InPlaceStart(m: IntervalMap, start: Point, end: Point, round: Round, msg: Message, minth: nat, highth: nat)
    ensures InPlace(m, start, start, end, round, msg, minth, highth) == m
  {
    hide StepAt;
  }

  lemma InPlaceAt(m: IntervalMap, k: Point, start: Point, end: Point, round: Round, msg: Message, minth: nat,
      highth: nat)
    requires k in m
    ensures k in InPlace(m, start, k, end, round, msg, minth, highth)
         && InPlace(m, start, k, end, round, msg, minth, highth)[k] == m[k]
  {
    hide StepAt;
  }

  lemma InPlaceStep(m: IntervalMap, keys: seq<Point>, i: nat, start: Point, end: Point, round: Round, msg: Message,
      minth: nat, highth: nat)
    requires i < |keys| && keys[i] in m && m[keys[i]].start == keys[i] && start <= keys[i] < Bound(keys, i + 1, end)
    requires forall l :: l in m && keys[i] < l ==> Bound(keys, i + 1, end) <= l
    ensures var old_, new_ := InPlace(m, start, keys[i], end, round, msg, minth, highth),
                              InPlace(m, start, Bound(keys, i + 1, end), end, round, msg, minth, highth);
            if m[keys[i]].end <= end
            then new_ == old_[keys[i] := m[keys[i]].(state := StepAt(m[keys[i]].state, round, msg, minth,
                highth).state)]
            else new_ == old_
  {
    hide StepAt;
  }

  ghost function CutPieces(m: IntervalMap, k: Point, end: Point, round: Round, msg: Message, minth: nat,
      highth: nat): IntervalMap
    requires k in m
  {
    map[k := StepPiece(m[k], end, round, msg, minth, highth)][end := m[k].(start := end)]
  }

  lemma RangeAssemble(m: IntervalMap, start: Point, end: Point, cut: Option<Point>, round: Round, msg: Message,
      minth: nat, highth: nat)
    requires Tiles(m) && Aligned(m, start) && start <= end
    requires cut.None? ==> forall k :: k in m && start <= k < end ==> m[k].end <= end
    requires cut.Some? ==> cut.value in m && start <= cut.value < end < m[cut.value].end
    ensures InPlace(m, start, end, end, round, msg, minth, highth)
              + (if cut.None? then map[] else CutPieces(m, cut.value, end, round, msg, minth, highth))
         == RangeResult(m, start, end, round, msg, minth, highth)
  {
    hide StepAt, StateAt, Tiles;
    if cut.None? {
      forall k ensures !Straddles(m, k, end) {
        if k in m { PlacedAt(m, k); assert !Straddles(m, k, start); }
      }
      assert Aligned(m, end);
      assert InPlace(m, start, end, end, round, msg, minth, highth) + map[] == RangeResult(m, start, end, round, msg,
          minth, highth);
    } else {
      var k := cut.value;
      PlacedAt(m, k);
      assert Straddles(m, k, end);
      RangeAssembleCut(m, k, start, end, round, msg, minth, highth);
    }
  }

  lemma RangeAssembleCut(m: IntervalMap, k: Point, start: Point, end: Point, round: Round, msg: Message, minth: nat,
      highth: nat)
    requires Tiles(m) && start <= k < end && Straddles(m, k, end)
    ensures InPlace(m, start, end, end, round, msg, minth, highth) + CutPieces(m, k, end, round, msg, minth, highth)
         == RangeResult(m, start, end, round, msg, minth, highth)
  {
    hide StepAt, StateAt, Tiles;
    var l :| Straddles(m, l, end) && RangeResult(m, start, end, round, msg, minth, highth)
      == (map k | k in m :: if start <= k < end then StepPiece(m[k], end, round, msg, minth, highth)
          else m[k])[end := m[l].(start := end)];
    StraddlerUnique(m, k, l, end);
    forall o | o in m && o != k && start <= o < end ensures m[o].end <= end {
      PlacedAt(m, o);
      if m[o].end > end { StraddlerUnique(m, k, o, end); }
    }
    AssembledCut(m, k, start, end, round, msg, minth, highth);
  }

  lemma AssembledCut(m: IntervalMap, k: Point, start: Point, end: Point, round: Round, msg: Message, minth: nat,
      highth: nat)
    requires k in m && start <= k < end < m[k].end
    requires forall o :: o in m && o != k && start <= o < end ==> m[o].end <= end
    ensures InPlace(m, start, end, end, round, msg, minth, highth) + CutPieces(m, k, end, round, msg, minth, highth)
         == (map o | o in m :: if start <= o < end then StepPiece(m[o], end, round, msg, minth, highth) else m[o])
              [end := m[k].(start := end)]
  {
    hide StepAt;
  }

  // ---- the double visit ----

  lemma GoodAt(m: IntervalMap, p: Point, minth: nat, highth: nat)
    requires Tiles(m) && AllGood(m, minth, highth) && MIN <= p < MAX
    ensures GoodPoint(StateAt(m, p), minth, highth)
  {
    var k := OwnerOf(m, p);
    StateOf(m, k, p);
  }

  /** Points below hi are stepped by both loops; idempotence makes that one step. */
  lemma StepTwiceIsOnce(m0: IntervalMap, m1: IntervalMap, m2: IntervalMap, start: Point, hi: Point, end: Point,
      round: Round, msg: Message, minth: nat, highth: nat)
    requires Separated(minth, highth) && Tiles(m0) && AllGood(m0, minth, highth) && start <= hi <= end
    requires SteppedOn(m0, m1, start, hi, round, msg, minth, highth)
    requires SteppedOn(m1, m2, start, end, round, msg, minth, highth)
    ensures SteppedOn(m0, m2, start, end, round, msg, minth, highth)
  {
    hide StepAt, StateAt, Tiles, AllGood;
    forall p | MIN <= p < MAX
      ensures StateAt(m2, p) == StepIf(start <= p < end, StateAt(m0, p), round, msg, minth, highth)
    {
      GoodAt(m0, p, minth, highth);
      StepAtIdempotent(StateAt(m0, p), round, msg, minth, highth);
    }
  }

  lemma EmitTwiceIsOnce(m0: IntervalMap, m1: IntervalMap, e: seq<Entry>, s: seq<Entry>, r: seq<Entry>, start: Point,
      hi: Point, end: Point, round: Round, msg: Message, minth: nat, highth: nat, kind1: bool)
    requires Separated(minth, highth) && Tiles(m0) && AllGood(m0, minth, highth) && start <= hi <= end
    requires SteppedOn(m0, m1, start, hi, round, msg, minth, highth)
    requires EmittedOn(m0, e, s, start, hi, round, msg, minth, highth, kind1)
    requires EmittedOn(m1, s, r, start, end, round, msg, minth, highth, kind1)
    ensures EmittedOn(m0, e, r, start, end, round, msg, minth, highth, kind1)
  {
    hide StepAt, StateAt, Tiles, AllGood, Covers;
    forall p, v | MIN <= p < MAX
      ensures Covers(r, p, v) <==> (Covers(e, p, v)
                || (start <= p < end && Emits(StepAt(StateAt(m0, p), round, msg, minth, highth), kind1, v)))
    {
      GoodAt(m0, p, minth, highth);
      StepAtIdempotent(StateAt(m0, p), round, msg, minth, highth);
    }
  }

  lemma SteppedGood(m: IntervalMap, m': IntervalMap, lo: Point, hi: Point, round: Round, msg: Message, minth: nat,
      highth: nat)
    requires Separated(minth, highth) && Tiles(m) && Tiles(m') && AllGood(m, minth, highth)
    requires SteppedOn(m, m', lo, hi, round, msg, minth, highth)
    ensures AllGood(m', minth, highth)
  {
    hide StepAt, StateAt, Tiles, GoodPoint, Separated;
    forall k | k in m' ensures GoodPoint(m'[k].state, minth, highth) {
      KeyInRange(m', k);
      StateOf(m', k, k);
      GoodAt(m, k, minth, highth);
      StepAtGood(StateAt(m, k), round, msg, minth, highth);
    }
  }

  lemma KeyInRange(m: IntervalMap, k: Point)
    requires Tiles(m) && k in m
    ensures MIN <= k < MAX && Owns(m, k, k)
  {
    assert Placed(m, k);
  }

  // ---- a whole message ----

  /** Points travel as i64. */
  ghost predicate Bounded(entries: seq<Entry>) {
    forall i :: 0 <= i < |entries| ==> MIN <= entries[i].start <= MAX && MIN <= entries[i].end <= MAX
  }

  /** At every point m' holds what the point's own instance would hold. */
  ghost predicate Refines(m: IntervalMap, m': IntervalMap, es: seq<Entry>, round: Round, first: bool, q: Replica,
      minth: nat, highth: nat) {
    forall p :: MIN <= p < MAX ==>
      StateAt(m', p) == PointRun(StateAt(m, p), es, p, round, first, q, minth, highth)
  }

  lemma {:induction false} RunOthers(st: PointState, es: seq<Entry>, p: Point, round: Round, first: bool, q: Replica,
      minth: nat, highth: nat, r: Round)
    requires r != round
    ensures RoundIn(PointRun(st, es, p, round, first, q, minth, highth), r) == RoundIn(st, r)
    decreases |es|
  {
    hide StepAt;
    if es != [] {
      var k := |es| - 1;
      RunOthers(st, es[..k], p, round, first, q, minth, highth, r);
      StepAtOthers(PointRun(st, es[..k], p, round, first, q, minth, highth), round, MessageOf(first, es[k].value, q),
        minth, highth, r);
    }
  }

  /** A whole message leaves all rounds but its own alone, at every point. */
  lemma RefinesOthers(m: IntervalMap, m': IntervalMap, es: seq<Entry>, round: Round, first: bool, q: Replica,
      minth: nat, highth: nat)
    requires Refines(m, m', es, round, first, q, minth, highth)
    ensures OthersKept(m, m', round)
  {
    hide StateAt, PointRun, RoundIn;
    forall p, r | MIN <= p < MAX && r != round ensures RoundAt(m', p, r) == RoundAt(m, p, r) {
      RunOthers(StateAt(m, p), es, p, round, first, q, minth, highth, r);
    }
  }

  /** The list covers point p with v exactly when p's own instance sends v. */
  ghost predicate Broadcasts(m: IntervalMap, list: seq<Entry>, es: seq<Entry>, round: Round, first: bool, q: Replica,
      minth: nat, highth: nat, kind1: bool) {
    forall p, v :: MIN <= p < MAX ==>
      (Covers(list, p, v) <==> PointEmits(StateAt(m, p), es, p, round, first, q, minth, highth, kind1, v))
  }

  lemma EmptyRun(m: IntervalMap, round: Round, first: bool, q: Replica, minth: nat, highth: nat)
    ensures Refines(m, m, [], round, first, q, minth, highth) && Tidy([])
    ensures Broadcasts(m, [], [], round, first, q, minth, highth, true)
    ensures Broadcasts(m, [], [], round, first, q, minth, highth, false)
  {
  }

  lemma RunSnoc(st: PointState, es: seq<Entry>, e: Entry, p: Point, round: Round, first: bool, q: Replica, minth: nat,
      highth: nat)
    ensures PointRun(st, es + [e], p, round, first, q, minth, highth)
         == StepIf(Inside(e, p), PointRun(st, es, p, round, first, q, minth, highth), round, MessageOf(first, e.value,
             q), minth, highth)
    ensures forall kind1, v :: PointEmits(st, es + [e], p, round, first, q, minth, highth, kind1, v) <==>
      (PointEmits(st, es, p, round, first, q, minth, highth, kind1, v)
       || (Inside(e, p) && Emits(StepAt(PointRun(st, es, p, round, first, q, minth, highth), round, MessageOf(first,
           e.value, q), minth, highth), kind1, v)))
  {
    hide StepAt, MessageOf;
    var l := es + [e];
    assert l[..|l| - 1] == es && l[|l| - 1] == e;
  }

  lemma RefinesStep(m: IntervalMap, m1: IntervalMap, m2: IntervalMap, es: seq<Entry>, e: Entry, round: Round,
      first: bool, q: Replica, minth: nat, highth: nat)
    requires Refines(m, m1, es, round, first, q, minth, highth)
    requires SteppedOn(m1, m2, e.start, e.end, round, MessageOf(first, e.value, q), minth, highth)
    ensures Refines(m, m2, es + [e], round, first, q, minth, highth)
  {
    hide StepAt, StateAt, PointRun, MessageOf, PointEmits;
    forall p | MIN <= p < MAX
      ensures StateAt(m2, p) == PointRun(StateAt(m, p), es + [e], p, round, first, q, minth, highth)
    {
      RunSnoc(StateAt(m, p), es, e, p, round, first, q, minth, highth);
    }
  }

  lemma BroadcastsStep(m: IntervalMap, m1: IntervalMap, l: seq<Entry>, r: seq<Entry>, es: seq<Entry>, e: Entry,
      round: Round, first: bool, q: Replica, minth: nat, highth: nat, kind1: bool)
    requires Refines(m, m1, es, round, first, q, minth, highth)
    requires Broadcasts(m, l, es, round, first, q, minth, highth, kind1)
    requires EmittedOn(m1, l, r, e.start, e.end, round, MessageOf(first, e.value, q), minth, highth, kind1)
    ensures Broadcasts(m, r, es + [e], round, first, q, minth, highth, kind1)
  {
    hide StepAt, StateAt, PointRun, MessageOf, PointEmits, Covers;
    forall p, v | MIN <= p < MAX
      ensures Covers(r, p, v) <==> PointEmits(StateAt(m, p), es + [e], p, round, first, q, minth, highth, kind1, v)
    {
      RunSnoc(StateAt(m, p), es, e, p, round, first, q, minth, highth);
    }
  }
}
