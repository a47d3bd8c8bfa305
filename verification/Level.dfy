/** A level of checkpoints: the interval map and the message lists it exchanges,
    proved to act on every point of the line as one instance per point would. */
module DelphiLevel {
  import opened Types
  import opened BinAA
  import opened Intervals
  import opened LevelSteps
  import opened LevelStart

  class Level {
    var intervals: IntervalMap
    const sep: Val
    const minth: nat
    const highth: nat

    ghost predicate Valid()
      reads this
    {
      Tiles(intervals) && AllGood(intervals, minth, highth) && Separated(minth, highth)
    }

    /** `Level::new`: three intervals, the middle one around val, with i64
        arithmetic.  The level is valid exactly when no bound wraps out of order. */
    constructor (sep: Val, val: Val, minth: nat, highth: nat)
      requires sep > 0 && Separated(minth, highth)
      ensures this.sep == sep && this.minth == minth && this.highth == highth
      ensures var lo, hi := Wrap64((TruncDiv(val, sep) - 1) * sep), Wrap64((TruncDiv(val, sep) + 2) * sep);
              intervals == ThreeParts(lo, hi) && (Valid() <==> lo <= hi < MAX)
    {
      hide TruncDiv, Wrap64;
      this.sep, this.minth, this.highth := sep, minth, highth;
      var lo, hi := Wrap64((TruncDiv(val, sep) - 1) * sep), Wrap64((TruncDiv(val, sep) + 2) * sep);
      intervals := map[MIN := Interval(MIN, lo, map[])][lo := Interval(lo, hi, map[])][hi := Interval(hi, MAX, map[])];
      ThreePartsTile(lo, hi);
    }

    /** The first loop of an entry: cut the straddling interval, step the piece. */
    method SplitPhase(start: Point, end: Point, round: Round, msg: Message, e1: seq<Entry>, e2: seq<Entry>)
      returns (r1: seq<Entry>, r2: seq<Entry>, ghost hi: Point)
      requires Tiles(intervals) && start <= end && Tidy(e1) && Tidy(e2)
      modifies this`intervals
      ensures Tidy(r1) && Tidy(r2) && start <= hi <= end
      ensures Tiles(intervals) && Aligned(intervals, start)
      ensures SteppedOn(old(intervals), intervals, start, hi, round, msg, minth, highth)
      ensures EmittedOn(old(intervals), e1, r1, start, hi, round, msg, minth, highth, true)
      ensures EmittedOn(old(intervals), e2, r2, start, hi, round, msg, minth, highth, false)
    {
      hide StepAt, StateAt, Tiles, Covers, Tidy, Pieces, Adds, EmittedOn, SteppedOn;
      r1, r2, hi := e1, e2, start;
      var pieces: IntervalMap := map[];
      ghost var hit: Option<Point> := None;
      ghost var m := intervals;
      var keys := KeysBetween(intervals, MIN, MAX);
      for i := 0 to |keys|
        invariant intervals == m && Tidy(r1) && Tidy(r2)
        invariant hit.None? ==> (pieces == map[] && r1 == e1 && r2 == e2)
        invariant hit.None? ==> forall j :: 0 <= j < i ==> !Straddles(m, keys[j], start)
        invariant hit.Some? ==> Straddles(m, hit.value, start) && exists j :: 0 <= j < i && keys[j] == hit.value
        invariant hit.Some? ==> Hit(m, hit.value, start, end, round, msg, pieces, e1, r1, e2, r2)
      {
        var k := keys[i];
        var interval := intervals[k];
        if interval.start < start && interval.end > start {
          if hit.Some? { StraddlerUnique(m, hit.value, k, start); }
          var out := StepAt(interval.state, round, msg, minth, highth);
          var top := Lesser(end, interval.end);
          r1 := Emit(r1, start, top, out.echo1, out, true);
          r2 := Emit(r2, start, top, out.echo2, out, false);
          pieces := Pieces(intervals, k, start, end, out.state);
          hit := Some(k);
        }
      }
      intervals := intervals + pieces;
      if hit.Some? {
        var k := hit.value;
        hi := Lesser(end, m[k].end);
        SplitPhaseCorrect(m, k, start, end, round, msg, minth, highth);
        AddsIsEmitted(m, k, e1, r1, start, hi, round, msg, minth, highth, true);
        AddsIsEmitted(m, k, e2, r2, start, hi, round, msg, minth, highth, false);
        SteppedIntro(m, intervals, start, hi, round, msg, minth, highth);
      } else {
        NoStraddler(m, keys, start);
        NothingHappens(m, intervals, e1, e2, start, round, msg, minth, highth);
      }
    }

    /** The second loop: step every interval of [start, end) in place, and cut
        the one that runs past end. */
    method RangePhase(start: Point, end: Point, round: Round, msg: Message, e1: seq<Entry>, e2: seq<Entry>)
      returns (r1: seq<Entry>, r2: seq<Entry>)
      requires Tiles(intervals) && Aligned(intervals, start) && MIN <= start <= end <= MAX && Tidy(e1) && Tidy(e2)
      modifies this`intervals
      ensures Tidy(r1) && Tidy(r2) && Tiles(intervals)
      ensures SteppedOn(old(intervals), intervals, start, end, round, msg, minth, highth)
      ensures EmittedOn(old(intervals), e1, r1, start, end, round, msg, minth, highth, true)
      ensures EmittedOn(old(intervals), e2, r2, start, end, round, msg, minth, highth, false)
    {
      hide StepAt, StateAt, Tiles, Covers, Tidy, Adds, EmittedOn, SteppedOn, InPlace, Aligned, RangeResult;
      r1, r2 := e1, e2;
      var pieces: IntervalMap := map[];
      ghost var cut: Option<Point> := None;
      ghost var m := intervals;
      var keys := KeysBetween(intervals, start, end);
      FirstKey(m, keys, start, end);
      InPlaceStart(m, start, end, round, msg, minth, highth);
      NothingHappens(m, m + map[], e1, e2, start, round, msg, minth, highth);
      for i := 0 to |keys|
        invariant intervals == InPlace(m, start, Bound(keys, i, end), end, round, msg, minth, highth)
        invariant Tidy(r1) && Tidy(r2)
        invariant cut.None? ==> pieces == map[] && forall j :: 0 <= j < i ==> m[keys[j]].end <= end
        invariant cut.Some? ==> cut.value in m && start <= cut.value < end < m[cut.value].end
        invariant cut.Some? ==> pieces == CutPieces(m, cut.value, end, round, msg, minth, highth) && i == |keys|
        invariant EmittedOn(m, e1, r1, start, Bound(keys, i, end), round, msg, minth, highth, true)
        invariant EmittedOn(m, e2, r2, start, Bound(keys, i, end), round, msg, minth, highth, false)
      {
        var k := keys[i];
        InPlaceAt(m, k, start, end, round, msg, minth, highth);
        PlacedAt(m, k);
        NextKey(m, keys, i, start, end);
        InPlaceStep(m, keys, i, start, end, round, msg, minth, highth);
        var interval := intervals[k];
        var out := StepAt(interval.state, round, msg, minth, highth);
        var top := Lesser(interval.end, end);
        r1, r2 := EmitBoth(m, k, start, top, round, msg, e1, r1, e2, r2, out);
        if interval.end <= end {
          intervals := intervals[k := interval.(state := out.state)];
        } else {
          var (s, l) := SplitInterval(interval, end);
          pieces := map[k := s.(state := out.state)][end := l];
          cut := Some(k);
        }
      }
      intervals := intervals + pieces;
      RangeAssemble(m, start, end, cut, round, msg, minth, highth);
      RangePhaseCorrect(m, start, end, round, msg, minth, highth);
      SteppedIntro(m, intervals, start, end, round, msg, minth, highth);
    }

    method EmitBoth(ghost m: IntervalMap, k: Point, ghost start: Point, top: Point, ghost round: Round,
        ghost msg: Message, ghost e1: seq<Entry>, l1: seq<Entry>, ghost e2: seq<Entry>, l2: seq<Entry>,
        out: PointOutcome)
      returns (r1: seq<Entry>, r2: seq<Entry>)
      requires Tiles(m) && k in m && start <= k <= top <= m[k].end && Tidy(l1) && Tidy(l2)
      requires out == StepAt(m[k].state, round, msg, minth, highth)
      requires EmittedOn(m, e1, l1, start, k, round, msg, minth, highth, true)
      requires EmittedOn(m, e2, l2, start, k, round, msg, minth, highth, false)
      ensures Tidy(r1) && Tidy(r2)
      ensures EmittedOn(m, e1, r1, start, top, round, msg, minth, highth, true)
      ensures EmittedOn(m, e2, r2, start, top, round, msg, minth, highth, false)
    {
      hide StepAt, StateAt, Tiles, Covers, Tidy, Adds, EmittedOn;
      r1 := Emit(l1, k, top, out.echo1, out, true);
      r2 := Emit(l2, k, top, out.echo2, out, false);
      EmittedExtend(m, k, e1, l1, r1, start, top, round, msg, minth, highth, true);
      EmittedExtend(m, k, e2, l2, r2, start, top, round, msg, minth, highth, false);
    }

    /** One entry: both loops together step each of its points exactly once,
        although the freshly split piece is visited by both. */
    method ApplyEntry(start: Point, end: Point, round: Round, msg: Message, e1: seq<Entry>, e2: seq<Entry>)
      returns (r1: seq<Entry>, r2: seq<Entry>)
      requires Valid() && MIN <= start <= end <= MAX && Tidy(e1) && Tidy(e2)
      modifies this`intervals
      ensures Valid() && Tidy(r1) && Tidy(r2)
      ensures SteppedOn(old(intervals), intervals, start, end, round, msg, minth, highth)
      ensures EmittedOn(old(intervals), e1, r1, start, end, round, msg, minth, highth, true)
      ensures EmittedOn(old(intervals), e2, r2, start, end, round, msg, minth, highth, false)
    {
      hide StepAt, StateAt, Tiles, Covers, Tidy, EmittedOn, SteppedOn, Aligned, AllGood, Separated;
      ghost var m0 := intervals;
      ghost var hi;
      r1, r2, hi := SplitPhase(start, end, round, msg, e1, e2);
      ghost var m1, s1, s2 := intervals, r1, r2;
      r1, r2 := RangePhase(start, end, round, msg, r1, r2);
      StepTwiceIsOnce(m0, m1, intervals, start, hi, end, round, msg, minth, highth);
      EmitTwiceIsOnce(m0, m1, e1, s1, r1, start, hi, end, round, msg, minth, highth, true);
      EmitTwiceIsOnce(m0, m1, e2, s2, r2, start, hi, end, round, msg, minth, highth, false);
      SteppedGood(m0, intervals, start, end, round, msg, minth, highth);
    }

    /** `add_echo`: the map keeps holding, for every point of the line, what one
        instance per point would hold, and the lists to broadcast cover exactly
        what those instances send.  An entry that runs backwards makes the
        BTreeMap range panic: then `ok` is false and nothing is claimed. */
    method AddEcho(entries: seq<Entry>, round: Round, q: Replica) returns (ok: bool, e1: seq<Entry>, e2: seq<Entry>)
      requires Valid() && Bounded(entries)
      modifies this`intervals
      ensures ok <==> Forward(entries)
      ensures ok ==> Valid() && Tidy(e1) && Tidy(e2) && OthersKept(old(intervals), intervals, round)
      ensures ok ==> Refines(old(intervals), intervals, entries, round, true, q, minth, highth)
      ensures ok ==> Broadcasts(old(intervals), e1, entries, round, true, q, minth, highth, true)
      ensures ok ==> Broadcasts(old(intervals), e2, entries, round, true, q, minth, highth, false)
    {
      hide Tiles, AllGood, Refines, Broadcasts, OthersKept;
      ghost var m := intervals;
      ok, e1, e2 := ApplyEntries(entries, round, true, q);
      if ok { RefinesOthers(m, intervals, entries, round, true, q, minth, highth); }
    }

    /** `add_echo2`: the same for ECHO2, which sends nothing. */
    method AddEcho2(entries: seq<Entry>, round: Round, q: Replica) returns (ok: bool)
      requires Valid() && Bounded(entries)
      modifies this`intervals
      ensures ok <==> Forward(entries)
      ensures ok ==> Valid() && OthersKept(old(intervals), intervals, round)
      ensures ok ==> Refines(old(intervals), intervals, entries, round, false, q, minth, highth)
    {
      hide Tiles, AllGood, Refines, Broadcasts, OthersKept;
      ghost var m := intervals;
      var e1, e2;
      ok, e1, e2 := ApplyEntries(entries, round, false, q);
      if ok { RefinesOthers(m, intervals, entries, round, false, q, minth, highth); }
    }

    /** The loop over the entries that both methods share. */
    method ApplyEntries(entries: seq<Entry>, round: Round, first: bool, q: Replica)
      returns (ok: bool, e1: seq<Entry>, e2: seq<Entry>)
      requires Valid() && Bounded(entries)
      modifies this`intervals
      ensures ok <==> Forward(entries)
      ensures ok ==> Valid() && Tidy(e1) && Tidy(e2)
      ensures ok ==> Refines(old(intervals), intervals, entries, round, first, q, minth, highth)
      ensures ok ==> Broadcasts(old(intervals), e1, entries, round, first, q, minth, highth, true)
      ensures ok ==> Broadcasts(old(intervals), e2, entries, round, first, q, minth, highth, false)
    {
      hide StepAt, StateAt, Tiles, Covers, EmittedOn, SteppedOn, AllGood, Separated, Refines, Broadcasts, Tidy;
      ok, e1, e2 := true, [], [];
      ghost var m := intervals;
      EmptyRun(m, round, first, q, minth, highth);
      for i := 0 to |entries|
        invariant Valid() && Tidy(e1) && Tidy(e2)
        invariant Forward(entries[..i])
        invariant Refines(m, intervals, entries[..i], round, first, q, minth, highth)
        invariant Broadcasts(m, e1, entries[..i], round, first, q, minth, highth, true)
        invariant Broadcasts(m, e2, entries[..i], round, first, q, minth, highth, false)
      {
        var e := entries[i];
        if e.start > e.end { return false, [], []; }
        ghost var m1, l1, l2 := intervals, e1, e2;
        var msg := MessageOf(first, e.value, q);
        e1, e2 := ApplyEntry(e.start, e.end, round, msg, e1, e2);
        assert entries[..i + 1] == entries[..i] + [e];
        RefinesStep(m, m1, intervals, entries[..i], e, round, first, q, minth, highth);
        BroadcastsStep(m, m1, l1, e1, entries[..i], e, round, first, q, minth, highth, true);
        BroadcastsStep(m, m1, l2, e2, entries[..i], e, round, first, q, minth, highth, false);
      }
      assert entries[..|entries|] == entries;
    }

    /** `terminated_round`: every point of the line has terminated the round. */
    method TerminatedRound(round: Round) returns (terminated: bool)
      requires Valid()
      ensures terminated <==> forall k :: k in intervals ==> HasTerminated(intervals[k].state, round)
      ensures terminated <==> forall p :: MIN <= p < MAX ==>
        RoundAt(intervals, p, round).Some? && RoundAt(intervals, p, round).value.termVal.Some?
    {
      hide StateAt, Tiles;
      terminated := true;
      ghost var m := intervals;
      var keys := KeysBetween(intervals, MIN, MAX);
      AllKeysListed(m, keys);
      for i := 0 to |keys|
        invariant terminated <==> forall j :: 0 <= j < i ==> HasTerminated(m[keys[j]].state, round)
      {
        terminated := terminated && HasTerminated(intervals[keys[i]].state, round);
      }
      assert terminated <==> forall k :: k in m ==> HasTerminated(m[k].state, round);
      TerminatedPointwise(m, round);
    }

    /** `start_round`: refused until the previous round has terminated everywhere;
        otherwise the list is the canonical encoding of the whole line. */
    method StartRound(round: Round, myid: Replica, val: Val, maxVal: Val) returns (list: seq<Entry>)
      requires Valid()
      modifies this`intervals
      ensures Valid() && OthersKept(old(intervals), intervals, round)
      ensures !Ready(old(intervals), round) ==> list == [] && intervals == old(intervals)
      ensures Ready(old(intervals), round) ==>
        && Chain(list, MIN, MAX)
        && intervals == Started(old(intervals), MAX, round, myid, val, maxVal)
        && Encodes(old(intervals), list, MAX, round, val, maxVal)
    {
      hide StateAt, Tiles, Encodes, Chain, Started, AllGood, Separated, Aligned;
      list := [];
      if round > 0 {
        var done := TerminatedRound(round - 1);
        if !done { return []; }
      }
      ghost var m := intervals;
      var keys := KeysBetween(intervals, MIN, MAX);
      MinAligned(m);
      FirstKey(m, keys, MIN, MAX);
      StartNothing(m, round, myid, val, maxVal);
      for i := 0 to |keys|
        invariant Ready(m, round) && intervals == Started(m, Bound(keys, i, MAX), round, myid, val, maxVal)
        invariant Chain(list, MIN, Bound(keys, i, MAX))
        invariant Encodes(m, list, Bound(keys, i, MAX), round, val, maxVal)
      {
        var k := keys[i];
        KeyPlace(m, k);
        NextKey(m, keys, i, MIN, MAX);
        StartedAt(m, k, round, myid, val, maxVal);
        var iv := intervals[k];
        var v := StartValue(iv, round, val, maxVal);
        StartedStep(m, k, Bound(keys, i + 1, MAX), round, myid, val, maxVal);
        EncodesStep(m, list, k, round, val, maxVal);
        ChainPush(list, MIN, k, iv.end, v);
        intervals := intervals[k := StartInterval(iv, round, myid, val, maxVal)];
        list := Intervals.Compress(list + [Entry(iv.start, iv.end, v)]);
      }
      StartedValid(m, round, myid, val, maxVal, minth, highth);
      StartedOthers(m, round, myid, val, maxVal);
    }

    ghost predicate Hit(m: IntervalMap, k: Point, start: Point, end: Point, round: Round, msg: Message,
        pieces: IntervalMap, e1: seq<Entry>, r1: seq<Entry>, e2: seq<Entry>, r2: seq<Entry>) {
      && k in m
      && var out := StepAt(m[k].state, round, msg, minth, highth);
      && pieces == Pieces(m, k, start, end, out.state)
      && Adds(e1, r1, start, Lesser(end, m[k].end), out, true)
      && Adds(e2, r2, start, Lesser(end, m[k].end), out, false)
    }
  }
}
