/** The final aggregation: two nested truncating weighted means. */
module Aggregate {
  import opened Types
  import opened BinAA
  import opened Intervals
  import opened LevelSteps
  import opened LevelStart
  import opened DelphiLevel

  /** `term_value`; unwrapping demands a terminated round. */
  function TermValue(iv: Interval, round: Round): Val
    requires HasTerminated(iv.state, round)
  {
    iv.state[round].termVal.value
  }

  /** i128 division truncates towards zero for divisors of either sign. */
  function Quot(a: int, b: int): int
    requires b != 0
  {
    if b > 0 then TruncDiv(a, b) else TruncDiv(-a, -b)
  }

  /** The weight an interval enters its level's mean with. */
  function IntervalWeight(iv: Interval, round: Round, sep: Val): int
    requires HasTerminated(iv.state, round) && sep > 0
  {
    TermValue(iv, round) * TruncDiv(Wrap64(iv.end - iv.start), sep)
  }

  function IntervalMid(iv: Interval): Val { TruncDiv(Wrap64(iv.start + iv.end), 2) }

  /** The midpoint is computed right exactly when the sum of the ends does not
      overflow; for the topmost interval it does as soon as its start is
      positive, and the result is negative. */
  lemma MidExact(iv: Interval)
    ensures IntervalMid(iv) == TruncDiv(iv.start + iv.end, 2) <==> Fits(iv.start + iv.end)
    ensures 0 < iv.start && iv.end == MAX ==> !Fits(iv.start + iv.end)
    ensures 0 < iv.start < MAX == iv.end ==> IntervalMid(iv) < 0
  {
    var x := iv.start + iv.end;
    if !Fits(x) {
      var k := (x - MIN) / 0x1_0000_0000_0000_0000;
      assert Wrap64(x) == x - k * 0x1_0000_0000_0000_0000;
    }
  }

  /** All points have terminated the round. */
  ghost predicate Finished(m: IntervalMap, round: Round) {
    forall k :: k in m ==> HasTerminated(m[k].state, round)
  }

  ghost predicate NonNegative(m: IntervalMap, round: Round)
    requires Finished(m, round)
  {
    forall k :: k in m ==> TermValue(m[k], round) >= 0
  }

  /** No interval with a positive value overflows i64. */
  ghost predicate NoOverflow(m: IntervalMap, round: Round)
    requires Finished(m, round)
  {
    forall k :: k in m && TermValue(m[k], round) > 0 ==> Fits(m[k].start + m[k].end) && Fits(m[k].end - m[k].start)
  }

  /** The interval has weight: a positive value and at least one checkpoint. */
  ghost predicate Weighs(iv: Interval, round: Round, sep: Val)
    requires HasTerminated(iv.state, round)
  {
    TermValue(iv, round) > 0 && iv.end - iv.start >= sep
  }

  /** The level says something within [lo, hi]: the midpoints of the intervals
      with weight, or the fallback when there is none. */
  ghost predicate LevelWithin(m: IntervalMap, sep: Val, round: Round, value: Val, epsilon: Val, lo: Val, hi: Val)
    requires Finished(m, round) && sep > 0 && epsilon > 0
  {
    && (forall k :: k in m && Weighs(m[k], round, sep) ==> lo <= TruncDiv(m[k].start + m[k].end, 2) <= hi)
    && ((forall k :: k in m ==> !Weighs(m[k], round, sep)) ==> lo <= TruncDiv(value, epsilon) <= hi)
  }

  /** The weight is the termination value times the number of whole checkpoints
      in the interval. */
  lemma WeightCounts(iv: Interval, round: Round, sep: Val) returns (checkpoints: nat)
    requires HasTerminated(iv.state, round) && sep > 0 && iv.start <= iv.end && Fits(iv.end - iv.start)
    ensures checkpoints * sep <= iv.end - iv.start < (checkpoints + 1) * sep
    ensures IntervalWeight(iv, round, sep) == iv.state[round].termVal.value * checkpoints
  {
    Buckets(iv.end - iv.start, sep);
    checkpoints := (iv.end - iv.start) / sep;
    assert (iv.end - iv.start) / sep * sep == sep * ((iv.end - iv.start) / sep);
  }

  /** The quotient of i128: what remains is smaller than the divisor, and on the
      dividend's side of zero. */
  lemma QuotTruncates(a: int, b: int)
    requires b != 0
    ensures b > 0 ==> var rest := a - Quot(a, b) * b; if a >= 0 then 0 <= rest < b else -b < rest <= 0
    ensures b < 0 ==> var rest := a - Quot(a, b) * b; if a > 0 then 0 <= rest < -b else b < rest <= 0
  {
    hide Quot;
    if b > 0 { QuotPositive(a, b); } else { QuotNegative(a, b); }
  }

  lemma QuotPositive(a: int, b: int)
    requires b > 0
    ensures var rest := a - Quot(a, b) * b; if a >= 0 then 0 <= rest < b else -b < rest <= 0
  {
    hide TruncDiv;
    TruncDivIs(a, b);
  }

  lemma QuotNegative(a: int, b: int)
    requires b < 0
    ensures var rest := a - Quot(a, b) * b; if a > 0 then 0 <= rest < -b else b < rest <= 0
  {
    hide TruncDiv;
    TruncDivIs(-a, -b);
    NegativeRest(a, b, TruncDiv(-a, -b));
  }

  lemma NegativeRest(a: int, b: int, q: int)
    ensures -a - q * (-b) == -(a - q * b)
  {
  }

  /** Without overflow the weights are what they should be. */
  lemma WeightExact(iv: Interval, round: Round, sep: Val)
    requires HasTerminated(iv.state, round) && TermValue(iv, round) >= 0 && sep > 0 && iv.start <= iv.end
    ensures TermValue(iv, round) == 0 ==> IntervalWeight(iv, round, sep) == 0
    ensures Fits(iv.end - iv.start) ==> IntervalWeight(iv, round, sep) >= 0
    ensures Fits(iv.end - iv.start) ==> (IntervalWeight(iv, round, sep) > 0 <==> Weighs(iv, round, sep))
  {
    var t, d := TermValue(iv, round), TruncDiv(Wrap64(iv.end - iv.start), sep);
    if t == 0 {
      assert 0 * d == 0;
    } else if Fits(iv.end - iv.start) {
      Buckets(iv.end - iv.start, sep);
      Scaled(t, d);
      if d >= 1 { Scaled(t - 1, d); assert t * d == (t - 1) * d + d; } else { assert t * 0 == 0; }
    }
  }

  lemma Buckets(length: int, sep: int)
    requires sep > 0 && length >= 0
    ensures TruncDiv(length, sep) >= 0
    ensures TruncDiv(length, sep) > 0 <==> length >= sep
  {
    BucketSize(length, sep, length / sep, length % sep);
  }

  lemma BucketSize(length: int, sep: int, q: int, r: int)
    requires 0 <= r < sep && length == sep * q + r && length >= 0
    ensures q >= 0 && (q > 0 <==> length >= sep)
  {
    if q >= 1 {
      Scaled(q - 1, sep);
      assert sep * q == (q - 1) * sep + sep;
    } else {
      Large(-q, sep);
      assert sep * q == -((-q) * sep);
    }
  }

  lemma MeanStep(lo: int, hi: int, sum: int, weight: int, x: int, w: int)
    requires lo * weight <= sum <= hi * weight && w >= 0 && (w > 0 ==> lo <= x <= hi)
    ensures lo * (weight + w) <= sum + x * w <= hi * (weight + w)
  {
    assert lo * (weight + w) == lo * weight + lo * w;
    assert hi * (weight + w) == hi * weight + hi * w;
    if w > 0 {
      Scaled(x - lo, w);
      Scaled(hi - x, w);
      assert x * w - lo * w == (x - lo) * w && hi * w - x * w == (hi - x) * w;
    }
  }

  lemma Scaled(d: int, w: int)
    requires d >= 0 && w >= 0
    ensures d * w >= 0
  {
  }

  /** A truncated mean stays within bounds that are integers. */
  lemma MeanWithin(lo: int, hi: int, sum: int, weight: int)
    requires weight > 0 && lo * weight <= sum <= hi * weight
    ensures lo <= TruncDiv(sum, weight) <= hi
  {
    if sum >= 0 {
      QuotientBounds(lo, hi, sum, weight);
    } else {
      assert (-hi) * weight == -(hi * weight) && (-lo) * weight == -(lo * weight);
      QuotientBounds(-hi, -lo, -sum, weight);
    }
  }

  lemma QuotientBounds(lo: int, hi: int, sum: int, weight: int)
    requires weight > 0 && sum >= 0 && lo * weight <= sum <= hi * weight
    ensures lo <= sum / weight <= hi
  {
    BoundsOf(lo, hi, sum, weight, sum / weight, sum % weight);
  }

  lemma BoundsOf(lo: int, hi: int, sum: int, weight: int, q: int, r: int)
    requires weight > 0 && 0 <= r < weight && sum == weight * q + r && lo * weight <= sum <= hi * weight
    ensures lo <= q <= hi
  {
    assert (lo - q) * weight == lo * weight - weight * q;
    assert (q - hi) * weight == weight * q - hi * weight;
    Large(lo - q, weight);
    Large(q - hi, weight);
  }

  lemma Large(d: int, w: int)
    requires w > 0
    ensures d >= 1 ==> d * w >= w
  {
  }

  // ---- what one level contributes ----

  /** The keys of the map, ascending. */
  ghost predicate Lists(keys: seq<Point>, m: IntervalMap, round: Round) {
    Sorted(keys) && (forall k :: k in m <==> k in keys) && (forall j :: 0 <= j < |keys| ==> HasIn(m, keys[j], round))
  }

  predicate HasIn(m: IntervalMap, k: Point, round: Round) { k in m && HasTerminated(m[k].state, round) }

  function TotalWeight(keys: seq<Point>, m: IntervalMap, round: Round, sep: Val): int
    requires sep > 0 && forall j :: 0 <= j < |keys| ==> HasIn(m, keys[j], round)
  {
    if keys == [] then 0
    else
      var k := |keys| - 1;
      assert HasIn(m, keys[k], round);
      TotalWeight(keys[..k], m, round, sep) + IntervalWeight(m[keys[k]], round, sep)
  }

  function WeightedSum(keys: seq<Point>, m: IntervalMap, round: Round, sep: Val): int
    requires sep > 0 && forall j :: 0 <= j < |keys| ==> HasIn(m, keys[j], round)
  {
    if keys == [] then 0
    else
      var k := |keys| - 1;
      assert HasIn(m, keys[k], round);
      WeightedSum(keys[..k], m, round, sep) + IntervalMid(m[keys[k]]) * IntervalWeight(m[keys[k]], round, sep)
  }

  /** The greatest value, at least 0. */
  function TopValue(keys: seq<Point>, m: IntervalMap, round: Round): (top: int)
    requires forall j :: 0 <= j < |keys| ==> HasIn(m, keys[j], round)
    ensures top >= 0
  {
    if keys == [] then 0
    else
      var k := |keys| - 1;
      assert HasIn(m, keys[k], round);
      var top, v := TopValue(keys[..k], m, round), TermValue(m[keys[k]], round);
      if v > top then v else top
  }

  /** A level's mean and weight, with the fallback of a level without weight. */
  ghost predicate Contributes(m: IntervalMap, round: Round, sep: Val, value: Val, epsilon: Val, average: int,
      weight: int)
    requires sep > 0 && epsilon > 0
  {
    exists keys :: ContributesFrom(keys, m, round, sep, value, epsilon, average, weight)
  }

  ghost predicate ContributesFrom(keys: seq<Point>, m: IntervalMap, round: Round, sep: Val, value: Val, epsilon: Val,
      average: int, weight: int)
    requires sep > 0 && epsilon > 0
  {
    Lists(keys, m, round) &&
    var total := TotalWeight(keys, m, round, sep);
    if total == 0 then average == Quot(value, epsilon) && weight == epsilon
    else average == Quot(WeightedSum(keys, m, round, sep), total) && weight == TopValue(keys, m, round)
  }

  /** The inner loop of `aggregate`: one level's mean and greatest value. */
  method LevelAverage(level: Level, round: Round, value: Val, epsilon: Val) returns (average: int, weight: int)
    requires level.Valid() && level.sep > 0 && epsilon > 0
    requires Finished(level.intervals, round)
    ensures weight >= 0
    ensures Contributes(level.intervals, round, level.sep, value, epsilon, average, weight)
  {
    hide TruncDiv, Tiles, AllGood, IntervalMid, IntervalWeight;
    var m := level.intervals;
    var weightSum, weightedSum := 0, 0;
    weight := 0;
    var keys := KeysBetween(m, MIN, MAX);
    AllKeysListed(m, keys);
    for i := 0 to |keys|
      invariant weightSum == TotalWeight(keys[..i], m, round, level.sep)
      invariant weightedSum == WeightedSum(keys[..i], m, round, level.sep)
      invariant weight == TopValue(keys[..i], m, round)
    {
      var iv := m[keys[i]];
      assert keys[..i + 1][..i] == keys[..i];
      var term := TermValue(iv, round);
      var mid := IntervalMid(iv);
      if term > weight { weight := term; }
      var w := IntervalWeight(iv, round, level.sep);
      weightSum := weightSum + w;
      weightedSum := weightedSum + mid * w;
    }
    assert keys[..|keys|] == keys;
    if weightSum == 0 {
      weightSum, weightedSum, weight := epsilon, value, epsilon;
    }
    average := Quot(weightedSum, weightSum);
    assert ContributesFrom(keys, m, round, level.sep, value, epsilon, average, weight);
  }

  lemma {:induction false} TopIsGreatest(keys: seq<Point>, m: IntervalMap, round: Round)
    requires forall j :: 0 <= j < |keys| ==> HasIn(m, keys[j], round)
    ensures forall j :: 0 <= j < |keys| ==>
      HasIn(m, keys[j], round) && TermValue(m[keys[j]], round) <= TopValue(keys, m, round)
    ensures TopValue(keys, m, round) == 0 || exists j ::
      0 <= j < |keys| && HasIn(m, keys[j], round) && TermValue(m[keys[j]], round) == TopValue(keys, m, round)
    ensures TopValue(keys, m, round) > 0
            <==> exists j :: 0 <= j < |keys| && HasIn(m, keys[j], round) && TermValue(m[keys[j]], round) > 0
  {
    if keys != [] {
      var k := |keys| - 1;
      assert HasIn(m, keys[k], round);
      TopIsGreatest(keys[..k], m, round);
      assert forall j :: 0 <= j < k ==> keys[..k][j] == keys[j];
    }
  }

  /** Every interval enters, with its own midpoint and weight. */
  lemma {:induction false} TotalsSplit(a: seq<Point>, b: seq<Point>, m: IntervalMap, round: Round, sep: Val)
    requires sep > 0 && forall j :: 0 <= j < |a + b| ==> HasIn(m, (a + b)[j], round)
    ensures forall j :: 0 <= j < |a| ==> HasIn(m, a[j], round)
    ensures forall j :: 0 <= j < |b| ==> HasIn(m, b[j], round)
    ensures TotalWeight(a + b, m, round, sep) == TotalWeight(a, m, round, sep) + TotalWeight(b, m, round, sep)
    ensures WeightedSum(a + b, m, round, sep) == WeightedSum(a, m, round, sep) + WeightedSum(b, m, round, sep)
    ensures forall k :: k in m && HasTerminated(m[k].state, round) ==>
      var w := IntervalWeight(m[k], round, sep);
      && (forall j :: 0 <= j < |[k]| ==> HasIn(m, [k][j], round))
      && TotalWeight([k], m, round, sep) == w && WeightedSum([k], m, round, sep) == IntervalMid(m[k]) * w
    decreases |b|
  {
    hide IntervalWeight, IntervalMid;
    forall j | 0 <= j < |a| ensures HasIn(m, a[j], round) { assert HasIn(m, (a + b)[j], round); }
    forall j | 0 <= j < |b| ensures HasIn(m, b[j], round) { assert HasIn(m, (a + b)[|a| + j], round); }
    if b == [] {
      assert a + b == a;
    } else {
      var k := |b| - 1;
      assert (a + b)[..|a + b| - 1] == a + b[..k] && (a + b)[|a + b| - 1] == b[k];
      TotalsSplit(a, b[..k], m, round, sep);
    }
  }

  // ---- levels without weight ----

  /** The widths of intervals with a negative value do not overflow i64. */
  ghost predicate WidthsFit(m: IntervalMap, round: Round)
    requires Finished(m, round)
  {
    forall k :: k in m && TermValue(m[k], round) < 0 ==> Fits(m[k].end - m[k].start)
  }

  /** Only negative values count: there is one, over a checkpoint or more, and
      no positive one. */
  ghost predicate Sunk(m: IntervalMap, round: Round, sep: Val)
    requires Finished(m, round)
  {
    && (forall k :: k in m ==> TermValue(m[k], round) <= 0)
    && exists k :: k in m && Sinks(m[k], round, sep)
  }

  predicate Sinks(iv: Interval, round: Round, sep: Val)
    requires HasTerminated(iv.state, round)
  {
    TermValue(iv, round) < 0 && iv.end - iv.start >= sep
  }

  /** Such levels, and no others, enter the outer mean with weight zero. */
  lemma ZeroWeightIff(m: IntervalMap, round: Round, sep: Val, value: Val, epsilon: Val, average: int, weight: int)
    requires sep > 0 && epsilon > 0 && Finished(m, round) && Tiles(m) && WidthsFit(m, round)
    requires Contributes(m, round, sep, value, epsilon, average, weight)
    ensures weight == 0 <==> Sunk(m, round, sep)
  {
    hide TruncDiv, Tiles, Sinks, TotalWeight, WeightedSum, TopValue, WidthsFit, Quot;
    var keys :| ContributesFrom(keys, m, round, sep, value, epsilon, average, weight);
    TopIsGreatest(keys, m, round);
    if k :| k in m && TermValue(m[k], round) > 0 {
      var j :| 0 <= j < |keys| && keys[j] == k;
      assert HasIn(m, keys[j], round);
    } else {
      TotalSinks(keys, m, round, sep);
      assert (exists j :: 0 <= j < |keys| && HasIn(m, keys[j], round) && Sinks(m[keys[j]], round, sep))
        <==> Sunk(m, round, sep) by {
        if k :| k in m && Sinks(m[k], round, sep) {
          var j :| 0 <= j < |keys| && keys[j] == k;
          assert HasIn(m, keys[j], round);
        }
      }
      assert TopValue(keys, m, round) == 0;
    }
  }

  /** Without positive values the total is negative exactly if something sinks. */
  lemma {:induction false} TotalSinks(keys: seq<Point>, m: IntervalMap, round: Round, sep: Val)
    requires sep > 0 && Finished(m, round) && Tiles(m) && WidthsFit(m, round)
    requires forall k :: k in m ==> TermValue(m[k], round) <= 0
    requires forall j :: 0 <= j < |keys| ==> HasIn(m, keys[j], round)
    ensures TotalWeight(keys, m, round, sep) <= 0
    ensures TotalWeight(keys, m, round, sep) != 0
            <==> exists j :: 0 <= j < |keys| && HasIn(m, keys[j], round) && Sinks(m[keys[j]], round, sep)
  {
    hide TruncDiv, Tiles, IntervalWeight, Sinks;
    if keys != [] {
      var k := |keys| - 1;
      assert HasIn(m, keys[k], round);
      TotalSinks(keys[..k], m, round, sep);
      KeyPlace(m, keys[k]);
      NegativeWeight(m[keys[k]], round, sep);
      assert forall j :: 0 <= j < k ==> keys[..k][j] == keys[j];
    }
  }

  lemma NegativeWeight(iv: Interval, round: Round, sep: Val)
    requires HasTerminated(iv.state, round) && TermValue(iv, round) <= 0 && sep > 0 && iv.start <= iv.end
    requires TermValue(iv, round) < 0 ==> Fits(iv.end - iv.start)
    ensures IntervalWeight(iv, round, sep) <= 0
    ensures IntervalWeight(iv, round, sep) < 0 <==> Sinks(iv, round, sep)
  {
    hide TruncDiv;
    var t, d := TermValue(iv, round), TruncDiv(Wrap64(iv.end - iv.start), sep);
    if t == 0 {
      assert 0 * d == 0;
    } else {
      Buckets(iv.end - iv.start, sep);
      Scaled(-t - 1, d);
      assert t * d == -((-t - 1) * d) - d;
    }
  }

  lemma {:induction false} TotalsWithin(keys: seq<Point>, m: IntervalMap, round: Round, sep: Val, value: Val,
      epsilon: Val, lo: Val, hi: Val)
    requires sep > 0 && epsilon > 0 && Finished(m, round) && Tiles(m)
    requires LevelSays(m, sep, round, value, epsilon, lo, hi)
    requires forall j :: 0 <= j < |keys| ==> HasIn(m, keys[j], round)
    ensures var total := TotalWeight(keys, m, round, sep);
            && total >= 0 && lo * total <= WeightedSum(keys, m, round, sep) <= hi * total
            && (total == 0 ==> forall j :: 0 <= j < |keys| ==>
                  (HasIn(m, keys[j], round) && !Weighs(m[keys[j]], round, sep)))
  {
    hide TruncDiv, LevelSays, Weighs, Tiles, IntervalWeight, IntervalMid;
    assert lo * 0 == 0 && hi * 0 == 0;
    if keys != [] {
      var k := |keys| - 1;
      assert HasIn(m, keys[k], round);
      TotalsWithin(keys[..k], m, round, sep, value, epsilon, lo, hi);
      KeyPlace(m, keys[k]);
      OneInterval(m, keys[k], sep, round, value, epsilon, lo, hi);
      MeanStep(lo, hi, WeightedSum(keys[..k], m, round, sep), TotalWeight(keys[..k], m, round, sep),
               IntervalMid(m[keys[k]]), IntervalWeight(m[keys[k]], round, sep));
      forall j | 0 <= j < k ensures keys[..k][j] == keys[j] {}
    }
  }

  /** What a level contributes lies within all bounds of its weighted midpoints. */
  lemma ContributionWithin(m: IntervalMap, round: Round, sep: Val, value: Val, epsilon: Val, average: int,
      weight: int, lo: Val, hi: Val)
    requires sep > 0 && epsilon > 0 && Finished(m, round) && Tiles(m)
    requires LevelSays(m, sep, round, value, epsilon, lo, hi)
    requires Contributes(m, round, sep, value, epsilon, average, weight)
    ensures lo <= average <= hi
  {
    hide TruncDiv, LevelSays, Weighs, Tiles, Finished;
    var keys :| ContributesFrom(keys, m, round, sep, value, epsilon, average, weight);
    TotalsWithin(keys, m, round, sep, value, epsilon, lo, hi);
    var total := TotalWeight(keys, m, round, sep);
    if total == 0 {
      forall j | 0 <= j < |keys| ensures keys[j] in m { assert HasIn(m, keys[j], round); }
      Fallback(m, keys, sep, round, value, epsilon, lo, hi);
    } else {
      MeanWithin(lo, hi, WeightedSum(keys, m, round, sep), total);
    }
  }

  ghost predicate LevelSays(m: IntervalMap, sep: Val, round: Round, value: Val, epsilon: Val, lo: Val, hi: Val)
    requires Finished(m, round) && sep > 0 && epsilon > 0
  {
    NonNegative(m, round) && NoOverflow(m, round) && LevelWithin(m, sep, round, value, epsilon, lo, hi)
  }

  lemma OneInterval(m: IntervalMap, k: Point, sep: Val, round: Round, value: Val, epsilon: Val, lo: Val, hi: Val)
    requires Finished(m, round) && sep > 0 && epsilon > 0 && k in m && m[k].start <= m[k].end
    requires LevelSays(m, sep, round, value, epsilon, lo, hi)
    ensures var w := IntervalWeight(m[k], round, sep);
      w >= 0 && (w > 0 <==> Weighs(m[k], round, sep)) && (w > 0 ==> lo <= IntervalMid(m[k]) <= hi)
  {
    hide TruncDiv, Wrap64, IntervalWeight;
    WeightExact(m[k], round, sep);
  }

  lemma Fallback(m: IntervalMap, keys: seq<Point>, sep: Val, round: Round, value: Val, epsilon: Val, lo: Val, hi: Val)
    requires Finished(m, round) && sep > 0 && epsilon > 0 && LevelSays(m, sep, round, value, epsilon, lo, hi)
    requires (forall k :: k in m <==> k in keys) && forall j :: 0 <= j < |keys| ==> keys[j] in m
    requires forall j :: 0 <= j < |keys| ==> HasTerminated(m[keys[j]].state, round) && !Weighs(m[keys[j]], round, sep)
    ensures lo <= TruncDiv(value, epsilon) <= hi
  {
    hide TruncDiv, Weighs;
    forall k | k in m ensures !Weighs(m[k], round, sep) {
      var j :| 0 <= j < |keys| && keys[j] == k;
    }
  }

  // ---- across levels ----

  function Abs(x: int): int { if x < 0 then -x else x }

  /** A level counts by how far its weight is from that of the level before. */
  function OuterWeight(weights: seq<int>, l: nat): int
    requires l < |weights|
  {
    if l == 0 then weights[0] else weights[l] * Abs(weights[l] - weights[l - 1])
  }

  function OuterTotal(weights: seq<int>, n: nat): int
    requires n <= |weights|
  {
    if n == 0 then 0 else OuterTotal(weights, n - 1) + OuterWeight(weights, n - 1)
  }

  function OuterSum(values: seq<int>, weights: seq<int>, n: nat): int
    requires n <= |values| == |weights|
  {
    if n == 0 then 0 else OuterSum(values, weights, n - 1) + values[n - 1] * OuterWeight(weights, n - 1)
  }

  /** The first level enters the outer mean with its weight, every later one with
      its weight times the distance to the weight before, rising or falling. */
  lemma OuterStep(values: seq<int>, weights: seq<int>, l: nat)
    requires 0 < l < |values| == |weights|
    ensures OuterTotal(weights, 1) == weights[0] && OuterSum(values, weights, 1) == values[0] * weights[0]
    ensures var w := if weights[l] >= weights[l - 1] then weights[l] * (weights[l] - weights[l - 1])
                     else weights[l] * (weights[l - 1] - weights[l]);
            && OuterTotal(weights, l + 1) == OuterTotal(weights, l) + w
            && OuterSum(values, weights, l + 1) == OuterSum(values, weights, l) + values[l] * w
  {
    assert OuterTotal(weights, 0) == 0 && OuterSum(values, weights, 0) == 0;
  }

  lemma OuterNonNegative(weights: seq<int>, l: nat)
    requires l < |weights| && forall j :: 0 <= j < |weights| ==> weights[j] >= 0
    ensures OuterWeight(weights, l) >= 0
  {
    if l > 0 { Scaled(weights[l], Abs(weights[l] - weights[l - 1])); }
  }

  /** The outer divisor is zero exactly if all weights are. */
  lemma {:induction false} OuterZeroIff(weights: seq<int>, n: nat)
    requires n <= |weights| && forall j :: 0 <= j < |weights| ==> weights[j] >= 0
    ensures OuterTotal(weights, n) >= 0
    ensures OuterTotal(weights, n) == 0 <==> forall j :: 0 <= j < n ==> weights[j] == 0
  {
    if n > 0 {
      OuterZeroIff(weights, n - 1);
      OuterNonNegative(weights, n - 1);
      var w := weights[n - 1];
      if n > 1 && weights[n - 2] == 0 && w > 0 {
        Large(w, w);
      }
    }
  }

  /** The outer mean of the levels' contributions. */
  ghost predicate IsOuterMean(levels: seq<Level>, round: Round, value: Val, epsilon: Val, values: seq<int>,
      weights: seq<int>, result: Val)
    requires epsilon > 0
    reads levels
  {
    && AllContribute(levels, round, value, epsilon, values, weights)
    && OuterTotal(weights, |levels|) > 0
    && result == Quot(OuterSum(values, weights, |levels|), OuterTotal(weights, |levels|))
  }

  ghost predicate ContributesTo(level: Level, round: Round, value: Val, epsilon: Val, average: int, weight: int)
    requires epsilon > 0
    reads level
  {
    level.sep > 0 && weight >= 0 && Contributes(level.intervals, round, level.sep, value, epsilon, average, weight)
  }

  ghost predicate AllContribute(levels: seq<Level>, round: Round, value: Val, epsilon: Val, values: seq<int>,
      weights: seq<int>)
    requires epsilon > 0
    reads levels
  {
    && |values| == |weights| == |levels|
    && forall l :: 0 <= l < |levels| ==> ContributesTo(levels[l], round, value, epsilon, values[l], weights[l])
  }

  /** With two levels, for example. */
  lemma TwoLevels(levels: seq<Level>, round: Round, value: Val, epsilon: Val, values: seq<int>, weights: seq<int>,
      result: Val)
    requires epsilon > 0 && |levels| == 2 && IsOuterMean(levels, round, value, epsilon, values, weights, result)
    ensures var v0, v1, w0, w1 := values[0], values[1], weights[0], weights[1];
            var w := if w1 >= w0 then w1 * (w1 - w0) else w1 * (w0 - w1);
            w0 + w > 0 && result == TruncDiv(v0 * w0 + v1 * w, w0 + w)
  {
    hide TruncDiv, ContributesTo;
    OuterStep(values, weights, 1);
  }

  ghost predicate AllZero(weights: seq<int>) { forall l :: 0 <= l < |weights| ==> weights[l] == 0 }

  /** A level that has finished the last round. */
  ghost predicate Done(level: Level, round: Round)
    reads level
  {
    level.Valid() && level.sep > 0 && Finished(level.intervals, round)
  }

  /** Every level says something within [lo, hi]. */
  ghost predicate AllSay(levels: seq<Level>, round: Round, value: Val, epsilon: Val, lo: Val, hi: Val)
    requires epsilon > 0
    reads levels
  {
    forall l :: 0 <= l < |levels| ==>
      Done(levels[l], round) && LevelSays(levels[l].intervals, levels[l].sep, round, value, epsilon, lo, hi)
  }

  ghost predicate SomeFloats(levels: seq<Level>, round: Round)
    requires forall l :: 0 <= l < |levels| ==> Done(levels[l], round)
    reads levels
  {
    exists l :: 0 <= l < |levels| && Done(levels[l], round) && !Sunk(levels[l].intervals, round, levels[l].sep)
  }

  ghost predicate AllWidthsFit(levels: seq<Level>, round: Round)
    requires forall l :: 0 <= l < |levels| ==> Done(levels[l], round)
    reads levels
  {
    forall l :: 0 <= l < |levels| ==> Done(levels[l], round) && WidthsFit(levels[l].intervals, round)
  }

  /** `aggregate`: divides by zero exactly if every level is sunk, and unless an
      interval with a positive value overflows i64 the result lies wherever all
      levels agree to lie. */
  method AggregateLevels(levels: seq<Level>, round: Round, value: Val, epsilon: Val)
    returns (ok: bool, result: Val)
    requires epsilon > 0
    requires forall l :: 0 <= l < |levels| ==> Done(levels[l], round)
    ensures AllWidthsFit(levels, round) ==> (ok <==> SomeFloats(levels, round))
    ensures ok ==> exists values, weights :: IsOuterMean(levels, round, value, epsilon, values, weights, result)
    ensures !ok ==> exists values, weights ::
      AllContribute(levels, round, value, epsilon, values, weights) && AllZero(weights)
    ensures forall lo, hi :: levels != [] && AllSay(levels, round, value, epsilon, lo, hi)
              ==> ok && lo <= result <= hi
  {
    hide TruncDiv, Finished, Contributes, OuterWeight, Level.Valid, WidthsFit, Sunk, LevelSays;
    var weights: seq<int>, values: seq<int> := [], [];
    for i := 0 to |levels|
      invariant |weights| == |values| == i
      invariant forall j :: 0 <= j < i ==> ContributesTo(levels[j], round, value, epsilon, values[j], weights[j])
    {
      var average, weight := LevelAverage(levels[i], round, value, epsilon);
      values := values + [average];
      weights := weights + [weight];
    }
    var sum, total := 0, 0;
    for l := 0 to |levels|
      invariant total == OuterTotal(weights, l) && sum == OuterSum(values, weights, l)
    {
      var w := if l > 0 then weights[l] * Abs(weights[l] - weights[l - 1]) else weights[l];
      OuterIs(weights, l, w);
      sum := sum + values[l] * w;
      total := total + w;
    }
    OuterZeroIff(weights, |levels|);
    assert AllContribute(levels, round, value, epsilon, values, weights);
    WeightsFloat(levels, round, value, epsilon, values, weights);
    ok, result := total != 0, 0;
    if ok {
      result := Quot(sum, total);
      assert IsOuterMean(levels, round, value, epsilon, values, weights, result);
      forall lo, hi | AllSay(levels, round, value, epsilon, lo, hi) ensures lo <= result <= hi {
        OuterWithin(levels, round, value, epsilon, values, weights, result, lo, hi);
      }
    }
  }

  /** Some weight is positive exactly if some level is not sunk, as none is whose
      values are non-negative. */
  lemma WeightsFloat(levels: seq<Level>, round: Round, value: Val, epsilon: Val, values: seq<int>, weights: seq<int>)
    requires epsilon > 0 && AllContribute(levels, round, value, epsilon, values, weights)
    requires forall l :: 0 <= l < |levels| ==> Done(levels[l], round)
    ensures AllWidthsFit(levels, round) ==> (SomeFloats(levels, round) <==> !AllZero(weights))
    ensures forall lo, hi :: AllSay(levels, round, value, epsilon, lo, hi) ==>
      forall l :: 0 <= l < |weights| ==> weights[l] > 0
  {
    hide TruncDiv, Contributes, Tiles, AllGood, LevelWithin, NoOverflow;
    forall l | 0 <= l < |levels| && WidthsFit(levels[l].intervals, round)
      ensures weights[l] == 0 <==> Sunk(levels[l].intervals, round, levels[l].sep)
    {
      assert Done(levels[l], round);
      assert ContributesTo(levels[l], round, value, epsilon, values[l], weights[l]);
      ZeroWeightIff(levels[l].intervals, round, levels[l].sep, value, epsilon, values[l], weights[l]);
    }
    forall lo, hi, l | AllSay(levels, round, value, epsilon, lo, hi) && 0 <= l < |levels| ensures weights[l] > 0 {
      assert Done(levels[l], round);
      assert ContributesTo(levels[l], round, value, epsilon, values[l], weights[l]);
      assert NonNegative(levels[l].intervals, round);
    }
  }

  lemma OuterIs(weights: seq<int>, l: nat, w: int)
    requires l < |weights| && w == if l > 0 then weights[l] * Abs(weights[l] - weights[l - 1]) else weights[l]
    ensures OuterWeight(weights, l) == w
  {
  }

  /** The outer mean lies within all bounds the levels share. */
  lemma OuterWithin(levels: seq<Level>, round: Round, value: Val, epsilon: Val, values: seq<int>, weights: seq<int>,
      result: Val, lo: Val, hi: Val)
    requires epsilon > 0 && IsOuterMean(levels, round, value, epsilon, values, weights, result)
    requires AllSay(levels, round, value, epsilon, lo, hi)
    ensures lo <= result <= hi
  {
    hide TruncDiv, Contributes, LevelSays, Finished, Tiles, AllGood, OuterTotal, OuterSum;
    forall l | 0 <= l < |levels| ensures lo <= values[l] <= hi && weights[l] >= 0 {
      assert ContributesTo(levels[l], round, value, epsilon, values[l], weights[l]) && Done(levels[l], round);
      ContributionWithin(levels[l].intervals, round, levels[l].sep, value, epsilon, values[l], weights[l], lo, hi);
    }
    SumsWithin(values, weights, |levels|, lo, hi);
    MeanWithin(lo, hi, OuterSum(values, weights, |levels|), OuterTotal(weights, |levels|));
  }

  lemma {:induction false} SumsWithin(values: seq<int>, weights: seq<int>, n: nat, lo: Val, hi: Val)
    requires n <= |values| == |weights|
    requires forall l :: 0 <= l < |values| ==> lo <= values[l] <= hi && weights[l] >= 0
    ensures lo * OuterTotal(weights, n) <= OuterSum(values, weights, n) <= hi * OuterTotal(weights, n)
  {
    hide OuterWeight;
    assert lo * 0 == 0 && hi * 0 == 0;
    if n > 0 {
      SumsWithin(values, weights, n - 1, lo, hi);
      OuterNonNegative(weights, n - 1);
      MeanStep(lo, hi, OuterSum(values, weights, n - 1), OuterTotal(weights, n - 1), values[n - 1],
          OuterWeight(weights, n - 1));
    }
  }

  // ---- with overflow ----

  /** The only value but zero is a positive one over the topmost interval, which
      starts at a positive point s and is at least one checkpoint wide. */
  ghost predicate TopOnly(m: IntervalMap, round: Round, sep: Val, s: Point) {
    && Finished(m, round) && s in m
    && m[s].start == s && m[s].end == MAX && 0 < s < MAX && MAX - s >= sep
    && TermValue(m[s], round) > 0
    && forall k :: k in m && k != s ==> TermValue(m[k], round) == 0
  }

  /** Then the result of one level is negative, though the one midpoint with
      weight, and all the interval, is positive. */
  lemma TopIntervalSpoils(level: Level, round: Round, value: Val, epsilon: Val, values: seq<int>, weights: seq<int>,
      result: Val, s: Point)
    requires epsilon > 0 && Done(level, round) && TopOnly(level.intervals, round, level.sep, s)
    requires IsOuterMean([level], round, value, epsilon, values, weights, result)
    ensures result < 0
    ensures LevelWithin(level.intervals, level.sep, round, value, epsilon, s, MAX)
    ensures s <= TruncDiv(s + MAX, 2) <= MAX
  {
    hide TruncDiv, Tiles, AllGood, TotalWeight, WeightedSum, TopValue, IntervalWeight, IntervalMid, Quot;
    var m := level.intervals;
    assert ContributesTo([level][0], round, value, epsilon, values[0], weights[0]);
    var keys :| ContributesFrom(keys, m, round, level.sep, value, epsilon, values[0], weights[0]);
    OneWeighs(keys, m, round, level.sep, s);
    WeightExact(m[s], round, level.sep);
    MidExact(m[s]);
    Cancels(IntervalMid(m[s]), IntervalWeight(m[s], round, level.sep));
    Cancels(values[0], weights[0]);
    assert OuterTotal(weights, 1) == weights[0] && OuterSum(values, weights, 1) == values[0] * weights[0] by {
      assert OuterTotal(weights, 0) == 0 && OuterSum(values, weights, 0) == 0;
    }
    TrueMiddle(s);
    assert Weighs(m[s], round, level.sep);
  }

  lemma TrueMiddle(s: Point)
    requires 0 < s < MAX
    ensures s <= TruncDiv(s + MAX, 2) <= MAX
  {
  }

  lemma Cancels(a: int, w: int)
    requires w > 0
    ensures Quot(a * w, w) == a
  {
    MeanWithin(a, a, a * w, w);
  }

  lemma {:induction false} OneWeighs(keys: seq<Point>, m: IntervalMap, round: Round, sep: Val, s: Point)
    requires sep > 0 && s in m && HasTerminated(m[s].state, round) && TermValue(m[s], round) > 0 && Sorted(keys)
    requires forall j :: 0 <= j < |keys| ==> HasIn(m, keys[j], round)
    requires forall j :: 0 <= j < |keys| && keys[j] != s ==>
      HasIn(m, keys[j], round) && TermValue(m[keys[j]], round) == 0
    ensures var w := if s in keys then IntervalWeight(m[s], round, sep) else 0;
            TotalWeight(keys, m, round, sep) == w && WeightedSum(keys, m, round, sep) == IntervalMid(m[s]) * w
    ensures TopValue(keys, m, round) == if s in keys then TermValue(m[s], round) else 0
  {
    hide TruncDiv, IntervalMid, IntervalWeight;
    if keys != [] {
      var k := |keys| - 1;
      assert HasIn(m, keys[k], round);
      OneWeighs(keys[..k], m, round, sep, s);
      assert keys == keys[..k] + [keys[k]];
      if keys[k] == s {
        assert s !in keys[..k];
      } else {
        ZeroWeighs(m[keys[k]], round, sep);
        assert IntervalMid(m[keys[k]]) * 0 == 0;
      }
    }
  }

  lemma ZeroWeighs(iv: Interval, round: Round, sep: Val)
    requires HasTerminated(iv.state, round) && TermValue(iv, round) == 0 && sep > 0
    ensures IntervalWeight(iv, round, sep) == 0
  {
    hide TruncDiv, Wrap64;
    assert 0 * TruncDiv(Wrap64(iv.end - iv.start), sep) == 0;
  }
}
