/** `coalesce` and `expand`: many levels with one common value travel as one
    tuple, and when they come back unchanged. */
module Wire {
  import opened Types
  import opened BinAA
  import opened Intervals

  type Lev = nat

  datatype LevelEntries = LevelEntries(level: Lev, entries: seq<Entry>)

  /** (mu, first level, last level, round) */
  datatype Coalesced = Coalesced(point: Point, first: Lev, last: Lev, round: Round)

  function Pow2(n: nat): nat { if n == 0 then 1 else 2 * Pow2(n - 1) }

  /** The checkpoint separation of a level, with exponent 2. */
  function Sep(rho: Val, level: Lev): Val { rho * Pow2(level) }

  lemma {:induction false} SepPositive(rho: Val, level: Lev)
    requires rho >= 1
    ensures Sep(rho, level) >= 1
  {
    if level > 0 {
      SepPositive(rho, level - 1);
      SepDoubles(rho, level - 1);
    }
  }

  lemma SepDoubles(rho: Val, level: Lev)
    ensures Sep(rho, 0) == rho && Sep(rho, level + 1) == 2 * Sep(rho, level)
  {
  }

  /** The three-part list of a level around a value. */
  function ThreePart(bucket: Val, sep: Val, maxInput: Val): seq<Entry> {
    [Entry(MIN, (bucket - 1) * sep, 0),
     Entry((bucket - 1) * sep, (bucket + 2) * sep, maxInput),
     Entry((bucket + 2) * sep, MAX, 0)]
  }

  function LevelList(v: Val, rho: Val, level: Lev, maxInput: Val): seq<Entry>
    requires rho >= 1
  {
    SepPositive(rho, level);
    ThreePart(TruncDiv(v, Sep(rho, level)), Sep(rho, level), maxInput)
  }

  /** `expand` */
  method Expand(c: Coalesced, rho: Val, maxInput: Val) returns (r: seq<LevelEntries>)
    requires rho >= 1
    ensures |r| == if c.first <= c.last then c.last + 1 - c.first else 0
    ensures forall i :: 0 <= i < |r| ==>
      r[i] == LevelEntries(c.first + i, LevelList(c.point, rho, c.first + i, maxInput))
  {
    r := [];
    var level := c.first;
    while level < c.last + 1
      invariant c.first <= level && (level <= c.last + 1 || level == c.first)
      invariant |r| == level - c.first
      invariant forall i :: 0 <= i < |r| ==>
        r[i] == LevelEntries(c.first + i, LevelList(c.point, rho, c.first + i, maxInput))
    {
      var sep := Sep(rho, level);
      SepPositive(rho, level);
      var start := (TruncDiv(c.point, sep) - 1) * sep;
      var end := (TruncDiv(c.point, sep) + 2) * sep;
      r := r + [LevelEntries(level, [Entry(MIN, start, 0), Entry(start, end, maxInput), Entry(end, MAX, 0)])];
      level := level + 1;
    }
  }

  /** The shape `coalesce` looks for: three entries over the whole line with the
      maximum in the middle. */
  predicate Coalescible(entries: seq<Entry>, maxInput: Val) {
    |entries| == 3 && entries[0].start == MIN && entries[2].end == MAX && entries[1].value == maxInput
  }

  /** In full: a list of three entries from MIN to MAX whose middle value is the
      maximum. */
  lemma CoalescibleIs(echos: seq<LevelEntries>, maxInput: Val, k: nat)
    requires k < |echos| && forall i :: 0 <= i < k ==>
      var e := echos[i].entries;
      |e| != 3 || e[0].start != MIN || e[2].end != MAX || e[1].value != maxInput
    ensures var e := echos[k].entries;
            FirstCoalescible(echos, maxInput) == k
            <==> |e| == 3 && e[0].start == MIN && e[2].end == MAX && e[1].value == maxInput
  {
    var first := FirstCoalescible(echos, maxInput);
    assert first < |echos| ==> Coalescible(echos[first].entries, maxInput);
    assert first > k ==> !Coalescible(echos[k].entries, maxInput);
  }

  /** The position of the first coalescible level, or the length. */
  function FirstCoalescible(echos: seq<LevelEntries>, maxInput: Val): (k: nat)
    ensures k <= |echos|
    ensures forall i :: 0 <= i < k ==> !Coalescible(echos[i].entries, maxInput)
    ensures k < |echos| ==> Coalescible(echos[k].entries, maxInput)
  {
    if echos == [] then 0
    else if Coalescible(echos[0].entries, maxInput) then 0
    else 1 + FirstCoalescible(echos[1..], maxInput)
  }

  /** `coalesce` */
  method Coalesce(echos: seq<LevelEntries>, maxLevels: Lev, maxInput: Val, round: Round)
    returns (c: Coalesced, rest: seq<LevelEntries>)
    requires forall i :: 0 <= i < |echos| ==> echos[i].level < maxLevels
    ensures c.last == maxLevels && c.round == round
    ensures var k := FirstCoalescible(echos, maxInput);
            if k == |echos| then c.first == maxLevels + 1 && c.point == MIN
            else
              c.first == echos[k].level
              && c.point == TruncDiv(echos[k].entries[1].start + echos[k].entries[1].end, 2)
    ensures rest == Below(echos, c.first)
  {
    var levelThresh := maxLevels + 1;
    var coalesceVal := MIN;
    ghost var k := FirstCoalescible(echos, maxInput);
    for i := 0 to |echos|
      invariant i <= k ==> levelThresh == maxLevels + 1 && coalesceVal == MIN
      invariant i > k ==> levelThresh == echos[k].level
      invariant i > k ==> coalesceVal == TruncDiv(echos[k].entries[1].start + echos[k].entries[1].end, 2)
    {
      var e := echos[i].entries;
      if |e| == 3 && e[0].start == MIN && e[|e| - 1].end == MAX {
        var mid := e[1];
        if mid.value == maxInput && levelThresh == maxLevels + 1 {
          coalesceVal := TruncDiv(mid.start + mid.end, 2);
          levelThresh := echos[i].level;
        }
      }
    }
    rest := [];
    for i := 0 to |echos|
      invariant rest == Below(echos[..i], levelThresh)
    {
      assert echos[..i + 1][..i] == echos[..i];
      if echos[i].level < levelThresh {
        rest := rest + [echos[i]];
      }
    }
    assert echos[..|echos|] == echos;
    c := Coalesced(coalesceVal, levelThresh, maxLevels, round);
  }

  /** The entries of the levels below a bound, in order. */
  function Below(echos: seq<LevelEntries>, bound: Lev): seq<LevelEntries> {
    if echos == [] then []
    else
      var init, last := Below(echos[..|echos| - 1], bound), echos[|echos| - 1];
      if last.level < bound then init + [last] else init
  }

  /** What a receiver processes: the expansion is appended when it starts below
      the number of levels, and lists of unknown levels are dropped. */
  method Receive(c: Coalesced, rest: seq<LevelEntries>, totalLevels: Lev, rho: Val,
      maxInput: Val) returns (r: seq<LevelEntries>)
    requires rho >= 1
    ensures c.first >= totalLevels ==> r == Below(rest, totalLevels)
    ensures c.first < totalLevels ==> exists x ::
      |x| == (if c.first <= c.last then c.last + 1 - c.first else 0)
      && (forall i :: 0 <= i < |x| ==>
            x[i] == LevelEntries(c.first + i, LevelList(c.point, rho, c.first + i, maxInput)))
      && r == Below(rest + x, totalLevels)
  {
    var levels := rest;
    if c.first < totalLevels {
      var expanded := Expand(c, rho, maxInput);
      levels := levels + expanded;
    }
    r := Below(levels, totalLevels);
  }

  /** List by list, in order. */
  lemma {:induction false} BelowSplits(a: seq<LevelEntries>, b: seq<LevelEntries>, bound: Lev)
    ensures Below(a + b, bound) == Below(a, bound) + Below(b, bound)
    ensures forall e: LevelEntries :: Below([e], bound) == if e.level < bound then [e] else []
    decreases |b|
  {
    forall e: LevelEntries ensures Below([e], bound) == if e.level < bound then [e] else [] {
      assert [e][..0] == [];
    }
    if b == [] {
      assert a + b == a;
    } else {
      var k := |b| - 1;
      assert (a + b)[..|a + b| - 1] == a + b[..k];
      BelowSplits(a, b[..k], bound);
    }
  }

  // ---- the round trip ----

  /** One list per level, in order. */
  ghost predicate AllLevels(echos: seq<LevelEntries>, totalLevels: Lev) {
    |echos| == totalLevels && forall i :: 0 <= i < totalLevels ==> echos[i].level == i
  }

  /** From position k on, every level is the three-part list around v. */
  ghost predicate AroundFrom(echos: seq<LevelEntries>, k: nat, v: Val, rho: Val, maxInput: Val)
    requires rho >= 1
  {
    forall i :: k <= i < |echos| ==> echos[i].entries == LevelList(v, rho, i, maxInput)
  }

  /** x == m * q + r determines q and r. */
  lemma DivUnique(x: int, m: int, q: int, r: int)
    requires 0 <= r < m && x == m * q + r
    ensures x / m == q
  {
    var d := x / m - q;
    assert m * d == r - x % m by { assert m * (x / m) - m * q == m * d; }
    Multiple(m, d);
  }

  lemma Multiple(m: int, d: int)
    requires m > 0
    ensures d >= 1 ==> m * d >= m
    ensures d <= -1 ==> m * d <= -m
  {
  }

  /** Dividing by 2s is dividing by s and halving, truncation included. */
  lemma HalfBucket(x: int, s: int)
    requires s >= 1
    ensures TruncDiv(x, 2 * s) == TruncDiv(TruncDiv(x, s), 2)
  {
    HalfQuotient(if x >= 0 then x else -x, s);
  }

  lemma HalfQuotient(y: nat, s: int)
    requires s >= 1
    ensures y / (2 * s) == y / s / 2 && y / s >= 0
  {
    var q, r := y / s, y % s;
    var h, o := q / 2, q % 2;
    HalfParts(y, s, q, r, h, o);
    DivUnique(y, 2 * s, h, s * o + r);
    NonnegativeQuotient(y, s);
  }

  lemma HalfParts(y: int, s: int, q: int, r: int, h: int, o: int)
    requires y == s * q + r && q == 2 * h + o && 0 <= r < s && 0 <= o <= 1
    ensures y == (2 * s) * h + (s * o + r) && 0 <= s * o + r < 2 * s
  {
    assert s * (2 * h + o) == (2 * s) * h + s * o;
    assert o == 0 || o == 1;
  }

  lemma NonnegativeQuotient(y: int, s: int)
    requires y >= 0 && s >= 1
    ensures y / s >= 0
  {
  }

  /** The midpoint of bucket q's interval. */
  function BucketMid(q: Val, s: Val): Val { TruncDiv((q - 1) * s + (q + 2) * s, 2) }

  /** It falls back into bucket q unless truncation towards zero pulls it into
      the next bucket, as it does for every negative bucket. */
  lemma MidBucket(q: Val, s: Val)
    requires s >= 1
    ensures TruncDiv(BucketMid(q, s), s) == if q >= 0 then q else q + 1
  {
    var p := if q >= 0 then q else -q - 1;
    var sum := (q - 1) * s + (q + 2) * s;
    assert sum == (2 * q + 1) * s;
    assert (2 * p + 1) * s == 2 * (p * s) + s;
    assert q < 0 ==> sum == -((2 * p + 1) * s);
    var half := ((2 * p + 1) * s) / 2;
    assert half == p * s + s / 2;
    assert p * s >= 0;
    assert s * p == p * s;
    DivUnique(half, s, p, s / 2);
  }

  /** Once the buckets agree they agree on all coarser levels. */
  lemma {:induction false} CoarserAgrees(x: Val, y: Val, rho: Val, level: Lev, up: nat)
    requires rho >= 1 && Sep(rho, level) >= 1 && Sep(rho, level + up) >= 1
    requires TruncDiv(x, Sep(rho, level)) == TruncDiv(y, Sep(rho, level))
    ensures TruncDiv(x, Sep(rho, level + up)) == TruncDiv(y, Sep(rho, level + up))
  {
    hide TruncDiv, Sep;
    if up > 0 {
      SepPositive(rho, level + up - 1);
      CoarserAgrees(x, y, rho, level, up - 1);
      SepDoubles(rho, level + up - 1);
      HalfBucket(x, Sep(rho, level + up - 1));
      HalfBucket(y, Sep(rho, level + up - 1));
    }
  }

  /** The bucket of v is negative exactly from -s down. */
  lemma NegativeBucket(v: Val, s: Val)
    requires s >= 1
    ensures TruncDiv(v, s) >= 0 <==> v > -s
  {
    if v < 0 {
      var d := (-v) / s;
      assert -v == s * d + (-v) % s;
      Multiple(s, d);
    } else {
      NonnegativeQuotient(v, s);
    }
  }

  lemma DifferentBuckets(q: Val, q': Val, s: Val, maxInput: Val)
    requires s >= 1
    ensures ThreePart(q, s, maxInput) == ThreePart(q', s, maxInput) <==> q == q'
  {
    if q != q' {
      assert (q - 1) * s - (q' - 1) * s == s * (q - q');
      Multiple(s, q - q');
      assert ThreePart(q, s, maxInput)[1].start != ThreePart(q', s, maxInput)[1].start;
    }
  }

  /** The tuple names a point of v's own buckets, exactly when v > -sep. */
  lemma PointBuckets(v: Val, rho: Val, k: Lev, i: nat, maxInput: Val)
    requires rho >= 1 && k <= i
    ensures var s := Sep(rho, k);
            s >= 1 && var mid := BucketMid(TruncDiv(v, s), s);
            && (v > -s ==> LevelList(mid, rho, i, maxInput) == LevelList(v, rho, i, maxInput))
            && (v <= -s ==> LevelList(mid, rho, k, maxInput) != LevelList(v, rho, k, maxInput))
  {
    hide TruncDiv, Sep, BucketMid, ThreePart;
    SepPositive(rho, k); SepPositive(rho, i);
    var s := Sep(rho, k);
    var q := TruncDiv(v, s);
    MidBucket(q, s);
    NegativeBucket(v, s);
    if v > -s {
      CoarserAgrees(BucketMid(q, s), v, rho, k, i - k);
    } else {
      DifferentBuckets(q, q + 1, s, maxInput);
    }
  }

  /** When only the first n lists are below the bound, they are what remains. */
  lemma {:induction false} BelowPrefix(echos: seq<LevelEntries>, bound: Lev, n: nat)
    requires n <= |echos|
    requires forall i :: 0 <= i < n ==> echos[i].level < bound
    requires forall i :: n <= i < |echos| ==> echos[i].level >= bound
    ensures Below(echos, bound) == echos[..n]
    decreases |echos|
  {
    if echos != [] {
      var k := |echos| - 1;
      BelowPrefix(echos[..k], bound, if n == |echos| then k else n);
      assert echos[..n] == if n == |echos| then echos[..k][..k] + [echos[k]] else echos[..k][..n];
    }
  }

  /** Lists of known levels, in any order and number. */
  ghost predicate Known(echos: seq<LevelEntries>, totalLevels: Lev) {
    forall i :: 0 <= i < |echos| ==> echos[i].level < totalLevels
  }

  /** The three-part lists around a point, from one level to the last. */
  function TailLists(point: Point, first: Lev, totalLevels: Lev, rho: Val, maxInput: Val): (x: seq<LevelEntries>)
    requires rho >= 1 && first <= totalLevels
    ensures |x| == totalLevels - first
  {
    seq(totalLevels - first, i requires 0 <= i => LevelEntries(first + i, LevelList(point, rho, first + i, maxInput)))
  }

  /** The point a coalescible list stands for. */
  function MiddlePoint(entries: seq<Entry>): Point
    requires |entries| == 3
  {
    TruncDiv(entries[1].start + entries[1].end, 2)
  }

  /** What comes back: the lists of levels below the first coalescible one's, and
      from its level on the three-part lists around its middle point. */
  ghost function Image(echos: seq<LevelEntries>, totalLevels: Lev, rho: Val, maxInput: Val): seq<LevelEntries>
    requires rho >= 1 && Known(echos, totalLevels)
  {
    var k := FirstCoalescible(echos, maxInput);
    if k == |echos| then echos
    else
      Below(echos, echos[k].level)
        + TailLists(MiddlePoint(echos[k].entries), echos[k].level, totalLevels, rho, maxInput)
  }

  /** Said of the lists themselves: from the level of the first one that is three
      entries from MIN to MAX with the maximum in the middle, exactly the lists
      around its middle point come back, and below it exactly those sent. */
  lemma ImageOf(echos: seq<LevelEntries>, totalLevels: Lev, rho: Val, maxInput: Val, k: nat)
    requires rho >= 1 && Known(echos, totalLevels) && k < |echos|
    requires forall i :: 0 <= i < k ==>
      var e := echos[i].entries;
      |e| != 3 || e[0].start != MIN || e[2].end != MAX || e[1].value != maxInput
    requires var e := echos[k].entries; |e| == 3 && e[0].start == MIN && e[2].end == MAX && e[1].value == maxInput
    ensures var back, e := Image(echos, totalLevels, rho, maxInput), echos[k];
            && (forall i :: 0 <= i < |echos| && echos[i].level < e.level ==> echos[i] in back)
            && (forall x :: x in back && x.level < e.level ==> x in echos)
            && (forall x :: x in back && x.level >= e.level <==>
                  e.level <= x.level < totalLevels
                  && x.entries == LevelList(TruncDiv(e.entries[1].start + e.entries[1].end, 2), rho, x.level, maxInput))
  {
    hide TruncDiv, Sep, LevelList, FirstCoalescible, Below;
    CoalescibleIs(echos, maxInput, k);
    var l0 := echos[k].level;
    BelowMembers(echos, l0);
    forall i | 0 <= i < |echos| && echos[i].level < l0 ensures echos[i] in Below(echos, l0) {
      BelowKeeps(echos, l0, i);
    }
    TailMembers(MiddlePoint(echos[k].entries), l0, totalLevels, rho, maxInput);
  }

  lemma TailMembers(point: Point, first: Lev, totalLevels: Lev, rho: Val, maxInput: Val)
    requires rho >= 1 && first <= totalLevels
    ensures forall x :: x in TailLists(point, first, totalLevels, rho, maxInput) <==>
      first <= x.level < totalLevels && x == LevelEntries(x.level, LevelList(point, rho, x.level, maxInput))
  {
    hide LevelList;
    var tail := TailLists(point, first, totalLevels, rho, maxInput);
    forall x: LevelEntries |
        first <= x.level < totalLevels && x == LevelEntries(x.level, LevelList(point, rho, x.level, maxInput))
      ensures x in tail
    {
      assert tail[x.level - first] == x;
    }
  }

  /** The lists before the first coalescible one are of lower levels, and it and
      those after it are, without a gap, the three-part lists around its middle
      point. */
  ghost predicate TailIsWhole(echos: seq<LevelEntries>, k: nat, totalLevels: Lev, rho: Val, maxInput: Val)
    requires rho >= 1 && Known(echos, totalLevels) && k < |echos| && |echos[k].entries| == 3
  {
    && (forall i :: 0 <= i < k ==> echos[i].level < echos[k].level)
    && echos[k..] == TailLists(MiddlePoint(echos[k].entries), echos[k].level, totalLevels, rho, maxInput)
  }

  /** A whole transmission, exactly, for any lists of known levels. */
  method RoundTrip(echos: seq<LevelEntries>, totalLevels: Lev, rho: Val, maxInput: Val, round: Round)
    returns (back: seq<LevelEntries>)
    requires rho >= 1 && Known(echos, totalLevels)
    ensures back == Image(echos, totalLevels, rho, maxInput)
    ensures (forall i :: 0 <= i < |echos| ==>
              var e := echos[i].entries;
              |e| != 3 || e[0].start != MIN || e[2].end != MAX || e[1].value != maxInput)
              ==> back == echos
  {
    hide TruncDiv, Sep, LevelList, FirstCoalescible, Below;
    var k := FirstCoalescible(echos, maxInput);
    var c, rest := Coalesce(echos, totalLevels, maxInput, round);
    back := Receive(c, rest, totalLevels, rho, maxInput);
    BelowMembers(echos, c.first);
    if k == |echos| {
      BelowPrefix(echos, c.first, k);
      assert echos[..k] == echos;
      BelowPrefix(echos, totalLevels, k);
    } else {
      var x :| |x| == totalLevels + 1 - c.first
        && (forall i :: 0 <= i < |x| ==>
              x[i] == LevelEntries(c.first + i, LevelList(c.point, rho, c.first + i, maxInput)))
        && back == Below(rest + x, totalLevels);
      forall i | 0 <= i < |rest| ensures rest[i].level < totalLevels { assert rest[i] in rest; }
      BelowPrefix(rest + x, totalLevels, |rest| + (totalLevels - c.first));
      var tail := TailLists(c.point, c.first, totalLevels, rho, maxInput);
      assert (rest + x)[..|rest| + (totalLevels - c.first)] == rest + tail;
    }
  }

  lemma {:induction false} BelowMembers(echos: seq<LevelEntries>, bound: Lev)
    ensures forall e :: e in Below(echos, bound) ==> e in echos && e.level < bound
  {
    if echos != [] {
      BelowMembers(echos[..|echos| - 1], bound);
      assert forall e :: e in echos[..|echos| - 1] ==> e in echos;
    }
  }

  /** So lists come back as they were if and only if none has the coalesced shape,
      or the first that has begins a whole tail. */
  lemma UnchangedIff(echos: seq<LevelEntries>, totalLevels: Lev, rho: Val, maxInput: Val)
    requires rho >= 1 && Known(echos, totalLevels)
    ensures var k := FirstCoalescible(echos, maxInput);
            Image(echos, totalLevels, rho, maxInput) == echos
            <==> k == |echos| || TailIsWhole(echos, k, totalLevels, rho, maxInput)
  {
    hide TruncDiv, Sep, LevelList, FirstCoalescible, Below;
    var k := FirstCoalescible(echos, maxInput);
    if k < |echos| {
      BelowMembers(echos, echos[k].level);
      var point := MiddlePoint(echos[k].entries);
      if Below(echos, echos[k].level) + TailLists(point, echos[k].level, totalLevels, rho, maxInput) == echos {
        UnchangedTail(echos, k, point, totalLevels, rho, maxInput);
      }
      if TailIsWhole(echos, k, totalLevels, rho, maxInput) {
        forall i | k <= i < |echos| ensures echos[i].level >= echos[k].level {
          assert echos[i] == echos[k..][i - k];
        }
        BelowPrefix(echos, echos[k].level, k);
        assert echos == echos[..k] + echos[k..];
      }
    }
  }

  lemma UnchangedTail(echos: seq<LevelEntries>, k: nat, point: Point, totalLevels: Lev, rho: Val, maxInput: Val)
    requires rho >= 1 && Known(echos, totalLevels) && k < |echos|
    requires var l := echos[k].level;
             Below(echos, l) + TailLists(point, l, totalLevels, rho, maxInput) == echos
    ensures forall i :: 0 <= i < k ==> echos[i].level < echos[k].level
    ensures echos[k..] == TailLists(point, echos[k].level, totalLevels, rho, maxInput)
  {
    hide LevelList, Below;
    BelowMembers(echos, echos[k].level);
    TailStarts(Below(echos, echos[k].level), TailLists(point, echos[k].level, totalLevels, rho, maxInput), echos, k);
  }

  /** Only the list where the lists from some level on begin is of that level. */
  lemma TailStarts(low: seq<LevelEntries>, tail: seq<LevelEntries>, echos: seq<LevelEntries>, k: nat)
    requires low + tail == echos && k < |echos|
    requires forall e :: e in low ==> e.level < echos[k].level
    requires forall j :: 0 <= j < |tail| ==> tail[j].level == echos[k].level + j
    ensures forall i :: 0 <= i < k ==> echos[i].level < echos[k].level
    ensures echos[k..] == tail
  {
    forall i | 0 <= i < |low| ensures echos[i].level < echos[k].level {
      assert low[i] in low && echos[i] == low[i];
    }
    forall i | |low| <= i < |echos| ensures echos[i].level == echos[k].level + (i - |low|) {
      assert echos[i] == tail[i - |low|];
    }
  }

  /** For lists of all levels that are, from the first coalescible one on, the
      three-part lists around one value, that is so if and only if nothing was
      coalesced or the value exceeds minus the separation of that level. */
  lemma CommonValueIff(echos: seq<LevelEntries>, totalLevels: Lev, v: Val, rho: Val, maxInput: Val)
    requires rho >= 1 && AllLevels(echos, totalLevels)
    requires AroundFrom(echos, FirstCoalescible(echos, maxInput), v, rho, maxInput)
    ensures Known(echos, totalLevels)
    ensures var k := FirstCoalescible(echos, maxInput);
            Image(echos, totalLevels, rho, maxInput) == echos <==> k == |echos| || v > -Sep(rho, k)
  {
    hide TruncDiv, Sep, LevelList, FirstCoalescible, BucketMid, Below;
    var k := FirstCoalescible(echos, maxInput);
    if k < |echos| {
      MiddleEntry(v, rho, k, maxInput);
      var mid := MiddlePoint(echos[k].entries);
      var tail := TailLists(mid, k, totalLevels, rho, maxInput);
      var back := Image(echos, totalLevels, rho, maxInput);
      BelowPrefix(echos, k, k);
      forall i | k <= i < totalLevels
        ensures back[i] == LevelEntries(i, LevelList(mid, rho, i, maxInput))
        ensures v > -Sep(rho, k) ==> back[i] == echos[i]
      {
        assert back[i] == tail[i - k];
        PointBuckets(v, rho, k, i, maxInput);
      }
      PointBuckets(v, rho, k, k, maxInput);
      assert back[..k] == echos[..k];
    }
  }

  lemma MiddleEntry(v: Val, rho: Val, k: Lev, maxInput: Val)
    requires rho >= 1
    ensures Sep(rho, k) >= 1
    ensures var l := LevelList(v, rho, k, maxInput);
            |l| == 3 && TruncDiv(l[1].start + l[1].end, 2) == BucketMid(TruncDiv(v, Sep(rho, k)), Sep(rho, k))
  {
    SepPositive(rho, k);
  }

  /** In particular the tuple says more than was sent: when some list has the
      coalesced shape and a later level has no list of its own, the receiver
      processes a list for that level all the same. */
  method MissingLevel(echos: seq<LevelEntries>, totalLevels: Lev, rho: Val, maxInput: Val, round: Round, missing: Lev)
    returns (back: seq<LevelEntries>)
    requires rho >= 1 && forall i :: 0 <= i < |echos| ==> echos[i].level < totalLevels && echos[i].level != missing
    requires var k := FirstCoalescible(echos, maxInput); k < |echos| && echos[k].level <= missing < totalLevels
    ensures exists mid :: LevelEntries(missing, LevelList(mid, rho, missing, maxInput)) in back
    ensures back != echos
  {
    hide TruncDiv, Sep, LevelList, Coalescible, FirstCoalescible, Below;
    var k := FirstCoalescible(echos, maxInput);
    var c, rest := Coalesce(echos, totalLevels, maxInput, round);
    back := Receive(c, rest, totalLevels, rho, maxInput);
    var x :| |x| == c.last + 1 - c.first
      && (forall i :: 0 <= i < |x| ==>
            x[i] == LevelEntries(c.first + i, LevelList(c.point, rho, c.first + i, maxInput)))
      && back == Below(rest + x, totalLevels);
    var e := x[missing - c.first];
    assert (rest + x)[|rest| + (missing - c.first)] == e;
    BelowKeeps(rest + x, totalLevels, |rest| + (missing - c.first));
  }

  lemma {:induction false} BelowKeeps(echos: seq<LevelEntries>, bound: Lev, i: nat)
    requires i < |echos| && echos[i].level < bound
    ensures echos[i] in Below(echos, bound)
    decreases |echos|
  {
    if i < |echos| - 1 {
      BelowKeeps(echos[..|echos| - 1], bound, i);
      assert echos[..|echos| - 1][i] == echos[i];
    }
  }
}
