/** The first round end to end: the lists a node's levels start with are what
    every other node processes. */
module FirstRound {
  import opened Types
  import opened BinAA
  import opened Intervals
  import opened LevelStart
  import opened DelphiLevel
  import opened LevelSafety
  import opened Wire

  /** The middle interval of a level around val lies inside the i64 line. */
  ghost predicate Inside64(val: Val, sep: Val)
    requires sep > 0
  {
    MIN < (TruncDiv(val, sep) - 1) * sep && (TruncDiv(val, sep) + 2) * sep < MAX
  }

  lemma SepZero(rho: Val)
    ensures Sep(rho, 0) == rho
  {
    assert Pow2(0) == 1;
  }

  /** A level's own first list is the one `expand` writes for it. */
  lemma FirstListIsThreePart(list: seq<Entry>, val: Val, rho: Val, level: Lev, maxInput: Val)
    requires rho >= 1 && maxInput != 0 && Sep(rho, level) >= 1 && Inside64(val, Sep(rho, level))
    requires var sep := Sep(rho, level);
             var m := ThreeParts((TruncDiv(val, sep) - 1) * sep, (TruncDiv(val, sep) + 2) * sep);
             Chain(list, MIN, MAX) && Encodes(m, list, MAX, 0, val, maxInput)
    ensures list == LevelList(val, rho, level, maxInput) && Coalescible(list, maxInput)
  {
    hide TruncDiv, Sep, Chain, Encodes, ThreeParts;
    var sep := Sep(rho, level);
    ValInside(val, sep);
    FirstRoundList(list, (TruncDiv(val, sep) - 1) * sep, (TruncDiv(val, sep) + 2) * sep, val, maxInput);
  }

  /** New levels, their first round, `coalesce` and `expand`: what arrives is what
      was started with, exactly for values above minus the finest separation. */
  method FirstRound(val: Val, rho: Val, totalLevels: Lev, maxInput: Val, minth: nat, highth: nat, myid: Replica)
    returns (echos: seq<LevelEntries>, back: seq<LevelEntries>)
    requires rho >= 1 && maxInput != 0 && totalLevels > 0 && Separated(minth, highth)
    requires forall l: Lev :: l < totalLevels ==> Sep(rho, l) >= 1 && Inside64(val, Sep(rho, l))
    ensures AllLevels(echos, totalLevels)
    ensures forall l :: 0 <= l < totalLevels ==> echos[l].entries == LevelList(val, rho, l, maxInput)
    ensures back == echos <==> val > -rho
  {
    hide TruncDiv, Sep, LevelList, Chain, Encodes, ThreeParts, Coalescible, FirstCoalescible, Image;
    echos := [];
    for l := 0 to totalLevels
      invariant |echos| == l && forall i :: 0 <= i < l ==> echos[i].level == i
      invariant forall i :: 0 <= i < l ==>
        echos[i].entries == LevelList(val, rho, i, maxInput) && Coalescible(echos[i].entries, maxInput)
    {
      ValInside(val, Sep(rho, l));
      var level := new Level(Sep(rho, l), val, minth, highth);
      var list := level.StartRound(0, myid, val, maxInput);
      FirstListIsThreePart(list, val, rho, l, maxInput);
      echos := echos + [LevelEntries(l, list)];
    }
    FirstAtOnce(echos, maxInput);
    CommonValueIff(echos, totalLevels, val, rho, maxInput);
    SepZero(rho);
    back := RoundTrip(echos, totalLevels, rho, maxInput, 0);
  }

  lemma FirstAtOnce(echos: seq<LevelEntries>, maxInput: Val)
    requires echos != [] && Coalescible(echos[0].entries, maxInput)
    ensures FirstCoalescible(echos, maxInput) == 0
  {
  }

  /** With such a value, what any node processes for a level is a list the
      level's net holds as sent by the starting node: receiving it is a step of
      the net, and the net's safety covers it. */
  lemma FirstRoundSteps(c: LevelConfig, s: Net, s': Net, q: Replica, m': IntervalMap, level: Lev,
      echos: seq<LevelEntries>, val: Val, rho: Val, totalLevels: Lev, maxInput: Val)
    requires rho >= 1 && AllLevels(echos, totalLevels) && level < totalLevels && val > -rho
    requires forall l :: 0 <= l < totalLevels ==>
      echos[l].entries == LevelList(val, rho, l, maxInput) && Coalescible(echos[l].entries, maxInput)
    requires StartLevel(c, s, s', q, m', echos[level].entries)
    ensures Known(echos, totalLevels)
    ensures var back := Image(echos, totalLevels, rho, maxInput);
            |back| == totalLevels && back[level].level == level && (q, back[level].entries) in s'.lists1
  {
    hide TruncDiv, Sep, LevelList, Coalescible, FirstCoalescible, Image;
    FirstAtOnce(echos, maxInput);
    CommonValueIff(echos, totalLevels, val, rho, maxInput);
    SepZero(rho);
  }
}
