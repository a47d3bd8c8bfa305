/** Which of the agreed transcripts are chosen, and when that does not depend on
    the order they came in. */
module Choice {
  import opened Types
  import opened Transcripts

  // ---- the order of transcripts ----

  /** Longer certificates first, then smaller dealer ids. */
  predicate Before(a: Transcript, b: Transcript) {
    |a.cert| > |b.cert| || (|a.cert| == |b.cert| && a.id < b.id)
  }

  predicate SameKey(a: Transcript, b: Transcript) { |a.cert| == |b.cert| && a.id == b.id }

  ghost predicate Ordered(s: seq<Transcript>) {
    forall i, j :: 0 <= i < j < |s| ==> !Before(s[j], s[i])
  }

  /** Inserts behind every element that need not come later: the sort is stable. */
  function Insert(s: seq<Transcript>, x: Transcript): seq<Transcript> {
    if s == [] then [x]
    else if Before(x, s[|s| - 1]) then Insert(s[..|s| - 1], x) + [s[|s| - 1]]
    else s + [x]
  }

  function StableSort(s: seq<Transcript>): seq<Transcript> {
    if s == [] then [] else Insert(StableSort(s[..|s| - 1]), s[|s| - 1])
  }

  lemma {:induction false} InsertContents(s: seq<Transcript>, x: Transcript)
    ensures multiset(Insert(s, x)) == multiset(s) + multiset{x}
  {
    hide Before;
    if s != [] {
      var k := |s| - 1;
      assert s == s[..k] + [s[k]];
      if Before(x, s[k]) { InsertContents(s[..k], x); }
    }
  }

  lemma OrderedSnoc(s: seq<Transcript>, x: Transcript)
    ensures Ordered(s + [x]) <==> Ordered(s) && forall y :: y in s ==> !Before(x, y)
  {
    hide Before;
    var l := s + [x];
    if Ordered(l) {
      forall i, j | 0 <= i < j < |s| ensures !Before(s[j], s[i]) { assert !Before(l[j], l[i]); }
      forall y | y in s ensures !Before(x, y) {
        var i :| 0 <= i < |s| && s[i] == y;
        assert !Before(l[|s|], l[i]);
      }
    }
  }

  lemma InsertMembers(s: seq<Transcript>, x: Transcript)
    ensures forall y :: y in Insert(s, x) <==> y in s || y == x
  {
    hide Before;
    InsertContents(s, x);
    forall y ensures y in Insert(s, x) <==> y in s || y == x {
      assert y in Insert(s, x) <==> y in multiset(Insert(s, x));
    }
  }

  lemma {:induction false} InsertOrdered(s: seq<Transcript>, x: Transcript)
    requires Ordered(s)
    ensures Ordered(Insert(s, x))
  {
    hide Ordered;
    if s == [] {
      SingleOrdered(x);
    } else {
      var k := |s| - 1;
      assert s == s[..k] + [s[k]];
      OrderedSnoc(s[..k], s[k]);
      if Before(x, s[k]) {
        InsertOrdered(s[..k], x);
        InsertMembers(s[..k], x);
        OrderedSnoc(Insert(s[..k], x), s[k]);
      } else {
        OrderedSnoc(s, x);
      }
    }
  }

  lemma SingleOrdered(x: Transcript)
    ensures Ordered([x])
  {
  }

  lemma InsertCorrect(s: seq<Transcript>, x: Transcript)
    requires Ordered(s)
    ensures Ordered(Insert(s, x)) && multiset(Insert(s, x)) == multiset(s) + multiset{x}
  {
    InsertOrdered(s, x);
    InsertContents(s, x);
  }

  lemma {:induction false} SortOrdered(s: seq<Transcript>)
    ensures Ordered(StableSort(s)) && multiset(StableSort(s)) == multiset(s)
  {
    if s != [] {
      var k := |s| - 1;
      SortOrdered(s[..k]);
      InsertCorrect(StableSort(s[..k]), s[k]);
      assert s == s[..k] + [s[k]];
    }
  }

  /** In an ordered list longer certificates come first, and among equally long
      ones smaller ids. */
  lemma OrderedBy(s: seq<Transcript>)
    requires Ordered(s)
    ensures forall i, j :: 0 <= i < j < |s| ==>
      |s[i].cert| > |s[j].cert| || (|s[i].cert| == |s[j].cert| && s[i].id <= s[j].id)
  {
  }

  /** The sort permutes, and puts longer certificates first and among equally long
      ones smaller ids. */
  lemma SortCorrect(s: seq<Transcript>)
    ensures multiset(StableSort(s)) == multiset(s)
    ensures var r := StableSort(s);
            forall i, j :: 0 <= i < j < |r| ==>
              |r[i].cert| > |r[j].cert| || (|r[i].cert| == |r[j].cert| && r[i].id <= r[j].id)
  {
    SortOrdered(s);
    OrderedBy(StableSort(s));
  }

  lemma {:induction false} SortOfOrdered(s: seq<Transcript>)
    requires Ordered(s)
    ensures StableSort(s) == s
  {
    if s != [] {
      var k := |s| - 1;
      SortOfOrdered(s[..k]);
      assert s == s[..k] + [s[k]];
    }
  }

  /** The elements that satisfy p, in order. */
  function Filter(s: seq<Transcript>, p: Transcript -> bool): seq<Transcript> {
    if s == [] then []
    else
      var k := |s| - 1;
      Filter(s[..k], p) + (if p(s[k]) then [s[k]] else [])
  }

  lemma {:induction false} FilterCons(x: Transcript, s: seq<Transcript>, p: Transcript -> bool)
    ensures Filter([x] + s, p) == (if p(x) then [x] else []) + Filter(s, p)
  {
    var l := [x] + s;
    if s == [] {
      assert l[..0] == [];
    } else {
      var k := |s| - 1;
      assert l[..|l| - 1] == [x] + s[..k] && l[|l| - 1] == s[k];
      FilterCons(x, s[..k], p);
    }
  }

  lemma FilterSnoc(s: seq<Transcript>, x: Transcript, p: Transcript -> bool)
    ensures Filter(s + [x], p) == Filter(s, p) + (if p(x) then [x] else [])
  {
    var l := s + [x];
    assert l[..|l| - 1] == s;
  }

  lemma {:induction false} InsertStable(s: seq<Transcript>, x: Transcript, p: Transcript -> bool)
    requires forall a, b :: p(a) && p(b) ==> !Before(a, b)
    ensures Filter(Insert(s, x), p) == Filter(s, p) + (if p(x) then [x] else [])
  {
    hide Before, Filter;
    if s == [] {
      FilterSnoc([], x, p);
      assert [] + [x] == [x];
    } else {
      var k := |s| - 1;
      assert s == s[..k] + [s[k]];
      FilterSnoc(s[..k], s[k], p); FilterSnoc(s, x, p);
      if Before(x, s[k]) {
        InsertStable(s[..k], x, p);
        FilterSnoc(Insert(s[..k], x), s[k], p);
      }
    }
  }

  lemma NotBeforeSame(a: Transcript, b: Transcript)
    requires |a.cert| == |b.cert| && a.id == b.id
    ensures !Before(a, b)
  {
  }

  /** The sort is stable: transcripts that tie keep their order. */
  lemma {:induction false} SortStable(s: seq<Transcript>, p: Transcript -> bool)
    requires forall a, b :: p(a) && p(b) ==> |a.cert| == |b.cert| && a.id == b.id
    ensures Filter(StableSort(s), p) == Filter(s, p)
  {
    hide Before, SameKey;
    forall a, b | p(a) && p(b) ensures !Before(a, b) { NotBeforeSame(a, b); }
    if s != [] {
      var k := |s| - 1;
      SortStable(s[..k], p);
      InsertStable(StableSort(s[..k]), s[k], p);
    }
  }

  lemma {:induction false} FilterCount(s: seq<Transcript>, p: Transcript -> bool, x: Transcript)
    ensures multiset(Filter(s, p))[x] == if p(x) then multiset(s)[x] else 0
  {
    if s != [] {
      var k := |s| - 1;
      assert s == s[..k] + [s[k]];
      FilterCount(s[..k], p, x);
    }
  }

  /** What a filter keeps does not depend on the order. */
  lemma FilterPermutes(s: seq<Transcript>, t: seq<Transcript>, p: Transcript -> bool)
    requires multiset(s) == multiset(t)
    ensures multiset(Filter(s, p)) == multiset(Filter(t, p)) && |Filter(s, p)| == |Filter(t, p)|
  {
    forall x ensures multiset(Filter(s, p))[x] == multiset(Filter(t, p))[x] {
      FilterCount(s, p, x); FilterCount(t, p, x);
    }
    assert |multiset(Filter(s, p))| == |Filter(s, p)| && |multiset(Filter(t, p))| == |Filter(t, p)|;
  }

  function Earlier(a: Transcript): Transcript -> bool { x => Before(x, a) }

  /** In an ordered list the elements before a come first. */
  lemma {:induction false} BeforePrefix(l: seq<Transcript>, a: Transcript)
    requires Ordered(l)
    ensures |Filter(l, Earlier(a))| <= |l|
    ensures forall i :: 0 <= i < |l| ==> (Before(l[i], a) <==> i < |Filter(l, Earlier(a))|)
  {
    hide Before, Filter, Ordered;
    if l == [] {
      EmptyFilter(Earlier(a));
    } else {
      var k := |l| - 1;
      assert l == l[..k] + [l[k]];
      OrderedSnoc(l[..k], l[k]);
      BeforePrefix(l[..k], a);
      FilterSnoc(l[..k], l[k], Earlier(a));
      forall i | 0 <= i < k ensures Before(l[k], a) ==> Before(l[i], a) {
        assert l[i] in l[..k];
        BeforeExtends(l[i], l[k], a);
      }
      forall i | 0 <= i < k ensures Before(l[i], a) <==> i < |Filter(l[..k], Earlier(a))| {
        assert l[..k][i] == l[i];
      }
      if Before(l[k], a) && k > 0 { assert Before(l[k - 1], a); }
    }
  }

  lemma BeforeExtends(x: Transcript, y: Transcript, a: Transcript)
    requires !Before(y, x)
    ensures Before(y, a) ==> Before(x, a)
  {
  }

  /** Two ordered arrangements agree in length and in every key, ties or not. */
  lemma OrderedKeys(s: seq<Transcript>, t: seq<Transcript>)
    requires multiset(s) == multiset(t) && Ordered(s) && Ordered(t)
    ensures SameKeys(s, t)
  {
    hide Ordered, Filter;
    assert |s| == |multiset(s)| == |multiset(t)| == |t|;
    forall i | 0 <= i < |s| ensures SameKey(s[i], t[i]) {
      BeforePrefix(s, t[i]); BeforePrefix(t, t[i]); FilterPermutes(s, t, Earlier(t[i]));
      BeforePrefix(s, s[i]); BeforePrefix(t, s[i]); FilterPermutes(s, t, Earlier(s[i]));
    }
  }

  ghost predicate SameKeys(s: seq<Transcript>, t: seq<Transcript>) {
    |s| == |t| && forall i :: 0 <= i < |s| ==> SameKey(s[i], t[i])
  }

  /** Transcripts that tie are the same transcript. */
  ghost predicate NoTies(s: multiset<Transcript>) {
    forall a, b :: a in s && b in s && SameKey(a, b) ==> a == b
  }

  /** Without ties there is one ordered arrangement. */
  lemma OrderUnique(s: seq<Transcript>, t: seq<Transcript>)
    requires multiset(s) == multiset(t) && Ordered(s) && Ordered(t) && NoTies(multiset(s))
    ensures s == t
  {
    hide SameKey, Ordered;
    OrderedKeys(s, t);
    forall i | 0 <= i < |s| ensures s[i] == t[i] {
      assert s[i] in multiset(s) && t[i] in multiset(t);
    }
  }

  /** Every delivery order of the same transcripts is sorted into the same list
      exactly when no two different transcripts tie. */
  lemma SortDeterminedIff(s: seq<Transcript>)
    ensures (forall t :: multiset(t) == multiset(s) ==> StableSort(t) == StableSort(s)) <==> NoTies(multiset(s))
  {
    SortOrdered(s);
    if NoTies(multiset(s)) {
      forall t | multiset(t) == multiset(s) ensures StableSort(t) == StableSort(s) {
        SortOrdered(t);
        OrderUnique(StableSort(t), StableSort(s));
      }
    } else {
      var a, b :| a in multiset(s) && b in multiset(s) && SameKey(a, b) && a != b;
      var u := StableSort(s);
      assert a in multiset(u) && b in multiset(u);
      var i :| 0 <= i < |u| && u[i] == a;
      var j :| 0 <= j < |u| && u[j] == b;
      var v := u[i := b][j := a];
      SwapOrdered(u, i, j);
      SortOfOrdered(u); SortOfOrdered(v);
      assert v[i] != u[i];
      assert multiset(v) == multiset(s);
      assert StableSort(v) != u;
    }
  }

  lemma SwapOrdered(u: seq<Transcript>, i: nat, j: nat)
    requires i < |u| && j < |u| && i != j && Ordered(u) && SameKey(u[i], u[j])
    ensures Ordered(u[i := u[j]][j := u[i]]) && multiset(u[i := u[j]][j := u[i]]) == multiset(u)
  {
    var v := u[i := u[j]][j := u[i]];
    assert forall k :: 0 <= k < |u| ==> SameKey(v[k], u[k]);
  }

  /** `sort_transcripts` */
  method SortTranscripts(res: seq<Transcript>) returns (r: seq<Transcript>)
    ensures r == StableSort(res) && multiset(r) == multiset(res)
    ensures forall i, j :: 0 <= i < j < |r| ==>
      |r[i].cert| > |r[j].cert| || (|r[i].cert| == |r[j].cert| && r[i].id <= r[j].id)
  {
    r := [];
    for i := 0 to |res|
      invariant r == StableSort(res[..i])
    {
      assert res[..i + 1][..i] == res[..i];
      r := Insert(r, res[i]);
    }
    assert res[..|res|] == res;
    SortCorrect(res);
  }

  lemma SortMembers(s: seq<Transcript>)
    ensures forall t :: t in StableSort(s) <==> t in s
  {
    SortOrdered(s);
    forall t ensures t in StableSort(s) <==> t in s {
      assert t in StableSort(s) <==> t in multiset(StableSort(s));
    }
  }

  // ---- the chosen transcripts ----

  /** The first k valid transcripts. */
  function TakeValid(s: seq<Transcript>, valid: Transcript -> bool, k: nat): seq<Transcript> {
    if k == 0 || s == [] then []
    else if valid(s[0]) then [s[0]] + TakeValid(s[1..], valid, k - 1)
    else TakeValid(s[1..], valid, k)
  }

  lemma {:induction false} TakeValidMembers(s: seq<Transcript>, valid: Transcript -> bool, k: nat)
    ensures |TakeValid(s, valid, k)| <= k
    ensures forall t :: t in TakeValid(s, valid, k) ==> t in s && valid(t)
    ensures k > 0 && (exists t :: t in s && valid(t)) ==> TakeValid(s, valid, k) != []
  {
    if k > 0 && s != [] {
      if valid(s[0]) { TakeValidMembers(s[1..], valid, k - 1); } else { TakeValidMembers(s[1..], valid, k); }
    }
  }

  /** They are the beginning of the list of all valid ones. */
  lemma {:induction false} TakeValidIsPrefix(s: seq<Transcript>, valid: Transcript -> bool, k: nat)
    ensures var all := Filter(s, valid);
            TakeValid(s, valid, k) == all[..if k < |all| then k else |all|]
  {
    if k > 0 && s != [] {
      assert s == [s[0]] + s[1..];
      FilterCons(s[0], s[1..], valid);
      TakeValidIsPrefix(s[1..], valid, if valid(s[0]) then k - 1 else k);
    }
  }

  /** The choice every node makes from what the common subset protocol outputs. */
  function Choose(res: seq<Transcript>, valid: Transcript -> bool, f: nat): seq<Transcript> {
    TakeValid(StableSort(res), valid, f + 1)
  }

  /** Filtering a sorted list is sorting the filtered one. */
  lemma {:induction false} InsertFilter(s: seq<Transcript>, x: Transcript, p: Transcript -> bool)
    requires Ordered(s)
    ensures Filter(Insert(s, x), p) == if p(x) then Insert(Filter(s, p), x) else Filter(s, p)
  {
    hide Ordered, Filter, Before;
    if s == [] {
      FilterSnoc([], x, p);
      EmptyFilter(p);
      assert [] + [x] == [x];
    } else {
      var k := |s| - 1;
      assert s == s[..k] + [s[k]];
      OrderedSnoc(s[..k], s[k]);
      FilterSnoc(s[..k], s[k], p); FilterSnoc(s, x, p);
      if Before(x, s[k]) {
        InsertFilter(s[..k], x, p);
        FilterSnoc(Insert(s[..k], x), s[k], p);
        InsertInner(Filter(s[..k], p), s[k], x);
        assert Filter(s[..k], p) + [] == Filter(s[..k], p);
        assert Insert(Filter(s[..k], p), x) + [] == Insert(Filter(s[..k], p), x);
      } else {
        FilterMembers(s, p);
        NotBeforeAll(s, x);
        InsertLast(Filter(s, p), x);
      }
    }
  }

  lemma InsertInner(s: seq<Transcript>, y: Transcript, x: Transcript)
    requires Before(x, y)
    ensures Insert(s + [y], x) == Insert(s, x) + [y]
  {
    assert (s + [y])[..|s|] == s;
  }

  lemma EmptyFilter(p: Transcript -> bool)
    ensures Filter([], p) == []
  {
  }

  lemma InsertLast(s: seq<Transcript>, x: Transcript)
    requires forall y :: y in s ==> !Before(x, y)
    ensures Insert(s, x) == s + [x]
  {
    if s != [] { assert s[|s| - 1] in s; }
  }

  lemma NotBeforeAll(s: seq<Transcript>, x: Transcript)
    requires Ordered(s) && s != [] && !Before(x, s[|s| - 1])
    ensures forall y :: y in s ==> !Before(x, y)
  {
    forall y | y in s ensures !Before(x, y) {
      var i :| 0 <= i < |s| && s[i] == y;
      assert i == |s| - 1 || !Before(s[|s| - 1], s[i]);
    }
  }

  lemma FilterMembers(s: seq<Transcript>, p: Transcript -> bool)
    ensures forall y :: y in Filter(s, p) <==> y in s && p(y)
  {
    hide Filter;
    forall y ensures y in Filter(s, p) <==> y in s && p(y) {
      FilterCount(s, p, y);
      assert y in Filter(s, p) <==> y in multiset(Filter(s, p));
      assert y in s <==> y in multiset(s);
    }
  }

  lemma {:induction false} SortFilter(s: seq<Transcript>, p: Transcript -> bool)
    ensures Filter(StableSort(s), p) == StableSort(Filter(s, p))
  {
    hide Before, Insert;
    if s != [] {
      var k := |s| - 1;
      SortFilter(s[..k], p);
      SortOrdered(s[..k]);
      InsertFilter(StableSort(s[..k]), s[k], p);
      var l := Filter(s[..k], p);
      assert (l + [s[k]])[..|l|] == l;
      assert l + [] == l;
    }
  }

  /** The valid transcripts in order: the choice is the beginning of this list. */
  function Candidates(res: seq<Transcript>, valid: Transcript -> bool): seq<Transcript> {
    StableSort(Filter(res, valid))
  }

  function Least(a: nat, b: nat): nat { if a < b then a else b }

  lemma ChooseFirst(res: seq<Transcript>, valid: Transcript -> bool, f: nat)
    ensures var c := Candidates(res, valid);
            Choose(res, valid, f) == c[..Least(f + 1, |c|)]
  {
    SortFilter(res, valid);
    TakeValidIsPrefix(StableSort(res), valid, f + 1);
  }

  lemma CandidatesCorrect(res: seq<Transcript>, valid: Transcript -> bool)
    ensures Ordered(Candidates(res, valid)) && multiset(Candidates(res, valid)) == multiset(Filter(res, valid))
    ensures forall y :: y in Candidates(res, valid) <==> y in res && valid(y)
  {
    SortOrdered(Filter(res, valid));
    FilterMembers(res, valid);
    SortMembers(Filter(res, valid));
  }

  /** The choice is f + 1 valid transcripts, or all if there are fewer, and no
      valid one left over has a longer certificate than a chosen one, or as long
      a one and a smaller id. */
  lemma ChoosesBest(res: seq<Transcript>, valid: Transcript -> bool, f: nat) returns (rest: seq<Transcript>)
    ensures multiset(Choose(res, valid, f)) + multiset(rest) == multiset(Filter(res, valid))
    ensures rest == [] || |Choose(res, valid, f)| == f + 1
    ensures |Choose(res, valid, f)| <= f + 1
    ensures forall t, u :: t in Choose(res, valid, f) && u in rest ==>
      |t.cert| > |u.cert| || (|t.cert| == |u.cert| && t.id <= u.id)
  {
    hide Candidates, Choose, Filter, Ordered;
    var c := Candidates(res, valid);
    var k := Least(f + 1, |c|);
    ChooseFirst(res, valid, f);
    CandidatesCorrect(res, valid);
    OrderedBy(c);
    rest := c[k..];
    assert c == c[..k] + c[k..];
  }

  /** Nodes given the same transcripts in any order choose equally many, with
      the same certificate lengths and the same dealers in the same places. */
  lemma SameDealers(res1: seq<Transcript>, res2: seq<Transcript>, valid: Transcript -> bool, f: nat)
    requires multiset(res1) == multiset(res2)
    ensures SameKeys(Choose(res1, valid, f), Choose(res2, valid, f))
  {
    hide Candidates, Choose, Filter, Ordered;
    ChooseFirst(res1, valid, f); ChooseFirst(res2, valid, f);
    CandidatesCorrect(res1, valid); CandidatesCorrect(res2, valid);
    FilterPermutes(res1, res2, valid);
    OrderedKeys(Candidates(res1, valid), Candidates(res2, valid));
  }

  /** The number of valid transcripts that come strictly before a. */
  ghost function Ahead(res: seq<Transcript>, valid: Transcript -> bool, a: Transcript): nat {
    |Filter(Filter(res, valid), Earlier(a))|
  }

  /** Different valid transcripts that tie come too late to be chosen. */
  ghost predicate NoChosenTies(res: seq<Transcript>, valid: Transcript -> bool, f: nat) {
    forall a, b :: a in res && b in res && valid(a) && valid(b) && SameKey(a, b) && a != b ==> Ahead(res, valid, a) > f
  }

  lemma CandidatesAhead(res: seq<Transcript>, valid: Transcript -> bool, a: Transcript)
    ensures var c := Candidates(res, valid);
            Ahead(res, valid, a) <= |c|
            && forall i :: 0 <= i < |c| ==> (Before(c[i], a) <==> i < Ahead(res, valid, a))
  {
    hide Before, Filter, StableSort;
    SortOrdered(Filter(res, valid));
    FilterPermutes(Candidates(res, valid), Filter(res, valid), Earlier(a));
    BeforePrefix(Candidates(res, valid), a);
  }

  /** Agreement: nodes given the same transcripts in any order choose the same
      list, as long as no two different ones tie among those that count. */
  lemma ChoiceAgreement(res1: seq<Transcript>, res2: seq<Transcript>, valid: Transcript -> bool, f: nat)
    requires multiset(res1) == multiset(res2) && NoChosenTies(res1, valid, f)
    ensures Choose(res1, valid, f) == Choose(res2, valid, f)
  {
    hide Candidates, Choose, SameKey, Ahead;
    SameDealers(res1, res2, valid, f);
    ChooseFirst(res1, valid, f); ChooseFirst(res2, valid, f);
    CandidatesCorrect(res1, valid); CandidatesCorrect(res2, valid);
    var c1, c2 := Choose(res1, valid, f), Choose(res2, valid, f);
    forall i | 0 <= i < |c1| ensures c1[i] == c2[i] {
      var a, b := c1[i], c2[i];
      assert a in Candidates(res1, valid) && b in Candidates(res2, valid);
      assert b in multiset(res2) && b in multiset(res1);
      CandidatesAhead(res1, valid, a);
    }
  }

  /** ... and exactly then every delivery order leads to the same choice. */
  lemma ChoiceDeterminedIff(res: seq<Transcript>, valid: Transcript -> bool, f: nat)
    ensures (forall t :: multiset(t) == multiset(res) ==> Choose(t, valid, f) == Choose(res, valid, f))
       <==> NoChosenTies(res, valid, f)
  {
    hide Choose, Ahead, SameKey;
    if NoChosenTies(res, valid, f) {
      forall t | multiset(t) == multiset(res) ensures Choose(t, valid, f) == Choose(res, valid, f) {
        ChoiceAgreement(res, t, valid, f);
      }
    } else {
      var a, b :| a in res && b in res && valid(a) && valid(b) && SameKey(a, b) && a != b && Ahead(res, valid, a) <= f;
      var t := OtherChoice(res, valid, f, a, b);
      assert Choose(t, valid, f) != Choose(res, valid, f);
    }
  }

  /** With a tie that counts, some other order leads to another choice. */
  lemma OtherChoice(res: seq<Transcript>, valid: Transcript -> bool, f: nat, a: Transcript, b: Transcript)
    returns (t: seq<Transcript>)
    requires a in res && b in res && valid(a) && valid(b) && SameKey(a, b) && a != b && Ahead(res, valid, a) <= f
    ensures multiset(t) == multiset(res) && Choose(t, valid, f) != Choose(res, valid, f)
  {
    hide Choose, Candidates, Filter, Ahead, Ordered, Before, SameKey;
    var l, c := Candidates(res, valid), Ahead(res, valid, a);
    CandidatesCorrect(res, valid);
    CandidatesAhead(res, valid, a);
    var d := TieAt(l, c, a, b);
    SwapOrdered(l, c, d);
    t := OtherOrder(res, valid, f, l[c := l[d]][d := l[c]], c);
  }

  /** Some order of the same transcripts has any ordered list of the valid ones
      as its candidates. */
  lemma OtherOrder(res: seq<Transcript>, valid: Transcript -> bool, f: nat, l: seq<Transcript>, c: nat)
    returns (t: seq<Transcript>)
    requires Ordered(l) && multiset(l) == multiset(Candidates(res, valid)) && |l| == |Candidates(res, valid)|
    requires c <= f && c < |l| && l[c] != Candidates(res, valid)[c]
    ensures multiset(t) == multiset(res) && Choose(t, valid, f) != Choose(res, valid, f)
  {
    hide Choose, Candidates, Filter, Ordered, Before;
    CandidatesCorrect(res, valid);
    t := Filter(res, Not(valid)) + l;
    Reordered(res, l, valid);
    ChooseFirst(res, valid, f); ChooseFirst(t, valid, f);
    forall x | x in multiset(l) ensures valid(x) { assert x in Candidates(res, valid); }
    CandidatesOf(res, l, valid);
  }

  /** In an ordered list with the two ties, the first place of their key holds
      one transcript and a later place another. */
  lemma TieAt(l: seq<Transcript>, c: nat, a: Transcript, b: Transcript) returns (d: nat)
    requires Ordered(l) && a in l && b in l && SameKey(a, b) && a != b
    requires c <= |l| && forall i :: 0 <= i < |l| ==> (Before(l[i], a) <==> i < c)
    ensures c < |l| && d < |l| && d != c && l[d] != l[c] && SameKey(l[c], l[d])
  {
    var i :| 0 <= i < |l| && l[i] == a;
    var j :| 0 <= j < |l| && l[j] == b;
    assert c <= i && c <= j;
    assert c == i || !Before(l[i], l[c]);
    d := if l[c] == a then j else i;
  }

  ghost function Not(p: Transcript -> bool): Transcript -> bool { x => !p(x) }

  lemma Reordered(res: seq<Transcript>, l: seq<Transcript>, valid: Transcript -> bool)
    requires multiset(l) == multiset(Filter(res, valid))
    ensures multiset(Filter(res, Not(valid)) + l) == multiset(res)
  {
    hide Filter;
    forall x ensures multiset(Filter(res, Not(valid)) + l)[x] == multiset(res)[x] {
      FilterCount(res, valid, x); FilterCount(res, Not(valid), x);
    }
  }

  lemma {:induction false} FilterConcat(s: seq<Transcript>, t: seq<Transcript>, p: Transcript -> bool)
    ensures Filter(s + t, p) == Filter(s, p) + Filter(t, p)
    decreases |t|
  {
    hide Filter;
    if t == [] {
      EmptyFilter(p);
      assert s + t == s && Filter(s, p) + [] == Filter(s, p);
    } else {
      var k := |t| - 1;
      assert t == t[..k] + [t[k]] && s + t == (s + t[..k]) + [t[k]];
      FilterConcat(s, t[..k], p);
      FilterSnoc(t[..k], t[k], p); FilterSnoc(s + t[..k], t[k], p);
    }
  }

  lemma {:induction false} FilterAll(s: seq<Transcript>, p: Transcript -> bool)
    ensures (forall x :: x in s ==> p(x)) ==> Filter(s, p) == s
    ensures (forall x :: x in s ==> !p(x)) ==> Filter(s, p) == []
  {
    if s != [] {
      var k := |s| - 1;
      assert s == s[..k] + [s[k]];
      FilterAll(s[..k], p);
    }
  }

  /** Putting the valid transcripts last, in an order of one's own that is
      sorted, makes that order the list of candidates. */
  lemma CandidatesOf(res: seq<Transcript>, l: seq<Transcript>, valid: Transcript -> bool)
    requires Ordered(l) && forall x :: x in multiset(l) ==> valid(x)
    ensures Candidates(Filter(res, Not(valid)) + l, valid) == l
  {
    hide Filter, Ordered;
    var m := Filter(res, Not(valid));
    FilterMembers(res, Not(valid));
    FilterConcat(m, l, valid);
    FilterAll(m, valid);
    forall x | x in l ensures valid(x) { assert x in multiset(l); }
    FilterAll(l, valid);
    assert [] + l == l;
    SortOfOrdered(l);
  }

  method SelectValid(res: seq<Transcript>, valid: Transcript -> bool, f: nat) returns (decided: seq<Transcript>)
    ensures decided == TakeValid(res, valid, f + 1)
  {
    decided := [];
    var i := 0;
    while i < |res|
      invariant 0 <= i <= |res| && |decided| <= f + 1
      invariant decided + TakeValid(res[i..], valid, f + 1 - |decided|) == TakeValid(res, valid, f + 1)
    {
      if |decided| >= f + 1 { return; }
      assert res[i..][1..] == res[i + 1..];
      if valid(res[i]) {
        assert decided + ([res[i]] + TakeValid(res[i + 1..], valid, f - |decided|))
            == (decided + [res[i]]) + TakeValid(res[i + 1..], valid, f - |decided|);
        decided := decided + [res[i]];
      }
      i := i + 1;
    }
  }
}
