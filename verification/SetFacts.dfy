/** Facts about finite sets the solver does not offer by itself. */
module SetFacts {

  lemma Inhabited<T>(s: set<T>)
    requires s != {}
    ensures exists x :: x in s
  {
    if forall x :: x !in s { assert false; }
  }

  lemma {:induction false} SubsetSize<T>(s: set<T>, t: set<T>)
    requires s <= t
    ensures |s| <= |t|
    ensures |s| == |t| ==> s == t
  {
    if s != {} {
      Inhabited(s);
      var x :| x in s;
      SubsetSize(s - {x}, t - {x});
      assert s - {x} == t - {x} ==> s == t;
    }
  }

  lemma InsertSize<T>(s: set<T>, x: T)
    ensures |s + {x}| == if x in s then |s| else |s| + 1
  {
    if x in s { assert s + {x} == s; }
  }

  /** The numbers below n. */
  ghost function UpTo(n: nat): (s: set<nat>)
    ensures forall k: int :: k in s <==> 0 <= k < n
    ensures |s| == n
  {
    if n == 0 then {} else UpTo(n - 1) + {n - 1}
  }

  lemma AnyInt(s: set<int>) returns (x: int)
    requires s != {}
    ensures x in s
  {
    if forall y :: y !in s { assert false; }
    x :| x in s;
  }
}
