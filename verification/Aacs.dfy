/** Asynchronous agreement on a common subset of transcripts: one node's state,
    and why any two nodes that output agree. */
module Aacs {
  import opened Types
  import opened SetFacts
  import opened Transcripts
  import opened BinAA

  /** What the layers below provide, the same at every node: the leaders drawn
      by the coin, the index set and the transcript each sender broadcast
      consistently, and the leaders whose instance ends above the midpoint. */
  datatype Env = Env(n: nat, f: nat, leaders: set<Replica>, index: map<Replica, set<Replica>>,
                     trans: map<Replica, Transcript>, above: set<Replica>)

  /** The union of the index sets of rs. */
  function Union(rs: set<Replica>, index: map<Replica, set<Replica>>): set<Replica>
    requires forall r :: r in rs ==> r in index
  {
    set r, i | r in rs && i in index[r] :: i
  }

  /** The transcripts of the senders in s, each counted once. */
  ghost function Bag(s: set<Replica>, trans: map<Replica, Transcript>): multiset<Transcript>
    requires forall r :: r in s ==> r in trans
  {
    if s == {} then multiset{}
    else
      (Inhabited(s);
       var r :| r in s;
       multiset{trans[r]} + Bag(s - {r}, trans))
  }

  lemma {:induction false} BagPick(s: set<Replica>, trans: map<Replica, Transcript>, r: Replica)
    requires r in s && forall q :: q in s ==> q in trans
    ensures Bag(s, trans) == multiset{trans[r]} + Bag(s - {r}, trans)
    decreases s
  {
    var p :| p in s && Bag(s, trans) == multiset{trans[p]} + Bag(s - {p}, trans);
    if p != r {
      BagPick(s - {p}, trans, r);
      BagPick(s - {r}, trans, p);
      assert s - {p} - {r} == s - {r} - {p};
    }
  }

  lemma {:induction false} BagSize(s: set<Replica>, trans: map<Replica, Transcript>)
    requires forall q :: q in s ==> q in trans
    ensures |Bag(s, trans)| == |s|
    decreases s
  {
    if s != {} {
      var p :| p in s && Bag(s, trans) == multiset{trans[p]} + Bag(s - {p}, trans);
      BagSize(s - {p}, trans);
    }
  }

  /** A value handed to a leader's Delphi instance. */
  datatype Join = Join(leader: Replica, value: Val)

  /** A leader broadcasts its index set exactly once, when it has quorum
      transcripts, and the set names senders it has heard. */
  ghost predicate Led(leader: bool, quorum: nat, heard: set<Replica>, broadcasted: bool, sets: seq<set<Replica>>) {
    && (broadcasted <==> leader && |heard| >= quorum)
    && |sets| == (if broadcasted then 1 else 0)
    && (forall i :: 0 <= i < |sets| ==> |sets[i]| == quorum && sets[i] <= heard)
  }

  lemma LedGrows(leader: bool, quorum: nat, heard: set<Replica>, broadcasted: bool, sets: seq<set<Replica>>, r: Replica)
    requires quorum > 0 && Led(leader, quorum, heard, broadcasted, sets)
    ensures var more := heard + {r};
      var fire := leader && !broadcasted && |more| == quorum;
      Led(leader, quorum, more, broadcasted || fire, if fire then sets + [more] else sets)
  {
    InsertSize(heard, r);
  }

  ghost function LeadersOf(joins: seq<Join>): set<Replica> {
    set i | 0 <= i < |joins| :: joins[i].leader
  }

  lemma LeadersMore(joins: seq<Join>, j: Join)
    ensures LeadersOf(joins + [j]) == LeadersOf(joins) + {j.leader}
    ensures forall i :: 0 <= i < |joins| ==> joins[i].leader in LeadersOf(joins)
  {
    var more := joins + [j];
    forall i | 0 <= i < |joins| ensures more[i].leader in LeadersOf(more) && more[i] == joins[i] {}
    assert more[|joins|].leader == j.leader;
    forall r | r in LeadersOf(joins) ensures r in LeadersOf(more) {
      var i :| 0 <= i < |joins| && joins[i].leader == r;
      assert more[i] == joins[i];
    }
  }

  class Context {
    ghost const env: Env
    const myid: Replica
    const quorum: nat   // num_nodes - num_faults
    const kappa: nat
    const highVal: Val
    const lowVal: Val
    const leaders: set<Replica>

    var transBuffer: map<Replica, Transcript>
    var indicesBroadcasted: bool
    var indicesBuffer: map<Replica, set<Replica>>
    var indicesDecided: set<Replica>
    var joined: set<Replica>
    var delphiTerminated: set<Replica>
    var finalSet: set<Replica>
    var terminated: bool

    /** What went out: to Delphi, to the other nodes, to the key formation. */
    var joins: seq<Join>
    var indexSets: seq<set<Replica>>
    var results: seq<seq<Transcript>>

    ghost predicate Setting()
    {
      && env.n >= env.f && quorum == env.n - env.f && quorum > 0
      && leaders == env.leaders && kappa == |leaders|
    }

    /** Buffers hold what was consistently broadcast. */
    ghost predicate Buffers()
      reads this`transBuffer, this`indicesBuffer
    {
      && (forall r :: r in transBuffer ==> r in env.trans && transBuffer[r] == env.trans[r])
      && (forall r :: r in indicesBuffer ==>
            r in leaders && r in env.index && indicesBuffer[r] == env.index[r] && |indicesBuffer[r]| == quorum)
    }

    /** Every leader's instance is joined at most once, high only when all
        transcripts of its index set have arrived. */
    ghost predicate Joins()
      reads this`joined, this`joins, this`transBuffer, this`indicesBuffer
    {
      && joined <= leaders
      && joined == LeadersOf(joins)
      && (forall i, j :: 0 <= i < j < |joins| ==> joins[i].leader != joins[j].leader)
      && (forall i :: 0 <= i < |joins| ==> joins[i].value == lowVal || Supported(joins[i]))
    }

    ghost predicate Supported(j: Join)
      reads this`transBuffer, this`indicesBuffer
    {
      j.value == highVal && j.leader in indicesBuffer && indicesBuffer[j.leader] <= transBuffer.Keys
    }

    /** The decided leaders are those whose instance ended above the midpoint. */
    ghost predicate Decisions()
      reads this`delphiTerminated, this`joined, this`indicesDecided
    {
      && delphiTerminated <= joined
      && indicesDecided == delphiTerminated * env.above
    }

    ghost predicate Output()
      reads this`finalSet, this`results, this`terminated
    {
      && (finalSet != {} ==> IsFinal(env, quorum, finalSet))
      && |results| == (if terminated then 1 else 0)
      && (terminated ==> IsResult(env, quorum, results[0]))
    }

    ghost predicate Leading()
      reads this`transBuffer, this`indicesBroadcasted, this`indexSets
    {
      Led(myid in leaders, quorum, transBuffer.Keys, indicesBroadcasted, indexSets)
    }

    ghost predicate Valid()
      reads this
    {
      Setting() && Buffers() && Joins() && Decisions() && Output() && Leading()
    }

    constructor (ghost env: Env, myid: Replica, quorum: nat, kappa: nat, leaders: set<Replica>, highVal: Val,
        lowVal: Val)
      requires env.n >= env.f && quorum == env.n - env.f && quorum > 0
      requires leaders == env.leaders && kappa == |leaders|
      ensures Valid() && Settled() && Eager() && this.env == env && !terminated
    {
      this.env, this.myid, this.quorum, this.kappa, this.leaders := env, myid, quorum, kappa, leaders;
      this.highVal, this.lowVal := highVal, lowVal;
      transBuffer, indicesBroadcasted, indicesBuffer := map[], false, map[];
      indicesDecided, joined, delphiTerminated, finalSet, terminated := {}, {}, {}, {}, false;
      joins, indexSets, results := [], [], [];
      new;
      assert Complete() ==> finalSet == Union(indicesDecided, indicesBuffer);
    }

    /** Every instance has ended and every decided leader's index set is here. */
    ghost predicate Complete()
      reads this`delphiTerminated, this`indicesDecided, this`indicesBuffer
    {
      |delphiTerminated| >= kappa && indicesDecided <= indicesBuffer.Keys
    }

    /** No complete index set waits to be joined. */
    ghost predicate Eager()
      reads this`joined, this`transBuffer, this`indicesBuffer
    {
      forall r :: r in indicesBuffer && indicesBuffer[r] <= transBuffer.Keys ==> r in joined
    }

    /** The final set is there exactly when it can be computed. */
    ghost predicate Computed()
      reads this`delphiTerminated, this`indicesDecided, this`indicesBuffer, this`finalSet
    {
      Pending() && (Complete() ==> finalSet == Union(indicesDecided, indicesBuffer))
    }

    ghost predicate Pending()
      reads this`delphiTerminated, this`indicesDecided, this`indicesBuffer, this`finalSet
    {
      finalSet != {} ==> Complete()
    }

    /** The output went out only when its transcripts were all here. */
    ghost predicate Earned()
      reads this`finalSet, this`transBuffer, this`terminated
    {
      terminated ==> finalSet != {} && finalSet <= transBuffer.Keys
    }

    /** ... and goes out as soon as they are. */
    ghost predicate Delivered()
      reads this`finalSet, this`transBuffer, this`terminated
    {
      Earned() && (finalSet != {} && finalSet <= transBuffer.Keys ==> terminated)
    }

    ghost predicate Settled()
      reads this`delphiTerminated, this`indicesDecided, this`indicesBuffer, this`finalSet, this`transBuffer,
          this`terminated
    {
      Computed() && Delivered()
    }

    predicate AllReceived(s: set<Replica>)
      reads this
    {
      forall r :: r in s ==> r in transBuffer
    }

    /** Sends a value to a leader's instance and records the join. */
    method JoinInstance(leader: Replica, value: Val)
      requires Valid() && leader in leaders && leader !in joined
      requires value == lowVal || Supported(Join(leader, value))
      modifies this`joins, this`joined
      ensures Valid() && joined == old(joined) + {leader} && joins == old(joins) + [Join(leader, value)]
    {
      LeadersMore(joins, Join(leader, value));
      hide LeadersOf;
      joins := joins + [Join(leader, value)];
      joined := joined + {leader};
    }

    /** `handle_network_message`, RBCTrans: consistent broadcast delivers the
        sender's one transcript. */
    method HandleTranscript(trans: Transcript, sender: Replica)
      requires Valid() && Settled() && sender in env.trans && env.trans[sender] == trans
      modifies this`transBuffer, this`indexSets, this`indicesBroadcasted, this`joins, this`joined, this`results,
          this`terminated
      ensures Valid() && Settled() && Eager() && transBuffer == old(transBuffer)[sender := trans]
      ensures var fire := myid in leaders && !old(indicesBroadcasted) && |transBuffer| == quorum;
        indexSets == (if fire then old(indexSets) + [transBuffer.Keys] else old(indexSets))
      ensures joined == old(joined) + Ready() && JoinedWith(old(joins), highVal)
      ensures old(terminated) ==> terminated && results == old(results)
    {
      hide Setting, Output, Decisions, Buffers, Joins, Leading, Computed, Earned, Eager, JoinedWith, Ready;
      StoreTranscript(trans, sender);
      JoinReady();
      CheckFinalSet();
    }

    /** Stores the transcript; a leader that now holds n - f of them broadcasts
        their senders, once. */
    method StoreTranscript(trans: Transcript, sender: Replica)
      requires Valid() && Earned() && sender in env.trans && env.trans[sender] == trans
      modifies this`transBuffer, this`indexSets, this`indicesBroadcasted
      ensures Valid() && Earned() && transBuffer == old(transBuffer)[sender := trans]
      ensures var fire := myid in leaders && !old(indicesBroadcasted) && |transBuffer| == quorum;
        indexSets == (if fire then old(indexSets) + [transBuffer.Keys] else old(indexSets))
    {
      hide Output, Decisions, Led, Joins, Buffers;
      LedGrows(myid in leaders, quorum, transBuffer.Keys, indicesBroadcasted, indexSets, sender);
      transBuffer := transBuffer[sender := trans];
      assert transBuffer.Keys == old(transBuffer.Keys) + {sender};
      BuffersGrow(sender);
      JoinsGrow();
      if myid in leaders && !indicesBroadcasted {
        if |transBuffer| == quorum {
          indexSets := indexSets + [transBuffer.Keys];
          indicesBroadcasted := true;
        }
      }
    }

    twostate lemma BuffersGrow(r: Replica)
      requires old(Buffers()) && unchanged(this`indicesBuffer)
      requires r in env.trans && transBuffer == old(transBuffer)[r := env.trans[r]]
      ensures Buffers()
    {
    }

    twostate lemma JoinsGrow()
      requires old(Joins()) && unchanged(this`joined, this`joins, this`indicesBuffer)
      requires old(transBuffer.Keys) <= transBuffer.Keys
      ensures Joins()
    {
      forall i | 0 <= i < |joins| ensures joins[i].value == lowVal || Supported(joins[i]) {
        if joins[i].value != lowVal {
          assert old(Supported(joins[i]));
        }
      }
    }

    /** The leaders whose buffered index set is complete. */
    ghost function Ready(): set<Replica>
      reads this`transBuffer, this`indicesBuffer
    {
      set r | r in indicesBuffer && indicesBuffer[r] <= transBuffer.Keys
    }

    /** The joins sent since `before` all carry this value. */
    ghost predicate JoinedWith(before: seq<Join>, value: Val)
      reads this`joins
    {
      |before| <= |joins| && joins[..|before|] == before && forall i :: |before| <= i < |joins| ==>
          joins[i].value == value
    }

    /** Joins high every instance whose index set is now complete. */
    method JoinReady()
      requires Valid()
      modifies this`joins, this`joined
      ensures Valid() && Eager() && joined == old(joined) + Ready() && JoinedWith(old(joins), highVal)
    {
      hide Output, Decisions, Buffers, Leading, Joins;
      var rest := indicesBuffer.Keys;
      while rest != {}
        invariant Valid() && rest <= indicesBuffer.Keys && JoinedWith(old(joins), highVal)
        invariant old(joined) <= joined <= old(joined) + Ready()
        invariant forall r :: r in Ready() ==> r in joined || r in rest
        decreases rest
      {
        Inhabited(rest);
        var r :| r in rest;
        rest := rest - {r};
        if r !in joined && AllReceived(indicesBuffer[r]) {
          BufferedLeader(r);
          JoinInstance(r, highVal);
        }
      }
    }

    lemma BufferedLeader(r: Replica)
      requires Buffers() && r in indicesBuffer
      ensures r in leaders
    {
    }

    /** `handle_network_message`, RBCIndexSet. */
    method HandleIndexSet(indices: set<Replica>, sender: Replica)
      requires Valid() && Settled() && Eager() && sender in env.index && env.index[sender] == indices
      modifies this`indicesBuffer, this`joins, this`joined, this`finalSet, this`results, this`terminated
      ensures Valid() && Settled() && Eager()
      ensures var accepted := sender in leaders && |indices| == quorum && sender !in old(joined);
        var joins1 := accepted && indices <= transBuffer.Keys;
        && indicesBuffer == (if accepted then old(indicesBuffer)[sender := indices] else old(indicesBuffer))
        && joined == (if joins1 then old(joined) + {sender} else old(joined))
        && joins == (if joins1 then old(joins) + [Join(sender, highVal)] else old(joins))
      ensures old(terminated) ==> terminated && results == old(results)
    {
      hide Setting, Output, Decisions, Buffers, Joins, Leading, Pending, Complete, Union, Earned, Eager;
      if sender !in leaders || |indices| != quorum || sender in joined { return; }
      StoreIndexSet(indices, sender);
      CheckTermination();
    }

    /** Stores the index set, and joins high if it is complete already. */
    method StoreIndexSet(indices: set<Replica>, sender: Replica)
      requires Valid() && Pending() && Eager() && sender in env.index && env.index[sender] == indices
      requires sender in leaders && |indices| == quorum && sender !in joined
      modifies this`indicesBuffer, this`joins, this`joined
      ensures Valid() && Pending() && Eager()
      ensures indicesBuffer == old(indicesBuffer)[sender := indices]
      ensures joined == old(joined) + (if indices <= transBuffer.Keys then {sender} else {})
      ensures joins == old(joins) + (if indices <= transBuffer.Keys then [Join(sender, highVal)] else [])
    {
      hide Output, Leading, Decisions;
      indicesBuffer := indicesBuffer[sender := indices];
      assert Valid();
      if AllReceived(indices) {
        JoinInstance(sender, highVal);
      }
    }

    /** `handle_delphi_result`: results come only from joined instances, on the
        same side of the midpoint at every node. */
    method HandleDelphiResult(inst: Replica, val: Val)
      requires Valid() && Settled() && Eager() && inst in joined
      requires val > TruncDiv(highVal + lowVal, 2) <==> inst in env.above
      modifies this`delphiTerminated, this`indicesDecided, this`joins, this`joined, this`finalSet, this`results,
          this`terminated
      ensures Valid() && Settled() && Eager()
      ensures delphiTerminated == old(delphiTerminated) + {inst}
      ensures if val > TruncDiv(highVal + lowVal, 2) then
                indicesDecided == old(indicesDecided) + {inst} && joined == leaders && JoinedWith(old(joins), lowVal)
              else indicesDecided == old(indicesDecided) && joined == old(joined) && joins == old(joins)
      ensures old(terminated) ==> terminated && results == old(results)
    {
      hide Setting, Output, Decisions, Buffers, Joins, Leading, Pending, Complete, Union, Earned, Eager, JoinedWith;
      RecordResult(inst, val > TruncDiv(highVal + lowVal, 2));
      if val > TruncDiv(highVal + lowVal, 2) {
        JoinRemaining();
      }
      CheckTermination();
    }

    /** Records that the instance ended, and on which side. */
    method RecordResult(inst: Replica, above: bool)
      requires Valid() && Pending() && inst in joined && (above <==> inst in env.above)
      modifies this`delphiTerminated, this`indicesDecided
      ensures Valid() && Pending()
      ensures delphiTerminated == old(delphiTerminated) + {inst}
      ensures indicesDecided == old(indicesDecided) + (if above then {inst} else {})
    {
      hide Output, Leading, Buffers, Joins;
      if Complete() { NothingNew(inst); }
      delphiTerminated := delphiTerminated + {inst};
      if above { indicesDecided := indicesDecided + {inst}; }
    }

    /** Joins low every instance not joined yet. */
    method JoinRemaining()
      requires Valid() && Eager()
      modifies this`joins, this`joined
      ensures Valid() && Eager() && joined == leaders && JoinedWith(old(joins), lowVal)
    {
      hide Output, Decisions, Buffers, Leading, Joins;
      var rest := leaders;
      while rest != {}
        invariant Valid() && Eager() && rest <= leaders && JoinedWith(old(joins), lowVal)
        invariant forall r :: r in leaders ==> r in joined || r in rest
        decreases rest
      {
        Inhabited(rest);
        var r :| r in rest;
        rest := rest - {r};
        if r !in joined { JoinInstance(r, lowVal); }
      }
      InvLeaders();
    }

    /** A result that comes when all have ended changes nothing. */
    lemma NothingNew(inst: Replica)
      requires Setting() && Joins() && Decisions() && Complete() && inst in joined
      ensures delphiTerminated + {inst} == delphiTerminated
      ensures inst in env.above ==> indicesDecided + {inst} == indicesDecided
    {
      AllEnded();
    }

    lemma InvLeaders()
      requires Joins() && forall r :: r in leaders ==> r in joined
      ensures joined == leaders
    {
    }

    /** kappa ended instances are all of them. */
    lemma AllEnded()
      requires Setting() && Joins() && Decisions() && |delphiTerminated| >= kappa
      ensures delphiTerminated == leaders
    {
      SubsetSize(delphiTerminated, leaders);
    }

    /** `check_termination_condition`. */
    method CheckTermination()
      requires Valid() && Pending() && Earned()
      modifies this`finalSet, this`results, this`terminated
      ensures Valid() && Settled()
      ensures |delphiTerminated| >= kappa && (forall r :: r in indicesDecided ==> r in indicesBuffer) ==>
        forall i :: i in finalSet <==> exists r :: r in indicesDecided && r in indicesBuffer && i in indicesBuffer[r]
      ensures old(terminated) ==> terminated && results == old(results)
    {
      hide Setting, Buffers, Joins, Decisions, Leading, IsFinal, IsResult, Union;
      if |delphiTerminated| < kappa { return; }
      if forall r :: r in indicesDecided ==> r in indicesBuffer {
        AllEnded();
        FinalUnion();
        finalSet := Union(indicesDecided, indicesBuffer);
        InUnion(indicesDecided, indicesBuffer);
        CheckFinalSet();
      }
    }

    lemma FinalUnion()
      requires Setting() && Buffers() && Decisions() && delphiTerminated == leaders
      requires forall r :: r in indicesDecided ==> r in indicesBuffer
      ensures var s := Union(indicesDecided, indicesBuffer);
        s != {} ==> IsFinal(env, quorum, s)
      ensures finalSet != {} && IsFinal(env, quorum, finalSet) ==> finalSet == Union(indicesDecided, indicesBuffer)
    {
      var s := Union(indicesDecided, indicesBuffer);
      assert indicesDecided == DecidedLeaders(env);
      assert s == Union(DecidedLeaders(env), env.index);
    }

    /** `check_final_set`: outputs once, when every transcript is there. */
    method CheckFinalSet()
      requires Valid() && Earned()
      modifies this`results, this`terminated
      ensures Valid() && Delivered()
      ensures var fire := !old(terminated) && finalSet != {} && finalSet <= transBuffer.Keys;
        && (terminated <==> old(terminated) || fire)
        && (if fire then |results| == 1 && multiset(results[0]) == Bag(finalSet, transBuffer)
            else results == old(results))
    {
      hide Leading, Joins, Decisions, IsFinal;
      if !terminated && finalSet != {} && forall r :: r in finalSet ==> r in transBuffer {
        var result := Collect(finalSet, transBuffer);
        SameBag(finalSet, transBuffer, env.trans);
        assert Lists(env, quorum, finalSet, result);
        results := results + [result];
        terminated := true;
      }
    }
  }

  /** Lists the transcripts of a set of senders, in some order. */
  method Collect(s: set<Replica>, trans: map<Replica, Transcript>) returns (list: seq<Transcript>)
    requires forall r :: r in s ==> r in trans
    ensures multiset(list) == Bag(s, trans)
  {
    list := [];
    var rest := s;
    while rest != {}
      invariant rest <= s
      invariant multiset(list) + Bag(rest, trans) == Bag(s, trans)
      decreases rest
    {
      Inhabited(rest);
      var r :| r in rest;
      BagPick(rest, trans, r);
      list := list + [trans[r]];
      rest := rest - {r};
    }
  }

  lemma {:induction false} SameBag(s: set<Replica>, a: map<Replica, Transcript>, b: map<Replica, Transcript>)
    requires forall r :: r in s ==> r in a && r in b && a[r] == b[r]
    ensures Bag(s, a) == Bag(s, b)
    decreases s
  {
    if s != {} {
      Inhabited(s);
      var r :| r in s;
      BagPick(s, a, r); BagPick(s, b, r);
      SameBag(s - {r}, a, b);
    }
  }

  ghost function DecidedLeaders(env: Env): set<Replica> { env.leaders * env.above }

  /** s is the union of the decided leaders' index sets, each of full size. */
  ghost predicate IsFinal(env: Env, quorum: nat, s: set<Replica>) {
    && s != {}
    && (forall r :: r in DecidedLeaders(env) ==> r in env.index && |env.index[r]| == quorum)
    && s == Union(DecidedLeaders(env), env.index)
  }

  /** The output lists, in some order, the transcripts of the final set. */
  ghost predicate IsResult(env: Env, quorum: nat, result: seq<Transcript>) {
    exists s :: Lists(env, quorum, s, result)
  }

  ghost predicate Lists(env: Env, quorum: nat, s: set<Replica>, result: seq<Transcript>) {
    IsFinal(env, quorum, s) && s <= env.trans.Keys && multiset(result) == Bag(s, env.trans)
  }

  /** Agreement: nodes that have output have each output once, the same
      transcripts, and at least n - f of them. */
  lemma Agreement(a: Context, b: Context)
    requires a.Valid() && b.Valid() && a.env == b.env && a.terminated && b.terminated
    ensures |a.results| == |b.results| == 1
    ensures multiset(a.results[0]) == multiset(b.results[0])
    ensures |a.results[0]| >= a.env.n - a.env.f
  {
    var s :| Lists(a.env, a.quorum, s, a.results[0]);
    var t :| Lists(b.env, b.quorum, t, b.results[0]);
    FinalLarge(a.env, a.quorum, s);
    BagSize(s, a.env.trans);
    assert |a.results[0]| == |multiset(a.results[0])|;
  }

  /** What is output: the transcripts of all senders, each once, that the index
      set of some leader above the midpoint names. */
  lemma OutputIs(c: Context) returns (s: set<Replica>)
    requires c.Valid() && c.terminated
    ensures forall r :: r in c.env.leaders && r in c.env.above ==> r in c.env.index
    ensures forall i :: i in s <==> exists r ::
      r in c.env.leaders && r in c.env.above && r in c.env.index && i in c.env.index[r]
    ensures s <= c.env.trans.Keys && |c.results| == 1 && multiset(c.results[0]) == Bag(s, c.env.trans)
  {
    s :| Lists(c.env, c.quorum, s, c.results[0]);
  }

  /** A node has output exactly when every leader's instance has ended there,
      the decided leaders' index sets have arrived, and so have all the
      transcripts these name. */
  lemma OutputExactly(c: Context)
    requires c.Valid() && c.Settled()
    ensures c.terminated <==>
            && c.delphiTerminated == c.leaders
            && (forall r :: r in c.leaders && r in c.env.above ==> r in c.indicesBuffer)
            && (exists r :: r in c.leaders && r in c.env.above && c.indicesBuffer[r] != {})
            && (forall r :: r in c.leaders && r in c.env.above ==> c.indicesBuffer[r] <= c.transBuffer.Keys)
  {
    assert DecidedLeaders(c.env) == c.leaders * c.env.above;
    if DecidedLeaders(c.env) <= c.indicesBuffer.Keys { UnionIs(DecidedLeaders(c.env), c.indicesBuffer,
        c.transBuffer.Keys); }
    if |c.delphiTerminated| >= c.kappa {
      c.AllEnded();
      assert c.indicesDecided == DecidedLeaders(c.env);
    }
  }

  /** Some of the nodes joined the leader's instance with a value no smaller. */
  ghost predicate Reached(nodes: set<Context>, leader: Replica, val: Val)
    reads nodes
  {
    exists c, j :: c in nodes && j in c.joins && j.leader == leader && val <= j.value
  }

  /** A node that holds the leader's index set and all transcripts it names. */
  ghost predicate Supports(c: Context, leader: Replica)
    reads c
  {
    && leader in c.indicesBuffer && leader in c.env.index && c.indicesBuffer[leader] == c.env.index[leader]
    && |c.env.index[leader]| == c.quorum && c.env.index[leader] <= c.transBuffer.Keys
    && forall r :: r in c.env.index[leader] ==> r in c.env.trans && c.transBuffer[r] == c.env.trans[r]
  }

  /** Why a decided index set can be completed: if an instance's result is at most
      the greatest value the honest nodes joined it with, and above the midpoint,
      then one of these nodes holds the index set and all its transcripts, the
      same that every node will hold. */
  lemma AboveIsSupported(nodes: set<Context>, env: Env, leader: Replica, val: Val, highVal: Val, lowVal: Val)
    requires forall c :: c in nodes ==> c.Valid() && c.env == env && c.highVal == highVal && c.lowVal == lowVal
    requires lowVal <= highVal && Reached(nodes, leader, val) && val > TruncDiv(highVal + lowVal, 2)
    ensures exists c :: c in nodes && Supports(c, leader)
  {
    var c, j :| c in nodes && j in c.joins && j.leader == leader && val <= j.value;
    var i :| 0 <= i < |c.joins| && c.joins[i] == j;
    assert c.Joins() && c.Supported(c.joins[i]);
    assert c.Buffers();
    assert Supports(c, leader);
  }

  lemma InUnion(rs: set<Replica>, index: map<Replica, set<Replica>>)
    requires forall r :: r in rs ==> r in index
    ensures forall i :: i in Union(rs, index) <==> exists r :: r in rs && r in index && i in index[r]
  {
  }

  lemma UnionIs(rs: set<Replica>, index: map<Replica, set<Replica>>, all: set<Replica>)
    requires forall r :: r in rs ==> r in index
    ensures Union(rs, index) != {} <==> exists r :: r in rs && index[r] != {}
    ensures Union(rs, index) <= all <==> forall r :: r in rs ==> index[r] <= all
  {
    if r :| r in rs && index[r] != {} {
      Inhabited(index[r]);
      var i :| i in index[r];
      assert i in Union(rs, index);
    }
    if Union(rs, index) != {} {
      Inhabited(Union(rs, index));
      var i :| i in Union(rs, index);
      var r :| r in rs && i in index[r];
    }
    if Union(rs, index) <= all {
      forall r | r in rs ensures index[r] <= all {
        forall i | i in index[r] ensures i in all { assert i in Union(rs, index); }
      }
    }
  }

  lemma FinalLarge(env: Env, quorum: nat, s: set<Replica>)
    requires IsFinal(env, quorum, s)
    ensures |s| >= quorum
  {
    Inhabited(s);
    var i :| i in s;
    var r := Contributor(DecidedLeaders(env), env.index, i);
    assert env.index[r] <= s;
    SubsetSize(env.index[r], s);
  }

  lemma Contributor(rs: set<Replica>, index: map<Replica, set<Replica>>, i: Replica) returns (r: Replica)
    requires forall r :: r in rs ==> r in index
    requires i in Union(rs, index)
    ensures r in rs && i in index[r]
  {
    r :| r in rs && i in index[r];
  }
}
