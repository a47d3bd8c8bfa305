/** Transcripts of the sharing phase: which nodes signed, and whom the dealer
    served with a supplementary share instead. */
module Transcripts {
  import opened Types
  import opened Field
  import opened SetFacts

  /** An authenticated signature of a replica. */
  datatype CertEntry = CertEntry(replica: Replica, sig: nat)

  /** A supplementary share for node `id` (1-based); `share` is its content. */
  datatype SuppleShare = SuppleShare(id: int, share: seq<Scalar>)

  datatype Transcript = Transcript(id: Replica, cert: seq<CertEntry>, supple: seq<SuppleShare>)

  predicate HasCert(cert: seq<CertEntry>, r: int) {
    exists i :: 0 <= i < |cert| && cert[i].replica == r
  }

  /** Node r (0-based) was served; ids on the wire are 1-based. */
  predicate HasSupple(supple: seq<SuppleShare>, r: int) {
    exists i :: 0 <= i < |supple| && supple[i].id - 1 == r
  }

  ghost predicate DistinctCert(cert: seq<CertEntry>) {
    forall i, j :: 0 <= i < j < |cert| ==> cert[i].replica != cert[j].replica
  }

  ghost predicate DistinctSupple(supple: seq<SuppleShare>) {
    forall i, j :: 0 <= i < j < |supple| ==> supple[i].id != supple[j].id
  }

  /** Every node below n signed or was served, none twice and none both. */
  ghost predicate Partition(t: Transcript, n: nat) {
    && DistinctCert(t.cert) && DistinctSupple(t.supple)
    && (forall r :: HasSupple(t.supple, r) ==> !HasCert(t.cert, r))
    && (forall r :: HasSupple(t.supple, r) ==> 0 <= r < n)
    && (forall r :: HasCert(t.cert, r) ==> 0 <= r < n)
    && (forall r :: 0 <= r < n ==> HasCert(t.cert, r) || HasSupple(t.supple, r))
  }

  // ---- counting ----

  function RepSet(cert: seq<CertEntry>): set<int> {
    if cert == [] then {} else RepSet(cert[..|cert| - 1]) + {cert[|cert| - 1].replica}
  }

  function IdSet(supple: seq<SuppleShare>): set<int> {
    if supple == [] then {} else IdSet(supple[..|supple| - 1]) + {supple[|supple| - 1].id - 1}
  }

  lemma {:induction false} RepSetCorrect(cert: seq<CertEntry>)
    ensures forall r :: r in RepSet(cert) <==> HasCert(cert, r)
    ensures DistinctCert(cert) ==> |RepSet(cert)| == |cert|
  {
    if cert != [] {
      var k := |cert| - 1;
      RepSetCorrect(cert[..k]);
      forall r ensures HasCert(cert, r) <==> HasCert(cert[..k], r) || r == cert[k].replica {
        assert HasCert(cert[..k], r) ==> exists i :: 0 <= i < k && cert[..k][i] == cert[i] && cert[i].replica == r;
      }
    }
  }

  lemma AppendSupple(supple: seq<SuppleShare>, s: SuppleShare, l: seq<SuppleShare>)
    requires l == supple + [s]
    ensures forall r :: HasSupple(l, r) <==> HasSupple(supple, r) || r == s.id - 1
    ensures DistinctSupple(l) <==> DistinctSupple(supple) && !HasSupple(supple, s.id - 1)
  {
    forall r ensures HasSupple(l, r) <==> HasSupple(supple, r) || r == s.id - 1 {
      assert forall j :: 0 <= j < |supple| ==> l[j] == supple[j];
      assert l[|supple|].id - 1 == s.id - 1;
    }
    assert forall j :: 0 <= j < |supple| ==> l[j] == supple[j];
  }

  lemma {:induction false} IdSetCorrect(supple: seq<SuppleShare>)
    ensures forall r :: r in IdSet(supple) <==> HasSupple(supple, r)
    ensures DistinctSupple(supple) ==> |IdSet(supple)| == |supple|
  {
    hide HasSupple, DistinctSupple;
    NoneServed();
    if supple != [] {
      var k := |supple| - 1;
      IdSetCorrect(supple[..k]);
      AppendSupple(supple[..k], supple[k], supple);
    }
  }

  lemma NoneServed()
    ensures forall r :: !HasSupple([], r)
  {
  }

  /** Disjoint ids below n cover everything below n exactly when they are n. */
  lemma SizesCover(a: set<int>, b: set<int>, n: nat)
    requires a !! b && forall k :: k in a || k in b ==> 0 <= k < n
    ensures |a| + |b| == n <==> forall k :: 0 <= k < n ==> k in a || k in b
  {
    var u := a + b;
    assert |u| == |a| + |b|;
    SubsetSize(u, UpTo(n));
    if forall k :: 0 <= k < n ==> k in a || k in b {
      assert u == UpTo(n);
    }
  }

  // ---- the id check ----

  lemma NobodySigned(cert: seq<CertEntry>)
    ensures RepSet(cert[..0]) == {}
  {
  }

  lemma RepSetSnoc(cert: seq<CertEntry>, i: nat)
    requires i < |cert|
    ensures RepSet(cert[..i + 1]) == RepSet(cert[..i]) + {cert[i].replica}
  {
    assert cert[..i + 1][..i] == cert[..i];
  }

  /** First loop of `is_id_valid`: the certificate's replicas, unique and in range. */
  method UniqueReplicas(cert: seq<CertEntry>, n: nat) returns (ok: bool, replicas: set<int>)
    ensures ok <==> DistinctCert(cert) && forall r :: HasCert(cert, r) ==> r < n
    ensures ok ==> replicas == RepSet(cert)
  {
    hide RepSet;
    replicas := {};
    NobodySigned(cert);
    for i := 0 to |cert|
      invariant replicas == RepSet(cert[..i])
      invariant DistinctCert(cert[..i])
      invariant forall j :: 0 <= j < i ==> cert[j].replica < n
    {
      RepSetCorrect(cert[..i]);
      assert cert[..i + 1][..i] == cert[..i];
      var rep := cert[i].replica;
      if rep >= n {
        assert HasCert(cert, rep);
        return false, replicas;
      }
      if rep in replicas {
        var j :| 0 <= j < |cert[..i]| && cert[..i][j].replica == rep;
        assert cert[j].replica == cert[i].replica;
        return false, replicas;
      }
      RepSetSnoc(cert, i);
      replicas := replicas + {rep as int};
    }
    assert cert[..|cert|] == cert;
    ok := true;
  }

  /** The wire ids are the node numbers plus one. */
  ghost predicate OneBased(ids: set<int>, nodes: set<int>) {
    (forall k :: k in ids ==> k - 1 in nodes) && (forall r :: r in nodes ==> r + 1 in ids)
  }

  lemma NothingServed(supple: seq<SuppleShare>)
    ensures forall r :: !HasSupple(supple[..0], r)
    ensures DistinctSupple(supple[..0]) && OneBased({}, IdSet(supple[..0]))
  {
  }

  /** A distinct list stays distinct on its prefixes. */
  lemma DistinctPrefix(supple: seq<SuppleShare>, i: nat)
    requires i <= |supple| && DistinctSupple(supple)
    ensures DistinctSupple(supple[..i])
  {
  }

  /** Second loop: the supplementary ids, unique and within 1..n. */
  method UniqueIds(supple: seq<SuppleShare>, n: nat) returns (ok: bool, ids: set<int>)
    ensures ok <==> DistinctSupple(supple) && forall r :: HasSupple(supple, r) ==> 0 <= r < n
    ensures ok ==> OneBased(ids, IdSet(supple)) && |ids| == |supple|
  {
    hide HasSupple, DistinctSupple, OneBased, IdSet;
    ids := {};
    NothingServed(supple);
    for i := 0 to |supple|
      invariant OneBased(ids, IdSet(supple[..i]))
      invariant DistinctSupple(supple[..i]) && |ids| == i
      invariant forall r :: HasSupple(supple[..i], r) ==> 0 <= r < n
    {
      ghost var next := supple[..i + 1];
      UniqueIdStep(supple[..i], supple[i], next, ids, n);
      var id := supple[i].id;
      if id < 1 || id > n || id in ids {
        if DistinctSupple(supple) { DistinctPrefix(supple, i + 1); }
        Served(supple, i);
        return false, ids;
      }
      ids := ids + {id};
    }
    assert supple[..|supple|] == supple;
    ok := true;
  }

  lemma UniqueIdStep(prev: seq<SuppleShare>, s: SuppleShare, next: seq<SuppleShare>, ids: set<int>, n: nat)
    requires next == prev + [s] && DistinctSupple(prev) && OneBased(ids, IdSet(prev))
    requires forall r :: HasSupple(prev, r) ==> 0 <= r < n
    ensures OneBased(ids + {s.id}, IdSet(next))
    ensures DistinctSupple(next) <==> s.id !in ids
    ensures 1 <= s.id <= n ==> forall r :: HasSupple(next, r) ==> 0 <= r < n
    ensures s.id !in ids ==> |ids + {s.id}| == |ids| + 1
  {
    hide HasSupple, DistinctSupple, OneBased;
    assert next[..|next| - 1] == prev;
    AppendSupple(prev, s, next);
    IdSetCorrect(prev);
    OneBasedStep(ids, IdSet(prev), s.id);
  }

  lemma OneBasedStep(ids: set<int>, nodes: set<int>, id: int)
    requires OneBased(ids, nodes)
    ensures OneBased(ids + {id}, nodes + {id - 1})
    ensures id in ids <==> id - 1 in nodes
  {
    assert id - 1 in nodes ==> (id - 1) + 1 in ids;
  }

  lemma Served(supple: seq<SuppleShare>, i: nat)
    requires i < |supple|
    ensures HasSupple(supple, supple[i].id - 1)
  {
  }

  /** Third loop: no replica + 1 is among the ids. */
  method NoOverlap(replicas: set<int>, ids: set<int>) returns (ok: bool)
    ensures ok <==> forall r :: r in replicas ==> r + 1 !in ids
  {
    var rest := replicas;
    while rest != {}
      invariant rest <= replicas
      invariant forall r :: r in replicas && r !in rest ==> r + 1 !in ids
      decreases rest
    {
      ghost var some := AnyInt(rest);
      var r :| r in rest;
      if r + 1 in ids { return false; }
      rest := rest - {r};
    }
    ok := true;
  }

  /** `is_id_valid`: accepts exactly the transcripts whose certificate and
      supplementary shares partition the nodes.  Ids travel as i32. */
  method IsIdValid(t: Transcript, n: nat) returns (ok: bool)
    requires n < 0x8000_0000
    ensures ok <==> Partition(t, n)
  {
    hide HasCert, HasSupple, DistinctCert, DistinctSupple;
    NonNegative(t.cert);
    var ok1, replicas := UniqueReplicas(t.cert, n);
    if !ok1 { return false; }
    var ok2, ids := UniqueIds(t.supple, n);
    if !ok2 { return false; }
    RepSetCorrect(t.cert); IdSetCorrect(t.supple);
    var ok3 := NoOverlap(replicas, ids);
    if !ok3 {
      var r :| r in replicas && r + 1 in ids;
      assert (r + 1) - 1 in IdSet(t.supple) && HasCert(t.cert, r);
      return false;
    }
    forall r ensures !(r in IdSet(t.supple) && r in RepSet(t.cert)) {
      if r in IdSet(t.supple) { assert (r + 1) - 1 in IdSet(t.supple); assert r + 1 in ids; }
    }
    SizesCover(RepSet(t.cert), IdSet(t.supple), n);
    ok := |replicas| + |ids| == n;
  }

  /** The nodes that signed, and those served, as lists. */
  ghost function Signers(cert: seq<CertEntry>): seq<int> {
    seq(|cert|, i requires 0 <= i < |cert| => cert[i].replica)
  }

  ghost function ServedNodes(supple: seq<SuppleShare>): seq<int> {
    seq(|supple|, i requires 0 <= i < |supple| => supple[i].id - 1)
  }

  /** Counted out: every node below n occurs exactly once among those that signed
      and those served together, and nothing else does. */
  lemma PartitionCounts(t: Transcript, n: nat)
    ensures Partition(t, n) <==> forall r: int ::
      multiset(Signers(t.cert))[r] + multiset(ServedNodes(t.supple))[r] == if 0 <= r < n then 1 else 0
  {
    hide HasCert, HasSupple, DistinctCert, DistinctSupple, Signers, ServedNodes;
    var a, b := Signers(t.cert), ServedNodes(t.supple);
    SignersAre(t.cert); ServedAre(t.supple);
    CountsOnce(a); CountsOnce(b);
    CountsMembers(a); CountsMembers(b);
    if Partition(t, n) {
      forall r: int ensures multiset(a)[r] + multiset(b)[r] == if 0 <= r < n then 1 else 0 {
        assert HasCert(t.cert, r) <==> multiset(a)[r] >= 1;
        assert HasSupple(t.supple, r) <==> multiset(b)[r] >= 1;
      }
    }
  }

  ghost predicate Repeats(s: seq<int>) { exists i, j :: 0 <= i < j < |s| && s[i] == s[j] }

  lemma SignersAre(cert: seq<CertEntry>)
    ensures forall r :: HasCert(cert, r) <==> r in Signers(cert)
    ensures DistinctCert(cert) <==> !Repeats(Signers(cert))
  {
    var a := Signers(cert);
    forall r ensures HasCert(cert, r) <==> r in a {
      if HasCert(cert, r) {
        var i :| 0 <= i < |cert| && cert[i].replica == r;
        assert a[i] == r;
      }
    }
    if !DistinctCert(cert) {
      var i, j :| 0 <= i < j < |cert| && cert[i].replica == cert[j].replica;
      assert a[i] == a[j];
    }
  }

  lemma ServedAre(supple: seq<SuppleShare>)
    ensures forall r :: HasSupple(supple, r) <==> r in ServedNodes(supple)
    ensures DistinctSupple(supple) <==> !Repeats(ServedNodes(supple))
  {
    var b := ServedNodes(supple);
    forall r ensures HasSupple(supple, r) <==> r in b {
      if HasSupple(supple, r) {
        var i :| 0 <= i < |supple| && supple[i].id - 1 == r;
        assert b[i] == r;
      }
    }
    if !DistinctSupple(supple) {
      var i, j :| 0 <= i < j < |supple| && supple[i].id == supple[j].id;
      assert b[i] == b[j];
    }
  }

  lemma CountsMembers(s: seq<int>)
    ensures forall r :: r in s <==> multiset(s)[r] >= 1
  {
    forall r ensures r in s <==> multiset(s)[r] >= 1 {
      assert r in s <==> r in multiset(s);
    }
  }

  /** A list without repetition counts each of its members once. */
  lemma {:induction false} CountsOnce(s: seq<int>)
    ensures !Repeats(s) <==> forall r :: multiset(s)[r] <= 1
  {
    if s != [] {
      var k := |s| - 1;
      var p, x := s[..k], s[k];
      assert s == p + [x];
      CountsOnce(p);
      CountsMembers(p);
      assert multiset(s) == multiset(p) + multiset{x};
      RepeatsSnoc(p, x);
      if Repeats(p) {
        var r :| multiset(p)[r] > 1;
        assert multiset(s)[r] > 1;
      } else if x in p {
        assert multiset(s)[x] > 1;
      }
    }
  }

  lemma RepeatsSnoc(p: seq<int>, x: int)
    ensures Repeats(p + [x]) <==> Repeats(p) || x in p
  {
    var s := p + [x];
    if Repeats(p) {
      var i, j :| 0 <= i < j < |p| && p[i] == p[j];
      assert s[i] == s[j];
    }
    if x in p {
      var i :| 0 <= i < |p| && p[i] == x;
      assert s[i] == s[|p|];
    }
  }

  lemma NonNegative(cert: seq<CertEntry>)
    ensures forall r :: HasCert(cert, r) ==> r >= 0
  {
  }

  /** `verify`: the id check, then every signature, then every share.  Finding
      the keys and the two cryptographic checks are the parameters. */
  method Verify(t: Transcript, n: nat, sigOk: CertEntry -> bool, shareOk: SuppleShare -> bool) returns (ok: bool)
    requires n < 0x8000_0000
    ensures ok <==> Acceptable(t, n, sigOk, shareOk)
  {
    hide Partition;
    var idsOk := IsIdValid(t, n);
    if !idsOk { return false; }
    for i := 0 to |t.cert|
      invariant forall j :: 0 <= j < i ==> sigOk(t.cert[j])
    {
      if !sigOk(t.cert[i]) { return false; }
    }
    for i := 0 to |t.supple|
      invariant forall j :: 0 <= j < i ==> shareOk(t.supple[j])
    {
      if !shareOk(t.supple[i]) { return false; }
    }
    ok := true;
  }

  ghost predicate Acceptable(t: Transcript, n: nat, sigOk: CertEntry -> bool, shareOk: SuppleShare -> bool) {
    && Partition(t, n)
    && (forall j :: 0 <= j < |t.cert| ==> sigOk(t.cert[j]))
    && (forall j :: 0 <= j < |t.supple| ==> shareOk(t.supple[j]))
  }

  // ---- generating a transcript ----

  /** `find_missing_replicas`: the nodes without a certificate entry, ascending. */
  function FindMissing(cert: seq<CertEntry>, n: nat): (missing: seq<int>)
    ensures forall r :: r in missing <==> 0 <= r < n && !HasCert(cert, r)
    ensures forall i, j :: 0 <= i < j < |missing| ==> missing[i] < missing[j]
  {
    if n == 0 then []
    else if HasCert(cert, n - 1) then FindMissing(cert, n - 1)
    else
      var rest := FindMissing(cert, n - 1);
      assert forall i :: 0 <= i < |rest| ==> rest[i] in rest;
      rest + [n - 1]
  }

  /** The dealer's store: one cipher for each node. */
  ghost predicate FullStore(ciphers: seq<SuppleShare>, n: nat) {
    DistinctSupple(ciphers) && forall r :: HasSupple(ciphers, r) <==> 0 <= r < n
  }

  /** `gen_transcript_instant`: supplementary shares for exactly the nodes that
      have not signed, so the transcript passes the id check. */
  method GenTranscript(id: Replica, cert: seq<CertEntry>, ciphers: seq<SuppleShare>, n: nat) returns (t: Transcript)
    requires FullStore(ciphers, n) && DistinctCert(cert)
    requires forall r :: HasCert(cert, r) ==> r < n
    ensures t.id == id && t.cert == cert && Partition(t, n)
    ensures forall s :: s in t.supple ==> s in ciphers
  {
    var missing := FindMissing(cert, n);
    var supple: seq<SuppleShare> := [];
    for i := 0 to |ciphers|
      invariant DistinctSupple(supple)
      invariant forall s :: s in supple ==> exists j :: 0 <= j < i && ciphers[j] == s
      invariant forall r :: HasSupple(supple, r) <==> HasSupple(ciphers[..i], r) && r in missing
    {
      AppendSupple(ciphers[..i], ciphers[i], ciphers[..i + 1]);
      DistinctPrefix(ciphers, i + 1);
      if (ciphers[i].id - 1) in missing {
        AppendSupple(supple, ciphers[i], supple + [ciphers[i]]);
        supple := supple + [ciphers[i]];
      }
    }
    assert ciphers[..|ciphers|] == ciphers;
    t := Transcript(id, cert, supple);
    NonNegative(cert);
  }
}
