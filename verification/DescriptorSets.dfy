/** Do the descriptor sets of core/peermanager.c hold exactly the descriptors that the
    reader polls and the sender writes to?  Every step keeps them exact except three
    kinds, and those break them always. */
module DescriptorSets {
  import opened Collections
  import opened PeerTable
  import opened Connections
  import opened ConnectionRuns

  function PollOwn(p: Peer): set<int> { if PollFd(p) >= 0 then {PollFd(p)} else {} }

  function SendOwn(p: Peer): set<int> { if SendFd(p) >= 0 then {SendFd(p)} else {} }

  /** The real descriptors the reader would poll, and those the sender would use. */
  ghost function PollSet(peers: seq<Peer>): set<int> {
    set p, fd | p in peers && fd in PollOwn(p) :: fd
  }

  ghost function SendSet(peers: seq<Peer>): set<int> {
    set p, fd | p in peers && fd in SendOwn(p) :: fd
  }

  ghost predicate Exact(t: Table) {
    t.rset == PollSet(t.peers) && t.wset == SendSet(t.peers)
  }

  // --------------------------------------------------- the sets entry by entry

  lemma KindFds(p: Peer)
    requires Kind(p)
    ensures PollOwn(p) <= Fds(p) && SendOwn(p) <= Fds(p)
  {
  }

  lemma AppendSets(peers: seq<Peer>, q: Peer)
    ensures PollSet(peers + [q]) == PollSet(peers) + PollOwn(q)
    ensures SendSet(peers + [q]) == SendSet(peers) + SendOwn(q)
  {
    assert forall p :: p in peers + [q] <==> p in peers || p == q;
  }

  lemma OthersMiss(w: World, j: nat, i: nat)
    requires Entries(w) && DistinctFds(w.t.peers) && j < |w.t.peers| && i < |w.t.peers| && i != j
    ensures PollOwn(w.t.peers[i]) !! Fds(w.t.peers[j]) && SendOwn(w.t.peers[i]) !! Fds(w.t.peers[j])
  {
    KindFds(w.t.peers[i]);
    KindFds(w.t.peers[j]);
    assert Fds(w.t.peers[i]) !! Fds(w.t.peers[j]);
  }

  lemma WithoutMembers(peers: seq<Peer>, j: nat, q: Peer)
    requires j < |peers|
    ensures q in Without(peers, j) <==> exists i :: 0 <= i < |peers| && i != j && peers[i] == q
  {
    var rest := Without(peers, j);
    if q in rest {
      var k :| 0 <= k < |rest| && rest[k] == q;
      assert peers[if k < j then k else k + 1] == q;
    }
    if i :| 0 <= i < |peers| && i != j && peers[i] == q {
      assert rest[if i < j then i else i - 1] == q;
    }
  }

  lemma RemoveSets(w: World, j: nat)
    requires Entries(w) && DistinctFds(w.t.peers) && j < |w.t.peers|
    ensures var p := w.t.peers[j];
            && PollSet(Without(w.t.peers, j)) == PollSet(w.t.peers) - PollOwn(p)
            && SendSet(Without(w.t.peers, j)) == SendSet(w.t.peers) - SendOwn(p)
            && PollSet(w.t.peers) * Fds(p) == PollOwn(p)
            && SendSet(w.t.peers) * Fds(p) == SendOwn(p)
  {
    var peers, p, rest := w.t.peers, w.t.peers[j], Without(w.t.peers, j);
    KindFds(p);
    forall q | q in rest
      ensures q in peers && PollOwn(q) !! Fds(p) && SendOwn(q) !! Fds(p)
    {
      WithoutMembers(peers, j, q);
      var i :| 0 <= i < |peers| && i != j && peers[i] == q;
      OthersMiss(w, j, i);
    }
    forall q | q in peers && q != p
      ensures q in rest
    {
      WithoutMembers(peers, j, q);
    }
    SetsOfRest(peers, p, rest);
  }

  lemma SetsOfRest(peers: seq<Peer>, p: Peer, rest: seq<Peer>)
    requires p in peers && (forall q :: q in rest ==> q in peers) && (forall q :: q in peers && q != p ==> q in rest)
    requires forall q :: q in rest ==> PollOwn(q) !! Fds(p) && SendOwn(q) !! Fds(p)
    requires PollOwn(p) <= Fds(p) && SendOwn(p) <= Fds(p)
    ensures PollSet(rest) == PollSet(peers) - PollOwn(p) && PollSet(peers) * Fds(p) == PollOwn(p)
    ensures SendSet(rest) == SendSet(peers) - SendOwn(p) && SendSet(peers) * Fds(p) == SendOwn(p)
  {
  }

  lemma ReplaceMembers<T>(s: seq<T>, j: nat, q: T, x: T)
    requires j < |s|
    ensures x in s[j := q] <==> x in Without(s, j) + [q]
  {
    var rest, after := Without(s, j), s[j := q];
    if x in after {
      var k :| 0 <= k < |after| && after[k] == x;
      assert k != j ==> rest[if k < j then k else k - 1] == x;
    }
    if x in rest {
      var k :| 0 <= k < |rest| && rest[k] == x;
      assert after[if k < j then k else k + 1] == x;
    }
    assert after[j] == q;
  }

  lemma SameMembers(a: seq<Peer>, b: seq<Peer>)
    requires forall x :: x in a <==> x in b
    ensures PollSet(a) == PollSet(b) && SendSet(a) == SendSet(b)
  {
  }

  lemma UpdateSetsOf(w: World, j: nat, q: Peer)
    requires Entries(w) && DistinctFds(w.t.peers) && j < |w.t.peers|
    ensures var p := w.t.peers[j];
            && PollSet(w.t.peers[j := q]) == PollSet(w.t.peers) - PollOwn(p) + PollOwn(q)
            && SendSet(w.t.peers[j := q]) == SendSet(w.t.peers) - SendOwn(p) + SendOwn(q)
  {
    RemoveSets(w, j);
    AppendSets(Without(w.t.peers, j), q);
    forall x
      ensures x in w.t.peers[j := q] <==> x in Without(w.t.peers, j) + [q]
    {
      ReplaceMembers(w.t.peers, j, q, x);
    }
    SameMembers(w.t.peers[j := q], Without(w.t.peers, j) + [q]);
  }

  // -------------------------------------------------------------- clean steps

  /** The steps that keep the sets exact: a good key must not arrive for an entry that
      already has an incoming descriptor or none at all, and a read pass must not end an
      outgoing-only connection nor more than one connection. */
  ghost predicate Clean(w: World, s: Step) {
    match s
    case Accept(host, port, _, keyLoads, _, _) =>
      keyLoads ==> forall i :: 0 <= i < |w.t.peers| && w.t.peers[i].addr == AddrField(host) && w.t.peers[i].port == port
                               ==> w.t.peers[i].isock == SOCKET_ONEWAY
    case Connect(_, _, _, _) => true
    case Lookup(_, _) => true
    case Read(ended) =>
      var dead := DeadIn(w.t, ended);
      dead == [] || (|dead| == 1 && w.t.peers[dead[0]].isock != SOCKET_ONEWAY)
  }

  lemma AcceptNewExact(w: World, s: Step)
    requires Inv(w) && Enabled(w, s) && s.Accept? && Exact(w.t)
    ensures var t1 := w.t.(nextHandle := w.t.nextHandle + 1, peers := w.t.peers + [Scratch(w.t, s.host, s.port)]);
            Exact(AcceptNew(t1, |w.t.peers|, s.newconn, s.keyLoads, s.sock, s.connected))
  {
    var sp := Scratch(w.t, s.host, s.port);
    var t1 := w.t.(nextHandle := w.t.nextHandle + 1, peers := w.t.peers + [sp]);
    var t' := AcceptNew(t1, |w.t.peers|, s.newconn, s.keyLoads, s.sock, s.connected);
    var q := t'.peers[|w.t.peers|];
    assert t'.peers == w.t.peers + [q];
    AppendSets(w.t.peers, q);
  }

  lemma AcceptKnownExact(w: World, s: Step, j: nat)
    requires Inv(w) && Enabled(w, s) && s.Accept? && Exact(w.t) && j < |w.t.peers|
    ensures var t1 := w.t.(nextHandle := w.t.nextHandle + 1);
            Exact(AcceptKnown(t1, j, s.newconn, s.keyLoads)) <==> (s.keyLoads ==> w.t.peers[j].isock == SOCKET_ONEWAY)
  {
    var t1 := w.t.(nextHandle := w.t.nextHandle + 1);
    var t' := AcceptKnown(t1, j, s.newconn, s.keyLoads);
    var p, q := w.t.peers[j], t'.peers[j];
    assert t'.peers == w.t.peers[j := q];
    UpdateSetsOf(w, j, q);
    RemoveSets(w, j);
    if s.keyLoads {
      assert s.newconn !in w.t.wset && s.newconn !in w.t.rset;
      if p.isock == SOCKET_ONEWAY {
        assert p.osock in SendOwn(p) && p.osock in PollOwn(p);
      } else if p.isock > 0 {
        assert p.isock in PollOwn(p) && p.isock in t'.rset && p.isock !in PollSet(t'.peers);
      } else {
        assert s.newconn in t'.wset && s.newconn !in SendSet(t'.peers);
      }
    }
  }

  lemma ConnectExact(w: World, s: Step)
    requires Inv(w) && Enabled(w, s) && s.Connect? && Exact(w.t)
    ensures Exact(Apply(w, s).t)
  {
    LookupIsTransparent(w.t, s.host, s.port);
    if LookupResult(w.t, s.host, s.port) == -1 && s.made.Some? {
      var t' := Apply(w, s).t;
      var q := t'.peers[|w.t.peers|];
      assert t'.peers == w.t.peers + [q];
      AppendSets(w.t.peers, q);
    }
  }

  lemma {:induction false} ClearedAll(t: Table, dead: seq<nat>, k: nat)
    requires k < |dead| && forall i :: 0 <= i < |dead| ==> dead[i] < |t.peers|
    ensures var p := t.peers[dead[k]];
            p.isock !in ClearDead(t, dead).rset && p.osock !in ClearDead(t, dead).wset
    decreases |dead|
  {
    if k < |dead| - 1 {
      ClearedAll(t, dead[..|dead| - 1], k);
    }
  }

  lemma ReadOneExact(w: World, m: nat)
    requires Inv(w) && Exact(w.t) && m < |w.t.peers| && PollFd(w.t.peers[m]) in w.t.rset
    ensures Exact(RemoveAt(RemoveFromSets(w.t, w.t.peers[m]), m)) <==> w.t.peers[m].isock != SOCKET_ONEWAY
  {
    var p := w.t.peers[m];
    RemoveSets(w, m);
    var t' := RemoveAt(RemoveFromSets(w.t, p), m);
    if p.isock == SOCKET_ONEWAY {
      assert p.osock in t'.rset && p.osock !in PollSet(t'.peers);
    }
  }

  /** An entry whose descriptors are gone from the sets. */
  lemma UnregisteredEntry(t: Table, p: Peer)
    requires Kind(p) && PollFd(p) > 0 && p in t.peers && p.isock !in t.rset && p.osock !in t.wset
    ensures !Exact(t)
  {
    if p.isock == SOCKET_ONEWAY {
      assert p.osock in SendOwn(p) && p.osock in SendSet(t.peers);
    } else {
      assert p.isock in PollOwn(p) && p.isock in PollSet(t.peers);
    }
  }

  /** Two ended connections in one pass: the first stays in the table without its descriptors. */
  lemma ReadManyInexact(w: World, ended: set<int>)
    requires Inv(w) && |DeadIn(w.t, ended)| > 1
    ensures !Exact(ReaderTable(w.t, ended))
  {
    var dead := DeadIn(w.t, ended);
    DeadUpToIsExact(w.t.peers, w.t.rset, ended, |w.t.peers|);
    ReaderRemoves(w.t, ended);
    ClearedAll(w.t, dead, 0);
    var m, t' := dead[|dead| - 1], ReaderTable(w.t, ended);
    var p := w.t.peers[dead[0]];
    assert dead[0] < m && t'.peers[dead[0]] == p;
    assert IsDead(p, w.t.rset, ended);
    UnregisteredEntry(t', p);
  }

  lemma ReadSingleExact(w: World, ended: set<int>)
    requires Inv(w) && Exact(w.t) && |DeadIn(w.t, ended)| == 1
    ensures var m := DeadIn(w.t, ended)[0];
            m < |w.t.peers| && (Exact(ReaderTable(w.t, ended)) <==> w.t.peers[m].isock != SOCKET_ONEWAY)
  {
    var dead := DeadIn(w.t, ended);
    DeadUpToIsExact(w.t.peers, w.t.rset, ended, |w.t.peers|);
    var m := dead[0];
    ReaderRemoves(w.t, ended);
    assert IsDead(w.t.peers[dead[0]], w.t.rset, ended);
    ReadOneExact(w, m);
    assert dead[..0] == [] && ClearDead(w.t, dead) == RemoveFromSets(w.t, w.t.peers[m]);
  }

  lemma ReadExact(w: World, ended: set<int>)
    requires Inv(w) && Exact(w.t)
    ensures Exact(ReaderTable(w.t, ended)) <==> Clean(w, Read(ended))
  {
    var dead := DeadIn(w.t, ended);
    if |dead| == 0 {
      ReaderRemoves(w.t, ended);
      assert dead == [];
    } else if |dead| == 1 {
      ReadSingleExact(w, ended);
      assert dead == [dead[0]];
    } else {
      ReadManyInexact(w, ended);
    }
  }

  lemma CleanAt(w: World, s: Step, j: nat)
    requires Inv(w) && s.Accept? && j < |w.t.peers| && w.t.peers[j].addr == AddrField(s.host)
             && w.t.peers[j].port == s.port
    ensures Clean(w, s) <==> (s.keyLoads ==> w.t.peers[j].isock == SOCKET_ONEWAY)
  {
    forall i | 0 <= i < |w.t.peers| && w.t.peers[i].addr == AddrField(s.host) && w.t.peers[i].port == s.port
      ensures i == j
    {
      assert SameEndpoint(w.t.peers[i], w.t.peers[j]);
    }
  }

  lemma AcceptExact(w: World, s: Step)
    requires Inv(w) && Enabled(w, s) && s.Accept? && Exact(w.t)
    ensures Exact(Apply(w, s).t) <==> Clean(w, s)
  {
    var j := AcceptCases(w.t, s.host, s.port, s.newconn, s.keyLoads, s.sock, s.connected);
    if j == -1 {
      AcceptNewExact(w, s);
    } else {
      AcceptKnownExact(w, s, j);
      CleanAt(w, s, j);
    }
  }

  /** From an exact state, a step leads to an exact state if and only if it is clean. */
  lemma StepExact(w: World, s: Step)
    requires Inv(w) && Enabled(w, s) && Exact(w.t)
    ensures Exact(Apply(w, s).t) <==> Clean(w, s)
  {
    match s
    case Accept(_, _, _, _, _, _) => AcceptExact(w, s);
    case Connect(_, _, _, _) => ConnectExact(w, s);
    case Lookup(host, port) => LookupIsTransparent(w.t, host, port);
    case Read(ended) => ReadExact(w, ended);
  }

  // --------------------------------------------------------------- runs

  ghost predicate ExactThroughout(w: World, steps: seq<Step>)
    decreases |steps|
  {
    Exact(w.t) && (steps == [] || ExactThroughout(Apply(w, steps[0]), steps[1..]))
  }

  ghost predicate CleanThroughout(w: World, steps: seq<Step>)
    decreases |steps|
  {
    steps == [] || (Clean(w, steps[0]) && CleanThroughout(Apply(w, steps[0]), steps[1..]))
  }

  lemma {:induction false} RunExactFrom(w: World, steps: seq<Step>)
    requires Inv(w) && EnabledRun(w, steps) && Exact(w.t)
    ensures ExactThroughout(w, steps) <==> CleanThroughout(w, steps)
    decreases |steps|
  {
    if steps != [] {
      StepExact(w, steps[0]);
      StepKeepsInv(w, steps[0]);
      if Exact(Apply(w, steps[0]).t) {
        RunExactFrom(Apply(w, steps[0]), steps[1..]);
      }
    }
  }

  /** Over every run: the sets agree with the peers in each state if and only if each step is clean. */
  lemma RunExact(steps: seq<Step>)
    requires EnabledRun(INITIAL, steps)
    ensures ExactThroughout(INITIAL, steps) <==> CleanThroughout(INITIAL, steps)
  {
    assert PollSet(INITIAL.t.peers) == {} == SendSet(INITIAL.t.peers);
    RunExactFrom(INITIAL, steps);
  }

  lemma DeadAlone(p: Peer, rset: set<int>, ended: set<int>)
    requires IsDead(p, rset, ended)
    ensures DeadUpTo([p], rset, ended, 1) == [0]
  {
    assert DeadUpTo([p], rset, ended, 0) == [];
  }

  lemma OnlyPeerDies(t: Table, p: Peer, ended: set<int>)
    requires WellFormed(t) && t.peers == [p] && IsDead(p, t.rset, ended)
    ensures ReaderTable(t, ended).peers == [] && ReaderTable(t, ended).rset == t.rset - {p.isock}
  {
    DeadAlone(p, t.rset, ended);
    ReaderRemoves(t, ended);
    assert [0][..0] == [];
    assert ClearDead(t, [0]) == RemoveFromSets(t, p);
  }

  lemma ConnectedAlone(host: string) returns (p: Peer)
    ensures Enabled(INITIAL, Connect(host, 5000, Some(4), true))
    ensures var t := Apply(INITIAL, Connect(host, 5000, Some(4), true)).t;
            WellFormed(t) && t.peers == [p] && t.rset == {4} && p.osock == 4 && p.isock == SOCKET_ONEWAY
  {
    var s := Connect(host, 5000, Some(4), true);
    LookupIsTransparent(INITIAL.t, host, 5000);
    assert LookupResult(INITIAL.t, host, 5000) == -1;
    var t := LookupTable(INITIAL.t, host, 5000);
    assert t.peers == [] && t.rset == {};
    StepKeepsInv(INITIAL, s);
    p := ConnectNew(t, host, 5000, 4, true).peers[0];
  }

  /** A concrete run that ends with a stale descriptor: connect out to one peer, then
      lose that connection.  Descriptor 4 stays in the read set with no peer behind it. */
  lemma StaleAfterOutgoingLoss(host: string)
    ensures var w1 := Apply(INITIAL, Connect(host, 5000, Some(4), true));
            var t2 := Apply(w1, Read({4})).t;
            Enabled(INITIAL, Connect(host, 5000, Some(4), true)) && t2.peers == [] && t2.rset == {4}
  {
    var p := ConnectedAlone(host);
    OnlyPeerDies(Apply(INITIAL, Connect(host, 5000, Some(4), true)).t, p, {4});
  }
}
