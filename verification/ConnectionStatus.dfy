/** The connection status that `handlelistpeers` reports, against the descriptors a peer
    really has. */
module ConnectionStatus {
  import opened Collections
  import opened PeerTable
  import opened Connections
  import opened ConnectionRuns

  datatype Status = Invalid | Oneway | Ok

  /** The classification in `handlelistpeers`. */
  function StatusOf(p: Peer): Status {
    if !p.keyOk then Invalid
    else if !(p.connectable && p.isock > 0) then Oneway
    else Ok
  }

  predicate RealIn(p: Peer) { p.isock >= 0 }

  predicate RealOut(p: Peer) { p.osock >= 0 }

  /** With a valid key: "ok" for both directions, "oneway" for exactly one. */
  predicate Truthful(p: Peer) {
    p.keyOk ==> (StatusOf(p) == Ok <==> RealIn(p) && RealOut(p)) && (StatusOf(p) == Oneway <==> RealIn(p) != RealOut(p))
  }

  ghost predicate AllTruthful(t: Table) {
    forall i :: 0 <= i < |t.peers| ==> Truthful(t.peers[i])
  }

  /** An accepted connection with a good key reaches an entry without outgoing descriptor
      of its own, not even the mark for an incoming-only one. */
  ghost predicate Revives(w: World, s: Step) {
    s.Accept? && s.keyLoads &&
    exists i :: 0 <= i < |w.t.peers| && w.t.peers[i].addr == AddrField(s.host) && w.t.peers[i].port == s.port
                && w.t.peers[i].osock == SOCKET_NONE
  }

  lemma RevivesAt(w: World, s: Step, j: nat)
    requires Inv(w) && s.Accept? && j < |w.t.peers| && w.t.peers[j].addr == AddrField(s.host)
             && w.t.peers[j].port == s.port
    ensures Revives(w, s) <==> s.keyLoads && w.t.peers[j].osock == SOCKET_NONE
  {
    forall i | 0 <= i < |w.t.peers| && w.t.peers[i].addr == AddrField(s.host) && w.t.peers[i].port == s.port
      ensures i == j
    {
      assert SameEndpoint(w.t.peers[i], w.t.peers[j]);
    }
  }

  lemma AppendTruthful(peers: seq<Peer>, q: Peer)
    requires (forall i :: 0 <= i < |peers| ==> Truthful(peers[i])) && Truthful(q)
    ensures forall i :: 0 <= i < |peers + [q]| ==> Truthful((peers + [q])[i])
  {
  }

  lemma NewTruthful(t: Table, n: nat, newconn: int, keyLoads: bool, sock: int, connected: bool)
    requires n < |t.peers| && LeftBehind(t.peers[n]) && newconn > 0 && sock > 0
    ensures Truthful(AcceptNew(t, n, newconn, keyLoads, sock, connected).peers[n])
  {
  }

  lemma KnownTruthful(t: Table, j: nat, newconn: int, keyLoads: bool)
    requires j < |t.peers| && Kind(t.peers[j]) && Truthful(t.peers[j]) && newconn > 0
    ensures Truthful(AcceptKnown(t, j, newconn, keyLoads).peers[j]) <==> !(keyLoads && t.peers[j].osock == SOCKET_NONE)
  {
  }

  lemma AcceptTruthful(w: World, s: Step)
    requires Inv(w) && Enabled(w, s) && s.Accept? && AllTruthful(w.t)
    ensures AllTruthful(Apply(w, s).t) <==> !Revives(w, s)
  {
    var peers' := Apply(w, s).t.peers;
    var n := |w.t.peers|;
    var j := AcceptCases(w.t, s.host, s.port, s.newconn, s.keyLoads, s.sock, s.connected);
    var t1 := w.t.(nextHandle := w.t.nextHandle + 1);
    if j == -1 {
      NewTruthful(t1.(peers := w.t.peers + [Scratch(w.t, s.host, s.port)]), n,
                  s.newconn, s.keyLoads, s.sock, s.connected);
      assert peers' == w.t.peers + [peers'[n]];
      AppendTruthful(w.t.peers, peers'[n]);
    } else {
      RevivesAt(w, s, j);
      KnownTruthful(t1, j, s.newconn, s.keyLoads);
      assert peers' == w.t.peers[j := peers'[j]];
    }
  }

  lemma RemoveTruthful(t: Table, i: nat)
    requires AllTruthful(t) && i < |t.peers|
    ensures AllTruthful(RemoveAt(t, i))
  {
    var s := Without(t.peers, i);
    assert forall k :: 0 <= k < |s| ==> s[k] == t.peers[if k < i then k else k + 1];
  }

  lemma ReadTruthful(w: World, ended: set<int>)
    requires Inv(w) && AllTruthful(w.t)
    ensures AllTruthful(ReaderTable(w.t, ended))
  {
    ReaderRemoves(w.t, ended);
    var dead := DeadIn(w.t, ended);
    if dead != [] {
      RemoveTruthful(ClearDead(w.t, dead), dead[|dead| - 1]);
    }
  }

  /** Where the reported status is truthful it stays so, except when a left-behind entry is revived. */
  lemma StepTruthful(w: World, s: Step)
    requires Inv(w) && Enabled(w, s) && AllTruthful(w.t)
    ensures AllTruthful(Apply(w, s).t) <==> !Revives(w, s)
  {
    match s
    case Accept(_, _, _, _, _, _) => AcceptTruthful(w, s);
    case Connect(host, port, made, _) =>
      LookupIsTransparent(w.t, host, port);
      if LookupResult(w.t, host, port) == -1 && made.Some? {
        var peers' := Apply(w, s).t.peers;
        assert peers' == w.t.peers + [peers'[|w.t.peers|]];
      }
    case Lookup(host, port) => LookupIsTransparent(w.t, host, port);
    case Read(ended) => ReadTruthful(w, ended);
  }

  /** The last key check of an endpoint decides: after an accepted connection the entry of
      its endpoint is reported invalid exactly when the key failed, with a good key its
      incoming descriptor is the new connection, and a new entry has gone out again
      through the descriptor for connecting back or carries the mark for none. */
  lemma KeyCheckDecides(w: World, s: Step) returns (j: nat)
    requires Inv(w) && Enabled(w, s) && s.Accept?
    ensures var t' := Apply(w, s).t;
            && j < |t'.peers| && t'.peers[j].addr == AddrField(s.host) && t'.peers[j].port == s.port
            && (StatusOf(t'.peers[j]) == Invalid <==> !s.keyLoads)
            && (s.keyLoads ==> t'.peers[j].isock == s.newconn)
            && (if j < |w.t.peers| then t'.peers[j].osock == w.t.peers[j].osock
                else if !s.keyLoads then t'.peers[j].osock == SOCKET_NONE
                else t'.peers[j].osock == if s.connected then s.sock else SOCKET_ONEWAY)
  {
    var k := AcceptCases(w.t, s.host, s.port, s.newconn, s.keyLoads, s.sock, s.connected);
    j := if k == -1 then |w.t.peers| else k;
  }

  ghost predicate TruthfulThroughout(w: World, steps: seq<Step>)
    decreases |steps|
  {
    AllTruthful(w.t) && (steps == [] || TruthfulThroughout(Apply(w, steps[0]), steps[1..]))
  }

  ghost predicate NeverRevives(w: World, steps: seq<Step>)
    decreases |steps|
  {
    steps == [] || (!Revives(w, steps[0]) && NeverRevives(Apply(w, steps[0]), steps[1..]))
  }

  lemma {:induction false} RunTruthfulFrom(w: World, steps: seq<Step>)
    requires Inv(w) && EnabledRun(w, steps) && AllTruthful(w.t)
    ensures TruthfulThroughout(w, steps) <==> NeverRevives(w, steps)
    decreases |steps|
  {
    if steps != [] {
      StepTruthful(w, steps[0]);
      StepKeepsInv(w, steps[0]);
      if AllTruthful(Apply(w, steps[0]).t) {
        RunTruthfulFrom(Apply(w, steps[0]), steps[1..]);
      }
    }
  }

  /** Over every run the reported status is truthful in each state if and only if no
      step revives an entry that a failed key check left behind. */
  lemma RunTruthful(steps: seq<Step>)
    requires EnabledRun(INITIAL, steps)
    ensures TruthfulThroughout(INITIAL, steps) <==> NeverRevives(INITIAL, steps)
  {
    RunTruthfulFrom(INITIAL, steps);
  }

  /** A connection with a bad key from a new endpoint leaves an entry behind that has no
      descriptor at all. */
  lemma BadKeyLeavesEntry(host: string)
    ensures var s := Accept(host, 5000, 4, false, 5, false);
            var t := Apply(INITIAL, s).t;
            Enabled(INITIAL, s) && WellFormed(t) && |t.peers| == 1 && LeftBehind(t.peers[0])
            && t.peers[0].addr == AddrField(host) && t.peers[0].port == 5000
  {
    StepKeepsInv(INITIAL, Accept(host, 5000, 4, false, 5, false));
    var j := AcceptCases(INITIAL.t, host, 5000, 4, false, 5, false);
  }

  /** A concrete run with a wrong report: the first connection of a peer fails its key
      check, the second passes; the peer is reported "ok" with no outgoing descriptor. */
  lemma OkWithoutOutgoing(host: string)
    ensures var w1 := Apply(INITIAL, Accept(host, 5000, 4, false, 5, false));
            var s2 := Accept(host, 5000, 6, true, 7, false);
            var t := Apply(w1, s2).t;
            Enabled(w1, s2) && |t.peers| == 1 && StatusOf(t.peers[0]) == Ok && t.peers[0].osock == SOCKET_NONE
  {
    BadKeyLeavesEntry(host);
    var w1 := Apply(INITIAL, Accept(host, 5000, 4, false, 5, false));
    var j := AcceptCases(w1.t, host, 5000, 6, true, 7, false);
    assert j == 0;
  }
}
