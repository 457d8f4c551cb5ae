/** Runs of accept, connect and read-thread steps over the peer table: which promises
    hold in every run, and for the ones that do not, exactly which steps break them. */
module ConnectionRuns {
  import opened Collections
  import opened PeerTable
  import opened PtrList
  import opened Connections

  /** The table together with every descriptor that is open.  The program does not close
      the descriptors of a peer; it closes the one for connecting back, which `Accept`
      calls `sock`, unless that is registered. */
  datatype World = World(t: Table, open: set<int>)

  datatype Step =
    | Accept(host: string, port: nat, newconn: int, keyLoads: bool, sock: int, connected: bool)
    | Connect(host: string, port: nat, made: Option<int>, keyLoads: bool)
    | Lookup(host: string, port: nat)
    | Read(ended: set<int>)

  const INITIAL := World(Table([], 0, 0, 1, {}, {}, -1, -1), {})

  /** New descriptors are positive (0 is the standard input) and not yet in use. */
  predicate Enabled(w: World, s: Step) {
    match s
    case Accept(_, _, newconn, _, sock, _) =>
      newconn > 0 && sock > 0 && newconn != sock && newconn !in w.open && sock !in w.open
    case Connect(_, port, sock, _) => port != 0 && (sock.Some? ==> sock.value > 0 && sock.value !in w.open)
    case Lookup(_, _) => true
    case Read(_) => true
  }

  function Apply(w: World, s: Step): World {
    match s
    case Accept(host, port, newconn, keyLoads, sock, connected) =>
      var t' := AcceptTable(w.t, host, Port(port), newconn, keyLoads, sock, connected);
      World(t', w.open + {newconn} + t'.wset * {sock})
    case Connect(host, port, sock, keyLoads) =>
      World(ConnectTable(w.t, host, port, sock, keyLoads), if sock.Some? then w.open + {sock.value} else w.open)
    case Lookup(host, port) => World(LookupTable(w.t, host, port), w.open)
    case Read(ended) => World(ReaderTable(w.t, ended), w.open)
  }

  // ------------------------------------------------------ kinds of entries

  /** Left behind by a failed key check on a new endpoint. */
  predicate LeftBehind(p: Peer) {
    p.isock == SOCKET_NONE && p.osock == SOCKET_NONE && p.connectable && !p.keyOk
  }

  predicate OutgoingOnly(p: Peer) {
    p.isock == SOCKET_ONEWAY && p.osock > 0 && p.connectable
  }

  predicate IncomingOnly(p: Peer) {
    p.isock > 0 && p.osock == SOCKET_ONEWAY && !p.connectable
  }

  predicate Bidirectional(p: Peer) {
    p.isock > 0 && p.osock > 0 && p.isock != p.osock && p.connectable
  }

  /** A left-behind entry that a later connection with a good key reached. */
  predicate Revived(p: Peer) {
    p.isock > 0 && p.osock == SOCKET_NONE && p.connectable
  }

  predicate Kind(p: Peer) {
    LeftBehind(p) || OutgoingOnly(p) || IncomingOnly(p) || Bidirectional(p) || Revived(p)
  }

  function Fds(p: Peer): set<int> {
    (if p.isock > 0 then {p.isock} else {}) + (if p.osock > 0 then {p.osock} else {})
  }

  ghost predicate UniqueEndpoints(peers: seq<Peer>) {
    forall i, j :: 0 <= i < j < |peers| ==> !SameEndpoint(peers[i], peers[j])
  }

  ghost predicate DistinctFds(peers: seq<Peer>) {
    forall i, j :: 0 <= i < j < |peers| ==> Fds(peers[i]) !! Fds(peers[j])
  }

  ghost predicate Entries(w: World) {
    forall i :: 0 <= i < |w.t.peers| ==> Kind(w.t.peers[i]) && Fds(w.t.peers[i]) <= w.open
  }

  /** The cached maxima bound the descriptor sets. */
  ghost predicate Bounded(t: Table) {
    (forall fd :: fd in t.rset ==> fd <= t.rmax) && (forall fd :: fd in t.wset ==> fd <= t.wmax)
  }

  /** Holds in every reachable state. */
  ghost predicate Inv(w: World) {
    && WellFormed(w.t) && w.t.cursor == 0 && w.t.depth == 0
    && Entries(w) && UniqueEndpoints(w.t.peers) && DistinctFds(w.t.peers)
    && w.t.rset <= w.open && w.t.wset <= w.open
    && (forall fd :: fd in w.open ==> fd > 0)
    && Bounded(w.t)
  }

  // ------------------------------------------------- shapes of the steps

  /** What an accepted connection does, with the scratch entry already accounted for:
      it upgrades the entry of its endpoint, or appends one when there is none. */
  lemma AcceptCases(t: Table, host: string, port: nat, newconn: int, keyLoads: bool, sock: int, connected: bool)
    returns (j: int)
    requires WellFormed(t)
    ensures IsLookup(t.peers, AddrField(host), port, j)
    ensures var t1 := t.(nextHandle := t.nextHandle + 1);
            AcceptTable(t, host, Port(port), newconn, keyLoads, sock, connected)
            == if j == -1 then
                 AcceptNew(t1.(peers := t.peers + [Scratch(t, host, port)]), |t.peers|,
                           newconn, keyLoads, sock, connected)
               else AcceptKnown(t1, j, newconn, keyLoads)
  {
    var n := |t.peers|;
    var sp := Scratch(t, host, port);
    var t1 := SetPeer(NewPeer(t), n, sp);
    assert t1.peers == t.peers + [sp];
    j := FirstOther(t1.peers, sp, n, 0);
    FirstOtherIsFirst(t1.peers, sp, n, 0);
    assert forall i :: 0 <= i < n ==> t1.peers[i] == t.peers[i];
    ScratchIsRemoved(t, sp);
  }

  /** Appending an entry with fresh descriptors keeps the invariants of the entries. */
  lemma AppendKeeps(w: World, p: Peer, open: set<int>)
    requires Entries(w) && UniqueEndpoints(w.t.peers) && DistinctFds(w.t.peers)
    requires Kind(p) && w.open <= open && Fds(p) <= open - w.open
    requires forall i :: 0 <= i < |w.t.peers| ==> !SameEndpoint(w.t.peers[i], p)
    ensures var s := w.t.peers + [p];
            Entries(World(w.t.(peers := s), open)) && UniqueEndpoints(s) && DistinctFds(s)
  {
  }

  /** Rewriting one entry in place, its new descriptors being its own or fresh. */
  lemma UpdateKeeps(w: World, j: nat, p: Peer, open: set<int>)
    requires Entries(w) && UniqueEndpoints(w.t.peers) && DistinctFds(w.t.peers)
    requires j < |w.t.peers| && SameEndpoint(p, w.t.peers[j])
    requires Kind(p) && w.open <= open && Fds(p) <= Fds(w.t.peers[j]) + (open - w.open)
    ensures var s := w.t.peers[j := p];
            Entries(World(w.t.(peers := s), open)) && UniqueEndpoints(s) && DistinctFds(s)
  {
  }

  lemma RemoveKeeps(w: World, i: nat)
    requires Entries(w) && UniqueEndpoints(w.t.peers) && DistinctFds(w.t.peers) && i < |w.t.peers|
    ensures var s := Without(w.t.peers, i);
            Entries(World(w.t.(peers := s), w.open)) && UniqueEndpoints(s) && DistinctFds(s)
  {
    var s := Without(w.t.peers, i);
    assert forall k :: 0 <= k < |s| ==> s[k] == w.t.peers[if k < i then k else k + 1];
    forall k, m | 0 <= k < m < |s|
      ensures !SameEndpoint(s[k], s[m]) && Fds(s[k]) !! Fds(s[m])
    {
      var k', m' := if k < i then k else k + 1, if m < i then m else m + 1;
      assert k' < m' && s[k] == w.t.peers[k'] && s[m] == w.t.peers[m'];
    }
  }

  lemma HandlesAfterUpdate(t: Table, j: nat, p: Peer, next: nat)
    requires HandlesUnique(t) && j < |t.peers| && next >= t.nextHandle
    requires p.handle == 0 || p.handle == t.peers[j].handle || t.nextHandle <= p.handle < next
    ensures HandlesUnique(SetPeer(t, j, p).(nextHandle := next))
  {
  }

  lemma HandlesAfterAppend(t: Table, p: Peer, next: nat)
    requires HandlesUnique(t) && next >= t.nextHandle
    requires p.handle == 0 || t.nextHandle <= p.handle < next
    ensures HandlesUnique(t.(peers := t.peers + [p], nextHandle := next))
  {
  }

  lemma AcceptNewKeepsInv(w: World, s: Step)
    requires Inv(w) && Enabled(w, s) && s.Accept?
    requires forall i :: 0 <= i < |w.t.peers| ==> !SameEndpoint(w.t.peers[i], Scratch(w.t, s.host, s.port))
    ensures var t1 := w.t.(nextHandle := w.t.nextHandle + 1, peers := w.t.peers + [Scratch(w.t, s.host, s.port)]);
            var t' := AcceptNew(t1, |w.t.peers|, s.newconn, s.keyLoads, s.sock, s.connected);
            Inv(World(t', w.open + {s.newconn} + t'.wset * {s.sock}))
  {
    var sp := Scratch(w.t, s.host, s.port);
    var t1 := w.t.(nextHandle := w.t.nextHandle + 1, peers := w.t.peers + [sp]);
    var t' := AcceptNew(t1, |w.t.peers|, s.newconn, s.keyLoads, s.sock, s.connected);
    var q := t'.peers[|w.t.peers|];
    assert t'.peers == w.t.peers + [q];
    AppendKeeps(w, q, w.open + {s.newconn} + t'.wset * {s.sock});
    HandlesAfterAppend(w.t, q, t'.nextHandle);
  }

  lemma AcceptKnownKeepsInv(w: World, s: Step, j: nat)
    requires Inv(w) && Enabled(w, s) && s.Accept? && j < |w.t.peers|
    ensures var t1 := w.t.(nextHandle := w.t.nextHandle + 1);
            var t' := AcceptKnown(t1, j, s.newconn, s.keyLoads);
            Inv(World(t', w.open + {s.newconn} + t'.wset * {s.sock}))
  {
    var t1 := w.t.(nextHandle := w.t.nextHandle + 1);
    var t' := AcceptKnown(t1, j, s.newconn, s.keyLoads);
    var q := t'.peers[j];
    assert t'.peers == w.t.peers[j := q];
    UpdateKeeps(w, j, q, w.open + {s.newconn} + t'.wset * {s.sock});
    HandlesAfterUpdate(w.t, j, q, t'.nextHandle);
  }

  lemma AcceptKeepsInv(w: World, s: Step)
    requires Inv(w) && Enabled(w, s) && s.Accept?
    ensures Inv(Apply(w, s))
  {
    var j := AcceptCases(w.t, s.host, s.port, s.newconn, s.keyLoads, s.sock, s.connected);
    if j == -1 {
      AcceptNewKeepsInv(w, s);
    } else {
      AcceptKnownKeepsInv(w, s, j);
    }
  }

  lemma ConnectNewKeepsInv(w: World, host: string, port: nat, sock: int, keyLoads: bool)
    requires Inv(w) && sock > 0 && sock !in w.open
    requires forall i :: 0 <= i < |w.t.peers| ==> !(w.t.peers[i].addr == AddrField(host) && w.t.peers[i].port == port)
    ensures Inv(World(ConnectNew(w.t, host, port, sock, keyLoads), w.open + {sock}))
  {
    var t' := ConnectNew(w.t, host, port, sock, keyLoads);
    var q := t'.peers[|w.t.peers|];
    assert t'.peers == w.t.peers + [q];
    AppendKeeps(w, q, w.open + {sock});
    HandlesAfterAppend(w.t, q, t'.nextHandle);
  }

  lemma NextHandleKeepsInv(w: World, next: nat)
    requires Inv(w) && next >= w.t.nextHandle
    ensures Inv(World(w.t.(nextHandle := next), w.open))
  {
  }

  lemma ConnectKeepsInv(w: World, s: Step)
    requires Inv(w) && Enabled(w, s) && s.Connect?
    ensures Inv(Apply(w, s))
  {
    LookupIsTransparent(w.t, s.host, s.port);
    var t1 := LookupTable(w.t, s.host, s.port);
    ScratchIsRemoved(w.t, Scratch(w.t, s.host, s.port));
    NextHandleKeepsInv(w, t1.nextHandle);
    if LookupResult(w.t, s.host, s.port) == -1 && s.made.Some? {
      ConnectNewKeepsInv(World(t1, w.open), s.host, s.port, s.made.value, s.keyLoads);
    }
  }

  lemma {:induction false} ClearDeadShrinks(t: Table, dead: seq<nat>)
    requires forall k :: 0 <= k < |dead| ==> dead[k] < |t.peers|
    ensures ClearDead(t, dead).rset <= t.rset && ClearDead(t, dead).wset <= t.wset
    decreases |dead|
  {
    if dead != [] {
      ClearDeadShrinks(t, dead[..|dead| - 1]);
    }
  }

  lemma OnlyEqualEntry(peers: seq<Peer>, m: nat)
    requires UniqueEndpoints(peers) && m < |peers|
    ensures FirstEqual(peers, peers[m], 0) == m
  {
    assert SameEndpoint(peers[m], peers[m]);
  }

  /** The pointer list shows one entry at most, so a pass removes one entry at most: the
      last one it found dead. */
  lemma ReaderRemoves(t: Table, ended: set<int>)
    requires WellFormed(t) && UniqueEndpoints(t.peers)
    ensures var dead := DeadIn(t, ended);
            ReaderTable(t, ended) == if dead == [] then t
                                     else RemoveAt(ClearDead(t, dead), dead[|dead| - 1])
  {
    var dead := DeadIn(t, ended);
    if dead != [] {
      var m := dead[|dead| - 1];
      var t1 := ClearDead(t, dead);
      OnlyEqualEntry(t.peers, m);
      assert Shown(dead)[1..] == [];
      assert RemoveListed(RemovePeer(t1, t1.peers[m]), []) == RemovePeer(t1, t1.peers[m]);
    }
  }

  /** The entries below `upTo` whose connection did not end, in order. */
  function Survivors(peers: seq<Peer>, rset: set<int>, ended: set<int>, upTo: nat): seq<Peer>
    requires upTo <= |peers|
  {
    if upTo == 0 then []
    else
      Survivors(peers, rset, ended, upTo - 1)
      + if IsDead(peers[upTo - 1], rset, ended) then [] else [peers[upTo - 1]]
  }

  lemma {:induction false} SurvivorsCount(peers: seq<Peer>, rset: set<int>, ended: set<int>, upTo: nat)
    requires upTo <= |peers|
    ensures var s, d := Survivors(peers, rset, ended, upTo), DeadUpTo(peers, rset, ended, upTo);
            && |s| + |d| == upTo
            && (|d| == 0 ==> s == peers[..upTo])
            && (|d| == 1 ==> s == peers[..d[0]] + peers[d[0] + 1..upTo])
  {
    if upTo > 0 {
      SurvivorsCount(peers, rset, ended, upTo - 1);
      OneEntryMore(peers, 0, upTo);
      var d := DeadUpTo(peers, rset, ended, upTo - 1);
      if |d| == 1 {
        OneEntryMore(peers, d[0] + 1, upTo);
        assert (peers[..d[0]] + peers[d[0] + 1..upTo - 1]) + [peers[upTo - 1]]
               == peers[..d[0]] + (peers[d[0] + 1..upTo - 1] + [peers[upTo - 1]]);
      } else if d == [] {
        assert peers[upTo..upTo] == [] && peers[..upTo - 1] + [] == peers[..upTo - 1];
      }
    }
  }

  lemma OneEntryMore(peers: seq<Peer>, from: nat, upTo: nat)
    requires from < upTo <= |peers|
    ensures peers[from..upTo] == peers[from..upTo - 1] + [peers[upTo - 1]]
  {
  }

  /** A read pass leaves exactly the peers whose connection did not end, in their order, if
      and only if it ended at most one: of several it removes only the last one found. */
  lemma DeferredRemovalIff(t: Table, ended: set<int>)
    requires WellFormed(t) && UniqueEndpoints(t.peers)
    ensures ReaderTable(t, ended).peers == Survivors(t.peers, t.rset, ended, |t.peers|) <==> |DeadIn(t, ended)| <= 1
  {
    var n, dead := |t.peers|, DeadIn(t, ended);
    SurvivorsCount(t.peers, t.rset, ended, n);
    ReaderRemoves(t, ended);
    assert t.peers[..n] == t.peers;
    if |dead| == 1 {
      assert t.peers[dead[0] + 1..n] == t.peers[dead[0] + 1..];
    }
  }

  lemma ReadKeepsInv(w: World, ended: set<int>)
    requires Inv(w)
    ensures Inv(Apply(w, Read(ended)))
  {
    var dead := DeadIn(w.t, ended);
    ReaderRemoves(w.t, ended);
    if dead != [] {
      ClearDeadShrinks(w.t, dead);
      RemovalWellFormed(ClearDead(w.t, dead), dead[|dead| - 1]);
      RemoveKeeps(World(ClearDead(w.t, dead), w.open), dead[|dead| - 1]);
    }
  }

  lemma StepKeepsInv(w: World, s: Step)
    requires Inv(w) && Enabled(w, s)
    ensures Inv(Apply(w, s))
  {
    match s
    case Accept(_, _, _, _, _, _) => AcceptKeepsInv(w, s);
    case Connect(_, _, _, _) => ConnectKeepsInv(w, s);
    case Lookup(host, port) => LookupIsTransparent(w.t, host, port);
    case Read(ended) => ReadKeepsInv(w, ended);
  }

  // --------------------------------------------------------------- runs

  ghost predicate EnabledRun(w: World, steps: seq<Step>)
    decreases |steps|
  {
    steps == [] || (Enabled(w, steps[0]) && EnabledRun(Apply(w, steps[0]), steps[1..]))
  }

  ghost function RunTo(w: World, steps: seq<Step>): World
    decreases |steps|
  {
    if steps == [] then w else RunTo(Apply(w, steps[0]), steps[1..])
  }

  lemma {:induction false} RunKeepsInv(w: World, steps: seq<Step>)
    requires Inv(w) && EnabledRun(w, steps)
    ensures Inv(RunTo(w, steps))
    decreases |steps|
  {
    if steps != [] {
      StepKeepsInv(w, steps[0]);
      RunKeepsInv(Apply(w, steps[0]), steps[1..]);
    }
  }

  /** In every run the table holds at most one entry per address and port, no two live
      peers share a descriptor, and the cached maxima bound the descriptor sets. */
  lemma EveryRun(steps: seq<Step>)
    requires EnabledRun(INITIAL, steps)
    ensures var t := RunTo(INITIAL, steps).t;
            UniqueEndpoints(t.peers) && DistinctFds(t.peers) && Bounded(t)
  {
    RunKeepsInv(INITIAL, steps);
  }

  // ------------------------------------------------- peers not concerned

  /** The entries a step is about. */
  ghost predicate Concerns(w: World, s: Step, i: nat)
    requires i < |w.t.peers|
  {
    match s
    case Accept(host, port, _, _, _, _) => w.t.peers[i].addr == AddrField(host) && w.t.peers[i].port == port
    case Connect(_, _, _, _) => false
    case Lookup(_, _) => false
    case Read(ended) => IsDead(w.t.peers[i], w.t.rset, ended)
  }

  ghost predicate SameInSets(p: Peer, t: Table, t': Table) {
    forall fd :: fd in Fds(p) ==> (fd in t.rset <==> fd in t'.rset) && (fd in t.wset <==> fd in t'.wset)
  }

  lemma {:induction false} ClearDeadSparesOthers(w: World, dead: seq<nat>, i: nat)
    requires Inv(w) && i < |w.t.peers| && i !in dead
    requires forall k :: 0 <= k < |dead| ==> dead[k] < |w.t.peers|
    ensures SameInSets(w.t.peers[i], w.t, ClearDead(w.t, dead))
    decreases |dead|
  {
    if dead != [] {
      var last := |dead| - 1;
      ClearDeadSparesOthers(w, dead[..last], i);
      assert dead[last] != i && Fds(w.t.peers[dead[last]]) !! Fds(w.t.peers[i]) && Kind(w.t.peers[dead[last]]);
    }
  }

  lemma AcceptSpares(w: World, s: Step, i: nat)
    requires Inv(w) && Enabled(w, s) && s.Accept? && i < |w.t.peers| && !Concerns(w, s, i)
    ensures w.t.peers[i] in Apply(w, s).t.peers && SameInSets(w.t.peers[i], w.t, Apply(w, s).t)
  {
    var p, t' := w.t.peers[i], Apply(w, s).t;
    var j := AcceptCases(w.t, s.host, s.port, s.newconn, s.keyLoads, s.sock, s.connected);
    assert i != j && t'.peers[i] == p;
    if j != -1 {
      assert Fds(w.t.peers[j]) !! Fds(p) && Kind(w.t.peers[j]);
    }
  }

  lemma ReadSpares(w: World, ended: set<int>, i: nat)
    requires Inv(w) && i < |w.t.peers| && !IsDead(w.t.peers[i], w.t.rset, ended)
    ensures w.t.peers[i] in ReaderTable(w.t, ended).peers && SameInSets(w.t.peers[i], w.t, ReaderTable(w.t, ended))
  {
    var dead := DeadIn(w.t, ended);
    NotDead(w.t, ended, i);
    ReaderRemoves(w.t, ended);
    ClearDeadSparesOthers(w, dead, i);
    if dead != [] {
      OthersStay(ClearDead(w.t, dead), dead[|dead| - 1], i);
    }
  }

  lemma NotDead(t: Table, ended: set<int>, i: nat)
    requires i < |t.peers| && !IsDead(t.peers[i], t.rset, ended)
    ensures i !in DeadIn(t, ended)
  {
    DeadIff(t.peers, t.rset, ended, |t.peers|, i);
  }

  lemma OthersStay(t: Table, m: nat, i: nat)
    requires m < |t.peers| && i < |t.peers| && i != m
    ensures t.peers[i] in RemoveAt(t, m).peers
  {
    var s := Without(t.peers, m);
    assert forall k :: 0 <= k < |s| ==> s[k] == t.peers[if k < m then k else k + 1];
    assert s[if i < m then i else i - 1] == t.peers[i];
  }

  /** Registering, upgrading or removing a peer leaves every other peer's entry in the
      table and its descriptors in the sets as they were. */
  lemma OthersUndisturbed(w: World, s: Step, i: nat)
    requires Inv(w) && Enabled(w, s) && i < |w.t.peers| && !Concerns(w, s, i)
    ensures w.t.peers[i] in Apply(w, s).t.peers && SameInSets(w.t.peers[i], w.t, Apply(w, s).t)
  {
    match s
    case Accept(_, _, _, _, _, _) => AcceptSpares(w, s, i);
    case Connect(host, port, _, _) =>
      LookupIsTransparent(w.t, host, port);
      assert Apply(w, s).t.peers[i] == w.t.peers[i];
    case Lookup(host, port) => LookupIsTransparent(w.t, host, port);
    case Read(ended) => ReadSpares(w, ended, i);
  }
}
