/** What the accept, connect and read threads of core/core.c do to the peer table. */
module Connections {
  import opened Collections
  import opened PeerTable
  import opened PtrList

  /** What the configuration says about the host of an incoming connection:
      no section, a section without a port, or a port. */
  datatype HostConfig = Unknown | NoPort | Port(port: nat)

  /** `pubkey_load` makes a new handle only for an entry that holds no key yet. */
  function LoadKey(t: Table, p: Peer): Peer {
    if p.keyOk then p else p.(handle := t.nextHandle)
  }

  /** An incoming connection whose endpoint is already in the table at `j`. */
  function AcceptKnown(t: Table, j: nat, newconn: int, keyLoads: bool): Table
    requires j < |t.peers|
  {
    if keyLoads then
      var p := LoadKey(t, t.peers[j]).(isock := newconn, keyOk := true);
      UpdateSets(SetPeer(t, j, p).(nextHandle := t.nextHandle + 1), p)
    else
      SetPeer(t, j, FreeKey(t.peers[j]).(keyOk := false))
  }

  /** An incoming connection from a new endpoint, which is the last entry `n`.
      `sock` is the descriptor for connecting back, `connected` whether that worked. */
  function AcceptNew(t: Table, n: nat, newconn: int, keyLoads: bool, sock: int, connected: bool): Table
    requires n < |t.peers|
  {
    if !keyLoads then
      SetPeer(t, n, FreeKey(t.peers[n]).(keyOk := false))
    else
      var p := LoadKey(t, t.peers[n]).(isock := newconn, keyOk := true);
      var q := if connected then p.(osock := sock) else p.(osock := SOCKET_ONEWAY, connectable := false);
      AddToSets(SetPeer(t, n, q).(nextHandle := t.nextHandle + 1), q)
  }

  function AcceptTable(t: Table, host: string, config: HostConfig, newconn: int, keyLoads: bool,
                       sock: int, connected: bool): Table {
    match config
    case Unknown => t
    case NoPort => t
    case Port(port) =>
      var n := |t.peers|;
      var sp := Scratch(t, host, port);
      var t1 := SetPeer(NewPeer(t), n, sp);
      var j := FirstOther(t1.peers, sp, n, 0);
      if j == -1 then AcceptNew(t1, n, newconn, keyLoads, sock, connected)
      else
        var t2 := RemovePeer(t1, sp);
        if 0 <= j < |t2.peers| then AcceptKnown(t2, j, newconn, keyLoads) else t2
  }

  /** A connection made to an endpoint that is not in the table. */
  function ConnectNew(t: Table, host: string, port: nat, sock: int, keyLoads: bool): Table {
    var n := |t.peers|;
    var p := Scratch(t, host, port).(osock := sock, isock := SOCKET_ONEWAY);
    var t1 := AddToSets(SetPeer(NewPeer(t), n, p), p);
    if keyLoads then
      t1.(peers := t.peers + [p.(handle := t1.nextHandle, keyOk := true)], nextHandle := t1.nextHandle + 1)
    else
      t1.(peers := t.peers + [FreeKey(p)])
  }

  /** One configured peer of the connect loop; `sock` is None when no connection could be made. */
  function ConnectTable(t: Table, host: string, port: nat, sock: Option<int>, keyLoads: bool): Table {
    var t1 := LookupTable(t, host, port);
    if LookupResult(t, host, port) != -1 || sock == None then t1
    else ConnectNew(t1, host, port, sock.value, keyLoads)
  }

  // ------------------------------------------------------- the read thread

  /** The descriptor the reader polls for a peer, and the one the sender writes to. */
  function PollFd(p: Peer): int {
    if p.isock != SOCKET_ONEWAY then p.isock else p.osock
  }

  function SendFd(p: Peer): int {
    if p.osock == SOCKET_ONEWAY then p.isock else p.osock
  }

  /** Entry with a receive that reports the end of its connection. */
  predicate IsDead(p: Peer, rset: set<int>, ended: set<int>) {
    PollFd(p) in rset && PollFd(p) in ended
  }

  /** The dead entries below `upTo`, in table order: what a sweep has collected by then. */
  function DeadUpTo(peers: seq<Peer>, rset: set<int>, ended: set<int>, upTo: nat): (r: seq<nat>)
    requires upTo <= |peers|
    ensures forall k :: 0 <= k < |r| ==> r[k] < upTo
  {
    if upTo == 0 then []
    else if IsDead(peers[upTo - 1], rset, ended) then DeadUpTo(peers, rset, ended, upTo - 1) + [upTo - 1]
    else DeadUpTo(peers, rset, ended, upTo - 1)
  }

  lemma {:induction false} DeadUpToIsExact(peers: seq<Peer>, rset: set<int>, ended: set<int>, upTo: nat)
    requires upTo <= |peers|
    ensures var r := DeadUpTo(peers, rset, ended, upTo);
            && (forall k :: 0 <= k < |r| ==> IsDead(peers[r[k]], rset, ended))
            && (forall i :: 0 <= i < upTo && IsDead(peers[i], rset, ended) ==> i in r)
            && (forall j, k :: 0 <= j < k < |r| ==> r[j] < r[k])
  {
    if upTo > 0 {
      DeadUpToIsExact(peers, rset, ended, upTo - 1);
    }
  }

  lemma {:induction false} DeadIff(peers: seq<Peer>, rset: set<int>, ended: set<int>, upTo: nat, i: nat)
    requires i < upTo <= |peers|
    ensures i in DeadUpTo(peers, rset, ended, upTo) <==> IsDead(peers[i], rset, ended)
    decreases upTo
  {
    if i < upTo - 1 {
      DeadIff(peers, rset, ended, upTo - 1, i);
    }
  }

  function DeadIn(t: Table, ended: set<int>): seq<nat> {
    DeadUpTo(t.peers, t.rset, ended, |t.peers|)
  }

  /** Each dead peer leaves the descriptor sets as soon as it is met. */
  function ClearDead(t: Table, dead: seq<nat>): (r: Table)
    requires forall k :: 0 <= k < |dead| ==> dead[k] < |t.peers|
    ensures r == t.(rset := r.rset, wset := r.wset)
    decreases |dead|
  {
    if dead == [] then t
    else
      var last := |dead| - 1;
      RemoveFromSets(ClearDead(t, dead[..last]), t.peers[dead[last]])
  }

  /** After the sweep, the structs that the listed pointers designate are removed. */
  function RemoveListed(t: Table, list: seq<nat>): Table
    decreases |list|
  {
    if list == [] then t
    else if list[0] < |t.peers| then RemoveListed(RemovePeer(t, t.peers[list[0]]), list[1..])
    else RemoveListed(t, list[1..])
  }

  /** One pass of the reader: a full sweep, then the removals its pointer list shows. */
  function ReaderTable(t: Table, ended: set<int>): Table {
    var dead := DeadIn(t, ended);
    RemoveListed(ClearDead(t, dead), Shown(dead))
  }
}
