/** The peer table of core/peermanager.c as a value: what each operation does to
    the ordered peers, the sweep cursor, the lock depth of the sweeping thread and
    the two descriptor sets.  PeerManager.dfy proves the in-place array against it. */
module PeerTable {
  import opened Collections

  const SOCKET_NONE: int := -1
  const SOCKET_ONEWAY: int := -2
  const IPV4_MAX: nat := 16

  /** `struct peer`.  `handle` is the stream handle that `key_init` allocates for the
      peer's key (crypto/key.c:6): a live handle belongs to one peer only, and freeing
      the peer's key leaves 0 behind.  It is what makes the whole-struct comparison of
      `peer_remove` select one entry. */
  datatype Peer = Peer(
    handle: nat,
    addr: string,
    port: nat,
    connectable: bool,
    keyOk: bool,
    isock: int,
    osock: int)

  datatype Table = Table(
    peers: seq<Peer>,
    cursor: nat,
    depth: nat,
    nextHandle: nat,
    rset: set<int>,
    wset: set<int>,
    rmax: int,
    wmax: int)

  /** `peer_init` on a table slot. */
  function InitPeer(handle: nat): Peer {
    Peer(handle, "", 0, true, false, SOCKET_NONE, SOCKET_NONE)
  }

  /** `strncpy` into a field of IPV4_MAX bytes. */
  function AddrField(addr: string): string {
    if |addr| <= IPV4_MAX then addr else addr[..IPV4_MAX]
  }

  /** `peer_free` releases the key and with it the handle. */
  function FreeKey(p: Peer): Peer {
    p.(handle := 0)
  }

  predicate SameEndpoint(p: Peer, q: Peer) {
    p.addr == q.addr && p.port == q.port
  }

  /** Handles in use are below `nextHandle` and a non-zero handle is in use once. */
  ghost predicate HandlesUnique(t: Table) {
    && t.nextHandle > 0
    && (forall i :: 0 <= i < |t.peers| ==> t.peers[i].handle < t.nextHandle)
    && (forall i, j :: 0 <= i < j < |t.peers| && t.peers[i].handle != 0 ==> t.peers[i].handle != t.peers[j].handle)
  }

  ghost predicate WellFormed(t: Table) {
    HandlesUnique(t) && t.cursor <= |t.peers|
  }

  // ---------------------------------------------------------------- peer_new

  function NewPeer(t: Table): (r: Table) {
    t.(peers := t.peers + [InitPeer(t.nextHandle)], nextHandle := t.nextHandle + 1)
  }

  /** A new entry comes last, with a key handle of its own and nothing else set. */
  lemma NewPeerEntry(t: Table)
    ensures NewPeer(t).peers == t.peers + [Peer(t.nextHandle, "", 0, true, false, -1, -1)]
    ensures var r := NewPeer(t);
            r.nextHandle > t.nextHandle && r == t.(peers := r.peers, nextHandle := r.nextHandle)
  {
  }

  /** The caller's writes through the pointer to entry `i`. */
  function SetPeer(t: Table, i: nat, p: Peer): Table
    requires i < |t.peers|
  {
    t.(peers := t.peers[i := p])
  }

  // ------------------------------------------------------------- peer_exists

  /** First entry at or after `from`, other than `self`, with the endpoint of `p`; -1 for NULL. */
  function FirstOther(peers: seq<Peer>, p: Peer, self: nat, from: nat): (r: int)
    requires from <= |peers|
    ensures r == -1 || from <= r < |peers|
    decreases |peers| - from
  {
    if from == |peers| then -1
    else if SameEndpoint(peers[from], p) && from != self then from
    else FirstOther(peers, p, self, from + 1)
  }

  lemma {:induction false} FirstOtherIsFirst(peers: seq<Peer>, p: Peer, self: nat, from: nat)
    requires from <= |peers|
    ensures var r := FirstOther(peers, p, self, from);
            if r == -1 then forall i :: from <= i < |peers| && i != self ==> !SameEndpoint(peers[i], p)
            else from <= r < |peers| && r != self && SameEndpoint(peers[r], p)
                 && forall i :: from <= i < r && i != self ==> !SameEndpoint(peers[i], p)
    decreases |peers| - from
  {
    if from < |peers| {
      FirstOtherIsFirst(peers, p, self, from + 1);
    }
  }

  /** First entry with this endpoint, stated without reference to any scan; -1 when there is none. */
  ghost predicate IsLookup(peers: seq<Peer>, addr: string, port: nat, r: int) {
    if r == -1 then forall i :: 0 <= i < |peers| ==> !(peers[i].addr == addr && peers[i].port == port)
    else 0 <= r < |peers| && peers[r].addr == addr && peers[r].port == port
         && forall i :: 0 <= i < r ==> !(peers[i].addr == addr && peers[i].port == port)
  }

  // ------------------------------------------------------------- peer_remove

  /** Index of the first entry equal to `p` at or after `from`, or -1. */
  function FirstEqual(peers: seq<Peer>, p: Peer, from: nat): (r: int)
    requires from <= |peers|
    ensures r == -1 ==> forall i :: from <= i < |peers| ==> peers[i] != p
    ensures r != -1 ==> from <= r < |peers| && peers[r] == p && forall i :: from <= i < r ==> peers[i] != p
    decreases |peers| - from
  {
    if from == |peers| then -1
    else if peers[from] == p then from
    else FirstEqual(peers, p, from + 1)
  }

  /** Deleting entry `i`: the cursor steps back only when it stood at the end. */
  function RemoveAt(t: Table, i: nat): Table
    requires i < |t.peers|
  {
    t.(peers := Without(t.peers, i),
       cursor := if t.cursor == |t.peers| then t.cursor - 1 else t.cursor)
  }

  function RemovePeer(t: Table, p: Peer): Table {
    var i := FirstEqual(t.peers, p, 0);
    if i == -1 then t else RemoveAt(t, i)
  }

  // ------------------------------------------------------ peer_exists_simple

  function Scratch(t: Table, addr: string, port: nat): Peer {
    InitPeer(t.nextHandle).(addr := AddrField(addr), port := port)
  }

  /** Insert a scratch entry, search for its twin, remove it again. */
  function LookupTable(t: Table, addr: string, port: nat): Table {
    if port == 0 then t
    else
      var t1 := NewPeer(t);
      var sp := Scratch(t, addr, port);
      RemovePeer(SetPeer(t1, |t.peers|, sp), sp)
  }

  function LookupResult(t: Table, addr: string, port: nat): int {
    if port == 0 then -1
    else
      var sp := Scratch(t, addr, port);
      FirstOther(t.peers + [sp], sp, |t.peers|, 0)
  }

  /** The scratch entry is found first by the removal because its handle is fresh. */
  lemma ScratchIsRemoved(t: Table, sp: Peer)
    requires WellFormed(t)
    requires sp.handle == t.nextHandle
    ensures RemovePeer(SetPeer(NewPeer(t), |t.peers|, sp), sp) == t.(nextHandle := t.nextHandle + 1)
  {
    var t2 := SetPeer(NewPeer(t), |t.peers|, sp);
    assert t2.peers == t.peers + [sp];
    assert t2.peers[|t.peers|] == sp;
    assert FirstEqual(t2.peers, sp, 0) == |t.peers|;
    assert Without(t2.peers, |t.peers|) == t.peers;
  }

  /** The lookup by address and port answers with the first such peer, or with none
      exactly when there is none, and leaves peers, order, cursor and sets as they
      were, wherever a sweep stands. */
  lemma LookupIsTransparent(t: Table, addr: string, port: nat)
    requires WellFormed(t)
    ensures LookupTable(t, addr, port) == t.(nextHandle := LookupTable(t, addr, port).nextHandle)
    ensures WellFormed(LookupTable(t, addr, port))
    ensures port != 0 ==> IsLookup(t.peers, AddrField(addr), port, LookupResult(t, addr, port))
    ensures port == 0 ==> LookupResult(t, addr, port) == -1
  {
    if port != 0 {
      var sp := Scratch(t, addr, port);
      ScratchIsRemoved(t, sp);
      var s := t.peers + [sp];
      FirstOtherIsFirst(s, sp, |t.peers|, 0);
      assert forall i :: 0 <= i < |t.peers| ==> s[i] == t.peers[i];
    }
  }

  /** Stated with the address itself: an address of at most 16 characters is looked up in
      full, of a longer one the first 16 count. */
  lemma LookupByAddress(t: Table, addr: string, port: nat)
    requires WellFormed(t) && port != 0
    ensures var key, r := if |addr| <= 16 then addr else addr[..16], LookupResult(t, addr, port);
            if r == -1 then forall i :: 0 <= i < |t.peers| ==> t.peers[i].addr != key || t.peers[i].port != port
            else 0 <= r < |t.peers| && t.peers[r].addr == key && t.peers[r].port == port
                 && forall i :: 0 <= i < r ==> t.peers[i].addr != key || t.peers[i].port != port
  {
    LookupIsTransparent(t, addr, port);
  }

  // --------------------------------------------------------------- peer_next

  /** `peer_next` first gives the lock up (a no-op at depth zero) and takes it again. */
  function NextTable(t: Table): Table {
    var d := if t.depth == 0 then 0 else t.depth - 1;
    if t.cursor < |t.peers| then t.(cursor := t.cursor + 1, depth := d + 1)
    else t.(cursor := 0, depth := d)
  }

  function NextResult(t: Table): int {
    if t.cursor < |t.peers| then t.cursor else -1
  }

  /** The lock is held once more while a peer is returned than after the end, whatever the
      thread held before the sweep: with no lock taken yet the release does nothing. */
  lemma NextLocks(t: Table)
    ensures t.cursor < |t.peers| ==> NextTable(t).depth == if t.depth == 0 then 1 else t.depth
    ensures t.cursor >= |t.peers| ==> NextTable(t).depth == if t.depth == 0 then 0 else t.depth - 1
  {
  }

  // --------------------------------------------------- descriptor sets

  function Max(a: int, b: int): int { if a > b then a else b }

  /** FD_CLR of a negative descriptor changes nothing, because no set holds one. */
  function AddToSets(t: Table, p: Peer): Table {
    var w := if p.osock >= 0 then p.osock else p.isock;
    var r := if p.isock >= 0 then p.isock else p.osock;
    if p.osock < 0 && p.isock < 0 then t
    else t.(wset := t.wset + {w}, wmax := Max(t.wmax, w), rset := t.rset + {r}, rmax := Max(t.rmax, r))
  }

  /** Registering, case by case: each set gets the descriptor of its own direction, or else
      the only one there is; a peer without descriptors changes nothing. */
  lemma Registers(t: Table, p: Peer)
    ensures var r := AddToSets(t, p);
            && (p.osock >= 0 ==> r.wset == t.wset + {p.osock}) && (p.isock >= 0 ==> r.rset == t.rset + {p.isock})
            && (p.osock < 0 <= p.isock ==> r.wset == t.wset + {p.isock})
            && (p.isock < 0 <= p.osock ==> r.rset == t.rset + {p.osock})
            && (p.isock < 0 && p.osock < 0 ==> r == t)
            && r.wmax >= t.wmax && r.rmax >= t.rmax && r.peers == t.peers
  {
  }

  function UpdateSets(t: Table, p: Peer): Table {
    AddToSets(t.(wset := t.wset - {p.osock}, rset := t.rset - {p.osock}), p)
  }

  function RemoveFromSets(t: Table, p: Peer): Table {
    t.(wset := t.wset - {p.osock, p.isock}, rset := t.rset - {p.isock})
  }

  // ------------------------------------- removal in the middle of a sweep

  /** The peers a running sweep has still to return. */
  function Ahead(t: Table): seq<Peer>
    requires t.cursor <= |t.peers|
  {
    t.peers[t.cursor..]
  }

  /** What a sweep should still return once entry `i` is gone. */
  function AheadWithout(t: Table, i: nat): seq<Peer>
    requires i < |t.peers| && t.cursor <= |t.peers|
  {
    if i < t.cursor then t.peers[t.cursor..] else t.peers[t.cursor..i] + t.peers[i + 1..]
  }

  /** `peer_remove` leaves a running sweep intact exactly when the removed entry has
      not been returned yet or the sweep has returned everything.  Otherwise the
      cursor stays where it is while the entries behind it move up, and one peer is
      never returned. */
  lemma RemovalDuringSweep(t: Table, i: nat)
    requires WellFormed(t) && i < |t.peers|
    ensures RemoveAt(t, i).cursor <= |RemoveAt(t, i).peers|
    ensures Ahead(RemoveAt(t, i)) == AheadWithout(t, i) <==> (t.cursor <= i || t.cursor == |t.peers|)
  {
    var t' := RemoveAt(t, i);
    if t.cursor <= i {
      assert Ahead(t') == AheadWithout(t, i);
    } else if t.cursor == |t.peers| {
      assert Ahead(t') == [] == AheadWithout(t, i);
    } else {
      assert |Ahead(t')| == |AheadWithout(t, i)| - 1;
    }
  }

  /** A concrete sweep that loses a peer: three peers, the first removed after it and
      the second were returned; the third is skipped. */
  lemma RemovalSkipsAPeer(a: Peer, b: Peer, c: Peer)
    ensures var t := Table([a, b, c], 2, 1, 1, {}, {}, -1, -1);
            NextResult(t) == 2 && NextResult(RemoveAt(t, 0)) == -1
  {
  }

  lemma RemovalWellFormed(t: Table, i: nat)
    requires WellFormed(t) && i < |t.peers|
    ensures WellFormed(RemoveAt(t, i))
  {
    var s := Without(t.peers, i);
    assert forall k :: 0 <= k < |s| ==> s[k] == if k < i then t.peers[k] else t.peers[k + 1];
  }

  /** Removal takes out the first entry equal to the given one, keeps the rest in order and
      the table well formed; no equal entry is left when its key handle is a real one. */
  lemma RemovalKeepsOrder(t: Table, p: Peer)
    requires WellFormed(t) && p in t.peers
    ensures WellFormed(RemovePeer(t, p))
    ensures exists i :: 0 <= i < |t.peers| && t.peers[i] == p && p !in t.peers[..i]
                        && RemovePeer(t, p).peers == t.peers[..i] + t.peers[i + 1..]
    ensures p.handle != 0 ==> p !in RemovePeer(t, p).peers
  {
    var i := FirstEqual(t.peers, p, 0);
    RemovalWellFormed(t, i);
    assert t.peers[i] == p && p !in t.peers[..i];
    if p.handle != 0 {
      var r := RemovePeer(t, p).peers;
      forall k | 0 <= k < |r|
        ensures r[k] != p
      {
        assert r[k] == if k < i then t.peers[k] else t.peers[k + 1];
      }
    }
  }
}
