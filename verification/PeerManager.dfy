/** core/peermanager.c over its array: a table that doubles when full, deletion by
    value that shifts the tail down, the sweep cursor, and the descriptor sets with
    their cached maxima.  The accept, connect and disconnect code of core/core.c that
    works on this table is here too. */
module PeerManager {
  import opened Collections
  import opened PeerTable
  import opened Connections
  import opened PtrList

  class PeerManager {
    var store: array?<Peer>
    var size: nat
    var count: nat
    var cursor: nat
    var depth: nat
    var nextHandle: nat
    var rset: set<int>
    var wset: set<int>
    var rmax: int
    var wmax: int

    ghost predicate Valid()
      reads this, store
    {
      && (if store == null then count == 0 else store.Length == size)
      && count <= size && size > 0
    }

    ghost function View(): Table
      reads this, store
    {
      Table(if store == null || count > store.Length then [] else store[..count],
            cursor, depth, nextHandle, rset, wset, rmax, wmax)
    }

    constructor ()
      ensures Valid() && store == null && size == 5
      ensures View() == Table([], 0, 0, 1, {}, {}, -1, -1)
    {
      store, size, count, cursor, depth, nextHandle := null, 5, 0, 0, 0, 1;
      rset, wset, rmax, wmax := {}, {}, -1, -1;
    }

    /** Doubling with realloc. */
    method Grow()
      requires Valid() && store != null && count == size
      modifies this`store, this`size
      ensures Valid() && fresh(store) && View() == old(View()) && size == 2 * old(size)
    {
      ghost var was := View().peers;
      size := size * 2;
      var bigger := new Peer[size](_ => InitPeer(0));
      for i := 0 to count
        invariant bigger.Length == size && fresh(bigger) && store == old(store)
        invariant forall k :: 0 <= k < i ==> bigger[k] == was[k]
      {
        bigger[i] := store[i];
      }
      store := bigger;
      assert store[..count] == was;
    }

    method PeerNew() returns (ret: nat)
      requires Valid()
      modifies this
      modifies if store == null then {} else {store}
      ensures Valid() && store != null && (fresh(store) || store == old(store))
      ensures View() == NewPeer(old(View()))
      ensures ret == old(count) && count == old(count) + 1
      ensures size == if old(count) < old(size) then old(size) else 2 * old(size)
    {
      ghost var was := View();
      if store == null {
        store := new Peer[size](_ => InitPeer(0));
      }
      if count >= size {
        Grow();
      }
      ret := count;
      assert store[..count] == was.peers;
      store[ret] := InitPeer(nextHandle);
      nextHandle := nextHandle + 1;
      count := count + 1;
      assert store[..count] == was.peers + [InitPeer(was.nextHandle)];
    }

    /** A new entry with its endpoint written. */
    method NewEntry(addr: string, port: nat) returns (n: nat)
      requires Valid()
      modifies this
      modifies if store == null then {} else {store}
      ensures Valid() && store != null && (fresh(store) || store == old(store))
      ensures n == old(count) && count == n + 1 && n == |old(View().peers)|
      ensures View() == SetPeer(NewPeer(old(View())), n, Scratch(old(View()), addr, port))
      ensures View().peers == old(View().peers) + [Scratch(old(View()), addr, port)]
      ensures store[n] == Scratch(old(View()), addr, port)
    {
      n := PeerNew();
      Assign(n, store[n].(addr := AddrField(addr), port := port));
    }

    /** Writing the fields of an entry through its pointer. */
    method Assign(i: nat, p: Peer)
      requires Valid() && i < count
      modifies store
      ensures Valid() && View() == SetPeer(old(View()), i, p)
    {
      store[i] := p;
      assert store[..count] == old(store[..count])[i := p];
    }

    method PeerExists(p: nat) returns (ret: int)
      requires Valid() && p < count
      ensures ret == FirstOther(View().peers, View().peers[p], p, 0)
    {
      var i := 0;
      while i < count
        invariant 0 <= i <= count
        invariant FirstOther(View().peers, View().peers[p], p, 0) == FirstOther(View().peers, View().peers[p], p, i)
      {
        if store[i].addr == store[p].addr && store[i].port == store[p].port && i != p {
          return i;
        }
        i := i + 1;
      }
      return -1;
    }

    /** `p` is the struct that the caller's pointer designates. */
    method PeerRemove(p: Peer) returns (ret: int)
      requires Valid()
      modifies this
      modifies if store == null then {} else {store}
      ensures Valid() && store == old(store) && size == old(size)
      ensures View() == RemovePeer(old(View()), p)
      ensures ret == if p in old(View().peers) then 0 else -1
    {
      ghost var was := View();
      if store == null { return -1; }
      var i := 0;
      while i < count
        invariant 0 <= i <= count && Valid() && unchanged(this) && unchanged(store)
        invariant FirstEqual(was.peers, p, 0) == FirstEqual(was.peers, p, i)
      {
        if store[i] == p {
          DeleteEntry(i);
          return 0;
        }
        i := i + 1;
      }
      return -1;
    }

    /** The tail moves down over entry `i`.  The source moves `count - i + 1` structs, two
        more than follow entry `i`; the model moves those of them that lie inside the
        allocation. */
    method ShiftTail(i: nat)
      requires Valid() && store != null && i < count
      modifies store
      ensures store[..count - 1] == Without(old(store[..count]), i)
    {
      ghost var was := store[..count];
      if i + 1 < count {
        var n := if count + 2 <= size then count - i + 1 else size - i - 1;
        MoveDown(store, i, n);
      }
      assert forall k :: 0 <= k < count - 1 ==> store[k] == was[if k < i then k else k + 1];
    }

    /** The deletion itself. */
    method DeleteEntry(i: nat)
      requires Valid() && store != null && i < count
      modifies this`cursor, this`count, store
      ensures Valid() && View() == RemoveAt(old(View()), i)
    {
      ghost var was := View();
      store[i] := FreeKey(store[i]);
      ghost var mid := store[..count];
      ShiftTail(i);
      assert Without(mid, i) == Without(was.peers, i);
      if cursor == count { cursor := cursor - 1; }
      count := count - 1;
    }

    method PeerExistsSimple(addr: string, port: nat) returns (ret: int)
      requires Valid()
      modifies this
      modifies if store == null then {} else {store}
      ensures Valid() && (port != 0 ==> store != null) && (store != null && store != old(store) ==> fresh(store))
      ensures View() == LookupTable(old(View()), addr, port)
      ensures ret == LookupResult(old(View()), addr, port)
    {
      if port == 0 { return -1; }
      var sp := NewEntry(addr, port);
      ret := PeerExists(sp);
      var r := PeerRemove(store[sp]);
    }

    method PeerNext() returns (ret: int)
      requires Valid()
      modifies this`cursor, this`depth
      ensures Valid() && View() == NextTable(old(View()))
      ensures ret == NextResult(old(View()))
    {
      if depth > 0 { depth := depth - 1; }
      depth := depth + 1;
      if cursor < count {
        ret := cursor;
        cursor := cursor + 1;
      } else {
        cursor := 0;
        depth := depth - 1;
        ret := -1;
      }
    }

    method PeerAddToSet(p: Peer) returns (ret: int)
      requires Valid() && p.isock != p.osock
      modifies this`rset, this`wset, this`rmax, this`wmax
      ensures Valid() && View() == AddToSets(old(View()), p)
      ensures ret == if p.osock < 0 && p.isock < 0 then -1 else 0
    {
      if p.osock >= 0 {
        wset := wset + {p.osock};
        if p.osock > wmax { wmax := p.osock; }
      } else if p.isock >= 0 {
        wset := wset + {p.isock};
        if p.isock > wmax { wmax := p.isock; }
      } else {
        return -1;
      }
      if p.isock >= 0 {
        rset := rset + {p.isock};
        if p.isock > rmax { rmax := p.isock; }
      } else {
        rset := rset + {p.osock};
        if p.osock > rmax { rmax := p.osock; }
      }
      return 0;
    }

    method PeerUpdateSet(p: Peer) returns (ret: int)
      requires Valid() && p.isock != p.osock
      modifies this`rset, this`wset, this`rmax, this`wmax
      ensures Valid() && View() == UpdateSets(old(View()), p)
    {
      wset := wset - {p.osock};
      rset := rset - {p.osock};
      ret := PeerAddToSet(p);
    }

    method PeerRemoveFromSet(p: Peer)
      requires Valid()
      modifies this`rset, this`wset
      ensures Valid() && View() == RemoveFromSets(old(View()), p)
    {
      wset := wset - {p.osock};
      wset := wset - {p.isock};
      rset := rset - {p.isock};
    }

    // ------------------------------------------------------- core/core.c

    /** `check_peer_key` followed by the caller's write of `m_key_ok`: a key that loads
        also records the incoming descriptor, any other frees the entry's key. */
    method CheckPeerKey(j: nat, newconn: int, keyLoads: bool) returns (ret: int)
      requires Valid() && j < count
      modifies this`nextHandle, store
      ensures Valid() && ret == if keyLoads then 0 else -1
      ensures View() == if keyLoads
                        then SetPeer(old(View()), j,
                                     LoadKey(old(View()), old(store[j])).(isock := newconn, keyOk := true))
                             .(nextHandle := old(nextHandle) + 1)
                        else SetPeer(old(View()), j, FreeKey(old(store[j])).(keyOk := false))
    {
      if keyLoads {
        var p := if store[j].keyOk then store[j] else store[j].(handle := nextHandle);
        nextHandle := nextHandle + 1;
        Assign(j, p.(isock := newconn, keyOk := true));
        ret := 0;
      } else {
        Assign(j, FreeKey(store[j]).(keyOk := false));
        ret := -1;
      }
    }

    /** The endpoint is known: a good key turns the entry's incoming side to `newconn`. */
    method AcceptAgain(pp: nat, newconn: int, keyLoads: bool)
      requires Valid() && store != null && pp < count && store[pp].osock != newconn
      modifies this`nextHandle, this`rset, this`wset, this`rmax, this`wmax, store
      ensures Valid() && View() == AcceptKnown(old(View()), pp, newconn, keyLoads)
    {
      var r := CheckPeerKey(pp, newconn, keyLoads);
      if r == 0 {
        var u := PeerUpdateSet(store[pp]);
      }
    }

    /** The endpoint is new: check the key, connect back and register. */
    method AcceptFirst(p: nat, newconn: int, keyLoads: bool, sock: int, connected: bool)
      requires Valid() && store != null && p < count && newconn >= 0 && sock >= 0 && newconn != sock
      modifies this`nextHandle, this`rset, this`wset, this`rmax, this`wmax, store
      ensures Valid() && View() == AcceptNew(old(View()), p, newconn, keyLoads, sock, connected)
    {
      var r := CheckPeerKey(p, newconn, keyLoads);
      if r != 0 { return; }
      ghost var mid := View();
      var q := store[p].(osock := sock);
      if !connected {
        q := q.(connectable := false, osock := SOCKET_ONEWAY);
      }
      Assign(p, q);
      assert View().peers == mid.peers[p := q];
      var a := PeerAddToSet(store[p]);
    }

    /** One accepted connection of `connection_thread`. */
    method Accept(host: string, config: HostConfig, newconn: int, keyLoads: bool, sock: int, connected: bool)
      requires Valid() && newconn >= 0 && sock >= 0 && newconn != sock
      requires forall i :: 0 <= i < |View().peers| ==> View().peers[i].osock != newconn
      requires WellFormed(View())
      modifies this
      modifies if store == null then {} else {store}
      ensures Valid()
      ensures View() == AcceptTable(old(View()), host, config, newconn, keyLoads, sock, connected)
    {
      if config.Unknown? || config.NoPort? { return; }
      ghost var was := View();
      var p := NewEntry(host, config.port);
      ghost var sp := Scratch(was, host, config.port);
      var pp := PeerExists(p);
      FirstOtherIsFirst(View().peers, sp, p, 0);
      if pp != -1 {
        ScratchIsRemoved(was, sp);
        var removed := PeerRemove(store[p]);
        assert View().peers == was.peers;
        AcceptAgain(pp, newconn, keyLoads);
      } else {
        AcceptFirst(p, newconn, keyLoads, sock, connected);
      }
    }

    method ConnectFirst(host: string, port: nat, sock: int, keyLoads: bool)
      requires Valid() && sock >= 0
      modifies this
      modifies if store == null then {} else {store}
      ensures Valid() && View() == ConnectNew(old(View()), host, port, sock, keyLoads)
    {
      ghost var was := View();
      var n := NewEntry(host, port);
      ghost var p := Scratch(was, host, port).(osock := sock, isock := SOCKET_ONEWAY);
      Assign(n, store[n].(osock := sock, isock := SOCKET_ONEWAY));
      assert View().peers == was.peers + [p];
      var a := PeerAddToSet(store[n]);
      assert View().peers == was.peers + [p];
      assert store[n] == View().peers[n] == p;
      ghost var mid := View();
      var r := CheckPeerKey(n, SOCKET_ONEWAY, keyLoads);
      assert mid.peers[n := View().peers[n]] == was.peers + [View().peers[n]];
    }

    /** One configured peer of `connect_to_peers`; port 0 is asserted against in the source. */
    method Connect(host: string, port: nat, sock: Option<int>, keyLoads: bool)
      requires Valid() && port != 0 && (sock.Some? ==> sock.value >= 0)
      modifies this
      modifies if store == null then {} else {store}
      ensures Valid()
      ensures View() == ConnectTable(old(View()), host, port, sock, keyLoads)
    {
      var known := PeerExistsSimple(host, port);
      if known == -1 && sock.Some? {
        ConnectFirst(host, port, sock.value, keyLoads);
      }
    }

    /** The sweep of `read_thread` stands at entry `p`, or has ended: the dead entries
        before it are listed and out of the sets. */
    ghost predicate Swept(list: PtrList<nat>, was: Table, ended: set<int>, p: int)
      reads this, store, list, list.head
    {
      && Valid() && list.Valid() && View().peers == was.peers && count == |was.peers|
      && (if p == -1 then cursor == 0 && depth == 0 else 0 <= p < count && cursor == p + 1 && depth == 1)
      && list.added == DeadUpTo(was.peers, was.rset, ended, if p == -1 then count else p)
      && View() == ClearDead(was, list.added).(cursor := cursor, depth := depth)
    }

    /** One turn of the sweep at entry `p`. */
    method SweepOne(list: PtrList<nat>, p: nat, ready: set<int>, ended: set<int>, ghost was: Table) returns (next: int)
      requires Swept(list, was, ended, p) && ready == was.rset && store != null
      modifies this`cursor, this`depth, this`rset, this`wset, list, list.head
      ensures Swept(list, was, ended, next) && (list.head == old(list.head) || fresh(list.head))
      ensures next == -1 || next == p + 1
    {
      CollectOne(list, p, ready, ended, was);
      next := PeerNext();
    }

    /** The sweep of `read_thread`: peers whose receive ends leave the sets and are listed. */
    method CollectDead(list: PtrList<nat>, ended: set<int>)
      requires Valid() && cursor == 0 && depth == 0 && list.Valid() && list.added == []
      modifies this`cursor, this`depth, this`rset, this`wset, list
      ensures Valid() && View() == ClearDead(old(View()), DeadIn(old(View()), ended))
      ensures list.Valid() && list.added == DeadIn(old(View()), ended)
    {
      ghost var was := View();
      var ready := rset;
      var p := PeerNext();
      while p != -1
        invariant Swept(list, was, ended, p) && (list.head != null ==> fresh(list.head))
        decreases if p == -1 then 0 else count + 1 - p
      {
        p := SweepOne(list, p, ready, ended, was);
      }
    }

    method CollectOne(list: PtrList<nat>, p: nat, ready: set<int>, ended: set<int>, ghost was: Table)
      requires Valid() && list.Valid() && store != null && p < count
      requires View().peers == was.peers
      requires list.added == DeadUpTo(was.peers, ready, ended, p)
      requires View() == ClearDead(was, list.added).(cursor := cursor, depth := depth)
      modifies this`rset, this`wset, list, list.head
      ensures Valid() && list.Valid() && View().peers == was.peers
      ensures list.head == old(list.head) || fresh(list.head)
      ensures list.added == DeadUpTo(was.peers, ready, ended, p + 1)
      ensures View() == ClearDead(was, list.added).(cursor := cursor, depth := depth)
    {
      var recvsock := if store[p].isock != SOCKET_ONEWAY then store[p].isock else store[p].osock;
      assert store[p] == View().peers[p];
      if recvsock in ready && recvsock in ended {
        PeerRemoveFromSet(store[p]);
        ghost var sofar := list.added;
        list.AddNode(p);
        assert list.added[..|list.added| - 1] == sofar;
      }
    }

    /** One pass of `read_thread` in which the receives on `ended` report the end of
        their connection. */
    method ReaderPass(ended: set<int>)
      requires Valid() && cursor == 0 && depth == 0
      modifies this
      modifies if store == null then {} else {store}
      ensures Valid() && View() == ReaderTable(old(View()), ended)
    {
      var list := new PtrList<nat>();
      CollectDead(list, ended);
      ghost var mid := View();
      var items := list.Items();
      if items != [] {
        assert store[items[0]] == mid.peers[items[0]];
        var r := PeerRemove(store[items[0]]);
        assert RemoveListed(View(), items[1..]) == View();
      }
      assert View() == RemoveListed(mid, items);
    }
  }

  /** `memmove` by one entry: entries i+1 .. i+n go to i .. i+n-1. */
  method MoveDown<T>(a: array<T>, i: nat, n: nat)
    requires i + 1 + n <= a.Length
    modifies a
    ensures forall k :: 0 <= k < a.Length ==> a[k] == if i <= k < i + n then old(a[k + 1]) else old(a[k])
  {
    for m := 0 to n
      invariant forall k :: 0 <= k < a.Length ==> a[k] == if i <= k < i + m then old(a[k + 1]) else old(a[k])
    {
      a[i + m] := a[i + m + 1];
    }
  }
}
