/** What one step of the threads in core/core.c leaves behind, field by field: which entry
    is there afterwards, with which descriptors and key state, and what becomes of the
    descriptor sets and their maxima. */
module ConnectionEffects {
  import opened Collections
  import opened PeerTable
  import opened Connections
  import opened ConnectionRuns
  import opened ConnectionStatus

  /** What the address field of an entry holds of a host's name. */
  function AddressOf(host: string): string { if |host| <= 16 then host else host[..16] }

  predicate At(p: Peer, host: string, port: nat) { p.addr == AddressOf(host) && p.port == port }

  /** Entry `j` is the first for this host and port. */
  ghost predicate FirstAt(peers: seq<Peer>, host: string, port: nat, j: nat) {
    j < |peers| && At(peers[j], host, port) && forall i :: 0 <= i < j ==> !At(peers[i], host, port)
  }

  ghost predicate NoneAt(peers: seq<Peer>, host: string, port: nat) {
    forall i :: 0 <= i < |peers| ==> !At(peers[i], host, port)
  }

  predicate SameSets(t: Table, t': Table) {
    t'.rset == t.rset && t'.wset == t.wset && t'.rmax == t.rmax && t'.wmax == t.wmax
  }

  function Greater(a: int, b: int): int { if a > b then a else b }

  /** All entries but `j` are as they were. */
  ghost predicate OthersSame(peers: seq<Peer>, peers': seq<Peer>, j: nat) {
    |peers'| == |peers| && forall i :: 0 <= i < |peers| && i != j ==> peers'[i] == peers[i]
  }

  /** The connection of `s` comes from an endpoint in the table, or from a new one. */
  lemma AcceptFinds(t: Table, s: Step) returns (j: int)
    requires WellFormed(t) && s.Accept?
    ensures if j == -1 then NoneAt(t.peers, s.host, s.port) else 0 <= j && FirstAt(t.peers, s.host, s.port, j)
    ensures var t1 := t.(nextHandle := t.nextHandle + 1);
            AcceptTable(t, s.host, Port(s.port), s.newconn, s.keyLoads, s.sock, s.connected)
            == if j == -1 then
                 AcceptNew(t1.(peers := t.peers + [Scratch(t, s.host, s.port)]), |t.peers|,
                           s.newconn, s.keyLoads, s.sock, s.connected)
               else AcceptKnown(t1, j, s.newconn, s.keyLoads)
  {
    j := AcceptCases(t, s.host, s.port, s.newconn, s.keyLoads, s.sock, s.connected);
  }

  /** A connection with a bad key touches no descriptor and no set.  A known entry loses its
      key and nothing else; a new endpoint leaves an entry behind without descriptors. */
  lemma BadKeyEffect(w: World, s: Step)
    requires WellFormed(w.t) && s.Accept? && !s.keyLoads
    ensures var t' := Apply(w, s).t;
            SameSets(w.t, t') && t'.cursor == w.t.cursor && t'.depth == w.t.depth
    ensures var p, p' := w.t.peers, Apply(w, s).t.peers;
            forall j: nat :: FirstAt(p, s.host, s.port, j) ==>
              OthersSame(p, p', j) && p'[j] == p[j].(handle := 0, keyOk := false)
    ensures var p, p' := w.t.peers, Apply(w, s).t.peers;
            NoneAt(p, s.host, s.port) ==>
              p' == p + [Peer(0, AddressOf(s.host), s.port, true, false, -1, -1)]
  {
    var j := AcceptFinds(w.t, s);
  }

  /** A connection with a good key becomes the incoming one of the entry of its endpoint.
      The outgoing descriptor leaves the read set; the write set keeps it, or gets the new
      one when there is none. */
  lemma GoodKeyKnownEffect(w: World, s: Step, j: nat)
    requires WellFormed(w.t) && s.Accept? && s.keyLoads && s.newconn > 0 && FirstAt(w.t.peers, s.host, s.port, j)
    ensures var t, t' := w.t, Apply(w, s).t;
            var p, p' := t.peers[j], t'.peers[j];
            && OthersSame(t.peers, t'.peers, j)
            && p' == p.(isock := s.newconn, keyOk := true, handle := p'.handle)
            && (p.keyOk ==> p'.handle == p.handle) && (!p.keyOk ==> p'.handle >= t.nextHandle)
            && t'.rset == t.rset - {p.osock} + {s.newconn} && t'.rmax == Greater(t.rmax, s.newconn)
            && var out := if p.osock >= 0 then p.osock else s.newconn;
               t'.wset == t.wset - {p.osock} + {out} && t'.wmax == Greater(t.wmax, out)
  {
    var k := AcceptFinds(w.t, s);
    assert k == j;
  }

  /** A new endpoint with a good key gets an entry at the end of the table: the connection
      back to it is its outgoing descriptor, or the mark for none. */
  lemma GoodKeyNewEffect(w: World, s: Step)
    requires WellFormed(w.t) && Enabled(w, s) && s.Accept? && s.keyLoads && NoneAt(w.t.peers, s.host, s.port)
    ensures var t, t' := w.t, Apply(w, s).t;
            && |t'.peers| == |t.peers| + 1 && t'.peers[..|t.peers|] == t.peers
            && var p := t'.peers[|t.peers|];
            && p == Peer(p.handle, AddressOf(s.host), s.port, s.connected, true,
                         s.newconn, if s.connected then s.sock else -2)
            && p.handle >= t.nextHandle
            && t'.rset == t.rset + {s.newconn} && t'.rmax == Greater(t.rmax, s.newconn)
            && var out := if s.connected then s.sock else s.newconn;
               t'.wset == t.wset + {out} && t'.wmax == Greater(t.wmax, out)
  {
    var k := AcceptFinds(w.t, s);
    assert k == -1;
  }

  /** The connect loop: a connection made to an unknown endpoint is registered in both sets
      as the outgoing one of a new entry, whose key is valid exactly when it loads. */
  lemma ConnectEffect(w: World, s: Step)
    requires WellFormed(w.t) && Enabled(w, s) && s.Connect?
    ensures var t, t' := w.t, Apply(w, s).t;
            if s.made.Some? && NoneAt(t.peers, s.host, s.port) then
              && |t'.peers| == |t.peers| + 1 && t'.peers[..|t.peers|] == t.peers
              && (var p := t'.peers[|t.peers|];
                  p == Peer(p.handle, AddressOf(s.host), s.port, true, s.keyLoads, -2, s.made.value)
                  && (s.keyLoads ==> p.handle >= t.nextHandle) && (!s.keyLoads ==> p.handle == 0)
                  && StatusOf(p) == if s.keyLoads then Oneway else Invalid)
              && t'.rset == t.rset + {s.made.value} && t'.rmax == Greater(t.rmax, s.made.value)
              && t'.wset == t.wset + {s.made.value} && t'.wmax == Greater(t.wmax, s.made.value)
            else t'.peers == t.peers && SameSets(t, t')
  {
    LookupIsTransparent(w.t, s.host, s.port);
    LookupByAddress(w.t, s.host, s.port);
    var r := LookupResult(w.t, s.host, s.port);
    if r != -1 {
      assert At(w.t.peers[r], s.host, s.port);
    } else {
      assert NoneAt(w.t.peers, s.host, s.port);
    }
  }

  /** A connection from a host that is not configured, or without a port, changes nothing. */
  lemma UnknownHostIgnored(t: Table, host: string, newconn: int, keyLoads: bool, sock: int, connected: bool)
    ensures AcceptTable(t, host, Unknown, newconn, keyLoads, sock, connected) == t
    ensures AcceptTable(t, host, NoPort, newconn, keyLoads, sock, connected) == t
  {
  }

  /** The connection of this entry has ended: what the reader polls for it, its incoming
      descriptor unless it is marked one-way, is in the read set and has no more data. */
  predicate Ended(t: Table, ended: set<int>, i: nat)
    requires i < |t.peers|
  {
    var fd := if t.peers[i].isock == -2 then t.peers[i].osock else t.peers[i].isock;
    fd in t.rset && fd in ended
  }

  lemma {:induction false} ClearedSets(t: Table, dead: seq<nat>)
    requires forall k :: 0 <= k < |dead| ==> dead[k] < |t.peers|
    ensures var r := ClearDead(t, dead);
            && r.rset == t.rset - (set k | 0 <= k < |dead| :: t.peers[dead[k]].isock)
            && r.wset == t.wset - (set k | 0 <= k < |dead| :: t.peers[dead[k]].isock)
                                - (set k | 0 <= k < |dead| :: t.peers[dead[k]].osock)
    decreases |dead|
  {
    if dead != [] {
      var last := |dead| - 1;
      var front := dead[..last];
      ClearedSets(t, front);
      assert forall k :: 0 <= k < last ==> front[k] == dead[k];
    }
  }

  /** A read pass: the descriptors of every ended connection leave the write set, their
      incoming ones the read set, and the maxima stay. */
  lemma ReadSetsEffect(w: World, s: Step)
    requires Inv(w) && s.Read?
    ensures var t, t' := w.t, Apply(w, s).t;
            && t'.rset == t.rset - (set i | 0 <= i < |t.peers| && Ended(t, s.ended, i) :: t.peers[i].isock)
            && t'.wset == t.wset - (set i | 0 <= i < |t.peers| && Ended(t, s.ended, i) :: t.peers[i].isock)
                                 - (set i | 0 <= i < |t.peers| && Ended(t, s.ended, i) :: t.peers[i].osock)
            && t'.rmax == t.rmax && t'.wmax == t.wmax
  {
    var t, dead := w.t, DeadIn(w.t, s.ended);
    ReaderRemoves(t, s.ended);
    ClearedSets(t, dead);
    forall i | 0 <= i < |t.peers|
      ensures i in dead <==> Ended(t, s.ended, i)
    {
      DeadIffEnded(t, s.ended, i);
    }
    SameImage(t, dead, s.ended);
  }

  /** Of the entries only the last ended one goes. */
  lemma ReadPeersEffect(w: World, s: Step)
    requires Inv(w) && s.Read?
    ensures var t, t' := w.t, Apply(w, s).t;
            && ((forall i :: 0 <= i < |t.peers| ==> !Ended(t, s.ended, i)) ==> t'.peers == t.peers)
            && forall m: nat :: m < |t.peers| && Ended(t, s.ended, m)
                                && (forall i :: m < i < |t.peers| ==> !Ended(t, s.ended, i)) ==>
                 t'.peers == t.peers[..m] + t.peers[m + 1..]
  {
    var t, dead := w.t, DeadIn(w.t, s.ended);
    ReaderRemoves(t, s.ended);
    if dead == [] {
      forall i | 0 <= i < |t.peers|
        ensures !Ended(t, s.ended, i)
      {
        DeadIffEnded(t, s.ended, i);
      }
    } else {
      var last := dead[|dead| - 1];
      assert last in dead;
      DeadIffEnded(t, s.ended, last);
      forall m: nat | m < |t.peers| && Ended(t, s.ended, m) && (forall i :: m < i < |t.peers| ==> !Ended(t, s.ended, i))
        ensures m == last
      {
        LastDead(t, s.ended, m);
      }
    }
  }

  lemma LastDead(t: Table, ended: set<int>, m: nat)
    requires m < |t.peers| && Ended(t, ended, m) && forall i :: m < i < |t.peers| ==> !Ended(t, ended, i)
    ensures var dead := DeadIn(t, ended); dead != [] && dead[|dead| - 1] == m
  {
    var dead := DeadIn(t, ended);
    DeadIffEnded(t, ended, m);
    var last := dead[|dead| - 1];
    assert last in dead;
    DeadIffEnded(t, ended, last);
    DeadUpToIsExact(t.peers, t.rset, ended, |t.peers|);
  }

  lemma DeadIffEnded(t: Table, ended: set<int>, i: nat)
    requires i < |t.peers|
    ensures IsDead(t.peers[i], t.rset, ended) <==> Ended(t, ended, i)
    ensures i in DeadIn(t, ended) <==> Ended(t, ended, i)
  {
    DeadUpToIsExact(t.peers, t.rset, ended, |t.peers|);
  }

  lemma SameImage(t: Table, dead: seq<nat>, ended: set<int>)
    requires forall k :: 0 <= k < |dead| ==> dead[k] < |t.peers|
    requires forall i :: 0 <= i < |t.peers| ==> (i in dead <==> Ended(t, ended, i))
    ensures (set k | 0 <= k < |dead| :: t.peers[dead[k]].isock)
            == set i | 0 <= i < |t.peers| && Ended(t, ended, i) :: t.peers[i].isock
    ensures (set k | 0 <= k < |dead| :: t.peers[dead[k]].osock)
            == set i | 0 <= i < |t.peers| && Ended(t, ended, i) :: t.peers[i].osock
  {
    forall k | 0 <= k < |dead|
      ensures Ended(t, ended, dead[k])
    {
      assert dead[k] in dead;
    }
    forall i | 0 <= i < |t.peers| && Ended(t, ended, i)
      ensures exists k :: 0 <= k < |dead| && dead[k] == i
    {
      assert i in dead;
    }
  }
}
