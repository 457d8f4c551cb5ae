/** One sweep with `peer_next`, interleaved in any way with lookups and with new peers
    appended by the other threads. */
module SweepRuns {
  import opened PeerTable

  datatype Op =
    | Next
    | Lookup(addr: string, port: nat)
    | Append(p: Peer)

  /** `visited` are the peers returned so far; `done` once NULL was returned. */
  datatype Sweep = Sweep(t: Table, visited: seq<Peer>, done: bool)

  function AppendTable(t: Table, p: Peer): Table {
    SetPeer(NewPeer(t), |t.peers|, p.(handle := t.nextHandle))
  }

  function StepSweep(s: Sweep, op: Op): Sweep {
    match op
    case Next =>
      if NextResult(s.t) == -1 then s.(t := NextTable(s.t), done := true)
      else s.(t := NextTable(s.t), visited := s.visited + [s.t.peers[NextResult(s.t)]])
    case Lookup(addr, port) => s.(t := LookupTable(s.t, addr, port))
    case Append(p) => s.(t := AppendTable(s.t, p))
  }

  /** The run up to the NULL that ends the sweep. */
  function RunSweep(s: Sweep, ops: seq<Op>): Sweep
    decreases |ops|
  {
    if s.done || ops == [] then s else RunSweep(StepSweep(s, ops[0]), ops[1..])
  }

  /** Between two results the sweep has visited the peers below the cursor and holds the
      lock once; at its end it has visited every peer, the cursor is back at the start
      and the lock is free. */
  ghost predicate SweepInv(s: Sweep) {
    && WellFormed(s.t)
    && if s.done then s.visited == s.t.peers && s.t.cursor == 0 && s.t.depth == 0
       else s.visited == s.t.peers[..s.t.cursor] && s.t.depth == (if s.visited == [] then 0 else 1)
  }

  lemma StepKeepsSweepInv(s: Sweep, op: Op)
    requires SweepInv(s) && !s.done
    ensures SweepInv(StepSweep(s, op))
  {
    match op
    case Next =>
    case Lookup(addr, port) => LookupIsTransparent(s.t, addr, port);
    case Append(p) =>
      assert AppendTable(s.t, p).peers == s.t.peers + [p.(handle := s.t.nextHandle)];
  }

  /** In every interleaving the sweep returns every peer of the table exactly once, in table order. */
  lemma {:induction false} SweepVisitsEachOnce(s: Sweep, ops: seq<Op>)
    requires SweepInv(s)
    ensures SweepInv(RunSweep(s, ops))
    decreases |ops|
  {
    if !s.done && ops != [] {
      StepKeepsSweepInv(s, ops[0]);
      SweepVisitsEachOnce(StepSweep(s, ops[0]), ops[1..]);
    }
  }

  function Nexts(ops: seq<Op>): nat {
    if ops == [] then 0 else (if ops[0].Next? then 1 else 0) + Nexts(ops[1..])
  }

  /** Once nothing is appended any more, count - cursor + 1 further calls end the sweep,
      and no fewer do. */
  lemma {:induction false} SweepEnds(s: Sweep, ops: seq<Op>)
    requires SweepInv(s) && !s.done
    requires forall k :: 0 <= k < |ops| ==> !ops[k].Append?
    ensures RunSweep(s, ops).done <==> Nexts(ops) > |s.t.peers| - s.t.cursor
    decreases |ops|
  {
    if ops != [] {
      StepKeepsSweepInv(s, ops[0]);
      if ops[0].Lookup? {
        LookupIsTransparent(s.t, ops[0].addr, ops[0].port);
      }
      if !StepSweep(s, ops[0]).done {
        SweepEnds(StepSweep(s, ops[0]), ops[1..]);
      }
    }
  }
}
