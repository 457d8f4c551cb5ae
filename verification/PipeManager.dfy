/** core/pipemanager.c: the slot table of user-interface connections, the set that is
    polled, and its cached maximum. */
module PipeManager {

  const MAX_PIPE_LISTENERS: nat := 255

  /** `slot` is the next slot to use; a free entry is -1. */
  datatype Pipes = Pipes(fds: seq<int>, slot: nat, fdMax: int, polled: set<int>)

  const NO_PIPES := Pipes(seq(MAX_PIPE_LISTENERS, _ => -1), 0, 0, {})

  ghost function Live(fds: seq<int>): set<int> {
    set i | 0 <= i < |fds| && fds[i] != -1 :: fds[i]
  }

  /** The next slot and all later ones are free, and descriptors are positive and distinct. */
  ghost predicate Shaped(p: Pipes) {
    && |p.fds| == MAX_PIPE_LISTENERS && p.slot <= MAX_PIPE_LISTENERS && p.fdMax >= 0
    && (forall i :: 0 <= i < p.slot ==> p.fds[i] == -1 || p.fds[i] > 0)
    && (forall i :: p.slot <= i < MAX_PIPE_LISTENERS ==> p.fds[i] == -1)
    && (forall i, j :: 0 <= i < j < p.slot && p.fds[i] != -1 ==> p.fds[i] != p.fds[j])
  }

  /** The polled set is exactly the entries in use. */
  ghost predicate Exact(p: Pipes) { p.polled == Live(p.fds) }

  ghost predicate Bounded(p: Pipes) { forall fd :: fd in p.polled ==> fd <= p.fdMax }

  /** `pipe_add` puts the descriptor at `pipe_slot`, whichever free entry it met first. */
  function AddPipe(p: Pipes, fd: int): Pipes
    requires p.slot < |p.fds|
  {
    Pipes(p.fds[p.slot := fd], p.slot + 1, if fd > p.fdMax then fd else p.fdMax, p.polled + {fd})
  }

  /** The loop of `pipe_remove` looks for the second largest descriptor but keeps the index
      at which it saw one. */
  function SecondMax(fds: seq<int>, fdMax: int, i: nat): (r: int)
    requires i <= |fds|
    ensures 0 <= r && (r == 0 || r < i)
  {
    if i == 0 then 0
    else
      var before := SecondMax(fds, fdMax, i - 1);
      if fds[i - 1] > before && fds[i - 1] < fdMax then i - 1 else before
  }

  /** First entry holding `fd` at or after `from`, or the number of entries. */
  function IndexOf(fds: seq<int>, fd: int, from: nat): (i: nat)
    requires from <= |fds|
    ensures from <= i <= |fds| && (i < |fds| ==> fds[i] == fd) && forall k :: from <= k < i ==> fds[k] != fd
    decreases |fds| - from
  {
    if from == |fds| || fds[from] == fd then from else IndexOf(fds, fd, from + 1)
  }

  function RemovePipe(p: Pipes, fd: int): Pipes {
    var i := IndexOf(p.fds, fd, 0);
    if i == |p.fds| then p
    else Pipes(p.fds[i := -1], p.slot, if fd == p.fdMax then SecondMax(p.fds, p.fdMax, i) else p.fdMax, p.polled - {fd})
  }

  // ------------------------------------------------------------- the set

  lemma AddKeeps(p: Pipes, fd: int)
    requires Shaped(p) && Exact(p) && p.slot < MAX_PIPE_LISTENERS && fd > 0 && fd !in p.polled
    ensures Shaped(AddPipe(p, fd)) && Exact(AddPipe(p, fd))
    ensures Bounded(p) ==> Bounded(AddPipe(p, fd))
  {
    var q := AddPipe(p, fd);
    forall i | 0 <= i < p.slot && p.fds[i] != -1
      ensures p.fds[i] != fd
    {
      assert p.fds[i] in Live(p.fds);
    }
    assert Live(q.fds) == Live(p.fds) + {fd} by {
      assert q.fds[p.slot] == fd;
      assert forall i :: 0 <= i < |p.fds| && p.fds[i] != -1 ==> q.fds[i] == p.fds[i];
    }
  }

  lemma RemoveKeeps(p: Pipes, fd: int)
    requires Shaped(p) && Exact(p) && fd > 0
    ensures Shaped(RemovePipe(p, fd)) && Exact(RemovePipe(p, fd))
  {
    var i, q := IndexOf(p.fds, fd, 0), RemovePipe(p, fd);
    if i < |p.fds| {
      assert forall k :: 0 <= k < |p.fds| && k != i && p.fds[k] != -1 ==> p.fds[k] != fd && q.fds[k] == p.fds[k];
    }
  }

  // ------------------------------------------------------------- the maximum

  lemma {:induction false} SecondMaxIsIndex(fds: seq<int>, fdMax: int, i: nat)
    requires i <= |fds|
    ensures var r := SecondMax(fds, fdMax, i); r == 0 || (r < i && 0 < fds[r] < fdMax)
  {
    if i > 0 {
      SecondMaxIsIndex(fds, fdMax, i - 1);
    }
  }

  /** The removal takes away the maximum, and some descriptor left is larger than the slot
      number that becomes the maximum. */
  ghost predicate LowersTooFar(p: Pipes, fd: int) {
    fd in p.polled && fd == p.fdMax
    && exists other :: other in p.polled && other != fd && other > SecondMax(p.fds, p.fdMax, IndexOf(p.fds, fd, 0))
  }

  /** From any state whatever: the maximum still bounds the set after a removal unless it
      was lowered below a descriptor that is left. */
  lemma BoundKeptIff(p: Pipes, fd: int)
    requires Shaped(p) && Exact(p) && Bounded(p) && fd > 0
    ensures Bounded(RemovePipe(p, fd)) <==> !LowersTooFar(p, fd)
  {
    var i, q := IndexOf(p.fds, fd, 0), RemovePipe(p, fd);
    assert fd in p.polled <==> i < |p.fds|;
    if LowersTooFar(p, fd) {
      var other :| other in p.polled && other != fd && other > SecondMax(p.fds, p.fdMax, i);
      assert other in q.polled;
    }
  }

  /** Each descriptor is larger than the number of its own slot, as while the process hands
      out its descriptors in ascending order. */
  ghost predicate AboveSlots(p: Pipes) {
    forall i :: 0 <= i < |p.fds| && p.fds[i] != -1 ==> p.fds[i] > i
  }

  /** The slot number that is kept is the number of a slot in use, so its own descriptor is
      larger than the new maximum: then removing the maximum lowers it too far exactly when
      any other connection is left. */
  lemma LowersTooFarIff(p: Pipes, fd: int)
    requires Shaped(p) && Exact(p) && Bounded(p) && AboveSlots(p) && fd > 0
    ensures LowersTooFar(p, fd) <==> fd in p.polled && fd == p.fdMax && p.polled != {fd}
  {
    if fd in p.polled && fd == p.fdMax && p.polled != {fd} {
      var i := IndexOf(p.fds, fd, 0);
      var r := SecondMax(p.fds, p.fdMax, i);
      SecondMaxIsIndex(p.fds, p.fdMax, i);
      var other :| other in p.polled && other != fd;
      if r != 0 {
        assert p.fds[r] in p.polled && p.fds[r] != fd && p.fds[r] > r;
      } else {
        assert other > 0;
      }
    }
  }

  /** Two connections, the one with the larger descriptor goes: the maximum becomes a slot
      number, and the remaining connection is not polled any more. */
  lemma MaximumTooSmall()
    ensures var p := AddPipe(AddPipe(NO_PIPES, 5), 6);
            RemovePipe(p, 6).polled == {5} && RemovePipe(p, 6).fdMax == 0
  {
    var p := AddPipe(AddPipe(NO_PIPES, 5), 6);
    assert p.fds[0] == 5 && p.fds[1] == 6;
    assert IndexOf(p.fds, 6, 0) == IndexOf(p.fds, 6, 1) == 1;
    assert SecondMax(p.fds, 6, 1) == 0;
  }

  /** Descriptors that come back to later slots: when the second largest descriptor sits in
      an earlier slot numbered at least as high as itself, removing the maximum is harmless. */
  lemma HarmlessRemoval(p: Pipes, fd: int, k: nat)
    requires Shaped(p) && Exact(p) && Bounded(p) && fd in p.polled && fd == p.fdMax
    requires k < IndexOf(p.fds, fd, 0) && p.fds[k] != -1 && p.fds[k] <= k
    requires forall other :: other in p.polled && other != fd ==> other <= p.fds[k]
    ensures !LowersTooFar(p, fd)
  {
    forall j | 0 <= j < |p.fds| && p.fds[j] != -1
      ensures p.fds[j] in p.polled
    {
    }
    SecondMaxStays(p.fds, p.fdMax, k, p.fds[k], IndexOf(p.fds, fd, 0));
  }

  lemma {:induction false} SecondMaxStays(fds: seq<int>, fdMax: int, k: nat, second: int, i: nat)
    requires k < i <= |fds| && fds[k] == second && second < fdMax && second <= k
    requires forall j :: 0 <= j < i ==> fds[j] <= second || fds[j] >= fdMax
    ensures SecondMax(fds, fdMax, i) >= second
    decreases i
  {
    if k < i - 1 {
      SecondMaxStays(fds, fdMax, k, second, i - 1);
    }
  }

  // ------------------------------------------------------------- runs

  datatype Op = Add(fd: int) | Remove(fd: int)

  /** One operation, while the next slot lies inside the table. */
  function Apply(p: Pipes, op: Op): Pipes
    requires p.slot < |p.fds|
  {
    match op
    case Add(fd) => AddPipe(p, fd)
    case Remove(fd) => RemovePipe(p, fd)
  }

  /** Every operation of the run finds the next slot inside the table; otherwise its loop,
      which runs up to and including the next slot, reads behind the table. */
  predicate Inside(p: Pipes, ops: seq<Op>)
    decreases |ops|
  {
    ops == [] || (p.slot < |p.fds| && Inside(Apply(p, ops[0]), ops[1..]))
  }

  function Adds(ops: seq<Op>): nat {
    if ops == [] then 0 else (if ops[0].Add? then 1 else 0) + Adds(ops[1..])
  }

  lemma {:induction false} InsideFrom(p: Pipes, ops: seq<Op>)
    ensures Inside(p, ops) <==> ops == [] || p.slot + Adds(ops[..|ops| - 1]) < |p.fds|
    decreases |ops|
  {
    if |ops| > 1 {
      var rest := ops[1..];
      assert ops[..|ops| - 1][1..] == rest[..|rest| - 1];
      if p.slot < |p.fds| {
        InsideFrom(Apply(p, ops[0]), rest);
      }
    }
  }

  /** A run stays inside the table exactly when fewer than 255 connections are added before
      its last operation: entries given back are not used again. */
  lemma InsideIff(ops: seq<Op>)
    ensures Inside(NO_PIPES, ops) <==> ops == [] || Adds(ops[..|ops| - 1]) < MAX_PIPE_LISTENERS
  {
    InsideFrom(NO_PIPES, ops);
  }

  /** The system hands out positive descriptors that are not in use. */
  ghost predicate FreshAdds(p: Pipes, ops: seq<Op>)
    requires Inside(p, ops)
    decreases |ops|
  {
    ops == [] ||
    (ops[0].fd > 0 && (ops[0].Add? ==> ops[0].fd !in p.polled) && FreshAdds(Apply(p, ops[0]), ops[1..]))
  }

  function Run(p: Pipes, ops: seq<Op>): Pipes
    requires Inside(p, ops)
    decreases |ops|
  {
    if ops == [] then p else Run(Apply(p, ops[0]), ops[1..])
  }

  lemma {:induction false} RunKeepsSet(p: Pipes, ops: seq<Op>)
    requires Shaped(p) && Exact(p) && Inside(p, ops) && FreshAdds(p, ops)
    ensures Shaped(Run(p, ops)) && Exact(Run(p, ops)) && Run(p, ops).slot == p.slot + Adds(ops)
    decreases |ops|
  {
    if ops != [] {
      match ops[0] {
        case Add(fd) => AddKeeps(p, fd);
        case Remove(fd) => RemoveKeeps(p, fd);
      }
      RunKeepsSet(Apply(p, ops[0]), ops[1..]);
    }
  }

  lemma {:induction false} RunAppend(p: Pipes, a: seq<Op>, b: seq<Op>)
    requires Inside(p, a) && Inside(Run(p, a), b) && FreshAdds(p, a) && FreshAdds(Run(p, a), b)
    ensures Inside(p, a + b) && FreshAdds(p, a + b) && Run(p, a + b) == Run(Run(p, a), b)
    decreases |a|
  {
    if a == [] {
      assert a + b == b;
    } else {
      assert (a + b)[0] == a[0] && (a + b)[1..] == a[1..] + b;
      RunAppend(Apply(p, a[0]), a[1..], b);
    }
  }

  /** Over every run inside the table the polled set is exactly the entries in use, and the
      next slot counts every add there has ever been. */
  lemma EveryRun(ops: seq<Op>)
    requires Inside(NO_PIPES, ops) && FreshAdds(NO_PIPES, ops)
    ensures Exact(Run(NO_PIPES, ops)) && Run(NO_PIPES, ops).slot == Adds(ops)
  {
    assert Live(NO_PIPES.fds) == {};
    RunKeepsSet(NO_PIPES, ops);
  }

  // ------------------------------------------------------------- behind the table

  /** `pipe_add` once every slot has been used: a free entry in the table, or a word `behind`
      it that happens to be -1, makes it write behind the table and poll the descriptor. */
  function AddBehind(p: Pipes, fd: int, behind: int): Pipes
    requires p.slot == |p.fds|
  {
    if behind == -1 || IndexOf(p.fds, -1, 0) < |p.fds| then
      p.(slot := p.slot + 1, fdMax := if fd > p.fdMax then fd else p.fdMax, polled := p.polled + {fd})
    else p
  }

  /** The polled set survives that exactly when the descriptor is turned away: otherwise a
      descriptor is polled that no entry holds. */
  lemma AddBehindIff(p: Pipes, fd: int, behind: int)
    requires Shaped(p) && Exact(p) && p.slot == MAX_PIPE_LISTENERS && fd > 0 && fd !in p.polled
    ensures Exact(AddBehind(p, fd, behind)) <==> behind != -1 && forall i :: 0 <= i < |p.fds| ==> p.fds[i] != -1
    ensures Bounded(p) ==> Bounded(AddBehind(p, fd, behind))
  {
    var i := IndexOf(p.fds, -1, 0);
    if behind == -1 || i < |p.fds| {
      assert fd in AddBehind(p, fd, behind).polled && fd !in Live(p.fds);
    }
  }

  function Ascending(from: int, n: nat): seq<Op>
    decreases n
  {
    if n == 0 then [] else [Add(from)] + Ascending(from + 1, n - 1)
  }

  /** The state after connections up to `below`. */
  ghost predicate Ready(p: Pipes, below: int) {
    Shaped(p) && Exact(p) && forall fd :: fd in p.polled ==> fd < below
  }

  lemma ReadyNext(p: Pipes, from: int)
    requires Ready(p, from) && from > 0 && p.slot < MAX_PIPE_LISTENERS
    ensures Ready(AddPipe(p, from), from + 1)
  {
    AddKeeps(p, from);
  }

  /** `q` follows `p` after `n` more connections with descriptors from `from` on. */
  ghost predicate Follows(p: Pipes, q: Pipes, from: int, n: nat) {
    Ready(q, from + n) && q.slot == p.slot + n && p.polled <= q.polled && (n > 0 ==> from in q.polled)
  }

  lemma {:induction false} AscendingRun(p: Pipes, from: int, n: nat)
    requires Ready(p, from) && from > 0 && p.slot + n <= MAX_PIPE_LISTENERS
    ensures var ops := Ascending(from, n);
            Inside(p, ops) && FreshAdds(p, ops) && Follows(p, Run(p, ops), from, n)
    decreases n
  {
    if n > 0 {
      ReadyNext(p, from);
      var p1 := AddPipe(p, from);
      AscendingRun(p1, from + 1, n - 1);
      var ops := Ascending(from, n);
      assert ops[0] == Add(from) && ops[1..] == Ascending(from + 1, n - 1);
    }
  }

  /** `n` connections, the first goes, and one more comes. */
  function FullRun(n: nat): seq<Op> { Ascending(1, n) + LAST_TWO }

  const LAST_TWO: seq<Op> := [Remove(1), Add(255)]

  /** The last two operations use up the last slot and leave an earlier one free. */
  lemma LastTwo(p: Pipes)
    requires Shaped(p) && Exact(p) && p.slot == 254 && 1 in p.polled && 255 !in p.polled
    ensures Inside(p, LAST_TWO) && FreshAdds(p, LAST_TWO)
    ensures var q := Run(p, LAST_TWO);
            Shaped(q) && Exact(q) && q.slot == MAX_PIPE_LISTENERS && q.polled == p.polled - {1} + {255}
            && exists i :: 0 <= i < |q.fds| && q.fds[i] == -1
  {
    RemoveKeeps(p, 1);
    var p2 := RemovePipe(p, 1);
    var i := IndexOf(p.fds, 1, 0);
    assert i < |p.fds| && i < 254;
    AddKeeps(p2, 255);
    var p3 := AddPipe(p2, 255);
    assert p3.fds[i] == -1;
    assert LAST_TWO[1..] == [Add(255)] && [Add(255)][1..] == [];
    assert Run(p2, [Add(255)]) == p3;
  }

  lemma FullRunEnds(n: nat) returns (p: Pipes)
    requires n == MAX_PIPE_LISTENERS - 1
    ensures Inside(NO_PIPES, FullRun(n)) && FreshAdds(NO_PIPES, FullRun(n)) && p == Run(NO_PIPES, FullRun(n))
    ensures Shaped(p) && Exact(p) && p.slot == MAX_PIPE_LISTENERS && 256 !in p.polled
    ensures exists i :: 0 <= i < |p.fds| && p.fds[i] == -1
  {
    assert Live(NO_PIPES.fds) == {};
    AscendingRun(NO_PIPES, 1, n);
    var p1 := Run(NO_PIPES, Ascending(1, n));
    LastTwo(p1);
    RunAppend(NO_PIPES, Ascending(1, n), LAST_TWO);
    p := Run(p1, LAST_TWO);
  }

  /** A concrete run that stays inside the table, and the next connection after it, which is
      written behind the table and polled although no entry holds it. */
  lemma OneTooMany(n: nat, behind: int)
    requires n == MAX_PIPE_LISTENERS - 1
    ensures Inside(NO_PIPES, FullRun(n)) && FreshAdds(NO_PIPES, FullRun(n))
    ensures var p := Run(NO_PIPES, FullRun(n));
            p.slot == MAX_PIPE_LISTENERS == |p.fds| && 256 !in p.polled
            && 256 in AddBehind(p, 256, behind).polled && 256 !in Live(AddBehind(p, 256, behind).fds)
  {
    var p := FullRunEnds(n);
    AddBehindIff(p, 256, behind);
    assert IndexOf(p.fds, -1, 0) < |p.fds|;
  }

  // ------------------------------------------------------------- the maximum over runs

  ghost predicate BoundedThroughout(p: Pipes, ops: seq<Op>)
    requires Inside(p, ops)
    decreases |ops|
  {
    Bounded(p) && (ops == [] || BoundedThroughout(Apply(p, ops[0]), ops[1..]))
  }

  /** No removal of the run lowers the maximum too far. */
  ghost predicate NeverTooFar(p: Pipes, ops: seq<Op>)
    requires Inside(p, ops)
    decreases |ops|
  {
    ops == [] || ((ops[0].Remove? ==> !LowersTooFar(p, ops[0].fd)) && NeverTooFar(Apply(p, ops[0]), ops[1..]))
  }

  lemma {:induction false} BoundedFrom(p: Pipes, ops: seq<Op>)
    requires Shaped(p) && Exact(p) && Bounded(p) && Inside(p, ops) && FreshAdds(p, ops)
    ensures BoundedThroughout(p, ops) <==> NeverTooFar(p, ops)
    decreases |ops|
  {
    if ops != [] {
      match ops[0] {
        case Add(fd) => AddKeeps(p, fd);
        case Remove(fd) => RemoveKeeps(p, fd); BoundKeptIff(p, fd);
      }
      if Bounded(Apply(p, ops[0])) {
        BoundedFrom(Apply(p, ops[0]), ops[1..]);
      }
    }
  }

  /** Over every run inside the table the cached maximum bounds the polled set in each state if and only if
      no removal lowers it too far. */
  lemma RunBoundedIff(ops: seq<Op>)
    requires Inside(NO_PIPES, ops) && FreshAdds(NO_PIPES, ops)
    ensures BoundedThroughout(NO_PIPES, ops) <==> NeverTooFar(NO_PIPES, ops)
  {
    assert Live(NO_PIPES.fds) == {};
    BoundedFrom(NO_PIPES, ops);
  }

  /** Each new descriptor is larger than the number of the slot it goes to. */
  ghost predicate HighAdds(p: Pipes, ops: seq<Op>)
    requires Inside(p, ops)
    decreases |ops|
  {
    ops == [] || ((ops[0].Add? ==> ops[0].fd > p.slot) && HighAdds(Apply(p, ops[0]), ops[1..]))
  }

  /** No removal takes away the maximum while another connection is left. */
  ghost predicate MaximumGoesLast(p: Pipes, ops: seq<Op>)
    requires Inside(p, ops)
    decreases |ops|
  {
    ops == [] ||
    ((ops[0].Remove? && ops[0].fd in p.polled && ops[0].fd == p.fdMax ==> p.polled == {ops[0].fd})
     && MaximumGoesLast(Apply(p, ops[0]), ops[1..]))
  }

  lemma {:induction false} HighRunFrom(p: Pipes, ops: seq<Op>)
    requires Shaped(p) && Exact(p) && Bounded(p) && AboveSlots(p)
    requires Inside(p, ops) && FreshAdds(p, ops) && HighAdds(p, ops)
    ensures NeverTooFar(p, ops) <==> MaximumGoesLast(p, ops)
    decreases |ops|
  {
    if ops != [] {
      match ops[0] {
        case Add(fd) => AddKeeps(p, fd);
        case Remove(fd) => RemoveKeeps(p, fd); BoundKeptIff(p, fd); LowersTooFarIff(p, fd);
      }
      if Bounded(Apply(p, ops[0])) {
        HighRunFrom(Apply(p, ops[0]), ops[1..]);
      }
    }
  }

  /** Over every such run whose descriptors are above their slot numbers: the maximum bounds the
      set in each state if and only if it is never removed while another connection is left. */
  lemma HighRunBoundedIff(ops: seq<Op>)
    requires Inside(NO_PIPES, ops) && FreshAdds(NO_PIPES, ops) && HighAdds(NO_PIPES, ops)
    ensures BoundedThroughout(NO_PIPES, ops) <==> MaximumGoesLast(NO_PIPES, ops)
  {
    assert Live(NO_PIPES.fds) == {};
    HighRunFrom(NO_PIPES, ops);
    RunBoundedIff(ops);
  }

  // ------------------------------------------------------------- the array

  class PipeTable {
    const pipeFds: array<int>
    var pipeSlot: nat
    var fdMax: int
    var pipeset: set<int>

    ghost function View(): Pipes
      reads this, pipeFds
    {
      Pipes(pipeFds[..], pipeSlot, fdMax, pipeset)
    }

    ghost predicate Valid()
      reads this, pipeFds
    {
      pipeFds.Length == MAX_PIPE_LISTENERS && Shaped(View())
    }

    /** `pipe_init` */
    constructor ()
      ensures Valid() && View() == NO_PIPES && fresh(pipeFds)
    {
      pipeFds := new int[MAX_PIPE_LISTENERS](_ => -1);
      pipeSlot, fdMax, pipeset := 0, 0, {};
    }

    /** `pipe_add`.  Once every slot has been used, the loop also reads the word `behind` the
        table, and says so if it writes there. */
    method Add(fd: int, behind: int) returns (overrun: bool)
      requires Valid() && fd > 0
      modifies this, pipeFds
      ensures pipeFds.Length == MAX_PIPE_LISTENERS
      ensures View() == if old(pipeSlot) < MAX_PIPE_LISTENERS then AddPipe(old(View()), fd)
                        else AddBehind(old(View()), fd, behind)
      ensures overrun <==> old(pipeSlot) == MAX_PIPE_LISTENERS && View() != old(View())
    {
      ghost var was := View();
      var i := 0;
      overrun := false;
      while i <= pipeSlot
        invariant 0 <= i <= pipeSlot + 1 && View() == was && !overrun
        invariant IndexOf(was.fds, -1, 0) >= i || i == pipeSlot + 1
        invariant i == pipeSlot + 1
                  ==> i > MAX_PIPE_LISTENERS && behind != -1 && IndexOf(was.fds, -1, 0) == MAX_PIPE_LISTENERS
        decreases pipeSlot + 1 - i
      {
        if (if i < MAX_PIPE_LISTENERS then pipeFds[i] else behind) == -1 {
          overrun := pipeSlot == MAX_PIPE_LISTENERS;
          if !overrun { pipeFds[pipeSlot] := fd; }
          pipeSlot := pipeSlot + 1;
          pipeset := pipeset + {fd};
          if fd > fdMax { fdMax := fd; }
          break;
        }
        i := i + 1;
      }
    }

    /** `pipe_remove`; the loop runs up to and including the next slot, which may be the word
        `behind` the table.  The source lowers `pipe_slot` when the entry found is the next
        slot itself; inside the table that never happens, because the next slot is free. */
    method Remove(fd: int, behind: int)
      requires Valid() && fd > 0 && behind != fd
      modifies this, pipeFds
      ensures View() == RemovePipe(old(View()), fd)
    {
      ghost var was := View();
      ghost var at := IndexOf(was.fds, fd, 0);
      var secondmax := 0;
      var i := 0;
      while i <= pipeSlot
        invariant 0 <= i <= pipeSlot + 1 && pipeSlot == was.slot
        invariant i <= at ==> View() == was
        invariant i <= at && i <= MAX_PIPE_LISTENERS ==> secondmax == SecondMax(was.fds, was.fdMax, i)
        invariant i > at ==> View() == RemovePipe(was, fd)
        decreases pipeSlot + 1 - i
      {
        var word := if i < MAX_PIPE_LISTENERS then pipeFds[i] else behind;
        if word > secondmax && word < fdMax { secondmax := i; }
        if word == fd {
          assert i == at;
          pipeFds[i] := -1;
          assert i != pipeSlot;
          if fd == fdMax { fdMax := secondmax; }
          pipeset := pipeset - {fd};
          assert pipeFds[..] == was.fds[i := -1];
        }
        i := i + 1;
      }
    }
  }
}
