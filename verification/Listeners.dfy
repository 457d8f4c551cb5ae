/** The listener tables of core/event.c: for each event type up to CBMAX callbacks, each
    with its own data, kept in two arrays that must stay in step. */
module Listeners {

  const EVENT_COUNT: nat := 20
  const CBMAX: nat := 32

  /** A callback is a positive number, 0 is NULL. */
  datatype Slot = Slot(cb: nat, data: nat)

  const FREE := Slot(0, 0)

  type Row = r: seq<Slot> | |r| == CBMAX witness seq(CBMAX, _ => FREE)

  const EMPTY_ROW: Row := seq(CBMAX, _ => FREE)

  /** First slot holding callback `cb` at or after `from`, or CBMAX. */
  function FirstSlot(row: Row, cb: nat, from: nat): (i: nat)
    requires from <= CBMAX
    ensures from <= i <= CBMAX && (i < CBMAX ==> row[i].cb == cb)
    ensures forall k :: from <= k < i ==> row[k].cb != cb
    decreases CBMAX - from
  {
    if from == CBMAX || row[from].cb == cb then from else FirstSlot(row, cb, from + 1)
  }

  function AddRow(row: Row, cb: nat, data: nat): Row {
    var i := FirstSlot(row, 0, 0);
    if i == CBMAX then row else row[i := Slot(cb, data)]
  }

  function RemoveRow(row: Row, cb: nat): Row {
    var i := FirstSlot(row, cb, 0);
    if i == CBMAX then row else row[i := FREE]
  }

  /** The calls that `event_run_callbacks` makes from slot `from` on, in slot order. */
  function Calls(row: seq<Slot>): seq<Slot> {
    if row == [] then []
    else (if row[0].cb != 0 then [row[0]] else []) + Calls(row[1..])
  }

  lemma CallsFrom(row: seq<Slot>, j: nat)
    requires j < |row|
    ensures Calls(row[j..]) == (if row[j].cb != 0 then [row[j]] else []) + Calls(row[j + 1..])
  {
    assert row[j..][0] == row[j] && row[j..][1..] == row[j + 1..];
  }

  lemma DoneSoFar(row: seq<Slot>, j: nat, done: seq<Slot>, call: seq<Slot>)
    requires j < |row| && done + Calls(row[j..]) == Calls(row) && call == if row[j].cb != 0 then [row[j]] else []
    ensures (done + call) + Calls(row[j + 1..]) == Calls(row)
  {
    CallsFrom(row, j);
  }

  /** How often a dispatch makes this call. */
  function Count(row: seq<Slot>, x: Slot): nat {
    if row == [] then 0 else (if row[0].cb != 0 && row[0] == x then 1 else 0) + Count(row[1..], x)
  }

  /** The count is the number of such calls in the dispatch. */
  lemma {:induction false} CountIsCalls(row: seq<Slot>, x: Slot)
    ensures multiset(Calls(row))[x] == Count(row, x)
    decreases |row|
  {
    if row != [] {
      CountIsCalls(row[1..], x);
      assert multiset(Calls(row)) == multiset(if row[0].cb != 0 then [row[0]] else []) + multiset(Calls(row[1..]));
    }
  }

  /** Free slots hold no data either. */
  ghost predicate InStep(row: Row) {
    forall i :: 0 <= i < CBMAX && row[i].cb == 0 ==> row[i].data == 0
  }

  function One(s: Slot, x: Slot): nat { if s.cb != 0 && s == x then 1 else 0 }

  lemma {:induction false} CountUpdate(row: seq<Slot>, i: nat, s: Slot, x: Slot)
    requires i < |row|
    ensures Count(row[i := s], x) + One(row[i], x) == Count(row, x) + One(s, x)
    decreases |row|
  {
    var row' := row[i := s];
    if i == 0 {
      assert row'[1..] == row[1..];
    } else {
      assert row'[1..] == row[1..][i - 1 := s];
      CountUpdate(row[1..], i - 1, s, x);
    }
  }

  lemma {:induction false} CallsLength(row: seq<Slot>)
    ensures |Calls(row)| <= |row|
    ensures |Calls(row)| == |row| <==> forall i :: 0 <= i < |row| ==> row[i].cb != 0
    decreases |row|
  {
    if row != [] {
      CallsLength(row[1..]);
      if forall i :: 0 <= i < |row| ==> row[i].cb != 0 {
        forall i | 0 <= i < |row[1..]| ensures row[1..][i].cb != 0 { assert row[1..][i] == row[i + 1]; }
      } else {
        var k :| 0 <= k < |row| && row[k].cb == 0;
        if k > 0 { assert row[1..][k - 1] == row[k]; }
      }
    }
  }

  lemma HasRoom(row: seq<Slot>, i: nat)
    requires i < |row| && row[i].cb == 0
    ensures |Calls(row)| < |row|
  {
    CallsLength(row);
  }

  /** A listener is accepted exactly when fewer than CBMAX are registered; then it is the
      one call that later dispatches gain, and otherwise nothing changes. */
  lemma AddIsExact(row: Row, cb: nat, data: nat, x: Slot)
    requires cb != 0
    ensures Count(AddRow(row, cb, data), x)
            == Count(row, x) + if |Calls(row)| < CBMAX && x == Slot(cb, data) then 1 else 0
    ensures |Calls(row)| == CBMAX ==> AddRow(row, cb, data) == row
    ensures InStep(row) ==> InStep(AddRow(row, cb, data))
  {
    CallsLength(row);
    var i := FirstSlot(row, 0, 0);
    if i < CBMAX {
      HasRoom(row, i);
      CountUpdate(row, i, Slot(cb, data), x);
    }
  }

  /** Removing takes the first registration of the callback out of later dispatches, or
      none when it is not registered. */
  lemma RemoveIsExact(row: Row, cb: nat, x: Slot)
    requires cb != 0
    ensures var i := FirstSlot(row, cb, 0);
            && (i == CBMAX <==> forall k :: 0 <= k < CBMAX ==> row[k].cb != cb)
            && (if i == CBMAX then RemoveRow(row, cb) == row
                else Count(row, row[i]) > 0
                     && Count(RemoveRow(row, cb), x) == Count(row, x) - if x == row[i] then 1 else 0)
    ensures InStep(row) ==> InStep(RemoveRow(row, cb))
  {
    var i := FirstSlot(row, cb, 0);
    if i < CBMAX {
      CountUpdate(row, i, FREE, x);
      CountUpdate(row, i, FREE, row[i]);
    }
  }

  // ----------------------------------------------------------- all types

  datatype Op = Add(t: nat, cb: nat, data: nat) | Remove(t: nat, cb: nat)

  function OpRow(row: Row, op: Op): Row {
    match op
    case Add(_, cb, data) => AddRow(row, cb, data)
    case Remove(_, cb) => RemoveRow(row, cb)
  }

  function OpRows(rows: seq<Row>, op: Op): seq<Row> {
    if op.t < |rows| then rows[op.t := OpRow(rows[op.t], op)] else rows
  }

  function RunRows(rows: seq<Row>, ops: seq<Op>): (r: seq<Row>)
    ensures |r| == |rows|
    decreases |ops|
  {
    if ops == [] then rows else RunRows(OpRows(rows, ops[0]), ops[1..])
  }

  function RunRow(row: Row, ops: seq<Op>): Row
    decreases |ops|
  {
    if ops == [] then row else RunRow(OpRow(row, ops[0]), ops[1..])
  }

  function OpsOf(ops: seq<Op>, t: nat): seq<Op> {
    if ops == [] then [] else (if ops[0].t == t then [ops[0]] else []) + OpsOf(ops[1..], t)
  }

  /** Over every run of adds and removes, what a type dispatches depends only on the
      operations on that type. */
  lemma {:induction false} TypesAreIsolated(rows: seq<Row>, ops: seq<Op>, t: nat)
    requires t < |rows|
    ensures RunRows(rows, ops)[t] == RunRow(rows[t], OpsOf(ops, t))
    decreases |ops|
  {
    if ops != [] {
      TypesAreIsolated(OpRows(rows, ops[0]), ops[1..], t);
      if ops[0].t == t {
        assert OpsOf(ops, t)[1..] == OpsOf(ops[1..], t);
      } else {
        assert OpsOf(ops, t) == OpsOf(ops[1..], t);
      }
    }
  }

  /** A listener for this call is accepted. */
  predicate Accepts(row: Row, op: Op, x: Slot) {
    op.Add? && x == Slot(op.cb, op.data) && |Calls(row)| < CBMAX
  }

  /** The first registration of the callback is this call, and it is taken out. */
  predicate TakesOut(row: Row, op: Op, x: Slot) {
    op.Remove? && FirstSlot(row, op.cb, 0) < CBMAX && row[FirstSlot(row, op.cb, 0)] == x
  }

  function AcceptedAdds(row: Row, ops: seq<Op>, x: Slot): nat
    decreases |ops|
  {
    if ops == [] then 0 else (if Accepts(row, ops[0], x) then 1 else 0) + AcceptedAdds(OpRow(row, ops[0]), ops[1..], x)
  }

  function DoneRemoves(row: Row, ops: seq<Op>, x: Slot): nat
    decreases |ops|
  {
    if ops == [] then 0 else (if TakesOut(row, ops[0], x) then 1 else 0) + DoneRemoves(OpRow(row, ops[0]), ops[1..], x)
  }

  ghost predicate RealCallbacks(ops: seq<Op>) {
    forall i :: 0 <= i < |ops| ==> ops[i].cb != 0
  }

  lemma {:induction false} RunIsExact(row: Row, ops: seq<Op>, x: Slot)
    requires RealCallbacks(ops) && InStep(row)
    ensures Count(RunRow(row, ops), x) + DoneRemoves(row, ops, x) == Count(row, x) + AcceptedAdds(row, ops, x)
    ensures InStep(RunRow(row, ops))
    decreases |ops|
  {
    if ops != [] {
      match ops[0] {
        case Add(_, cb, data) => AddIsExact(row, cb, data, x);
        case Remove(_, cb) => RemoveIsExact(row, cb, x);
      }
      RunIsExact(OpRow(row, ops[0]), ops[1..], x);
    }
  }

  lemma EmptyCount(row: seq<Slot>, x: Slot)
    requires forall i :: 0 <= i < |row| ==> row[i] == FREE
    ensures Count(row, x) == 0
    decreases |row|
  {
    if row != [] {
      EmptyCount(row[1..], x);
    }
  }

  lemma {:induction false} OpsOfReal(ops: seq<Op>, t: nat)
    requires RealCallbacks(ops)
    ensures RealCallbacks(OpsOf(ops, t))
    decreases |ops|
  {
    if ops != [] {
      OpsOfReal(ops[1..], t);
    }
  }

  /** Over every run from empty tables, a type dispatches each call exactly as often as its
      adds were accepted less the times it was taken out, whatever happens to other types,
      and callbacks and data stay in step. */
  lemma EveryRunIsExact(ops: seq<Op>, t: nat, x: Slot)
    requires RealCallbacks(ops) && t < EVENT_COUNT
    ensures var row := RunRows(seq(EVENT_COUNT, _ => EMPTY_ROW), ops)[t];
            && Count(row, x) + DoneRemoves(EMPTY_ROW, OpsOf(ops, t), x) == AcceptedAdds(EMPTY_ROW, OpsOf(ops, t), x)
            && InStep(row)
  {
    TypesAreIsolated(seq(EVENT_COUNT, _ => EMPTY_ROW), ops, t);
    OpsOfReal(ops, t);
    EmptyCount(EMPTY_ROW, x);
    RunIsExact(EMPTY_ROW, OpsOf(ops, t), x);
  }

  /** The two arrays of core/event.c. */
  class ListenerTable {
    const callbacks: array2<nat>
    const callbackdatas: array2<nat>

    ghost predicate Valid()
      reads this
    {
      && callbacks != callbackdatas
      && callbacks.Length0 == EVENT_COUNT && callbacks.Length1 == CBMAX
      && callbackdatas.Length0 == EVENT_COUNT && callbackdatas.Length1 == CBMAX
    }

    ghost function RowOf(t: nat): Row
      requires Valid() && t < EVENT_COUNT
      reads this, callbacks, callbackdatas
    {
      seq(CBMAX, i requires 0 <= i < CBMAX reads this, callbacks, callbackdatas requires Valid() =>
            Slot(callbacks[t, i], callbackdatas[t, i]))
    }

    ghost function Rows(): (r: seq<Row>)
      requires Valid()
      reads this, callbacks, callbackdatas
      ensures |r| == EVENT_COUNT
    {
      seq(EVENT_COUNT, t requires 0 <= t < EVENT_COUNT
                         reads this, callbacks, callbackdatas requires Valid() => RowOf(t))
    }

    constructor ()
      ensures Valid() && fresh(callbacks) && fresh(callbackdatas)
      ensures Rows() == seq(EVENT_COUNT, _ => EMPTY_ROW)
    {
      callbacks := new nat[EVENT_COUNT, CBMAX]((_, _) => 0);
      callbackdatas := new nat[EVENT_COUNT, CBMAX]((_, _) => 0);
      new;
      assert forall t :: 0 <= t < EVENT_COUNT ==> RowOf(t) == EMPTY_ROW;
    }

    /** `event_addlistener` */
    method AddListener(t: nat, cb: nat, data: nat)
      requires Valid() && t < EVENT_COUNT
      modifies callbacks, callbackdatas
      ensures Valid() && Rows() == OpRows(old(Rows()), Add(t, cb, data))
    {
      ghost var row := RowOf(t);
      var i := 0;
      while i < CBMAX
        invariant 0 <= i <= CBMAX && unchanged(callbacks) && unchanged(callbackdatas)
        invariant FirstSlot(row, 0, 0) == FirstSlot(row, 0, i)
      {
        assert row[i] == Slot(callbacks[t, i], callbackdatas[t, i]);
        if callbacks[t, i] == 0 {
          callbacks[t, i] := cb;
          callbackdatas[t, i] := data;
          assert RowOf(t) == AddRow(row, cb, data);
          assert forall u :: 0 <= u < EVENT_COUNT && u != t ==> RowOf(u) == old(RowOf(u));
          return;
        }
        i := i + 1;
      }
      assert AddRow(row, cb, data) == row;
    }

    /** `event_removelistener` */
    method RemoveListener(t: nat, cb: nat)
      requires Valid() && t < EVENT_COUNT
      modifies callbacks, callbackdatas
      ensures Valid() && Rows() == OpRows(old(Rows()), Remove(t, cb))
    {
      ghost var row := RowOf(t);
      var i := 0;
      while i < CBMAX
        invariant 0 <= i <= CBMAX && unchanged(callbacks) && unchanged(callbackdatas)
        invariant FirstSlot(row, cb, 0) == FirstSlot(row, cb, i)
      {
        assert row[i] == Slot(callbacks[t, i], callbackdatas[t, i]);
        if callbacks[t, i] == cb {
          callbacks[t, i] := 0;
          callbackdatas[t, i] := 0;
          assert RowOf(t) == RemoveRow(row, cb);
          assert forall u :: 0 <= u < EVENT_COUNT && u != t ==> RowOf(u) == old(RowOf(u));
          return;
        }
        i := i + 1;
      }
      assert RemoveRow(row, cb) == row;
    }

    /** The call for one slot, if it is in use. */
    method CallAt(t: nat, j: nat) returns (call: seq<Slot>)
      requires Valid() && t < EVENT_COUNT && j < CBMAX
      ensures call == if RowOf(t)[j].cb != 0 then [RowOf(t)[j]] else []
    {
      call := [];
      if callbacks[t, j] != 0 {
        call := [Slot(callbacks[t, j], callbackdatas[t, j])];
      }
    }

    /** `event_run_callbacks`: the calls made, in order. */
    method RunCallbacks(t: nat) returns (calls: seq<Slot>)
      requires Valid() && t < EVENT_COUNT
      ensures calls == Calls(RowOf(t))
    {
      calls := [];
      ghost var row := RowOf(t);
      ghost var slots: seq<Slot> := row;
      assert slots[0..] == slots;
      var j := 0;
      while j < CBMAX
        invariant 0 <= j <= CBMAX
        invariant calls + Calls(slots[j..]) == Calls(slots)
      {
        var call := CallAt(t, j);
        DoneSoFar(slots, j, calls, call);
        calls := calls + call;
        j := j + 1;
      }
      assert slots[CBMAX..] == [];
    }
  }
}
