/** The transfer slots of one peer (core/peer.c) with their locks, and the steps that the
    reader and the sender threads take on them (core/handlers.c), in the order in which
    the source locks, unlocks and clears. */
module TransferSlots {
  import opened Collections

  const SLOTS: nat := 64

  /** `file_t`: `file` is set while a stream is open, `writable` while it was opened "r+":
      the streams of part senders and receivers, not those of metadata. */
  datatype Slot = Slot(locked: bool, file: bool, writable: bool, sha: string, size: nat, parts: nat)

  const BLANK := Slot(false, false, false, "", 0, 0)

  type Slots = s: seq<Slot> | |s| == SLOTS witness seq(SLOTS, _ => BLANK)

  const NO_SLOTS: Slots := seq(SLOTS, _ => BLANK)

  predicate Cleared(s: Slot) { s.(locked := false) == BLANK }

  /** `clear_file_transfer` */
  function Clear(s: Slot): (r: Slot)
    ensures Cleared(r) && r.locked == s.locked
  {
    Slot(s.locked, false, false, "", 0, 0)
  }

  /** `get_and_lock_new_filetransfer`: the first slot whose lock is free, SLOTS for none. */
  function FirstUnlocked(s: Slots, from: nat): (i: nat)
    requires from <= SLOTS
    ensures from <= i <= SLOTS && (i < SLOTS ==> !s[i].locked) && forall k :: from <= k < i ==> s[k].locked
    decreases SLOTS - from
  {
    if from == SLOTS || !s[from].locked then from else FirstUnlocked(s, from + 1)
  }

  /** `get_file_transfer_internal`: the first slot with this hash, SLOTS for none. */
  function FirstSha(s: Slots, sha: string, from: nat): (i: nat)
    requires from <= SLOTS
    ensures from <= i <= SLOTS && (i < SLOTS ==> s[i].sha == sha) && forall k :: from <= k < i ==> s[k].sha != sha
    decreases SLOTS - from
  {
    if from == SLOTS || s[from].sha == sha then from else FirstSha(s, sha, from + 1)
  }

  // ------------------------------------------------------------- the protocol

  /** A sender thread of metadata clears its slot and then unlocks it; one of a file part
      unlocks first and clears then; a receiving transfer has no thread. */
  datatype Job =
    | MetaSender(slot: nat, cleared: bool)
    | PartSender(slot: nat, unlocked: bool)
    | Receiver(slot: nat)

  /** The transfer still uses its slot. */
  predicate Owns(j: Job) { !(j.MetaSender? && j.cleared) }

  datatype State = State(slots: Slots, jobs: seq<Job>, locks: nat, unlocks: nat)

  const START := State(NO_SLOTS, [], 0, 0)

  datatype Step =
    | RequestTransfer
    | RequestPart(sha: string, size: nat, parts: nat)
    | StartReceive(sha: string, size: nat, parts: nat, known: bool, opens: bool)
    | FinishReceive(sha: string)
    | MetaClear(j: nat)
    | MetaUnlock(j: nat)
    | PartUnlock(j: nat)
    | PartClear(j: nat)

  /** First receiving transfer in slot `i`, or the number of jobs. */
  function ReceiverOf(jobs: seq<Job>, i: nat): (k: nat)
    ensures k <= |jobs| && (k < |jobs| ==> jobs[k] == Receiver(i)) && forall m :: 0 <= m < k ==> jobs[m] != Receiver(i)
  {
    if jobs == [] || jobs[0] == Receiver(i) then 0 else 1 + ReceiverOf(jobs[1..], i)
  }

  /** The job steps are steps of a thread that is at that point; the lock for the last
      part of a receiving transfer is waited for, and its write must succeed. */
  predicate Enabled(s: State, t: Step) {
    match t
    case MetaClear(j) => j < |s.jobs| && s.jobs[j].MetaSender? && !s.jobs[j].cleared && s.jobs[j].slot < SLOTS
    case MetaUnlock(j) => j < |s.jobs| && s.jobs[j].MetaSender? && s.jobs[j].cleared && s.jobs[j].slot < SLOTS
    case PartUnlock(j) => j < |s.jobs| && s.jobs[j].PartSender? && !s.jobs[j].unlocked && s.jobs[j].slot < SLOTS
    case PartClear(j) => j < |s.jobs| && s.jobs[j].PartSender? && s.jobs[j].unlocked && s.jobs[j].slot < SLOTS
    case FinishReceive(sha) =>
      var i := FirstSha(s.slots, sha, 0);
      i < SLOTS && s.slots[i].file && s.slots[i].writable && !s.slots[i].locked
    case _ => true
  }

  function Apply(s: State, t: Step): State
    requires Enabled(s, t)
  {
    match t
    case RequestTransfer =>
      // lock, open, start the thread, unlock; the thread fills in sizes and clears them again
      var i := FirstUnlocked(s.slots, 0);
      if i == SLOTS then s
      else s.(slots := s.slots[i := s.slots[i].(file := true, writable := false)],
              jobs := s.jobs + [MetaSender(i, false)], locks := s.locks + 1, unlocks := s.unlocks + 1)
    case RequestPart(sha, size, parts) =>
      // lock, open, start the thread, which unlocks
      var i := FirstUnlocked(s.slots, 0);
      if i == SLOTS then s
      else s.(slots := s.slots[i := Slot(true, true, true, sha, size, parts)],
              jobs := s.jobs + [PartSender(i, false)], locks := s.locks + 1)
    case StartReceive(sha, size, parts, known, opens) =>
      // lock, record and open if the file is configured, unlock
      var i := FirstUnlocked(s.slots, 0);
      if i == SLOTS then s
      else
        var s1 := s.(locks := s.locks + 1, unlocks := s.unlocks + 1);
        if !known then s1
        else s1.(slots := s.slots[i := Slot(false, opens, opens, sha, size, parts)],
                 jobs := if opens then s.jobs + [Receiver(i)] else s.jobs)
    case FinishReceive(sha) =>
      var i := FirstSha(s.slots, sha, 0);
      var k := ReceiverOf(s.jobs, i);
      s.(slots := s.slots[i := Clear(s.slots[i])],
         jobs := if k < |s.jobs| then Without(s.jobs, k) else s.jobs,
         locks := s.locks + 1, unlocks := s.unlocks + 1)
    case MetaClear(j) =>
      var i := s.jobs[j].slot;
      s.(slots := s.slots[i := Clear(s.slots[i])], jobs := s.jobs[j := MetaSender(i, true)])
    case MetaUnlock(j) =>
      var i := s.jobs[j].slot;
      s.(slots := s.slots[i := s.slots[i].(locked := false)], jobs := Without(s.jobs, j),
         unlocks := s.unlocks + 1)
    case PartUnlock(j) =>
      var i := s.jobs[j].slot;
      s.(slots := s.slots[i := s.slots[i].(locked := false)], jobs := s.jobs[j := PartSender(i, true)],
         unlocks := s.unlocks + 1)
    case PartClear(j) =>
      var i := s.jobs[j].slot;
      s.(slots := s.slots[i := Clear(s.slots[i])], jobs := Without(s.jobs, j))
  }

  /** A part sender and a receiving transfer record their hash and sizes in the slot they
      take, and only the part sender leaves with its lock. */
  lemma StepRecords(s: State, t: Step)
    requires t.RequestPart? || (t.StartReceive? && t.known)
    ensures var i, s' := FirstUnlocked(s.slots, 0), Apply(s, t);
            if i == SLOTS then s' == s
            else s'.slots[i].sha == t.sha && s'.slots[i].size == t.size && s'.slots[i].parts == t.parts
                 && s'.slots[i].locked == t.RequestPart? && s'.slots[i].file == (t.RequestPart? || t.opens)
                 && forall k :: 0 <= k < SLOTS && k != i ==> s'.slots[k] == s.slots[k]
  {
  }

  // ------------------------------------------------------------- ownership

  ghost predicate InRange(s: State) {
    forall j :: 0 <= j < |s.jobs| ==> s.jobs[j].slot < SLOTS
  }

  /** No two transfers in flight share a slot. */
  ghost predicate Exclusive(jobs: seq<Job>) {
    forall j, k :: 0 <= j < k < |jobs| && Owns(jobs[j]) && Owns(jobs[k]) ==> jobs[j].slot != jobs[k].slot
  }

  ghost predicate Owned(jobs: seq<Job>, i: nat) {
    exists j :: 0 <= j < |jobs| && Owns(jobs[j]) && jobs[j].slot == i
  }

  ghost predicate SlotOk(s: State, i: nat)
    requires i < SLOTS
  {
    && (s.slots[i].file <==> Owned(s.jobs, i))
    && (s.slots[i].locked ==> exists j :: 0 <= j < |s.jobs| && s.jobs[j] == PartSender(i, false))
  }

  /** Slots are owned exclusively, a stream is open in exactly the owned ones, and a lock
      is held only by a sender of a file part. */
  ghost predicate Inv(s: State) {
    InRange(s) && Exclusive(s.jobs) && forall i :: 0 <= i < SLOTS ==> SlotOk(s, i)
  }

  /** Taking a slot is safe when the slot with the free lock is idle as well, and the last
      part of a file must find the slot of its own receiving transfer. */
  predicate Guard(s: State, t: Step) {
    match t
    case RequestTransfer => var i := FirstUnlocked(s.slots, 0); i < SLOTS ==> !s.slots[i].file
    case RequestPart(_, _, _) => var i := FirstUnlocked(s.slots, 0); i < SLOTS ==> !s.slots[i].file
    case StartReceive(_, _, _, known, _) => var i := FirstUnlocked(s.slots, 0); known && i < SLOTS ==> !s.slots[i].file
    case FinishReceive(sha) => ReceiverOf(s.jobs, FirstSha(s.slots, sha, 0)) < |s.jobs|
    case _ => true
  }

  lemma AddJob(s: State, slot: Slot, j: Job, s': State)
    requires Inv(s) && j.slot < SLOTS && Owns(j) && slot.file
    requires slot.locked ==> j == PartSender(j.slot, false)
    requires !s.slots[j.slot].file
    requires s'.slots == s.slots[j.slot := slot] && s'.jobs == s.jobs + [j]
    ensures Inv(s')
  {
    assert SlotOk(s, j.slot);
    forall i | 0 <= i < SLOTS
      ensures SlotOk(s', i)
    {
      assert SlotOk(s, i);
      assert s'.jobs[|s.jobs|] == j;
      assert forall k :: 0 <= k < |s.jobs| ==> s'.jobs[k] == s.jobs[k];
    }
  }

  /** A second transfer in an owned slot. */
  lemma ShareJob(s: State, j: Job)
    requires Inv(s) && j.slot < SLOTS && Owns(j) && s.slots[j.slot].file
    ensures !Exclusive(s.jobs + [j])
  {
    assert SlotOk(s, j.slot);
    var k :| 0 <= k < |s.jobs| && Owns(s.jobs[k]) && s.jobs[k].slot == j.slot;
    var jobs := s.jobs + [j];
    assert jobs[k].slot == jobs[|s.jobs|].slot;
  }

  lemma OwnedWithout(jobs: seq<Job>, j: nat, i: nat)
    requires j < |jobs| && Exclusive(jobs)
    ensures Exclusive(Without(jobs, j))
    ensures Owned(Without(jobs, j), i) <==> Owned(jobs, i) && !(Owns(jobs[j]) && jobs[j].slot == i)
    ensures forall x :: x in Without(jobs, j) ==> x in jobs
    ensures forall x :: x in jobs && x != jobs[j] ==> x in Without(jobs, j)
  {
    var r := Without(jobs, j);
    assert forall k :: 0 <= k < |r| ==> r[k] == jobs[if k < j then k else k + 1];
    forall k | 0 <= k < |jobs| && k != j
      ensures jobs[k] in r && r[if k < j then k else k - 1] == jobs[k]
    {
      assert r[if k < j then k else k - 1] == jobs[k];
    }
  }

  /** An owner gives its slot up: the slot is cleared and the job goes, or changes to one
      that owns nothing. */
  lemma DropOwner(s: State, j: nat, s': State)
    requires Inv(s) && j < |s.jobs| && Owns(s.jobs[j])
    requires s.jobs[j].MetaSender? || s.jobs[j].Receiver? || (s.jobs[j].PartSender? && s.jobs[j].unlocked)
    requires var i := s.jobs[j].slot; s'.slots == s.slots[i := Clear(s.slots[i])]
    requires s'.jobs == Without(s.jobs, j)
             || (s.jobs[j].MetaSender? && s'.jobs == s.jobs[j := MetaSender(s.jobs[j].slot, true)])
    ensures Inv(s')
  {
    var i0 := s.jobs[j].slot;
    if s'.jobs == Without(s.jobs, j) {
      forall i | 0 <= i < SLOTS
        ensures SlotOk(s', i)
      {
        assert SlotOk(s, i);
        OwnedWithout(s.jobs, j, i);
        assert PartSender(i, false) != s.jobs[j];
      }
      OwnedWithout(s.jobs, j, 0);
    } else {
      forall i | 0 <= i < SLOTS
        ensures SlotOk(s', i)
      {
        assert SlotOk(s, i);
        if i != i0 && Owned(s.jobs, i) {
          var k :| 0 <= k < |s.jobs| && Owns(s.jobs[k]) && s.jobs[k].slot == i;
          assert s'.jobs[k] == s.jobs[k];
        }
        if s.slots[i].locked {
          var k :| 0 <= k < |s.jobs| && s.jobs[k] == PartSender(i, false);
          assert s'.jobs[k] == s.jobs[k];
        }
      }
    }
  }

  lemma UnlockSteps(s: State, t: Step)
    requires Inv(s) && Enabled(s, t) && (t.MetaUnlock? || t.PartUnlock?)
    ensures Inv(Apply(s, t))
  {
    var s', i0 := Apply(s, t), s.jobs[t.j].slot;
    forall i | 0 <= i < SLOTS
      ensures SlotOk(s', i)
    {
      assert SlotOk(s, i);
      if t.MetaUnlock? {
        OwnedWithout(s.jobs, t.j, i);
      } else {
        assert s'.jobs[t.j] == PartSender(i0, true) && Owns(s'.jobs[t.j]);
        assert forall k :: 0 <= k < |s.jobs| && k != t.j ==> s'.jobs[k] == s.jobs[k];
      }
    }
    if t.MetaUnlock? {
      OwnedWithout(s.jobs, t.j, 0);
    }
  }

  lemma FinishIff(s: State, sha: string)
    requires Inv(s) && Enabled(s, FinishReceive(sha))
    ensures Inv(Apply(s, FinishReceive(sha))) <==> Guard(s, FinishReceive(sha))
  {
    var i, s' := FirstSha(s.slots, sha, 0), Apply(s, FinishReceive(sha));
    var k := ReceiverOf(s.jobs, i);
    if k < |s.jobs| {
      DropOwner(s, k, s');
    } else {
      assert SlotOk(s, i) && Owned(s.jobs, i);
      assert !SlotOk(s', i);
    }
  }

  /** A step from a good state leads to a good state if and only if it meets its guard. */
  lemma StepIff(s: State, t: Step)
    requires Inv(s) && Enabled(s, t)
    ensures Inv(Apply(s, t)) <==> Guard(s, t)
  {
    var i := FirstUnlocked(s.slots, 0);
    match t
    case RequestTransfer =>
      if i < SLOTS {
        if s.slots[i].file { ShareJob(s, MetaSender(i, false)); }
        else { AddJob(s, s.slots[i].(file := true, writable := false), MetaSender(i, false), Apply(s, t)); }
      }
    case RequestPart(sha, size, parts) =>
      if i < SLOTS {
        if s.slots[i].file { ShareJob(s, PartSender(i, false)); }
        else { AddJob(s, Slot(true, true, true, sha, size, parts), PartSender(i, false), Apply(s, t)); }
      }
    case StartReceive(sha, size, parts, known, opens) => StartIff(s, t, i);
    case FinishReceive(sha) => FinishIff(s, sha);
    case MetaClear(j) => DropOwner(s, j, Apply(s, t));
    case PartClear(j) => DropOwner(s, j, Apply(s, t));
    case MetaUnlock(_) => UnlockSteps(s, t);
    case PartUnlock(_) => UnlockSteps(s, t);
  }

  lemma StartIff(s: State, t: Step, i: nat)
    requires Inv(s) && t.StartReceive? && i == FirstUnlocked(s.slots, 0)
    ensures Inv(Apply(s, t)) <==> Guard(s, t)
  {
    var s' := Apply(s, t);
    if t.known && i < SLOTS {
      if t.opens {
        if s.slots[i].file { ShareJob(s, Receiver(i)); }
        else { AddJob(s, Slot(false, true, true, t.sha, t.size, t.parts), Receiver(i), s'); }
      } else if s.slots[i].file {
        assert SlotOk(s, i) && !SlotOk(s', i);
      } else {
        forall k | 0 <= k < SLOTS
          ensures SlotOk(s', k)
        {
          assert SlotOk(s, k);
        }
      }
    } else {
      assert forall k :: 0 <= k < SLOTS ==> SlotOk(s, k) ==> SlotOk(s', k);
    }
  }

  /** The step puts a second transfer into a slot that is in use. */
  predicate TakesOwned(s: State, t: Step) {
    (t.RequestTransfer? || t.RequestPart? || (t.StartReceive? && t.known && t.opens))
    && var i := FirstUnlocked(s.slots, 0); i < SLOTS && s.slots[i].file
  }

  /** Exclusive ownership alone is lost by exactly these steps; the other steps that miss
      their guard leave a slot in use without a stream. */
  lemma StepExclusiveIff(s: State, t: Step)
    requires Inv(s) && Enabled(s, t)
    ensures Exclusive(Apply(s, t).jobs) <==> !TakesOwned(s, t)
  {
    var i := FirstUnlocked(s.slots, 0);
    if TakesOwned(s, t) {
      ShareJob(s, if t.RequestTransfer? then MetaSender(i, false)
                  else if t.RequestPart? then PartSender(i, false) else Receiver(i));
    } else if Guard(s, t) {
      StepIff(s, t);
    } else {
      assert Apply(s, t).jobs == s.jobs;
    }
  }

  // ------------------------------------------------------------- runs

  ghost predicate EnabledRun(s: State, ts: seq<Step>)
    decreases |ts|
  {
    ts == [] || (Enabled(s, ts[0]) && EnabledRun(Apply(s, ts[0]), ts[1..]))
  }

  ghost predicate GoodThroughout(s: State, ts: seq<Step>)
    requires EnabledRun(s, ts)
    decreases |ts|
  {
    Inv(s) && (ts == [] || GoodThroughout(Apply(s, ts[0]), ts[1..]))
  }

  ghost predicate GuardedThroughout(s: State, ts: seq<Step>)
    requires EnabledRun(s, ts)
    decreases |ts|
  {
    ts == [] || (Guard(s, ts[0]) && GuardedThroughout(Apply(s, ts[0]), ts[1..]))
  }

  lemma {:induction false} RunFrom(s: State, ts: seq<Step>)
    requires Inv(s) && EnabledRun(s, ts)
    ensures GoodThroughout(s, ts) <==> GuardedThroughout(s, ts)
    decreases |ts|
  {
    if ts != [] {
      StepIff(s, ts[0]);
      if Inv(Apply(s, ts[0])) {
        RunFrom(Apply(s, ts[0]), ts[1..]);
      }
    }
  }

  /** Over every interleaving of requests and sender threads, slots are owned exclusively,
      with streams and locks to match, throughout if and only if every step meets its guard. */
  lemma RunExclusive(ts: seq<Step>)
    requires EnabledRun(START, ts)
    ensures GoodThroughout(START, ts) <==> GuardedThroughout(START, ts)
  {
    assert forall i :: 0 <= i < SLOTS ==> SlotOk(START, i);
    RunFrom(START, ts);
  }

  /** A concrete run that shares a slot: a receiving transfer leaves its slot unlocked, and
      the next part request of the same peer takes that slot. */
  lemma ReceiverLosesSlot(sha: string, other: string)
    ensures var s := Apply(Apply(START, StartReceive(sha, 10, 1, true, true)), RequestPart(other, 20, 1));
            s.jobs == [Receiver(0), PartSender(0, false)] && !Exclusive(s.jobs)
  {
    var s1 := Apply(START, StartReceive(sha, 10, 1, true, true));
    assert FirstUnlocked(START.slots, 0) == 0;
    assert FirstUnlocked(s1.slots, 0) == 0;
    var s2 := Apply(s1, RequestPart(other, 20, 1));
    assert s2.jobs[0] == Receiver(0) && s2.jobs[1] == PartSender(0, false);
  }

  // ------------------------------------------------------------- counting

  function OwnerCount(jobs: seq<Job>): nat {
    if jobs == [] then 0 else (if Owns(jobs[0]) then 1 else 0) + OwnerCount(jobs[1..])
  }

  ghost function OwnedSlots(jobs: seq<Job>): set<nat> {
    set j | j in jobs && Owns(j) :: j.slot
  }

  ghost function IdleSlots(s: Slots): set<nat> {
    set i: nat | i < SLOTS && !s[i].file
  }

  lemma {:induction false} DistinctOwners(jobs: seq<Job>)
    requires Exclusive(jobs)
    ensures |OwnedSlots(jobs)| == OwnerCount(jobs)
    decreases |jobs|
  {
    if jobs != [] {
      var rest := jobs[1..];
      assert jobs == [jobs[0]] + rest;
      assert forall k :: 0 <= k < |rest| ==> rest[k] == jobs[k + 1];
      DistinctOwners(rest);
      if Owns(jobs[0]) {
        assert jobs[0].slot !in OwnedSlots(rest);
        assert OwnedSlots(jobs) == OwnedSlots(rest) + {jobs[0].slot};
      } else {
        assert OwnedSlots(jobs) == OwnedSlots(rest);
      }
    }
  }

  function Below(n: nat): (r: set<nat>)
    ensures |r| == n && forall i: nat :: i in r <==> i < n
  {
    if n == 0 then {} else Below(n - 1) + {n - 1}
  }

  /** In a good state every slot is idle or owned by one transfer: together they are 64. */
  lemma SlotsAreConserved(s: State)
    requires Inv(s)
    ensures |IdleSlots(s.slots)| + OwnerCount(s.jobs) == SLOTS
  {
    var idle, owned := IdleSlots(s.slots), OwnedSlots(s.jobs);
    DistinctOwners(s.jobs);
    forall i: nat | i < SLOTS
      ensures i in owned <==> s.slots[i].file
    {
      assert SlotOk(s, i);
      if s.slots[i].file {
        var j :| 0 <= j < |s.jobs| && Owns(s.jobs[j]) && s.jobs[j].slot == i;
        assert s.jobs[j] in s.jobs;
      }
    }
    assert idle !! owned;
    assert idle + owned == Below(SLOTS);
  }

  /** The transfer holds the lock of its slot. */
  predicate Holds(j: Job) { j.PartSender? && !j.unlocked }

  predicate IsMeta(j: Job) { j.MetaSender? }

  function One(b: bool): nat { if b then 1 else 0 }

  /** How many transfers in flight are of the kind `f`. */
  function Jobs(jobs: seq<Job>, f: Job -> bool): nat {
    if jobs == [] then 0 else One(f(jobs[0])) + Jobs(jobs[1..], f)
  }

  lemma {:induction false} JobsAppend(jobs: seq<Job>, j: Job, f: Job -> bool)
    ensures Jobs(jobs + [j], f) == Jobs(jobs, f) + One(f(j))
    decreases |jobs|
  {
    if jobs == [] {
      assert jobs + [j] == [j];
    } else {
      assert (jobs + [j])[1..] == jobs[1..] + [j];
      JobsAppend(jobs[1..], j, f);
    }
  }

  lemma {:induction false} JobsChange(jobs: seq<Job>, k: nat, j: Job, f: Job -> bool)
    requires k < |jobs|
    ensures Jobs(Without(jobs, k), f) + One(f(jobs[k])) == Jobs(jobs, f)
    ensures Jobs(jobs[k := j], f) == Jobs(Without(jobs, k), f) + One(f(j))
    decreases |jobs|
  {
    if k == 0 {
      assert Without(jobs, 0) == jobs[1..] && jobs[0 := j][1..] == jobs[1..];
    } else {
      assert Without(jobs, k)[1..] == Without(jobs[1..], k - 1) && jobs[k := j][1..] == jobs[1..][k - 1 := j];
      JobsChange(jobs[1..], k - 1, j, f);
    }
  }

  /** A metadata transfer that got a slot. */
  predicate TakesForMetadata(s: State, t: Step) { t.RequestTransfer? && FirstUnlocked(s.slots, 0) < SLOTS }

  /** What one step does to the two lock counters and to the number of metadata threads. */
  ghost predicate Accounts(s: State, t: Step, s': State) {
    && s'.locks + Jobs(s.jobs, Holds) + One(t.MetaUnlock?) + s.unlocks == s'.unlocks + Jobs(s'.jobs, Holds) + s.locks
    && Jobs(s'.jobs, IsMeta) + One(t.MetaUnlock?) == Jobs(s.jobs, IsMeta) + One(TakesForMetadata(s, t))
  }

  lemma RequestAccounts(s: State, t: Step)
    requires t.RequestTransfer? || t.RequestPart? || t.StartReceive?
    ensures Accounts(s, t, Apply(s, t))
  {
    var i := FirstUnlocked(s.slots, 0);
    var j := if t.RequestTransfer? then MetaSender(i, false)
             else if t.RequestPart? then PartSender(i, false) else Receiver(i);
    JobsAppend(s.jobs, j, Holds);
    JobsAppend(s.jobs, j, IsMeta);
  }

  lemma JobAccounts(s: State, k: nat, j: Job)
    requires k < |s.jobs|
    ensures Jobs(Without(s.jobs, k), Holds) + One(Holds(s.jobs[k])) == Jobs(s.jobs, Holds)
    ensures Jobs(s.jobs[k := j], Holds) == Jobs(Without(s.jobs, k), Holds) + One(Holds(j))
    ensures Jobs(Without(s.jobs, k), IsMeta) + One(IsMeta(s.jobs[k])) == Jobs(s.jobs, IsMeta)
    ensures Jobs(s.jobs[k := j], IsMeta) == Jobs(Without(s.jobs, k), IsMeta) + One(IsMeta(j))
  {
    JobsChange(s.jobs, k, j, Holds);
    JobsChange(s.jobs, k, j, IsMeta);
  }

  lemma StepAccounts(s: State, t: Step)
    requires Enabled(s, t)
    ensures Accounts(s, t, Apply(s, t))
  {
    match t
    case RequestTransfer => RequestAccounts(s, t);
    case RequestPart(_, _, _) => RequestAccounts(s, t);
    case StartReceive(_, _, _, _, _) => RequestAccounts(s, t);
    case FinishReceive(sha) =>
      var k := ReceiverOf(s.jobs, FirstSha(s.slots, sha, 0));
      if k < |s.jobs| { JobAccounts(s, k, s.jobs[k]); }
    case MetaClear(j) => JobAccounts(s, j, MetaSender(s.jobs[j].slot, true));
    case MetaUnlock(j) => JobAccounts(s, j, s.jobs[j]);
    case PartUnlock(j) => JobAccounts(s, j, PartSender(s.jobs[j].slot, true));
    case PartClear(j) => JobAccounts(s, j, s.jobs[j]);
  }

  ghost function RunTo(s: State, ts: seq<Step>): State
    requires EnabledRun(s, ts)
    decreases |ts|
  {
    if ts == [] then s else RunTo(Apply(s, ts[0]), ts[1..])
  }

  /** How many metadata threads of the run unlocked their slot. */
  function MetaUnlocks(ts: seq<Step>): (n: nat)
    ensures n == 0 <==> forall k :: 0 <= k < |ts| ==> !ts[k].MetaUnlock?
  {
    if ts == [] then 0
    else
      assert ts == [ts[0]] + ts[1..];
      One(ts[0].MetaUnlock?) + MetaUnlocks(ts[1..])
  }

  /** How many transfer requests of the run got a slot. */
  ghost function MetaTaken(s: State, ts: seq<Step>): nat
    requires EnabledRun(s, ts)
    decreases |ts|
  {
    if ts == [] then 0 else One(TakesForMetadata(s, ts[0])) + MetaTaken(Apply(s, ts[0]), ts[1..])
  }

  /** In every run, locks taken and locks given back differ by the locks still held and by
      one for each metadata thread that ended; those that ended and those still running
      are the transfer requests that got a slot. */
  lemma {:induction false} RunBalances(s: State, ts: seq<Step>)
    requires EnabledRun(s, ts)
    ensures var s' := RunTo(s, ts);
            && s'.locks + Jobs(s.jobs, Holds) + MetaUnlocks(ts) + s.unlocks
            == s'.unlocks + Jobs(s'.jobs, Holds) + s.locks
            && Jobs(s'.jobs, IsMeta) + MetaUnlocks(ts) == Jobs(s.jobs, IsMeta) + MetaTaken(s, ts)
    decreases |ts|
  {
    if ts != [] {
      StepAccounts(s, ts[0]);
      RunBalances(Apply(s, ts[0]), ts[1..]);
    }
  }

  /** In every run that ends with no transfer in flight, each lock taken was given back
      exactly once if and only if no metadata thread unlocked, that is, if and only if no
      transfer request ever got a slot: each one unlocks once more than it locks. */
  lemma ReleasedOnceIff(ts: seq<Step>)
    requires EnabledRun(START, ts) && RunTo(START, ts).jobs == []
    ensures RunTo(START, ts).unlocks == RunTo(START, ts).locks <==> forall k :: 0 <= k < |ts| ==> !ts[k].MetaUnlock?
    ensures RunTo(START, ts).unlocks == RunTo(START, ts).locks <==> MetaTaken(START, ts) == 0
  {
    RunBalances(START, ts);
  }

  // ------------------------------------------------------------- cleared slots

  /** Every slot without an open stream is in its cleared state. */
  ghost predicate Tidy(s: Slots) {
    forall i :: 0 <= i < SLOTS && !s[i].file ==> Cleared(s[i])
  }

  /** A receiving transfer whose file cannot be opened leaves what it recorded in its slot. */
  predicate LeavesRecord(s: State, t: Step) {
    t.StartReceive? && t.known && !t.opens && FirstUnlocked(s.slots, 0) < SLOTS
    && (t.sha, t.size, t.parts) != ("", 0, 0)
  }

  /** From a state where all slots without a stream are cleared, any step at all leads to
      such a state, except one that leaves a record behind, which never does. */
  lemma StepTidyIff(s: State, t: Step)
    requires Tidy(s.slots) && Enabled(s, t)
    ensures Tidy(Apply(s, t).slots) <==> !LeavesRecord(s, t)
  {
    var i := FirstUnlocked(s.slots, 0);
    if LeavesRecord(s, t) {
      assert !Apply(s, t).slots[i].file;
    }
  }

  ghost predicate TidyThroughout(s: State, ts: seq<Step>)
    requires EnabledRun(s, ts)
    decreases |ts|
  {
    Tidy(s.slots) && (ts == [] || TidyThroughout(Apply(s, ts[0]), ts[1..]))
  }

  ghost predicate NoRecordLeft(s: State, ts: seq<Step>)
    requires EnabledRun(s, ts)
    decreases |ts|
  {
    ts == [] || (!LeavesRecord(s, ts[0]) && NoRecordLeft(Apply(s, ts[0]), ts[1..]))
  }

  lemma {:induction false} TidyFrom(s: State, ts: seq<Step>)
    requires Tidy(s.slots) && EnabledRun(s, ts)
    ensures TidyThroughout(s, ts) <==> NoRecordLeft(s, ts)
    decreases |ts|
  {
    if ts != [] {
      StepTidyIff(s, ts[0]);
      if Tidy(Apply(s, ts[0]).slots) {
        TidyFrom(Apply(s, ts[0]), ts[1..]);
      }
    }
  }

  /** Over every run, shared slots or not: freed slots are cleared in each state if and only
      if no receiving transfer leaves a record behind. */
  lemma RunTidyIff(ts: seq<Step>)
    requires EnabledRun(START, ts)
    ensures TidyThroughout(START, ts) <==> NoRecordLeft(START, ts)
  {
    TidyFrom(START, ts);
  }

  /** What tidiness is for: a part whose hash is not empty is written to an open stream if
      it finds a slot at all. */
  lemma TidyLookupOpen(s: Slots, sha: string)
    requires Tidy(s) && sha != ""
    ensures FirstSha(s, sha, 0) < SLOTS ==> s[FirstSha(s, sha, 0)].file
  {
  }

  /** A concrete step that leaves a record: the slot of a transfer whose file cannot be
      opened is found by a later part for that hash, but has no stream. */
  lemma RecordWithoutStream(sha: string, size: nat, parts: nat)
    requires sha != ""
    ensures var s := Apply(START, StartReceive(sha, size, parts, true, false)).slots;
            !Tidy(s) && FirstSha(s, sha, 0) == 0 && !s[0].file
  {
    var s := Apply(START, StartReceive(sha, size, parts, true, false)).slots;
    assert FirstUnlocked(START.slots, 0) == 0;
    assert s[0] == Slot(false, false, false, sha, size, parts);
  }
}
