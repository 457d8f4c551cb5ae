/** The table of running transfers in core/filetransfermanager.c. */
module TransferStatus {

  const MAX_TRANSFERS: nat := 64

  datatype Helper =
    | Empty
    | Helper(sha: string, parts: seq<bool>, ready: nat)

  /** What a user interface is told; the size is never filled in and stays 0. */
  datatype Status = Status(sha: string, partsReady: nat, partCount: nat, fileSize: nat)

  type Tab = t: seq<Helper> | |t| == MAX_TRANSFERS witness seq(MAX_TRANSFERS, _ => Empty)

  const NO_TRANSFERS: Tab := seq(MAX_TRANSFERS, _ => Empty)

  function FreshHelper(sha: string, partCount: nat): Helper {
    Helper(sha, seq(partCount, _ => false), 0)
  }

  // ------------------------------------------------------------- the table

  /** Occupied slots form a prefix. */
  ghost predicate Prefix(t: Tab) {
    forall i, j :: 0 <= i < j < MAX_TRANSFERS && t[i].Empty? ==> t[j].Empty?
  }

  /** First empty slot at or after `from`, or MAX_TRANSFERS. */
  function FirstEmpty(t: Tab, from: nat): (i: nat)
    requires from <= MAX_TRANSFERS
    ensures from <= i <= MAX_TRANSFERS && (i < MAX_TRANSFERS ==> t[i].Empty?)
    ensures forall k :: from <= k < i ==> !t[k].Empty?
    decreases MAX_TRANSFERS - from
  {
    if from == MAX_TRANSFERS || t[from].Empty? then from else FirstEmpty(t, from + 1)
  }

  function AddTab(t: Tab, sha: string, partCount: nat): Tab {
    var i := FirstEmpty(t, 0);
    if i == MAX_TRANSFERS then t else t[i := FreshHelper(sha, partCount)]
  }

  /** What comes of comparing hashes slot by slot: a match, the end of the table, or an
      empty slot, whose hash the source dereferences although it is NULL. */
  datatype Found = At(i: nat) | Absent | NullHash

  function GetHelper(t: Tab, sha: string, from: nat): (f: Found)
    requires from <= MAX_TRANSFERS
    ensures f.At? ==> from <= f.i < MAX_TRANSFERS && t[f.i].Helper? && t[f.i].sha == sha
    decreases MAX_TRANSFERS - from
  {
    if from == MAX_TRANSFERS then Absent
    else if t[from].Empty? then NullHash
    else if t[from].sha == sha then At(from)
    else GetHelper(t, sha, from + 1)
  }

  ghost predicate Added(t: Tab, sha: string) {
    exists i :: 0 <= i < MAX_TRANSFERS && t[i].Helper? && t[i].sha == sha
  }

  lemma {:induction false} GetHelperFrom(t: Tab, sha: string, from: nat)
    requires Prefix(t) && from <= MAX_TRANSFERS && forall k :: 0 <= k < from ==> t[k].Helper? && t[k].sha != sha
    ensures GetHelper(t, sha, from).At? <==> Added(t, sha)
    ensures GetHelper(t, sha, from).NullHash? <==> !Added(t, sha) && t[MAX_TRANSFERS - 1].Empty?
    decreases MAX_TRANSFERS - from
  {
    if from < MAX_TRANSFERS && t[from].Helper? && t[from].sha != sha {
      GetHelperFrom(t, sha, from + 1);
    }
  }

  /** Looking up a hash that was added finds it before any empty slot; looking up any other
      hash runs into an empty slot, unless the table is full. */
  lemma LookupStopsInTime(t: Tab, sha: string)
    requires Prefix(t)
    ensures GetHelper(t, sha, 0).At? <==> Added(t, sha)
    ensures GetHelper(t, sha, 0).NullHash? <==> !Added(t, sha) && t[MAX_TRANSFERS - 1].Empty?
  {
    GetHelperFrom(t, sha, 0);
  }

  /** Marks a part and counts the delivery; a part number outside the array is not marked. */
  function MarkReady(h: Helper, part: nat): Helper
    requires h.Helper?
  {
    h.(parts := if part < |h.parts| then h.parts[part := true] else h.parts, ready := h.ready + 1)
  }

  function ReadyTab(t: Tab, sha: string, part: nat): Tab {
    match GetHelper(t, sha, 0)
    case At(i) => t[i := MarkReady(t[i], part)]
    case _ => t
  }

  function StatusOf(h: Helper): Status
    requires h.Helper?
  {
    Status(h.sha, h.ready, |h.parts|, 0)
  }

  /** All transfers, in table order. */
  function Listing(t: seq<Helper>): seq<Status> {
    if t == [] then []
    else (if t[0].Helper? then [StatusOf(t[0])] else []) + Listing(t[1..])
  }

  function Occupied(t: Tab): nat { FirstEmpty(t, 0) }

  lemma {:induction false} ListingOfPrefix(t: seq<Helper>, n: nat)
    requires n <= |t| && (forall i :: 0 <= i < n ==> t[i].Helper?) && (forall i :: n <= i < |t| ==> t[i].Empty?)
    ensures |Listing(t)| == n && forall i :: 0 <= i < n ==> Listing(t)[i] == StatusOf(t[i])
    decreases |t|
  {
    if t != [] {
      ListingOfPrefix(t[1..], if n == 0 then 0 else n - 1);
    }
  }

  lemma OccupiedPrefix(t: Tab)
    requires Prefix(t)
    ensures var n := Occupied(t);
            (forall i :: 0 <= i < n ==> t[i].Helper?) && (forall i :: n <= i < MAX_TRANSFERS ==> t[i].Empty?)
  {
  }

  lemma AddKeepsPrefix(t: Tab, sha: string, partCount: nat)
    requires Prefix(t)
    ensures Prefix(AddTab(t, sha, partCount))
  {
  }

  lemma AddInRoom(t: Tab, sha: string, partCount: nat, n: nat)
    requires n < MAX_TRANSFERS && (forall i :: 0 <= i < n ==> t[i].Helper?)
             && (forall i :: n <= i < MAX_TRANSFERS ==> t[i].Empty?)
    ensures |Listing(t)| == n
    ensures Listing(t[n := FreshHelper(sha, partCount)]) == Listing(t) + [Status(sha, 0, partCount, 0)]
  {
    var t' := t[n := FreshHelper(sha, partCount)];
    ListingOfPrefix(t, n);
    ListingOfPrefix(t', n + 1);
    assert Listing(t')[n] == StatusOf(t'[n]) == Status(sha, 0, partCount, 0);
    assert forall i :: 0 <= i < n ==> Listing(t')[i] == Listing(t)[i];
  }

  /** A new transfer joins the listing at its end as long as there is room, and the others
      keep their places: the listing is the transfers in order of addition. */
  lemma AddListsLast(t: Tab, sha: string, partCount: nat)
    requires Prefix(t)
    ensures Prefix(AddTab(t, sha, partCount))
    ensures Listing(AddTab(t, sha, partCount))
            == if |Listing(t)| < MAX_TRANSFERS then Listing(t) + [Status(sha, 0, partCount, 0)]
                                                  else Listing(t)
  {
    var n := Occupied(t);
    OccupiedPrefix(t);
    AddKeepsPrefix(t, sha, partCount);
    if n < MAX_TRANSFERS {
      AddInRoom(t, sha, partCount, n);
    } else {
      ListingOfPrefix(t, n);
    }
  }

  lemma {:induction false} SameEmptySlots(t: Tab, t': Tab, from: nat)
    requires from <= MAX_TRANSFERS && forall i :: 0 <= i < MAX_TRANSFERS ==> t'[i].Empty? == t[i].Empty?
    ensures FirstEmpty(t', from) == FirstEmpty(t, from)
    decreases MAX_TRANSFERS - from
  {
    if from < MAX_TRANSFERS {
      SameEmptySlots(t, t', from + 1);
    }
  }

  lemma ReadyKeepsPrefix(t: Tab, sha: string, part: nat)
    requires Prefix(t)
    ensures Prefix(ReadyTab(t, sha, part))
    ensures Occupied(ReadyTab(t, sha, part)) == Occupied(t)
  {
    SameEmptySlots(t, ReadyTab(t, sha, part), 0);
  }

  /** A delivered part changes only the counter of its own transfer in the listing. */
  lemma ReadyListsInPlace(t: Tab, sha: string, part: nat, k: nat)
    requires Prefix(t) && k < |Listing(t)|
    ensures |Listing(ReadyTab(t, sha, part))| == |Listing(t)|
    ensures Listing(ReadyTab(t, sha, part))[k] ==
            Listing(t)[k].(partsReady := Listing(t)[k].partsReady + if GetHelper(t, sha, 0) == At(k) then 1 else 0)
  {
    var n := Occupied(t);
    ReadyKeepsPrefix(t, sha, part);
    OccupiedPrefix(t);
    OccupiedPrefix(ReadyTab(t, sha, part));
    ListingOfPrefix(t, n);
    ListingOfPrefix(ReadyTab(t, sha, part), n);
  }

  // ------------------------------------------------------------- counting parts

  function Delivered(h: Helper, parts: seq<nat>): (r: Helper)
    requires h.Helper?
    ensures r.Helper?
  {
    if parts == [] then h else MarkReady(Delivered(h, parts[..|parts| - 1]), parts[|parts| - 1])
  }

  function CountTrue(s: seq<bool>): (n: nat)
    ensures n <= |s|
  {
    if s == [] then 0 else (if s[0] then 1 else 0) + CountTrue(s[1..])
  }

  ghost predicate NoRepeats(s: seq<nat>) {
    forall i, j :: 0 <= i < j < |s| ==> s[i] != s[j]
  }

  lemma {:induction false} CountMark(s: seq<bool>, k: nat)
    requires k < |s|
    ensures CountTrue(s[k := true]) == CountTrue(s) + if s[k] then 0 else 1
    decreases |s|
  {
    if k > 0 {
      assert s[k := true][1..] == s[1..][k - 1 := true];
      CountMark(s[1..], k - 1);
    } else {
      assert s[0 := true][1..] == s[1..];
    }
  }

  lemma {:induction false} CountNone(n: nat)
    ensures CountTrue(seq(n, _ => false)) == 0
  {
    if n > 0 {
      assert seq(n, _ => false)[1..] == seq(n - 1, _ => false);
      CountNone(n - 1);
    }
  }

  lemma NoRepeatsLast(front: seq<nat>, last: nat)
    ensures NoRepeats(front + [last]) <==> NoRepeats(front) && last !in front
  {
    var s := front + [last];
    assert forall i :: 0 <= i < |front| ==> s[i] == front[i];
    assert s[|front|] == last;
  }

  /** The number of marked parts never exceeds the part count nor the ready counter, and
      equals the ready counter exactly when no part arrived twice. */
  lemma {:induction false} ReadyCountIff(sha: string, partCount: nat, parts: seq<nat>)
    requires forall i :: 0 <= i < |parts| ==> parts[i] < partCount
    ensures var h := Delivered(FreshHelper(sha, partCount), parts);
            && |h.parts| == partCount && h.ready == |parts|
            && (forall k :: 0 <= k < partCount ==> (h.parts[k] <==> k in parts))
            && CountTrue(h.parts) <= h.ready
            && (CountTrue(h.parts) == h.ready <==> NoRepeats(parts))
    decreases |parts|
  {
    if parts == [] {
      CountNone(partCount);
    } else {
      var front, last := parts[..|parts| - 1], parts[|parts| - 1];
      ReadyCountIff(sha, partCount, front);
      var h := Delivered(FreshHelper(sha, partCount), front);
      CountMark(h.parts, last);
      assert parts == front + [last];
      NoRepeatsLast(front, last);
    }
  }

  // ------------------------------------------------------------- the array

  class FileTransfers {
    const slots: array<Helper>

    ghost predicate Valid()
      reads this, slots
    {
      slots.Length == MAX_TRANSFERS && Prefix(slots[..])
    }

    /** `filetransfermanager_init` */
    constructor ()
      ensures Valid() && fresh(slots) && slots[..] == NO_TRANSFERS
    {
      slots := new Helper[MAX_TRANSFERS](_ => Empty);
    }

    /** `filetransfer_add` */
    method Add(sha: string, partCount: nat) returns (r: int)
      requires Valid()
      modifies slots
      ensures Valid() && slots[..] == AddTab(old(slots[..]), sha, partCount)
      ensures r == if Occupied(old(slots[..])) < MAX_TRANSFERS then 0 else -1
    {
      ghost var t := slots[..];
      AddKeepsPrefix(t, sha, partCount);
      var i := 0;
      while i < MAX_TRANSFERS
        invariant 0 <= i <= MAX_TRANSFERS && unchanged(slots)
        invariant FirstEmpty(t, 0) == FirstEmpty(t, i)
      {
        if slots[i].Empty? {
          slots[i] := FreshHelper(sha, partCount);
          assert slots[..] == AddTab(t, sha, partCount);
          return 0;
        }
        i := i + 1;
      }
      return -1;
    }

    /** `filetransfer_part_ready`.  Where the search meets an empty row, the source compares
        with a NULL hash; the model reports that and changes nothing. */
    method PartReady(sha: string, part: nat) returns (f: Found)
      requires Valid()
      modifies slots
      ensures Valid() && slots[..] == ReadyTab(old(slots[..]), sha, part)
      ensures f == GetHelper(old(slots[..]), sha, 0)
    {
      ghost var t := slots[..];
      ReadyKeepsPrefix(t, sha, part);
      var i := 0;
      while i < MAX_TRANSFERS
        invariant 0 <= i <= MAX_TRANSFERS && unchanged(slots)
        invariant GetHelper(t, sha, 0) == GetHelper(t, sha, i)
      {
        if slots[i].Empty? { return NullHash; }
        if slots[i].sha == sha {
          slots[i] := MarkReady(slots[i], part);
          assert slots[..] == ReadyTab(t, sha, part);
          return At(i);
        }
        i := i + 1;
      }
      return Absent;
    }

    method CountStatuses(ghost n: nat) returns (count: nat)
      requires Valid() && n == Occupied(slots[..])
      ensures count == n
    {
      OccupiedPrefix(slots[..]);
      count := 0;
      for i := 0 to MAX_TRANSFERS
        invariant count == if i <= n then i else n
      {
        assert slots[i] == slots[..][i];
        if slots[i].Helper? { count := count + 1; }
      }
    }

    /** `filetransfer_get_statuses`: counts first, then fills an array of that size at the
        slots' own indices, which stays inside it only because the slots form a prefix. */
    method GetStatuses() returns (ret: array<Status>)
      requires Valid()
      ensures fresh(ret) && ret[..] == Listing(slots[..])
    {
      ghost var t := slots[..];
      ghost var n := Occupied(t);
      OccupiedPrefix(t);
      var count := CountStatuses(n);
      ret := new Status[count](_ => Status("", 0, 0, 0));
      for i := 0 to MAX_TRANSFERS
        invariant fresh(ret) && ret.Length == n && slots[..] == t
        invariant forall k :: 0 <= k < i && k < n ==> ret[k] == StatusOf(t[k])
      {
        assert slots[i] == t[i];
        if slots[i].Helper? {
          ret[i] := StatusOf(slots[i]);
        }
      }
      ListingOfPrefix(t, n);
    }
  }
}
