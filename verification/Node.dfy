/** The file-transfer handlers of core/handlers.c at one node, for one remote peer. */
module Node {
  import opened Bytes
  import opened Collections
  import opened FileParts
  import opened Metadata
  import opened Reassembly
  import T = TransferSlots
  import S = TransferStatus

  /** The stream of a slot.  Metadata is opened "r", a file "r+" both for sending one of its
      parts and for receiving it. */
  datatype Stream = Closed | MetadataOf(sha: string) | FileNamed(name: seq<byte>, receives: bool)

  predicate Receives(s: Stream) { s.FileNamed? && s.receives }

  predicate SendsPart(s: Stream) { s.FileNamed? && !s.receives }

  /** The files, the stored metadata, the "Filename" entries of the configuration, the
      peer's transfer slots with their streams, and the table of running transfers. */
  datatype NodeState = NodeState(
    files: map<seq<byte>, seq<byte>>,
    metadata: Store,
    filenames: map<string, seq<byte>>,
    slots: T.Slots,
    streams: seq<Stream>,
    transfers: S.Tab)

  datatype Message =
    | RequestTransfer(sha: string)
    | MetadataMsg(fileSize: nat, partCount: nat, content: seq<byte>)
    | RequestPart(part: nat, sha: string)
    | PartMsg(part: nat, sha: string, data: seq<byte>)

  /** What a sender thread starts with. */
  datatype Thread = Thread(slot: nat, fileSize: nat, partCount: nat, part: nat)

  predicate Shaped(n: NodeState) { |n.streams| == T.SLOTS }

  function ContentOr<K, V>(m: map<K, V>, k: K, other: V): V { if k in m then m[k] else other }

  function UseSlot(n: NodeState, i: nat, slot: T.Slot, stream: Stream): (r: NodeState)
    requires Shaped(n) && i < T.SLOTS
    ensures Shaped(r)
  {
    n.(slots := n.slots[i := slot], streams := n.streams[i := stream])
  }

  // ------------------------------------------------------------- the sender

  /** `handlefiletransfer`: a slot gets the metadata file, and a thread is started with the
      size and part count of the file itself. */
  function OnTransferRequest(n: NodeState, known: bool, sha: string): (NodeState, Option<Thread>)
    requires Shaped(n)
  {
    if !known || sha !in n.filenames || sha !in n.metadata || n.filenames[sha] !in n.files then (n, None)
    else
      var i := T.FirstUnlocked(n.slots, 0);
      if i == T.SLOTS then (n, None)
      else
        var size := |n.files[n.filenames[sha]]|;
        (UseSlot(n, i, n.slots[i].(file := true, writable := false), MetadataOf(sha)),
         Some(Thread(i, size, PartCount(size), 0)))
  }

  function MetadataMsgs(sends: seq<Sent>, td: Thread): (r: seq<Message>)
    ensures forall k :: 0 <= k < |r| ==> r[k].MetadataMsg?
  {
    if sends == [] || sends[0].Overrun? then []
    else [MetadataMsg(td.fileSize, td.partCount, sends[0].content)] + MetadataMsgs(sends[1..], td)
  }

  /** `pthread_mutex_unlock` and `clear_file_transfer` on a slot. */
  function Unlocked(n: NodeState, i: nat): (r: NodeState)
    requires Shaped(n) && i < T.SLOTS
    ensures Shaped(r)
  {
    UseSlot(n, i, n.slots[i].(locked := false), n.streams[i])
  }

  function Cleared(n: NodeState, i: nat): (r: NodeState)
    requires Shaped(n) && i < T.SLOTS
    ensures Shaped(r)
  {
    UseSlot(n, i, T.Clear(n.slots[i]), Closed)
  }

  /** The metadata thread sends and clears the slot; unlocking it is a step of its own.
      Messages from the first one on whose content is outside the buffer are left out. */
  function MetadataThreadSends(n: NodeState, td: Thread): (r: (NodeState, seq<Message>))
    requires Shaped(n) && td.slot < T.SLOTS
    ensures Shaped(r.0)
  {
    var sends := match n.streams[td.slot] {
                   case MetadataOf(sha) => MetadataSends(ContentOr(n.metadata, sha, []))
                   case _ => []
                 };
    (Cleared(n, td.slot), MetadataMsgs(sends, td))
  }

  /** Both steps with nothing in between. */
  function RunMetadataThread(n: NodeState, td: Thread): (r: (NodeState, seq<Message>))
    requires Shaped(n) && td.slot < T.SLOTS
    ensures Shaped(r.0)
  {
    var (n1, msgs) := MetadataThreadSends(n, td);
    (Unlocked(n1, td.slot), msgs)
  }

  /** `handlefilepartrequest` */
  function OnPartRequest(n: NodeState, known: bool, part: nat, sha: string): (r: (NodeState, Option<Thread>))
    requires Shaped(n)
    ensures Shaped(r.0) && (r.1.Some? ==> r.1.value.slot < T.SLOTS)
  {
    if !known || sha !in n.filenames || n.filenames[sha] !in n.files then (n, None)
    else
      var i := T.FirstUnlocked(n.slots, 0);
      if i == T.SLOTS then (n, None)
      else
        var size := |n.files[n.filenames[sha]]|;
        (UseSlot(n, i, T.Slot(true, true, true, sha, size, PartCount(size)), FileNamed(n.filenames[sha], false)),
         Some(Thread(i, size, PartCount(size), part)))
  }

  /** The part thread sends and unlocks; clearing the slot is a step of its own, and until
      then the slot is unlocked with its stream still open. */
  function PartThreadSends(n: NodeState, td: Thread): (r: (NodeState, Option<Message>))
    requires Shaped(n) && td.slot < T.SLOTS
    ensures Shaped(r.0)
  {
    var slot := n.slots[td.slot];
    var sent := match n.streams[td.slot] {
                  case FileNamed(name, _) => SendPart(Reading(ContentOr(n.files, name, []), 0, slot.size), td.part)
                  case _ => Overrun
                };
    (Unlocked(n, td.slot), if sent.Sent? then Some(PartMsg(td.part, slot.sha, sent.content)) else None)
  }

  /** Both steps with nothing in between. */
  function RunPartThread(n: NodeState, td: Thread): (r: (NodeState, Option<Message>))
    requires Shaped(n) && td.slot < T.SLOTS
    ensures Shaped(r.0)
  {
    var (n1, msg) := PartThreadSends(n, td);
    (Cleared(n1, td.slot), msg)
  }

  // ------------------------------------------------------------- the receiver

  /** `create_file_transfer`; `opens` says whether the file can be opened for writing.  A
      missing file is made empty first: the write behind the seek has no bytes. */
  function CreateTransfer(n: NodeState, sha: string, size: nat, parts: nat, opens: bool): (r: (NodeState, bool))
    requires Shaped(n)
    ensures Shaped(r.0)
  {
    var i := T.FirstUnlocked(n.slots, 0);
    if i == T.SLOTS || sha !in n.filenames then (n, false)
    else
      var name := n.filenames[sha];
      var n1 := n.(files := n.files[name := ContentOr(n.files, name, [])]);
      var stream := if opens then FileNamed(name, true) else Closed;
      (UseSlot(n1, i, T.Slot(false, opens, opens, sha, size, parts), stream), opens)
  }

  /** `handlemetadata`; it always asks for part 0. */
  function OnMetadata(n: NodeState, known: bool, opens: bool, m: Message): (r: (NodeState, Option<Message>))
    requires Shaped(n) && m.MetadataMsg?
    ensures Shaped(r.0)
  {
    match Parse(m.content)
    case NoMetadata => (n, None)
    case Parsed(name, sha, _) =>
      if !known then (n, None)
      else
        var key := Hex(sha);
        var n1 := n.(transfers := S.AddTab(n.transfers, key, m.partCount),
                     metadata := StoreMetadata(n.metadata, m.content),
                     filenames := n.filenames[key := name]);
        var (n2, ok) := CreateTransfer(n1, key, m.fileSize, m.partCount, opens);
        (n2, if ok then Some(RequestPart(0, key)) else None)
  }

  /** The part finds no slot, or one whose lock is free and whose stream is open.  A held
      lock is waited for; without a stream the source seeks on a NULL pointer. */
  predicate Acceptable(n: NodeState, sha: string)
    requires Shaped(n)
  {
    var i := T.FirstSha(n.slots, sha, 0);
    i < T.SLOTS ==> n.streams[i] != Closed && !n.slots[i].locked
  }

  /** The part goes to the stream of slot `i`.  Writing to metadata fails, and writing no
      bytes counts as a failure.  Where counting the part meets a NULL hash, the model goes
      on without counting. */
  function Stored(n: NodeState, i: nat, m: Message): (r: NodeState)
    requires Shaped(n) && m.PartMsg? && i < T.SLOTS
    ensures Shaped(r)
  {
    if !n.streams[i].FileNamed? || m.data == [] then n
    else
      var name := n.streams[i].name;
      var n1 := n.(files := n.files[name := WriteAt(ContentOr(n.files, name, []), SeekOffset(m.part), m.data)],
                   transfers := S.ReadyTab(n.transfers, m.sha, m.part));
      if Clears(m.part, m.data) then Cleared(n1, i) else n1
  }

  /** `handlefilepart` from a known peer, into the first slot with this hash. */
  function OnPart(n: NodeState, m: Message): (r: NodeState)
    requires Shaped(n) && m.PartMsg? && Acceptable(n, m.sha)
    ensures Shaped(r)
  {
    var i := T.FirstSha(n.slots, m.sha, 0);
    if i == T.SLOTS then n else Stored(n, i, m)
  }

  /** What a metadata message leaves behind when a slot is free: an empty file if there was
      none, the name under the hash, and the sizes of the message in the slot. */
  lemma MetadataEffect(n: NodeState, opens: bool, m: Message)
    requires Shaped(n) && m.MetadataMsg? && Parse(m.content).Parsed? && T.FirstUnlocked(n.slots, 0) < T.SLOTS
    ensures var (n', reply) := OnMetadata(n, true, opens, m);
            var name, sha, i := Parse(m.content).name, Hex(Parse(m.content).sha), T.FirstUnlocked(n.slots, 0);
            && reply == (if opens then Some(RequestPart(0, sha)) else None)
            && n'.files == (if name in n.files then n.files else n.files[name := []])
            && n'.filenames == n.filenames[sha := name]
            && n'.slots[i].sha == sha && n'.slots[i].size == m.fileSize && n'.slots[i].parts == m.partCount
            && n'.slots[i].file == opens && !n'.slots[i].locked
            && n'.streams[i] == (if opens then FileNamed(name, true) else Closed)
            && n'.transfers == S.AddTab(n.transfers, sha, m.partCount)
            && forall k :: 0 <= k < T.SLOTS && k != i ==> n'.slots[k] == n.slots[k] && n'.streams[k] == n.streams[k]
  {
    var (n', _) := OnMetadata(n, true, opens, m);
    var name := Parse(m.content).name;
    assert name in n.files ==> n.files[name := n.files[name]] == n.files;
  }

  /** A request or metadata from a peer that is not in the table is dropped; so is a request
      for a hash without an entry, and a part that finds no slot.  When no lock is free,
      requests are dropped as well, and metadata is stored without a request for a part. */
  lemma Dropped(n: NodeState, known: bool, opens: bool, part: nat, sha: string, m: Message)
    requires Shaped(n)
    ensures !known || sha !in n.filenames ==> OnTransferRequest(n, known, sha) == (n, None)
    ensures !known || sha !in n.filenames ==> OnPartRequest(n, known, part, sha) == (n, None)
    ensures m.MetadataMsg? && !known ==> OnMetadata(n, known, opens, m) == (n, None)
    ensures m.MetadataMsg? && T.FirstUnlocked(n.slots, 0) == T.SLOTS ==>
              var (n', reply) := OnMetadata(n, known, opens, m);
              reply == None && n'.slots == n.slots && n'.streams == n.streams && n'.files == n.files
    ensures T.FirstUnlocked(n.slots, 0) == T.SLOTS ==>
              OnTransferRequest(n, known, sha) == (n, None) && OnPartRequest(n, known, part, sha) == (n, None)
    ensures m.PartMsg? && (forall i :: 0 <= i < T.SLOTS ==> n.slots[i].sha != m.sha) ==>
              Acceptable(n, m.sha) && OnPart(n, m) == n
  {
  }

  // ------------------------------------------------------------- consistency

  ghost predicate StreamConsistent(n: NodeState, slot: T.Slot, stream: Stream) {
    && (slot.file <==> stream != Closed)
    && (slot.writable <==> stream.FileNamed?)
    && (stream.FileNamed? ==> stream.name in n.files)
    && (Receives(stream) ==> !S.GetHelper(n.transfers, slot.sha, 0).NullHash?)
  }

  ghost predicate SlotConsistent(n: NodeState, i: nat)
    requires Shaped(n) && i < T.SLOTS
  {
    StreamConsistent(n, n.slots[i], n.streams[i])
  }

  /** The slots say which streams are open, open files exist, the table of transfers is a
      prefix, and looking up the hash of a file that is being received never meets an empty
      row of it. */
  ghost predicate Consistent(n: NodeState) {
    Shaped(n) && S.Prefix(n.transfers) && forall i :: 0 <= i < T.SLOTS ==> SlotConsistent(n, i)
  }

  lemma AddedNeverNull(t: S.Tab, sha: string, parts: nat, other: string)
    requires S.Prefix(t)
    ensures var t' := S.AddTab(t, sha, parts);
            && S.Prefix(t') && !S.GetHelper(t', sha, 0).NullHash?
            && (!S.GetHelper(t, other, 0).NullHash? ==> !S.GetHelper(t', other, 0).NullHash?)
  {
    var t' := S.AddTab(t, sha, parts);
    var i := S.FirstEmpty(t, 0);
    S.AddKeepsPrefix(t, sha, parts);
    S.LookupStopsInTime(t, other);
    S.LookupStopsInTime(t', sha);
    S.LookupStopsInTime(t', other);
    if i < S.MAX_TRANSFERS {
      assert t'[i].Helper? && t'[i].sha == sha;
    }
    if S.Added(t, other) {
      var k :| 0 <= k < S.MAX_TRANSFERS && t[k].Helper? && t[k].sha == other;
      assert t'[k] == t[k];
    }
  }

  lemma ReadyNeverNull(t: S.Tab, sha: string, part: nat, other: string)
    requires S.Prefix(t) && !S.GetHelper(t, other, 0).NullHash?
    ensures !S.GetHelper(S.ReadyTab(t, sha, part), other, 0).NullHash?
  {
    var t' := S.ReadyTab(t, sha, part);
    S.ReadyKeepsPrefix(t, sha, part);
    S.LookupStopsInTime(t, other);
    S.LookupStopsInTime(t', other);
    if S.Added(t, other) {
      var k :| 0 <= k < S.MAX_TRANSFERS && t[k].Helper? && t[k].sha == other;
      assert t'[k].Helper? && t'[k].sha == other;
    }
  }

  /** Giving slot `i` a new content keeps the node consistent when they match. */
  lemma UseSlotConsistent(n: NodeState, i: nat, slot: T.Slot, stream: Stream)
    requires Consistent(n) && i < T.SLOTS && StreamConsistent(n, slot, stream)
    ensures Consistent(UseSlot(n, i, slot, stream))
  {
    forall k | 0 <= k < T.SLOTS
      ensures SlotConsistent(UseSlot(n, i, slot, stream), k)
    {
      assert SlotConsistent(n, k);
    }
  }

  lemma SlotStepsConsistent(n: NodeState, i: nat)
    requires Consistent(n) && i < T.SLOTS
    ensures Consistent(Unlocked(n, i)) && Consistent(Cleared(n, i))
  {
    assert SlotConsistent(n, i);
    UseSlotConsistent(n, i, n.slots[i].(locked := false), n.streams[i]);
    UseSlotConsistent(n, i, T.Clear(n.slots[i]), Closed);
  }

  lemma SenderConsistent(n: NodeState, known: bool, part: nat, sha: string, td: Thread)
    requires Consistent(n) && td.slot < T.SLOTS
    ensures Consistent(OnTransferRequest(n, known, sha).0) && Consistent(OnPartRequest(n, known, part, sha).0)
    ensures Consistent(MetadataThreadSends(n, td).0) && Consistent(PartThreadSends(n, td).0)
    ensures Consistent(Unlocked(n, td.slot)) && Consistent(Cleared(n, td.slot))
  {
    SlotStepsConsistent(n, td.slot);
    var i := T.FirstUnlocked(n.slots, 0);
    if i < T.SLOTS && sha in n.filenames && n.filenames[sha] in n.files {
      var size := |n.files[n.filenames[sha]]|;
      UseSlotConsistent(n, i, n.slots[i].(file := true, writable := false), MetadataOf(sha));
      UseSlotConsistent(n, i, T.Slot(true, true, true, sha, size, PartCount(size)), FileNamed(n.filenames[sha], false));
    }
  }

  lemma MetadataConsistent(n: NodeState, known: bool, opens: bool, m: Message)
    requires Consistent(n) && m.MetadataMsg?
    ensures Consistent(OnMetadata(n, known, opens, m).0)
  {
    if Parse(m.content).Parsed? && known {
      var p := Parse(m.content);
      var key := Hex(p.sha);
      var n1 := n.(transfers := S.AddTab(n.transfers, key, m.partCount),
                   metadata := StoreMetadata(n.metadata, m.content),
                   filenames := n.filenames[key := p.name],
                   files := n.files[p.name := ContentOr(n.files, p.name, [])]);
      forall k | 0 <= k < T.SLOTS
        ensures SlotConsistent(n1, k) && SlotConsistent(n1.(files := n.files), k)
      {
        assert SlotConsistent(n, k);
        AddedNeverNull(n.transfers, key, m.partCount, n.slots[k].sha);
      }
      AddedNeverNull(n.transfers, key, m.partCount, key);
      var i := T.FirstUnlocked(n.slots, 0);
      if i < T.SLOTS {
        UseSlotConsistent(n1, i, T.Slot(false, opens, opens, key, m.fileSize, m.partCount),
                          if opens then FileNamed(p.name, true) else Closed);
      }
    }
  }

  lemma StoredConsistent(n: NodeState, i: nat, m: Message)
    requires Consistent(n) && m.PartMsg? && i < T.SLOTS
    ensures Consistent(Stored(n, i, m))
  {
    if n.streams[i].FileNamed? && m.data != [] {
      var name := n.streams[i].name;
      var n1 := n.(files := n.files[name := WriteAt(ContentOr(n.files, name, []), SeekOffset(m.part), m.data)],
                   transfers := S.ReadyTab(n.transfers, m.sha, m.part));
      S.ReadyKeepsPrefix(n.transfers, m.sha, m.part);
      forall k | 0 <= k < T.SLOTS
        ensures SlotConsistent(n1, k)
      {
        assert SlotConsistent(n, k);
        if Receives(n.streams[k]) {
          ReadyNeverNull(n.transfers, m.sha, m.part, n.slots[k].sha);
        }
      }
      SlotStepsConsistent(n1, i);
    }
  }

  lemma PartConsistent(n: NodeState, m: Message)
    requires Consistent(n) && m.PartMsg? && Acceptable(n, m.sha)
    ensures Consistent(OnPart(n, m))
  {
    var i := T.FirstSha(n.slots, m.sha, 0);
    if i < T.SLOTS {
      StoredConsistent(n, i, m);
    }
  }

  /** Taking a free lock for the time of the write, and giving it back, leaves no trace. */
  lemma LockIsTransparent(n: NodeState, i: nat, m: Message)
    requires Consistent(n) && m.PartMsg? && i < T.SLOTS && !n.slots[i].locked
    ensures var n1 := UseSlot(n, i, n.slots[i].(locked := true), n.streams[i]);
            Consistent(n1) && Unlocked(Stored(n1, i, m), i) == Stored(n, i, m)
  {
    assert SlotConsistent(n, i);
    UseSlotConsistent(n, i, n.slots[i].(locked := true), n.streams[i]);
    var n1 := UseSlot(n, i, n.slots[i].(locked := true), n.streams[i]);
    var n2, n3 := Unlocked(Stored(n1, i, m), i), Stored(n, i, m);
    assert n2.slots == n3.slots && n2.streams == n3.streams;
  }

  // ------------------------------------------------------------- parts that come uninvited

  /** The slot that a part for this hash finds is that of a part sender. */
  predicate FindsSender(n: NodeState, sha: string)
    requires Shaped(n)
  {
    var i := T.FirstSha(n.slots, sha, 0);
    i < T.SLOTS && SendsPart(n.streams[i])
  }

  ghost predicate BeingReceived(n: NodeState, name: seq<byte>)
    requires Shaped(n)
  {
    exists i :: 0 <= i < T.SLOTS && n.streams[i] == FileNamed(name, true)
  }

  /** The files that nobody is receiving are as they were. */
  ghost predicate SharedKept(n: NodeState, n': NodeState)
    requires Shaped(n)
  {
    forall name :: name in n.files && !BeingReceived(n, name) ==> name in n'.files && n'.files[name] == n.files[name]
  }

  lemma OtherPartsKeep(n: NodeState, m: Message)
    requires Consistent(n) && m.PartMsg? && Acceptable(n, m.sha)
    requires FindsSender(n, m.sha) ==> BeingReceived(n, n.streams[T.FirstSha(n.slots, m.sha, 0)].name)
    ensures SharedKept(n, OnPart(n, m))
  {
  }

  /** Any file is changed by some part. */
  lemma SomePartChanges(n: NodeState, sha: string)
    requires Consistent(n) && FindsSender(n, sha) && Acceptable(n, sha)
    ensures var name := n.streams[T.FirstSha(n.slots, sha, 0)].name;
            name in n.files && exists part, data :: OnPart(n, PartMsg(part, sha, data)).files[name] != n.files[name]
  {
    var i := T.FirstSha(n.slots, sha, 0);
    assert SlotConsistent(n, i);
    var file := n.files[n.streams[i].name];
    var b: byte := if file != [] && file[0] == 0 then 1 else 0;
    assert SeekOffset(0) == 0 && WriteAt(file, 0, [b])[0] == b;
    assert OnPart(n, PartMsg(0, sha, [b])).files[n.streams[i].name] == WriteAt(file, 0, [b]) != file;
  }

  /** Parts for a hash leave all files alone that nobody is receiving, whatever they hold,
      if and only if the slot they find is not that of a part sender, or its file is being
      received as well. */
  lemma SharedKeptIff(n: NodeState, sha: string)
    requires Consistent(n) && Acceptable(n, sha)
    ensures (forall part, data :: SharedKept(n, OnPart(n, PartMsg(part, sha, data))))
            <==> (FindsSender(n, sha) ==> BeingReceived(n, n.streams[T.FirstSha(n.slots, sha, 0)].name))
  {
    var i := T.FirstSha(n.slots, sha, 0);
    if FindsSender(n, sha) && !BeingReceived(n, n.streams[i].name) {
      var name := n.streams[i].name;
      SomePartChanges(n, sha);
      var part, data :| OnPart(n, PartMsg(part, sha, data)).files[name] != n.files[name];
      assert !SharedKept(n, OnPart(n, PartMsg(part, sha, data)));
    } else {
      forall part, data
        ensures SharedKept(n, OnPart(n, PartMsg(part, sha, data)))
      {
        OtherPartsKeep(n, PartMsg(part, sha, data));
      }
    }
  }

  /** Counting the part compares a hash with NULL. */
  predicate MeetsNull(n: NodeState, m: Message)
    requires Shaped(n) && m.PartMsg?
  {
    var i := T.FirstSha(n.slots, m.sha, 0);
    i < T.SLOTS && n.streams[i].FileNamed? && m.data != [] && S.GetHelper(n.transfers, m.sha, 0).NullHash?
  }

  /** That happens exactly to a part with data that finds the slot of a part sender, for a
      hash that was never added to the table of transfers while that has an empty row. */
  lemma MeetsNullIff(n: NodeState, m: Message)
    requires Consistent(n) && m.PartMsg?
    ensures MeetsNull(n, m) <==> FindsSender(n, m.sha) && m.data != []
                                 && !S.Added(n.transfers, m.sha) && n.transfers[S.MAX_TRANSFERS - 1].Empty?
  {
    var i := T.FirstSha(n.slots, m.sha, 0);
    S.LookupStopsInTime(n.transfers, m.sha);
    if i < T.SLOTS {
      assert SlotConsistent(n, i);
    }
  }

  /** A node at rest that shares one file, and has received nothing. */
  function Sharing(sha: string, name: seq<byte>, file: seq<byte>): NodeState {
    NodeState(map[name := file], map[], map[sha := name], T.NO_SLOTS, seq(T.SLOTS, _ => Closed), S.NO_TRANSFERS)
  }

  /** A concrete run: a peer asks for a part, and its own part for that hash comes between
      the unlock and the clear of the sender thread.  It overwrites the shared file, and
      counting it meets a NULL hash. */
  lemma PartOverwritesShared(sha: string, name: seq<byte>)
    requires sha != ""
    ensures var n := Sharing(sha, name, [1]);
            var (n1, td) := OnPartRequest(n, true, 0, sha);
            td.Some? && var n2 := PartThreadSends(n1, td.value).0;
            var m := PartMsg(0, sha, [2]);
            Consistent(n) && Acceptable(n2, sha) && OnPart(n2, m).files == map[name := [2]] && MeetsNull(n2, m)
  {
    var n := Sharing(sha, name, [1]);
    assert forall i :: 0 <= i < T.SLOTS ==> SlotConsistent(n, i);
    var (n1, td) := OnPartRequest(n, true, 0, sha);
    assert T.FirstUnlocked(n.slots, 0) == 0;
    var n2 := PartThreadSends(n1, td.value).0;
    assert T.FirstSha(n2.slots, sha, 0) == 0;
    assert WriteAt([1], 0, [2]) == [2] && SeekOffset(0) == 0;
  }

  // ------------------------------------------------------------- slots by protocol

  /** The slots of a node as a state of the slot protocol, with `jobs` in flight. */
  function Slots(n: NodeState, jobs: seq<T.Job>): T.State { T.State(n.slots, jobs, 0, 0) }

  /** The request handlers take slots as the protocol's request steps do. */
  lemma RequestsFollowProtocol(n: NodeState, known: bool, part: nat, sha: string, jobs: seq<T.Job>)
    requires Shaped(n)
    ensures var (n1, td) := OnTransferRequest(n, known, sha);
            var s1 := T.Apply(Slots(n, jobs), T.RequestTransfer);
            if td.Some? then n1.slots == s1.slots && s1.jobs == jobs + [T.MetaSender(td.value.slot, false)] else n1 == n
    ensures var (n2, td) := OnPartRequest(n, known, part, sha);
            if td.Some? then
              var s2 := T.Apply(Slots(n, jobs), T.RequestPart(sha, td.value.fileSize, td.value.partCount));
              n2.slots == s2.slots && s2.jobs == jobs + [T.PartSender(td.value.slot, false)]
            else n2 == n
  {
  }

  /** The sender threads give slots back step by step as the protocol's thread steps do. */
  lemma ThreadsFollowProtocol(n: NodeState, td: Thread, jobs: seq<T.Job>, j: nat)
    requires Shaped(n) && td.slot < T.SLOTS && j < |jobs|
    ensures jobs[j] == T.MetaSender(td.slot, false) ==>
              MetadataThreadSends(n, td).0.slots == T.Apply(Slots(n, jobs), T.MetaClear(j)).slots
    ensures jobs[j] == T.MetaSender(td.slot, true) ==>
              Unlocked(n, td.slot).slots == T.Apply(Slots(n, jobs), T.MetaUnlock(j)).slots
    ensures jobs[j] == T.PartSender(td.slot, false) ==>
              PartThreadSends(n, td).0.slots == T.Apply(Slots(n, jobs), T.PartUnlock(j)).slots
    ensures jobs[j] == T.PartSender(td.slot, true) ==>
              Cleared(n, td.slot).slots == T.Apply(Slots(n, jobs), T.PartClear(j)).slots
  {
  }

  /** A receiving transfer takes a slot, also when its file has no entry or cannot be
      opened, and its last part gives the slot back, as the protocol's steps do. */
  lemma ReceivingFollowsProtocol(n: NodeState, sha: string, size: nat, parts: nat, opens: bool, m: Message,
                                 jobs: seq<T.Job>)
    requires Consistent(n) && m.PartMsg? && Acceptable(n, m.sha)
    ensures var t := T.StartReceive(sha, size, parts, sha in n.filenames, opens);
            CreateTransfer(n, sha, size, parts, opens).0.slots == T.Apply(Slots(n, jobs), t).slots
    ensures var i, t := T.FirstSha(n.slots, m.sha, 0), T.FinishReceive(m.sha);
            if i < T.SLOTS && n.streams[i].FileNamed? && Clears(m.part, m.data)
            then T.Enabled(Slots(n, jobs), t) && OnPart(n, m).slots == T.Apply(Slots(n, jobs), t).slots
            else OnPart(n, m).slots == n.slots
  {
    var i := T.FirstSha(n.slots, m.sha, 0);
    if i < T.SLOTS {
      assert SlotConsistent(n, i);
    }
  }

  // ------------------------------------------------------------- the node

  /** The slots and their streams are arrays, the running transfers an object; the maps are
      the file system and the configuration. */
  class Node {
    var files: map<seq<byte>, seq<byte>>
    var metadata: Store
    var filenames: map<string, seq<byte>>
    const slots: array<T.Slot>
    const streams: array<Stream>
    const transfers: S.FileTransfers

    ghost predicate Allotted()
      reads this, transfers, transfers.slots
    {
      slots.Length == T.SLOTS && streams.Length == T.SLOTS && transfers.Valid()
    }

    ghost function State(): NodeState
      requires Allotted()
      reads this, slots, streams, transfers, transfers.slots
    {
      NodeState(files, metadata, filenames, slots[..], streams[..], transfers.slots[..])
    }

    ghost predicate Valid()
      reads this, slots, streams, transfers, transfers.slots
    {
      Allotted() && Consistent(State())
    }

    constructor (files: map<seq<byte>, seq<byte>>, metadata: Store, filenames: map<string, seq<byte>>)
      ensures Valid() && fresh(slots) && fresh(streams) && fresh(transfers) && fresh(transfers.slots)
      ensures State() == NodeState(files, metadata, filenames, T.NO_SLOTS, seq(T.SLOTS, _ => Closed), S.NO_TRANSFERS)
    {
      this.files, this.metadata, this.filenames := files, metadata, filenames;
      slots := new T.Slot[T.SLOTS](_ => T.BLANK);
      streams := new Stream[T.SLOTS](_ => Closed);
      transfers := new S.FileTransfers();
      new;
      assert slots[..] == T.NO_SLOTS && streams[..] == seq(T.SLOTS, _ => Closed);
      assert forall i :: 0 <= i < T.SLOTS ==> SlotConsistent(State(), i);
    }

    /** `get_and_lock_new_filetransfer` */
    method LockNewSlot() returns (i: nat)
      requires slots.Length == T.SLOTS
      modifies slots
      ensures i == T.FirstUnlocked(old(slots[..]), 0)
      ensures slots[..] == if i == T.SLOTS then old(slots[..]) else old(slots[..])[i := old(slots[i]).(locked := true)]
    {
      i := 0;
      while i < T.SLOTS
        invariant i <= T.SLOTS && unchanged(slots)
        invariant T.FirstUnlocked(old(slots[..]), 0) == T.FirstUnlocked(old(slots[..]), i)
      {
        if !slots[i].locked {
          slots[i] := slots[i].(locked := true);
          return;
        }
        i := i + 1;
      }
    }

    /** `get_file_transfer_internal` */
    method FindSlot(sha: string) returns (i: nat)
      requires slots.Length == T.SLOTS
      ensures i == T.FirstSha(slots[..], sha, 0)
    {
      i := 0;
      while i < T.SLOTS
        invariant i <= T.SLOTS
        invariant T.FirstSha(slots[..], sha, 0) == T.FirstSha(slots[..], sha, i)
      {
        if slots[i].sha == sha { return; }
        i := i + 1;
      }
    }

    method UnlockSlot(i: nat)
      requires i < slots.Length
      modifies slots
      ensures slots[..] == old(slots[..])[i := old(slots[i]).(locked := false)]
    {
      slots[i] := slots[i].(locked := false);
    }

    /** `clear_file_transfer`, field by field; the lock stays as it is. */
    method ClearSlot(i: nat)
      requires i < slots.Length == streams.Length
      modifies slots, streams
      ensures slots[..] == old(slots[..])[i := T.Clear(old(slots[i]))] && streams[..] == old(streams[..])[i := Closed]
    {
      streams[i] := Closed;
      slots[i] := slots[i].(size := 0, parts := 0);
      slots[i] := slots[i].(sha := "");
      slots[i] := slots[i].(file := false, writable := false);
    }

    method HandleFileTransfer(known: bool, sha: string) returns (td: Option<Thread>)
      requires Valid()
      modifies slots, streams
      ensures Valid() && (State(), td) == OnTransferRequest(old(State()), known, sha)
    {
      ghost var n := State();
      SenderConsistent(n, known, 0, sha, Thread(0, 0, 0, 0));
      if !known || sha !in filenames || sha !in metadata || filenames[sha] !in files { return None; }
      var i := LockNewSlot();
      if i == T.SLOTS { return None; }
      streams[i] := MetadataOf(sha);
      slots[i] := slots[i].(file := true, writable := false);
      var size := |files[filenames[sha]]|;
      td := Some(Thread(i, size, PartCount(size), 0));
      UnlockSlot(i);
      assert slots[..] == n.slots[i := n.slots[i].(file := true, writable := false)];
    }

    /** `sendmetadata` up to the unlock. */
    method SendMetadataThread(td: Thread) returns (msgs: seq<Message>)
      requires Valid() && td.slot < T.SLOTS
      modifies slots, streams
      ensures Valid() && (State(), msgs) == MetadataThreadSends(old(State()), td)
    {
      ghost var n := State();
      SenderConsistent(n, true, 0, "", td);
      assert streams[td.slot] == n.streams[td.slot];
      var sends := [];
      if streams[td.slot].MetadataOf? {
        var sha := streams[td.slot].sha;
        sends := SendMetadata(if sha in metadata then metadata[sha] else []);
      }
      msgs := MetadataMsgs(sends, td);
      ClearSlot(td.slot);
    }

    method EndMetadataThread(td: Thread)
      requires Valid() && td.slot < T.SLOTS
      modifies slots
      ensures Valid() && State() == Unlocked(old(State()), td.slot)
    {
      ghost var n := State();
      SlotStepsConsistent(n, td.slot);
      UnlockSlot(td.slot);
      assert streams[..] == n.streams[td.slot := n.streams[td.slot]];
    }

    method HandleFilePartRequest(known: bool, part: nat, sha: string) returns (td: Option<Thread>)
      requires Valid()
      modifies slots, streams
      ensures Valid() && (State(), td) == OnPartRequest(old(State()), known, part, sha)
    {
      ghost var n := State();
      SenderConsistent(n, known, part, sha, Thread(0, 0, 0, 0));
      if !known || sha !in filenames || filenames[sha] !in files { return None; }
      var i := LockNewSlot();
      if i == T.SLOTS { return None; }
      streams[i] := FileNamed(filenames[sha], false);
      slots[i] := slots[i].(file := true, writable := true);
      var size := |files[filenames[sha]]|;
      slots[i] := slots[i].(size := size, parts := PartCount(size));
      td := Some(Thread(i, size, PartCount(size), part));
      slots[i] := slots[i].(sha := sha);
      assert slots[..] == n.slots[i := T.Slot(true, true, true, sha, size, PartCount(size))];
    }

    /** `send_file_part_thread` up to the clear. */
    method SendFilePartThread(td: Thread) returns (msg: Option<Message>)
      requires Valid() && td.slot < T.SLOTS
      modifies slots, streams
      ensures Valid() && (State(), msg) == PartThreadSends(old(State()), td)
    {
      ghost var n := State();
      SenderConsistent(n, true, 0, "", td);
      assert streams[td.slot] == n.streams[td.slot] && slots[td.slot] == n.slots[td.slot];
      msg := None;
      if streams[td.slot].FileNamed? {
        var name := streams[td.slot].name;
        var sent := SendPart(Reading(if name in files then files[name] else [], 0, slots[td.slot].size), td.part);
        if sent.Sent? {
          msg := Some(PartMsg(td.part, slots[td.slot].sha, sent.content));
        }
      }
      UnlockSlot(td.slot);
      assert streams[..] == n.streams[td.slot := n.streams[td.slot]];
    }

    method EndPartThread(td: Thread)
      requires Valid() && td.slot < T.SLOTS
      modifies slots, streams
      ensures Valid() && State() == Cleared(old(State()), td.slot)
    {
      SlotStepsConsistent(State(), td.slot);
      ClearSlot(td.slot);
    }

    /** `create_file`: an existing file is left alone. */
    method CreateFile(name: seq<byte>)
      modifies this
      ensures files == old(files)[name := ContentOr(old(files), name, [])]
      ensures metadata == old(metadata) && filenames == old(filenames)
    {
      if name !in files {
        files := files[name := []];
      }
      assert files == old(files)[name := ContentOr(old(files), name, [])];
    }

    method CreateFileTransfer(sha: string, size: nat, parts: nat, opens: bool) returns (ok: bool)
      requires Allotted()
      modifies this, slots, streams
      ensures Allotted() && (State(), ok) == CreateTransfer(old(State()), sha, size, parts, opens)
    {
      ghost var n := State();
      var i := LockNewSlot();
      if i == T.SLOTS { return false; }
      if sha !in filenames {
        UnlockSlot(i);
        assert slots[..] == n.slots;
        return false;
      }
      CreateFile(filenames[sha]);
      var stream := if opens then FileNamed(filenames[sha], true) else Closed;
      Occupy(i, T.Slot(false, opens, opens, sha, size, parts), stream);
      assert slots[..] == n.slots[i := T.Slot(false, opens, opens, sha, size, parts)];
      ok := opens;
    }

    /** Records hash, sizes and stream in a locked slot, then unlocks it. */
    method Occupy(i: nat, slot: T.Slot, stream: Stream)
      requires i < slots.Length == streams.Length && !slot.locked
      modifies slots, streams
      ensures slots[..] == old(slots[..])[i := slot] && streams[..] == old(streams[..])[i := stream]
    {
      slots[i] := slots[i].(sha := slot.sha);
      slots[i] := slots[i].(size := slot.size, parts := slot.parts);
      streams[i] := stream;
      slots[i] := slots[i].(file := slot.file, writable := slot.writable);
      UnlockSlot(i);
    }

    method HandleMetadata(known: bool, opens: bool, m: Message) returns (reply: Option<Message>)
      requires Valid() && m.MetadataMsg?
      modifies this, slots, streams, transfers.slots
      ensures Valid() && (State(), reply) == OnMetadata(old(State()), known, opens, m)
    {
      MetadataConsistent(State(), known, opens, m);
      var p := Parse(m.content);
      if p.NoMetadata? || !known { return None; }
      var key := ShaToStr(p.sha);
      var added := transfers.Add(key, m.partCount);
      metadata := StoreMetadata(metadata, m.content);
      filenames := filenames[key := p.name];
      var ok := CreateFileTransfer(key, m.fileSize, m.partCount, opens);
      reply := if ok then Some(RequestPart(0, key)) else None;
    }

    /** Seek, write and count, with the stream of the slot at hand. */
    method WritePart(name: seq<byte>, m: Message) returns (f: S.Found)
      requires Allotted() && m.PartMsg?
      modifies this, transfers.slots
      ensures Allotted() && f == S.GetHelper(old(transfers.slots[..]), m.sha, 0)
      ensures State() == old(State()).(
                files := old(files)[name := WriteAt(ContentOr(old(files), name, []), SeekOffset(m.part), m.data)],
                transfers := S.ReadyTab(old(transfers.slots[..]), m.sha, m.part))
    {
      files := files[name := WriteAt(if name in files then files[name] else [], SeekOffset(m.part), m.data)];
      f := transfers.PartReady(m.sha, m.part);
    }

    /** What is done while the lock of slot `i` is held. */
    method StorePart(i: nat, m: Message) returns (metNull: bool)
      requires Allotted() && m.PartMsg? && i < T.SLOTS
      modifies this, slots, streams, transfers.slots
      ensures Allotted() && State() == Stored(old(State()), i, m)
      ensures metNull
              == old(streams[i].FileNamed? && m.data != [] && S.GetHelper(transfers.slots[..], m.sha, 0).NullHash?)
    {
      metNull := false;
      if streams[i].FileNamed? && m.data != [] {
        var f := WritePart(streams[i].name, m);
        metNull := f.NullHash?;
        if m.part == 0 && |m.data| != FILE_PART_BYTES {
          ClearSlot(i);
        }
      }
    }

    /** Reports whether counting the part met a NULL hash. */
    method HandleFilePart(m: Message) returns (metNull: bool)
      requires Valid() && m.PartMsg? && Acceptable(State(), m.sha)
      modifies this, slots, streams, transfers.slots
      ensures Valid() && State() == OnPart(old(State()), m) && metNull == MeetsNull(old(State()), m)
    {
      PartConsistent(State(), m);
      var i := FindSlot(m.sha);
      if i == T.SLOTS { return false; }
      LockIsTransparent(State(), i, m);
      ghost var n := State();
      slots[i] := slots[i].(locked := true);
      assert State() == UseSlot(n, i, n.slots[i].(locked := true), n.streams[i]);
      metNull := StorePart(i, m);
      ghost var n1 := State();
      UnlockSlot(i);
      assert State() == Unlocked(n1, i);
    }
  }
}
