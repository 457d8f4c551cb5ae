/** A file transfer from start to end between two nodes: request, metadata, request of
    part 0, part, write. */
module TwoNodes {
  import opened Bytes
  import opened FileParts
  import opened Metadata
  import opened Reassembly
  import opened Collections
  import opened Node
  import T = TransferSlots
  import S = TransferStatus

  function Receive(b: NodeState, m: Message): (r: NodeState)
    requires Shaped(b) && m.PartMsg?
    ensures Shaped(r)
  {
    if Acceptable(b, m.sha) then OnPart(b, m) else b
  }

  /** Answering one metadata message: the receiver's request goes to the sender, and the
      sender's part back to the receiver. */
  function Exchange(a: NodeState, b: NodeState, m: Message): (r: (NodeState, NodeState))
    requires Shaped(a) && Shaped(b) && m.MetadataMsg?
    ensures Shaped(r.0) && Shaped(r.1)
  {
    var (b1, reply) := OnMetadata(b, true, true, m);
    match reply
    case None => (a, b1)
    case Some(request) =>
      var (a1, td) := OnPartRequest(a, true, request.part, request.sha);
      match td
      case None => (a1, b1)
      case Some(thread) =>
        var (a2, part) := RunPartThread(a1, thread);
        (a2, if part.Some? then Receive(b1, part.value) else b1)
  }

  function ExchangeAll(a: NodeState, b: NodeState, msgs: seq<Message>): (NodeState, NodeState)
    requires Shaped(a) && Shaped(b) && forall k :: 0 <= k < |msgs| ==> msgs[k].MetadataMsg?
    decreases |msgs|
  {
    if msgs == [] then (a, b)
    else
      var (a1, b1) := Exchange(a, b, msgs[0]);
      ExchangeAll(a1, b1, msgs[1..])
  }

  /** The receiver `b` has asked the sender `a` for the file with this hash. */
  function Transfer(a: NodeState, b: NodeState, sha: string): (NodeState, NodeState)
    requires Shaped(a) && Shaped(b)
  {
    var (a1, td) := OnTransferRequest(a, true, sha);
    match td
    case None => (a1, b)
    case Some(thread) =>
      var (a2, msgs) := RunMetadataThread(a1, thread);
      ExchangeAll(a2, b, msgs)
  }

  /** The slot that is taken next is idle and clean. */
  ghost predicate HasRoom(n: NodeState) {
    var i := T.FirstUnlocked(n.slots, 0);
    Shaped(n) && i < T.SLOTS && n.slots[i] == T.BLANK && n.streams[i] == Closed
  }

  /** The sender offers `file` under `name`. */
  ghost predicate Offers(a: NodeState, h: Hash, name: seq<byte>, file: seq<byte>) {
    var sha := Hex(h(file));
    && HasRoom(a) && ProperName(name) && |MetadataFile(h, name, file)| <= FILE_PART_BYTES
    && sha in a.filenames && a.filenames[sha] == name && name in a.files && a.files[name] == file
    && sha in a.metadata && a.metadata[sha] == MetadataFile(h, name, file)
  }

  /** The receiver has a slot and a row for a transfer that it does not have yet. */
  ghost predicate CanReceive(b: NodeState, sha: string) {
    && HasRoom(b) && (forall k :: 0 <= k < T.SLOTS ==> b.slots[k].sha != sha)
    && S.Prefix(b.transfers) && S.Occupied(b.transfers) < S.MAX_TRANSFERS && !S.Added(b.transfers, sha)
  }

  // ------------------------------------------------------------- the sender's side

  lemma OneMessage(td: Thread, md: seq<byte>)
    requires 0 < |md| <= FILE_PART_BYTES
    ensures MetadataMsgs(MetadataSends(md), td) == [MetadataMsg(td.fileSize, td.partCount, md)]
  {
    FirstMessage(md);
    var sends := MetadataSends(md);
    assert |sends| == 1 && sends[0] == Sent(md) && sends[1..] == [];
  }

  /** Request and metadata thread: one message with the whole metadata file, and the
      sender is as before. */
  lemma SenderOffers(a: NodeState, h: Hash, name: seq<byte>, file: seq<byte>)
    requires Offers(a, h, name, file)
    ensures var (a1, td) := OnTransferRequest(a, true, Hex(h(file)));
            td.Some? && td.value.slot < T.SLOTS && Shaped(a1)
            && RunMetadataThread(a1, td.value)
            == (a, [MetadataMsg(|file|, PartCount(|file|), MetadataFile(h, name, file))])
  {
    var sha, md := Hex(h(file)), MetadataFile(h, name, file);
    var i := T.FirstUnlocked(a.slots, 0);
    var (a1, td) := OnTransferRequest(a, true, sha);
    OneMessage(td.value, md);
    var a2 := RunMetadataThread(a1, td.value).0;
    assert a2.slots == a.slots && a2.streams == a.streams;
  }

  /** Part request and part thread: the answer is part 0, and the sender is as before. */
  lemma SenderAnswers(a: NodeState, h: Hash, name: seq<byte>, file: seq<byte>)
    requires Offers(a, h, name, file)
    ensures var (a1, td) := OnPartRequest(a, true, 0, Hex(h(file)));
            td.Some? && RunPartThread(a1, td.value) == (a, Some(PartMsg(0, Hex(h(file)), Part(file, 0))))
  {
    var i := T.FirstUnlocked(a.slots, 0);
    var (a1, td) := OnPartRequest(a, true, 0, Hex(h(file)));
    var a2 := RunPartThread(a1, td.value).0;
    assert a2.slots == a.slots && a2.streams == a.streams;
    RequestedPartIff(file, 0);
  }

  /** The answer to a request for any part: its number, the hash, and the bytes of part 0 if
      the number is a multiple of 8192; otherwise what is read misses the message buffer. */
  lemma AnyPartAnswer(a: NodeState, h: Hash, name: seq<byte>, file: seq<byte>, part: nat)
    requires Offers(a, h, name, file) && part < Parts(|file|)
    ensures var (a1, td) := OnPartRequest(a, true, part, Hex(h(file)));
            td.Some? && RunPartThread(a1, td.value).0 == a
            && RunPartThread(a1, td.value).1
               == if part % 8192 == 0
                  then Some(PartMsg(part, Hex(h(file)), file[..if |file| < 524288 then |file| else 524288])) else None
  {
    var (a1, td) := OnPartRequest(a, true, part, Hex(h(file)));
    var a2 := RunPartThread(a1, td.value).0;
    assert a2.slots == a.slots && a2.streams == a.streams;
    OffsetMod(part);
    if part % 8192 == 0 {
      WrappedRequest(file, part);
      assert Part(file, 0) == file[..if |file| < 524288 then |file| else 524288];
    }
  }

  // ------------------------------------------------------------- the receiver's side

  function Existing(b: NodeState, name: seq<byte>): seq<byte> { ContentOr(b.files, name, []) }

  /** The receiver after the metadata message. */
  function Prepared(b: NodeState, sha: string, name: seq<byte>, size: nat, md: seq<byte>): (r: NodeState)
    requires Shaped(b) && T.FirstUnlocked(b.slots, 0) < T.SLOTS
    ensures Shaped(r)
  {
    UseSlot(b.(transfers := S.AddTab(b.transfers, sha, PartCount(size)),
               metadata := StoreMetadata(b.metadata, md),
               filenames := b.filenames[sha := name],
               files := b.files[name := Existing(b, name)]),
            T.FirstUnlocked(b.slots, 0), T.Slot(false, true, true, sha, size, PartCount(size)), FileNamed(name, true))
  }

  lemma ReceiverPrepares(b: NodeState, h: Hash, name: seq<byte>, file: seq<byte>)
    requires HasRoom(b) && ProperName(name)
    ensures var md := MetadataFile(h, name, file);
            OnMetadata(b, true, true, MetadataMsg(|file|, PartCount(|file|), md))
            == (Prepared(b, Hex(h(file)), name, |file|, md), Some(RequestPart(0, Hex(h(file)))))
  {
    var md := MetadataFile(h, name, file);
    MetadataRoundTrip(h, name, file, map[]);
  }

  lemma OnlySlotWithSha(s: T.Slots, i: nat, slot: T.Slot, from: nat)
    requires i < T.SLOTS && from <= i && forall k :: 0 <= k < T.SLOTS ==> s[k].sha != slot.sha
    ensures T.FirstSha(s[i := slot], slot.sha, from) == i
  {
    var s' := s[i := slot];
    assert s'[i].sha == slot.sha;
    assert forall k :: from <= k < i ==> s'[k].sha != slot.sha;
  }

  lemma {:induction false} NewHelperFound(t: S.Tab, sha: string, parts: nat, from: nat)
    requires !S.Added(t, sha) && S.Occupied(t) < S.MAX_TRANSFERS && from <= S.Occupied(t)
    ensures S.GetHelper(S.AddTab(t, sha, parts), sha, from) == S.At(S.Occupied(t))
    decreases S.Occupied(t) - from
  {
    if from < S.Occupied(t) {
      NewHelperFound(t, sha, parts, from + 1);
    }
  }

  lemma OneLineCounts(t: S.Tab, sha: string, part: nat, n: nat)
    requires S.Prefix(t) && S.GetHelper(t, sha, 0) == S.At(n) && n < |S.Listing(t)|
    ensures var l := S.Listing(t);
            S.Listing(S.ReadyTab(t, sha, part)) == l[n := l[n].(partsReady := l[n].partsReady + 1)]
  {
    var l, l' := S.Listing(t), S.Listing(S.ReadyTab(t, sha, part));
    forall k | 0 <= k < |l|
      ensures |l'| == |l| && l'[k] == l[k].(partsReady := l[k].partsReady + if k == n then 1 else 0)
    {
      S.ReadyListsInPlace(t, sha, part, k);
    }
  }

  /** The new transfer's line in the listing once one part has been counted. */
  lemma ListedReady(b: NodeState, sha: string, parts: nat, part: nat)
    requires CanReceive(b, sha)
    ensures S.Listing(S.ReadyTab(S.AddTab(b.transfers, sha, parts), sha, part))
            == S.Listing(b.transfers) + [S.Status(sha, 1, parts, 0)]
  {
    var t, n := b.transfers, S.Occupied(b.transfers);
    var t1 := S.AddTab(t, sha, parts);
    S.OccupiedPrefix(t);
    S.ListingOfPrefix(t, n);
    S.AddListsLast(t, sha, parts);
    NewHelperFound(t, sha, parts, 0);
    OneLineCounts(t1, sha, part, n);
    assert |S.Listing(t1)| == n + 1 && S.Listing(t1)[n] == S.Status(sha, 0, parts, 0);
  }

  /** Everything the transfer is for: the file is there, one part of one is ready, and the
      receiver's slots are as they were. */
  ghost predicate Received(b: NodeState, b': NodeState, sha: string, name: seq<byte>, file: seq<byte>) {
    && name in b'.files && b'.files[name] == file
    && S.Listing(b'.transfers) == S.Listing(b.transfers) + [S.Status(sha, 1, 1, 0)]
    && b'.slots == b.slots && b'.streams == b.streams
  }

  lemma ReceiverWritesAt(b: NodeState, b1: NodeState, sha: string, name: seq<byte>, size: nat, md: seq<byte>)
    requires CanReceive(b, sha) && b1 == Prepared(b, sha, name, size, md)
    ensures var j := T.FirstUnlocked(b.slots, 0);
            T.FirstSha(b1.slots, sha, 0) == j && b1.streams[j] == FileNamed(name, true) && !b1.slots[j].locked
            && b1.slots[j].file && b1.slots != b.slots
            && b1.slots[j := T.BLANK] == b.slots && b1.streams[j := Closed] == b.streams
  {
    var j := T.FirstUnlocked(b.slots, 0);
    var slot := T.Slot(false, true, true, sha, size, PartCount(size));
    OnlySlotWithSha(b.slots, j, slot, 0);
    assert b1.slots == b.slots[j := slot] && b1.slots[j] == slot;
  }

  lemma WriteWhole(before: seq<byte>, file: seq<byte>)
    requires file != []
    ensures WriteAt(before, 0, file) == file <==> |before| <= |file|
  {
  }

  /** A single non-empty part is written, counted, and ends the transfer. */
  lemma ReceiverFinishes(b: NodeState, b1: NodeState, sha: string, name: seq<byte>, file: seq<byte>, md: seq<byte>)
    requires CanReceive(b, sha) && b1 == Prepared(b, sha, name, |file|, md)
    requires 0 < |file| < FILE_PART_BYTES
    ensures var b2 := Receive(b1, PartMsg(0, sha, file));
            b2.slots == b.slots && b2.streams == b.streams
            && b2.files == b1.files[name := WriteAt(Existing(b, name), 0, file)]
            && b2.transfers == S.ReadyTab(b1.transfers, sha, 0)
  {
    ReceiverWritesAt(b, b1, sha, name, |file|, md);
    assert SeekOffset(0) == 0;
  }

  /** An empty or a full part 0 leaves the transfer's slot open. */
  lemma ReceiverGoesOn(b: NodeState, b1: NodeState, sha: string, name: seq<byte>, size: nat, md: seq<byte>,
                       data: seq<byte>)
    requires CanReceive(b, sha) && b1 == Prepared(b, sha, name, size, md)
    requires |data| == 0 || |data| == FILE_PART_BYTES
    ensures Receive(b1, PartMsg(0, sha, data)).slots != b.slots
  {
    var j := T.FirstUnlocked(b.slots, 0);
    ReceiverWritesAt(b, b1, sha, name, size, md);
    assert Receive(b1, PartMsg(0, sha, data)).slots[j].file;
  }

  lemma ReceiverWrites(b: NodeState, sha: string, name: seq<byte>, file: seq<byte>, md: seq<byte>)
    requires CanReceive(b, sha)
    ensures var b1 := Prepared(b, sha, name, |file|, md);
            Received(b, Receive(b1, PartMsg(0, sha, Part(file, 0))), sha, name, file)
            <==> 0 < |file| < FILE_PART_BYTES && |Existing(b, name)| <= |file|
  {
    var b1 := Prepared(b, sha, name, |file|, md);
    if 0 < |file| < FILE_PART_BYTES {
      assert Part(file, 0) == file;
      assert PartCount(|file|) == 1;
      ReceiverFinishes(b, b1, sha, name, file, md);
      ListedReady(b, sha, 1, 0);
      WriteWhole(Existing(b, name), file);
    } else {
      ReceiverGoesOn(b, b1, sha, name, |file|, md, Part(file, 0));
    }
  }

  // ------------------------------------------------------------- the whole run

  /** The run message by message. */
  lemma TransferResult(a: NodeState, b: NodeState, h: Hash, name: seq<byte>, file: seq<byte>)
    requires Offers(a, h, name, file) && HasRoom(b)
    ensures var sha, md := Hex(h(file)), MetadataFile(h, name, file);
            Transfer(a, b, sha) == (a, Receive(Prepared(b, sha, name, |file|, md), PartMsg(0, sha, Part(file, 0))))
  {
    var sha, md := Hex(h(file)), MetadataFile(h, name, file);
    var m := MetadataMsg(|file|, PartCount(|file|), md);
    SenderOffers(a, h, name, file);
    ReceiverPrepares(b, h, name, file);
    SenderAnswers(a, h, name, file);
    var b1 := Prepared(b, sha, name, |file|, md);
    assert Exchange(a, b, m) == (a, Receive(b1, PartMsg(0, sha, Part(file, 0))));
    assert [m][1..] == [];
    assert ExchangeAll(a, b, [m]) == Exchange(a, b, m);
  }

  lemma ReceiveKeepsConfiguration(b: NodeState, m: Message)
    requires Shaped(b) && m.PartMsg?
    ensures Receive(b, m).filenames == b.filenames && Receive(b, m).metadata == b.metadata
  {
  }

  lemma MetadataArrives(b: NodeState, h: Hash, name: seq<byte>, file: seq<byte>, m: Message)
    requires HasRoom(b) && ProperName(name) && m.PartMsg?
    ensures var sha, md := Hex(h(file)), MetadataFile(h, name, file);
            var b' := Receive(Prepared(b, sha, name, |file|, md), m);
            b'.filenames == b.filenames[sha := name]
            && (sha !in b.metadata ==> b'.metadata == b.metadata[sha := md])
  {
    var sha, md := Hex(h(file)), MetadataFile(h, name, file);
    var b1 := Prepared(b, sha, name, |file|, md);
    ReceiveKeepsConfiguration(b1, m);
    if sha !in b.metadata {
      MetadataRoundTrip(h, name, file, b.metadata);
    }
  }

  /** A complete run ends with the receiver's file equal to the sender's, one part ready
      out of one, and the slots of both nodes as before, if and only if the file is not
      empty, shorter than one part, and no shorter than a file the receiver already has
      under that name.  In any case the receiver then has the metadata and the name. */
  lemma TransferCompletesIff(a: NodeState, b: NodeState, h: Hash, name: seq<byte>, file: seq<byte>)
    requires Offers(a, h, name, file) && CanReceive(b, Hex(h(file)))
    ensures var (a', b') := Transfer(a, b, Hex(h(file)));
            && a' == a
            && b'.filenames == b.filenames[Hex(h(file)) := name]
            && (Hex(h(file)) !in b.metadata ==> b'.metadata == b.metadata[Hex(h(file)) := MetadataFile(h, name, file)])
            && (Received(b, b', Hex(h(file)), name, file)
                <==> 0 < |file| < FILE_PART_BYTES && |Existing(b, name)| <= |file|)
  {
    TransferResult(a, b, h, name, file);
    MetadataArrives(b, h, name, file, PartMsg(0, Hex(h(file)), Part(file, 0)));
    ReceiverWrites(b, Hex(h(file)), name, file, MetadataFile(h, name, file));
  }

  // ------------------------------------------------------------- many parts

  /** Slot `i` alone receives the file `name` for this hash, or nothing does any more. */
  ghost predicate Receiving(b: NodeState, sha: string, name: seq<byte>, i: nat, active: bool) {
    && Shaped(b) && i < T.SLOTS && sha != "" && name in b.files
    && (forall k :: 0 <= k < T.SLOTS && k != i ==> b.slots[k].sha != sha)
    && if active then
         b.slots[i].sha == sha && b.slots[i].file && !b.slots[i].locked && b.streams[i] == FileNamed(name, true)
       else b.slots[i].sha != sha && !b.slots[i].file
  }

  function ReceiveAll(b: NodeState, sha: string, file: seq<byte>, parts: seq<nat>): (r: NodeState)
    requires Shaped(b) && forall k :: 0 <= k < |parts| ==> parts[k] < Parts(|file|)
    ensures Shaped(r)
  {
    if parts == [] then b
    else
      var last := |parts| - 1;
      Receive(ReceiveAll(b, sha, file, parts[..last]), PartMsg(parts[last], sha, Part(file, parts[last])))
  }

  lemma ReceiveIsDeliver(b: NodeState, sha: string, name: seq<byte>, i: nat, active: bool, part: nat, data: seq<byte>)
    requires Receiving(b, sha, name, i, active)
    ensures var r := Deliver(Incoming(b.files[name], active), part, data);
            var b' := Receive(b, PartMsg(part, sha, data));
            Receiving(b', sha, name, i, r.active) && b'.files[name] == r.file
  {
    var f := T.FirstSha(b.slots, sha, 0);
    assert active ==> f == i;
    assert !active ==> f == T.SLOTS;
  }

  /** At the node, parts in any order and with repeats do to the file what they do to a
      file on its own, and the slot stays in use as long as that transfer is active. */
  lemma {:induction false} NodeReassembles(b: NodeState, sha: string, name: seq<byte>, i: nat, file: seq<byte>,
                                           parts: seq<nat>)
    requires Receiving(b, sha, name, i, true) && forall k :: 0 <= k < |parts| ==> parts[k] < Parts(|file|)
    ensures var r := DeliverAll(Incoming(b.files[name], true), file, parts);
            var b' := ReceiveAll(b, sha, file, parts);
            Receiving(b', sha, name, i, r.active) && b'.files[name] == r.file
    decreases |parts|
  {
    if parts != [] {
      var last := |parts| - 1;
      NodeReassembles(b, sha, name, i, file, parts[..last]);
      var r := DeliverAll(Incoming(b.files[name], true), file, parts[..last]);
      ReceiveIsDeliver(ReceiveAll(b, sha, file, parts[..last]), sha, name, i, r.active, parts[last],
                       Part(file, parts[last]));
    }
  }

  /** At the node, once every part number has come: the received file is the sender's exactly
      when the receiver's was not longer and the file is not beyond the 32-bit limit; beyond
      it, only by accident. */
  lemma NodeCompleteIff(b: NodeState, sha: string, name: seq<byte>, i: nat, file: seq<byte>, parts: seq<nat>)
    requires Receiving(b, sha, name, i, true) && forall k :: 0 <= k < |parts| ==> parts[k] < Parts(|file|)
    requires forall p :: 0 <= p < Parts(|file|) ==> p in parts
    ensures var b', before := ReceiveAll(b, sha, file, parts), b.files[name];
            name in b'.files
            && (b'.files[name] == file
            <==> if |file| <= LIMIT then |before| <= |file| else HappensToAgree(file, before, parts))
            && (|before| != |file| ==> (b'.files[name] == file <==> |before| <= |file| <= LIMIT))
  {
    NodeReassembles(b, sha, name, i, file, parts);
    CompleteIff(file, b.files[name], parts);
  }

  // ------------------------------------------------------------- counting parts

  /** The transfer of `file` is over once its only part has come. */
  predicate Over(file: seq<byte>, parts: seq<nat>) { 0 < |file| < FILE_PART_BYTES && parts != [] }

  lemma {:induction false} ActiveIff(before: seq<byte>, file: seq<byte>, parts: seq<nat>)
    requires forall k :: 0 <= k < |parts| ==> parts[k] < Parts(|file|)
    ensures DeliverAll(Incoming(before, true), file, parts).active <==> !Over(file, parts)
    decreases |parts|
  {
    if parts != [] {
      ActiveIff(before, file, parts[..|parts| - 1]);
    }
  }

  /** The deliveries that a node counts: those with data, while the transfer lasts. */
  function Counted(file: seq<byte>, parts: seq<nat>): (r: seq<nat>)
    requires forall k :: 0 <= k < |parts| ==> parts[k] < Parts(|file|)
    ensures forall k :: 0 <= k < |r| ==> r[k] < Parts(|file|)
  {
    if parts == [] then []
    else
      var front, last := parts[..|parts| - 1], parts[|parts| - 1];
      Counted(file, front) + if Part(file, last) != [] && !Over(file, front) then [last] else []
  }

  lemma EmptyPartIff(file: seq<byte>, part: nat)
    requires part < Parts(|file|)
    ensures Part(file, part) == [] <==> |file| % FILE_PART_BYTES == 0 && part == Parts(|file|) - 1
  {
  }

  lemma MarkedStaysFound(t: S.Tab, sha: string, k: nat, h: S.Helper)
    requires S.GetHelper(t, sha, 0) == S.At(k) && h.Helper? && h.sha == sha
    ensures S.GetHelper(t[k := h], sha, 0) == S.At(k)
  {
    FoundFrom(t, sha, k, h, 0);
  }

  lemma {:induction false} FoundFrom(t: S.Tab, sha: string, k: nat, h: S.Helper, from: nat)
    requires from <= k < S.MAX_TRANSFERS && S.GetHelper(t, sha, from) == S.At(k) && h.Helper? && h.sha == sha
    ensures S.GetHelper(t[k := h], sha, from) == S.At(k)
    decreases k - from
  {
    if from < k && !(t[from].Helper? && t[from].sha == sha) {
      FoundFrom(t, sha, k, h, from + 1);
    }
  }

  lemma {:induction false} DeliveredKeepsSha(h: S.Helper, parts: seq<nat>)
    requires h.Helper?
    ensures S.Delivered(h, parts).sha == h.sha
    decreases |parts|
  {
    if parts != [] {
      DeliveredKeepsSha(h, parts[..|parts| - 1]);
    }
  }

  /** One part at the node: the table counts it when it has data and finds the slot. */
  lemma ReceiveCounts(b: NodeState, sha: string, name: seq<byte>, i: nat, active: bool, part: nat, data: seq<byte>)
    requires Receiving(b, sha, name, i, active)
    ensures Receive(b, PartMsg(part, sha, data)).transfers
            == if active && data != [] then S.ReadyTab(b.transfers, sha, part) else b.transfers
  {
    var f := T.FirstSha(b.slots, sha, 0);
    assert active ==> f == i;
    assert !active ==> f == T.SLOTS;
  }

  lemma StillReceiving(b: NodeState, sha: string, name: seq<byte>, i: nat, file: seq<byte>, parts: seq<nat>)
    requires Receiving(b, sha, name, i, true) && forall j :: 0 <= j < |parts| ==> parts[j] < Parts(|file|)
    ensures Receiving(ReceiveAll(b, sha, file, parts), sha, name, i, !Over(file, parts))
  {
    NodeReassembles(b, sha, name, i, file, parts);
    ActiveIff(b.files[name], file, parts);
  }

  lemma CountOneMore(t: S.Tab, sha: string, k: nat, counted: seq<nat>, part: nat)
    requires S.GetHelper(t, sha, 0) == S.At(k)
    ensures S.ReadyTab(t[k := S.Delivered(t[k], counted)], sha, part) == t[k := S.Delivered(t[k], counted + [part])]
  {
    var h := S.Delivered(t[k], counted);
    DeliveredKeepsSha(t[k], counted);
    MarkedStaysFound(t, sha, k, h);
    var more := counted + [part];
    assert more[..|more| - 1] == counted;
  }

  lemma CountStep(b1: NodeState, t: S.Tab, sha: string, name: seq<byte>, i: nat, k: nat, file: seq<byte>,
                  parts: seq<nat>)
    requires parts != [] && forall j :: 0 <= j < |parts| ==> parts[j] < Parts(|file|)
    requires var front := parts[..|parts| - 1];
             Receiving(b1, sha, name, i, !Over(file, front)) && S.GetHelper(t, sha, 0) == S.At(k)
             && b1.transfers == t[k := S.Delivered(t[k], Counted(file, front))]
    ensures var last := parts[|parts| - 1];
            Receive(b1, PartMsg(last, sha, Part(file, last))).transfers
            == t[k := S.Delivered(t[k], Counted(file, parts))]
  {
    var front, last := parts[..|parts| - 1], parts[|parts| - 1];
    ReceiveCounts(b1, sha, name, i, !Over(file, front), last, Part(file, last));
    CountOneMore(t, sha, k, Counted(file, front), last);
    assert Counted(file, front) + [] == Counted(file, front);
  }

  /** At the node, parts in any order and with repeats change one row of the table of
      running transfers: it counts and marks the deliveries with data while the transfer
      lasts, and no others. */
  lemma {:induction false} NodeCounts(b: NodeState, sha: string, name: seq<byte>, i: nat, k: nat, file: seq<byte>,
                                      parts: seq<nat>)
    requires Receiving(b, sha, name, i, true) && S.GetHelper(b.transfers, sha, 0) == S.At(k)
    requires forall j :: 0 <= j < |parts| ==> parts[j] < Parts(|file|)
    ensures ReceiveAll(b, sha, file, parts).transfers
            == b.transfers[k := S.Delivered(b.transfers[k], Counted(file, parts))]
    decreases |parts|
  {
    if parts != [] {
      var front, last := parts[..|parts| - 1], parts[|parts| - 1];
      var b1 := ReceiveAll(b, sha, file, front);
      NodeCounts(b, sha, name, i, k, file, front);
      StillReceiving(b, sha, name, i, file, front);
      CountStep(b1, b.transfers, sha, name, i, k, file, parts);
    }
  }

  lemma {:induction false} CountedLength(file: seq<byte>, parts: seq<nat>)
    requires (forall k :: 0 <= k < |parts| ==> parts[k] < Parts(|file|)) && S.NoRepeats(parts)
    ensures |Counted(file, parts)|
            == |parts| - if |file| % FILE_PART_BYTES == 0 && Parts(|file|) - 1 in parts then 1 else 0
    decreases |parts|
  {
    if parts != [] {
      var front, last := parts[..|parts| - 1], parts[|parts| - 1];
      assert parts == front + [last];
      S.NoRepeatsLast(front, last);
      CountedLength(file, front);
      EmptyPartIff(file, last);
    }
  }

  lemma {:induction false} DeliveredCounts(h: S.Helper, parts: seq<nat>)
    requires h.Helper?
    ensures S.Delivered(h, parts).ready == h.ready + |parts|
    decreases |parts|
  {
    if parts != [] {
      DeliveredCounts(h, parts[..|parts| - 1]);
    }
  }

  /** When each part of a new transfer has arrived at the node once, in any order, the ready
      counter of its row stands at the part count exactly when the size is not a whole
      number of parts: an empty last part is never counted. */
  lemma ReadyReachesCountIff(b: NodeState, sha: string, name: seq<byte>, i: nat, k: nat, file: seq<byte>,
                             parts: seq<nat>)
    requires Receiving(b, sha, name, i, true) && S.GetHelper(b.transfers, sha, 0) == S.At(k)
             && b.transfers[k].ready == 0
    requires (forall j :: 0 <= j < |parts| ==> parts[j] < Parts(|file|)) && S.NoRepeats(parts)
    requires |parts| == Parts(|file|) && Parts(|file|) - 1 in parts
    ensures var t := ReceiveAll(b, sha, file, parts).transfers;
            t[k].Helper? && (t[k].ready == Parts(|file|) <==> |file| % FILE_PART_BYTES != 0)
  {
    NodeCounts(b, sha, name, i, k, file, parts);
    CountedLength(file, parts);
    DeliveredCounts(b.transfers[k], Counted(file, parts));
  }
}
