/** A file transfer whose messages travel as structs, events and sealed envelopes over the
    byte streams between the two nodes. */
module WireTransfer {
  import opened Bytes
  import opened Collections
  import opened FileParts
  import opened Metadata
  import opened MessageCodec
  import opened Node
  import opened TwoNodes
  import F = Framing
  import A = Aes

  /** What a node does with one message, and what it sends back. */
  function Handle(n: NodeState, m: Message): (r: (NodeState, seq<Message>))
    requires Shaped(n)
    ensures Shaped(r.0)
  {
    match m
    case RequestTransfer(sha) =>
      var (n1, td) := OnTransferRequest(n, true, sha);
      if td.Some? then RunMetadataThread(n1, td.value) else (n1, [])
    case MetadataMsg(_, _, _) =>
      var (n1, reply) := OnMetadata(n, true, true, m);
      (n1, if reply.Some? then [reply.value] else [])
    case RequestPart(part, sha) =>
      var (n1, td) := OnPartRequest(n, true, part, sha);
      if td.None? then (n1, [])
      else
        var (n2, msg) := RunPartThread(n1, td.value);
        (n2, if msg.Some? then [msg.value] else [])
    case PartMsg(_, _, _) => (Receive(n, m), [])
  }

  function HandleAll(n: NodeState, ms: seq<Message>): (r: (NodeState, seq<Message>))
    requires Shaped(n)
    ensures Shaped(r.0)
    decreases |ms|
  {
    if ms == [] then (n, [])
    else
      var (n1, r1) := Handle(n, ms[0]);
      var (n2, r2) := HandleAll(n1, ms[1..]);
      (n2, r1 + r2)
  }

  lemma HandleOne(n: NodeState, m: Message)
    requires Shaped(n)
    ensures HandleAll(n, [m]) == Handle(n, m)
  {
    var (n1, r1) := Handle(n, m);
    assert [m][1..] == [] && HandleAll(n1, []) == (n1, []) && r1 + [] == r1;
  }

  /** One leg of the conversation: parcels on a stream, the receiving end's keys and peer,
      the chunks in which the stream arrives, and how the reader asks for the body. */
  datatype Leg = Leg(parcels: seq<Parcel>, pub: nat, priv: nat, from: F.From,
                     grants: nat -> nat, mem: F.Memory, ask: F.Ask)

  /** The reader asks for what is missing, or the chunks are aligned. */
  ghost predicate Works(s: A.Suite, l: Leg) {
    F.Sound(s, l.pub, l.priv) && AllProper(l.parcels)
    && (l.ask == F.Whole ==> F.Aligned(s, l.pub, SealAll(l.parcels), l.grants, 0))
  }

  /** The messages that the handlers at the end of the leg see. */
  function Arrived(s: A.Suite, l: Leg): seq<Message>
    requires forall i :: 0 <= i < |l.parcels| ==> l.parcels[i].Proper()
  {
    var st := F.Stream(F.WireAll(s, l.pub, SealAll(l.parcels)), l.mem, 0, [], false);
    Handled(F.ReadAll(l.ask, s, l.priv, l.from, l.grants, st).out)
  }

  lemma LegDelivers(s: A.Suite, l: Leg)
    requires Works(s, l)
    ensures Arrived(s, l) == Messages(l.parcels)
  {
    if l.ask == F.Whole {
      MessagesArriveAligned(s, l.pub, l.priv, l.from, l.grants, l.mem, l.parcels);
    } else {
      MessagesArrive(s, l.pub, l.priv, l.from, l.grants, l.mem, l.parcels);
    }
  }

  /** The conversation of a transfer: the receiver's request, and then on each leg what the
      node at the end of the leg before sent back.  `a2` and `b2` are the nodes at its end. */
  ghost predicate Conversation(s: A.Suite, a: NodeState, b: NodeState, sha: string, l1: Leg, l2: Leg, l3: Leg, l4: Leg,
                               a2: NodeState, b2: NodeState)
    requires Shaped(a) && Shaped(b)
  {
    && Works(s, l1) && Works(s, l2) && Works(s, l3) && Works(s, l4)
    && Messages(l1.parcels) == [RequestTransfer(sha)]
    && var (a1, r1) := HandleAll(a, Arrived(s, l1));
    && Messages(l2.parcels) == r1
    && var (b1, r2) := HandleAll(b, Arrived(s, l2));
    && Messages(l3.parcels) == r2
    && var (a3, r3) := HandleAll(a1, Arrived(s, l3));
    && Messages(l4.parcels) == r3
    && a2 == a3 && b2 == HandleAll(b1, Arrived(s, l4)).0
  }

  /** On the sender's legs: metadata for the request, part 0 for the part request. */
  lemma SenderLegs(a: NodeState, h: Hash, name: seq<byte>, file: seq<byte>)
    requires Offers(a, h, name, file)
    ensures var sha := Hex(h(file));
            && HandleAll(a, [RequestTransfer(sha)])
               == (a, [MetadataMsg(|file|, PartCount(|file|), MetadataFile(h, name, file))])
            && HandleAll(a, [RequestPart(0, sha)]) == (a, [PartMsg(0, sha, Part(file, 0))])
  {
    var sha := Hex(h(file));
    HandleOne(a, RequestTransfer(sha));
    HandleOne(a, RequestPart(0, sha));
    SenderOffers(a, h, name, file);
    SenderAnswers(a, h, name, file);
  }

  /** On the receiver's legs: a part request for the metadata, a write for the part. */
  lemma ReceiverLegs(b: NodeState, h: Hash, name: seq<byte>, file: seq<byte>)
    requires HasRoom(b) && ProperName(name)
    ensures var sha, md := Hex(h(file)), MetadataFile(h, name, file);
            var b1, m := Prepared(b, sha, name, |file|, md), PartMsg(0, sha, Part(file, 0));
            && HandleAll(b, [MetadataMsg(|file|, PartCount(|file|), md)]) == (b1, [RequestPart(0, sha)])
            && HandleAll(b1, [m]) == (Receive(b1, m), [])
  {
    var sha, md := Hex(h(file)), MetadataFile(h, name, file);
    HandleOne(b, MetadataMsg(|file|, PartCount(|file|), md));
    ReceiverPrepares(b, h, name, file);
    HandleOne(Prepared(b, sha, name, |file|, md), PartMsg(0, sha, Part(file, 0)));
  }

  /** Over the wire the nodes end as they do without it. */
  lemma WireIsTransfer(s: A.Suite, a: NodeState, b: NodeState, h: Hash, name: seq<byte>, file: seq<byte>,
                       l1: Leg, l2: Leg, l3: Leg, l4: Leg, a2: NodeState, b2: NodeState)
    requires Offers(a, h, name, file) && HasRoom(b)
    requires Conversation(s, a, b, Hex(h(file)), l1, l2, l3, l4, a2, b2)
    ensures (a2, b2) == Transfer(a, b, Hex(h(file)))
  {
    LegDelivers(s, l1);
    LegDelivers(s, l2);
    LegDelivers(s, l3);
    LegDelivers(s, l4);
    SenderLegs(a, h, name, file);
    ReceiverLegs(b, h, name, file);
    TransferResult(a, b, h, name, file);
  }

  /** A whole transfer over four legs of sealed bytes, in whatever chunks they arrive: it
      gives the receiver the file under the same condition as the bare exchange. */
  lemma TransferOverWireIff(s: A.Suite, a: NodeState, b: NodeState, h: Hash, name: seq<byte>, file: seq<byte>,
                            l1: Leg, l2: Leg, l3: Leg, l4: Leg, a2: NodeState, b2: NodeState)
    requires Offers(a, h, name, file) && CanReceive(b, Hex(h(file)))
    requires Conversation(s, a, b, Hex(h(file)), l1, l2, l3, l4, a2, b2)
    ensures a2 == a
    ensures Received(b, b2, Hex(h(file)), name, file) <==> 0 < |file| < FILE_PART_BYTES && |Existing(b, name)| <= |file|
  {
    WireIsTransfer(s, a, b, h, name, file, l1, l2, l3, l4, a2, b2);
    TransferCompletesIff(a, b, h, name, file);
  }
}
