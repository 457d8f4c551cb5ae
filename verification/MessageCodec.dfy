/** The structs in which the file-transfer messages travel as event data (core/file.h,
    core/handlers.c), and the way of a message from node to node: struct, event, sealed
    envelope, byte stream, and back. */
module MessageCodec {
  import opened Bytes
  import opened Events
  import opened Collections
  import opened Node
  import F = Framing
  import A = Aes

  // EventType
  const FILE_PART: byte := 3
  const METADATA: byte := 9
  const REQUEST_FILE_PART: byte := 14
  const REQUEST_FILE_TRANSFER: byte := 16

  const SHA_STR: nat := 41        // 40 digits and a NUL

  /** Bytes of the structs that carry nothing: pointers and gaps. */
  datatype Fill = Fill(ptr1: Pointer, ptr2: Pointer, gap4: seq<byte>, gap3: seq<byte>) {
    predicate Shaped() { |gap4| == 4 && |gap3| == 3 }
  }

  predicate ShaText(sha: string) {
    |sha| < SHA_STR && forall i :: 0 <= i < |sha| ==> 0 < sha[i] as int < 256
  }

  function Encode(sha: string): (r: seq<byte>)
    requires ShaText(sha)
    ensures |r| == |sha| && forall i :: 0 <= i < |r| ==> r[i] != 0
  {
    seq(|sha|, i requires 0 <= i < |sha| => sha[i] as int)
  }

  function Decode(bs: seq<byte>): (r: string)
    ensures |r| == |bs|
  {
    seq(|bs|, i requires 0 <= i < |bs| => bs[i] as char)
  }

  lemma TextBack(sha: string)
    requires ShaText(sha)
    ensures Decode(Encode(sha)) == sha
  {
  }

  /** `strncpy` into a field of 41 bytes, and the C string read out of one. */
  function Field(sha: string): (r: seq<byte>)
    requires ShaText(sha)
    ensures |r| == SHA_STR
  {
    Encode(sha) + Zeros(SHA_STR - |sha|)
  }

  function FieldText(f: seq<byte>): string { Decode(f[..StrLen(f)]) }

  lemma FieldBack(sha: string)
    requires ShaText(sha)
    ensures FieldText(Field(sha)) == sha
  {
    var f := Field(sha);
    StrLenUnique(f, |sha|);
    assert f[..|sha|] == Encode(sha);
    TextBack(sha);
  }

  predicate Encodable(m: Message) {
    match m
    case RequestTransfer(sha) => ShaText(sha)
    case MetadataMsg(fileSize, partCount, _) => fileSize < 0x1_0000_0000_0000_0000 && partCount < 0x1_0000_0000
    case RequestPart(part, sha) => part < 0x1_0000_0000 && ShaText(sha)
    case PartMsg(part, sha, _) => part < 0x1_0000_0000 && ShaText(sha)
  }

  function Kind(m: Message): byte {
    match m
    case RequestTransfer(_) => REQUEST_FILE_TRANSFER
    case MetadataMsg(_, _, _) => METADATA
    case RequestPart(_, _) => REQUEST_FILE_PART
    case PartMsg(_, _, _) => FILE_PART
  }

  /** `metadata_t`, `fprequest_t` and `fp_t` with what follows them in memory. */
  function Payload(m: Message, f: Fill): seq<byte>
    requires Encodable(m) && f.Shaped()
  {
    match m
    case RequestTransfer(sha) => Encode(sha)
    case MetadataMsg(fileSize, partCount, content) =>
      f.ptr1 + Le(partCount, 4) + f.gap4 + Le(fileSize, 8) + f.ptr2 + content
    case RequestPart(part, sha) => Le(part, 4) + Field(sha) + f.gap3
    case PartMsg(part, sha, data) => Field(sha) + f.gap3 + Le(part, 4) + f.ptr1 + data
  }

  /** A number stored little-endian from byte `at` on. */
  ghost predicate Stored(b: seq<byte>, at: nat, n: nat, w: nat)
    requires at + w <= |b|
  {
    forall i :: 0 <= i < w ==> b[at + i] == n / Pow256(i) % 256
  }

  lemma LeStored(b: seq<byte>, at: nat, n: nat, w: nat)
    requires at + w <= |b| && b[at..at + w] == Le(n, w)
    ensures Stored(b, at, n, w)
  {
    forall i | 0 <= i < w
      ensures b[at + i] == n / Pow256(i) % 256
    {
      LeByte(n, w, i);
      assert b[at + i] == b[at..at + w][i];
    }
  }

  /** The characters of the hash from byte `at` on, and zeros up to 41 bytes. */
  predicate HashAt(b: seq<byte>, at: nat, sha: string)
    requires at + 41 <= |b| && |sha| < 41
  {
    forall i :: 0 <= i < 41 ==> b[at + i] == if i < |sha| then sha[i] as int else 0
  }

  lemma FieldAt(b: seq<byte>, at: nat, sha: string)
    requires ShaText(sha) && at + 41 <= |b| && b[at..at + 41] == Field(sha)
    ensures HashAt(b, at, sha)
  {
    forall i | 0 <= i < 41
      ensures b[at + i] == if i < |sha| then sha[i] as int else 0
    {
      assert b[at + i] == b[at..at + 41][i] == Field(sha)[i];
    }
  }

  /** Where the fields of the structs lie. */
  lemma PayloadLayout(m: Message, f: Fill)
    requires Encodable(m) && f.Shaped()
    ensures var b := Payload(m, f);
            match m
            case RequestTransfer(sha) => |b| == |sha| && forall i :: 0 <= i < |sha| ==> b[i] == sha[i] as int
            case MetadataMsg(fileSize, partCount, content) =>
              |b| == 32 + |content| && Stored(b, 8, partCount, 4) && Stored(b, 16, fileSize, 8) && b[32..] == content
            case RequestPart(part, sha) => |b| == 48 && Stored(b, 0, part, 4) && HashAt(b, 4, sha)
            case PartMsg(part, sha, data) =>
              |b| == 56 + |data| && HashAt(b, 0, sha) && Stored(b, 44, part, 4) && b[56..] == data
  {
    var b := Payload(m, f);
    match m {
      case RequestTransfer(sha) =>
      case MetadataMsg(fileSize, partCount, content) =>
        assert b[8..8 + 4] == Le(partCount, 4) && b[16..16 + 8] == Le(fileSize, 8) && b[32..] == content;
        LeStored(b, 8, partCount, 4);
        LeStored(b, 16, fileSize, 8);
      case RequestPart(part, sha) =>
        assert b[0..0 + 4] == Le(part, 4) && b[4..4 + 41] == Field(sha);
        LeStored(b, 0, part, 4);
        FieldAt(b, 4, sha);
      case PartMsg(part, sha, data) =>
        assert b[0..0 + 41] == Field(sha) && b[44..44 + 4] == Le(part, 4) && b[56..] == data;
        FieldAt(b, 0, sha);
        LeStored(b, 44, part, 4);
    }
  }

  /** The event types are the positions of their names in the enumeration. */
  const EVENT_TYPES := [
    "AddFile", "AddPeer", "FileList", "FilePart", "FilePartList", "FileTransferStatus", "GetPublicKey", "ListPeers",
    "Message", "Metadata", "PeerConnected", "PeerDisconnected", "RequestFileList", "RequestFileListLocal",
    "RequestFilePart", "RequestFilePartList", "RequestFileTransfer", "RequestFileTransferLocal", "Setup", "Status"]

  lemma KindsByName(m: Message)
    ensures Kind(m) < |EVENT_TYPES|
    ensures EVENT_TYPES[Kind(m)] == match m
                                    case RequestTransfer(_) => "RequestFileTransfer"
                                    case MetadataMsg(_, _, _) => "Metadata"
                                    case RequestPart(_, _) => "RequestFilePart"
                                    case PartMsg(_, _, _) => "FilePart"
  {
  }

  /** What the handlers read out of an event; none for other types and short data. */
  function FromPayload(kind: byte, d: seq<byte>): Option<Message> {
    if kind == REQUEST_FILE_TRANSFER then Some(RequestTransfer(FieldText(d)))
    else if kind == METADATA && |d| >= 32 then Some(MetadataMsg(Num(d[16..24]), Num(d[8..12]), d[32..]))
    else if kind == REQUEST_FILE_PART && |d| >= 48 then Some(RequestPart(Num(d[0..4]), FieldText(d[4..45])))
    else if kind == FILE_PART && |d| >= 56 then Some(PartMsg(Num(d[44..48]), FieldText(d[0..41]), d[56..]))
    else None
  }

  lemma NoNul(bs: seq<byte>)
    requires forall i :: 0 <= i < |bs| ==> bs[i] != 0
    ensures StrLen(bs) == |bs|
  {
  }

  lemma RequestBack(sha: string)
    requires ShaText(sha)
    ensures FromPayload(REQUEST_FILE_TRANSFER, Encode(sha)) == Some(RequestTransfer(sha))
  {
    var e := Encode(sha);
    NoNul(e);
    assert e[..|e|] == e;
    TextBack(sha);
  }

  lemma MetadataBack(m: Message, f: Fill)
    requires Encodable(m) && f.Shaped() && m.MetadataMsg?
    ensures FromPayload(METADATA, Payload(m, f)) == Some(m)
  {
    var d := Payload(m, f);
    assert d[8..12] == Le(m.partCount, 4) && d[16..24] == Le(m.fileSize, 8) && d[32..] == m.content;
    Pows();
    NumLeFits(m.partCount, 4);
    NumLeFits(m.fileSize, 8);
  }

  lemma PartRequestBack(m: Message, f: Fill)
    requires Encodable(m) && f.Shaped() && m.RequestPart?
    ensures FromPayload(REQUEST_FILE_PART, Payload(m, f)) == Some(m)
  {
    var d := Payload(m, f);
    assert d[0..4] == Le(m.part, 4) && d[4..45] == Field(m.sha);
    Pows();
    NumLeFits(m.part, 4);
    FieldBack(m.sha);
  }

  lemma PartBack(m: Message, f: Fill)
    requires Encodable(m) && f.Shaped() && m.PartMsg?
    ensures FromPayload(FILE_PART, Payload(m, f)) == Some(m)
  {
    var d := Payload(m, f);
    assert d[44..48] == Le(m.part, 4) && d[0..41] == Field(m.sha) && d[56..] == m.data;
    Pows();
    NumLeFits(m.part, 4);
    FieldBack(m.sha);
  }

  /** Every message is read back as it was written, whatever the pointers and gaps hold. */
  lemma MessageBack(m: Message, f: Fill)
    requires Encodable(m) && f.Shaped()
    ensures FromPayload(Kind(m), Payload(m, f)) == Some(m)
  {
    match m
    case RequestTransfer(sha) => RequestBack(sha);
    case MetadataMsg(_, _, _) => MetadataBack(m, f);
    case RequestPart(_, _) => PartRequestBack(m, f);
    case PartMsg(_, _, _) => PartBack(m, f);
  }

  // ------------------------------------------------------------- over the wire

  /** A message with everything that chance decides on its way. */
  datatype Parcel = Parcel(m: Message, fill: Fill, tag: nat, ptr: Pointer, nonce: nat, pw: seq<byte>,
                           salt: F.Salt, junk: F.Junk) {
    predicate Proper() {
      && Encodable(m) && fill.Shaped() && tag < 0x1_0000_0000
      && |Payload(m, fill)| + EVT_SIZE + 16 <= A.INT_MAX && |pw| == A.PW_LEN && junk.Shaped()
    }

    /** `event_new` and `send_event_to_peer`. */
    function Sealed(): (r: F.Message)
      requires Proper()
      ensures r.Proper()
    {
      F.Message(Event(Kind(m), tag, Zeros(16), 0, Payload(m, fill)), ptr, nonce, pw, salt, junk)
    }
  }

  ghost predicate AllProper(ps: seq<Parcel>) {
    forall i :: 0 <= i < |ps| ==> ps[i].Proper()
  }

  function SealAll(ps: seq<Parcel>): (r: seq<F.Message>)
    requires forall i :: 0 <= i < |ps| ==> ps[i].Proper()
    ensures forall i :: 0 <= i < |r| ==> r[i].Proper()
  {
    if ps == [] then [] else [ps[0].Sealed()] + SealAll(ps[1..])
  }

  function Messages(ps: seq<Parcel>): seq<Message> {
    if ps == [] then [] else [ps[0].m] + Messages(ps[1..])
  }

  /** What the handlers make of the events that the reader hands on. */
  function Handled(es: seq<Event>): seq<Message> {
    if es == [] then []
    else (match FromPayload(es[0].kind, es[0].data) { case Some(m) => [m] case None => [] }) + Handled(es[1..])
  }

  lemma {:induction false} HandledSealed(ps: seq<Parcel>, from: F.From)
    requires AllProper(ps)
    ensures Handled(F.EventsOf(SealAll(ps), from)) == Messages(ps)
    decreases |ps|
  {
    if ps != [] {
      var p := ps[0];
      MessageBack(p.m, p.fill);
      HandledSealed(ps[1..], from);
      var es := F.EventsOf(SealAll(ps), from);
      assert SealAll(ps)[1..] == SealAll(ps[1..]);
      assert es[1..] == F.EventsOf(SealAll(ps[1..]), from);
      assert es[0].kind == Kind(p.m) && es[0].data == Payload(p.m, p.fill);
    }
  }

  /** The messages that one node sends are the messages that the other node's handlers
      see, in the same order: through structs, events, sealing and every chunking of the
      byte stream, when each receive asks for what is missing. */
  lemma MessagesArrive(s: A.Suite, pub: nat, priv: nat, from: F.From, grants: nat -> nat, mem: F.Memory,
                       ps: seq<Parcel>)
    requires F.Sound(s, pub, priv) && AllProper(ps)
    ensures var st := F.Stream(F.WireAll(s, pub, SealAll(ps)), mem, 0, [], false);
            Handled(F.ReadAll(F.Missing, s, priv, from, grants, st).out) == Messages(ps)
  {
    var ms := SealAll(ps);
    var st := F.Stream(F.WireAll(s, pub, ms), mem, 0, [], false);
    F.EveryChunking(s, pub, priv, from, grants, st, ms);
    HandledSealed(ps, from);
    assert [] + F.EventsOf(ms, from) == F.EventsOf(ms, from);
  }

  /** The same for the reader as it is written, over every aligned chunking. */
  lemma MessagesArriveAligned(s: A.Suite, pub: nat, priv: nat, from: F.From, grants: nat -> nat, mem: F.Memory,
                              ps: seq<Parcel>)
    requires F.Sound(s, pub, priv) && AllProper(ps) && F.Aligned(s, pub, SealAll(ps), grants, 0)
    ensures var st := F.Stream(F.WireAll(s, pub, SealAll(ps)), mem, 0, [], false);
            Handled(F.ReadAll(F.Whole, s, priv, from, grants, st).out) == Messages(ps)
  {
    var ms := SealAll(ps);
    var st := F.Stream(F.WireAll(s, pub, ms), mem, 0, [], false);
    F.AlignedChunking(s, pub, priv, from, grants, st, ms);
    HandledSealed(ps, from);
    assert [] + F.EventsOf(ms, from) == F.EventsOf(ms, from);
  }
}
