/** Events between peers: each is sealed into an envelope, the envelopes follow each other
    on a byte stream, and the reader of core/core.c takes a header, then a body, from
    whatever chunks the network delivers. */
module Framing {
  import opened Bytes
  import opened Events
  import opened Aes

  const ENC_SIZE: nat := 32      // sizeof(enc_t)

  type Salt = s: seq<byte> | |s| == SALT_LEN witness Zeros(8)
  type Memory = m: seq<byte> | |m| == ENC_SIZE witness Zeros(32)

  /** The bytes of `enc_t` that carry nothing: two gaps and the sender's data pointer. */
  datatype Junk = Junk(gap2: seq<byte>, gap4: seq<byte>, ptr: Pointer) {
    predicate Shaped() { |gap2| == 2 && |gap4| == 4 }
  }

  function EnvHeader(e: Envelope, j: Junk): (h: seq<byte>)
    requires |e.salt| == SALT_LEN && j.Shaped()
    ensures |h| == ENC_SIZE
  {
    Le(e.magic, 4) + e.salt + Le(e.passLen, 2) + j.gap2 + Le(e.dataLen, 4) + j.gap4 + j.ptr
  }

  function Magic(m: Memory): nat { Num(m[0..4]) }

  function PassLen(m: Memory): nat { Num(m[12..14]) }

  function BodyLen(m: Memory): nat { Num(m[16..20]) }

  /** The receiver adds the two lengths in 32 bits. */
  function Total(m: Memory): nat { (PassLen(m) + BodyLen(m)) % 0x1_0000_0000 }

  lemma EnvFields(e: Envelope, j: Junk)
    requires |e.salt| == SALT_LEN && j.Shaped()
    requires e.magic < 0x1_0000_0000 && e.passLen < 0x1_0000 && e.dataLen < 0x1_0000_0000
    ensures var m := EnvHeader(e, j);
            Magic(m) == e.magic && m[4..12] == e.salt && PassLen(m) == e.passLen && BodyLen(m) == e.dataLen
  {
    var m := EnvHeader(e, j);
    assert m[0..4] == Le(e.magic, 4) && m[4..12] == e.salt && m[12..14] == Le(e.passLen, 2)
           && m[16..20] == Le(e.dataLen, 4);
    Pows();
    NumLeFits(e.magic, 4);
    NumLeFits(e.passLen, 2);
    NumLeFits(e.dataLen, 4);
  }

  /** Where the fields of the header lie, little-endian, with two gaps for alignment. */
  lemma EnvLayout(e: Envelope, j: Junk)
    requires |e.salt| == SALT_LEN && j.Shaped()
    ensures var b := EnvHeader(e, j);
            && |b| == 32 && b[4..12] == e.salt && b[24..32] == j.ptr
            && (forall i :: 0 <= i < 4 ==> b[i] == e.magic / Pow256(i) % 256)
            && b[12] == e.passLen % 256 && b[13] == e.passLen / 256 % 256
            && (forall i :: 0 <= i < 4 ==> b[16 + i] == e.dataLen / Pow256(i) % 256)
  {
    var b := EnvHeader(e, j);
    assert b[0..4] == Le(e.magic, 4) && b[12..14] == Le(e.passLen, 2) && b[16..20] == Le(e.dataLen, 4);
    forall i | 0 <= i < 4
      ensures b[i] == e.magic / Pow256(i) % 256 && b[16 + i] == e.dataLen / Pow256(i) % 256
    {
      LeByte(e.magic, 4, i);
      LeByte(e.dataLen, 4, i);
      assert b[i] == b[0..4][i] && b[16 + i] == b[16..20][i];
    }
    Pows();
    LeByte(e.passLen, 2, 0);
    LeByte(e.passLen, 2, 1);
    assert b[12] == b[12..14][0] && b[13] == b[12..14][1];
  }

  // ------------------------------------------------------------- receiving

  /** What a receive asks for while part of a block is still missing: the whole block
      again, as core/core.c does, or the part that is missing. */
  datatype Ask = Whole | Missing

  function Min(a: nat, b: nat): nat { if a < b then a else b }

  function AtLeastOne(n: nat): nat { if n == 0 then 1 else n }

  /** One receive: some of what has been or will be sent, `grant` being what is there now. */
  function Recv(want: nat, avail: nat, grant: nat): nat {
    Min(Min(want, avail), AtLeastOne(grant))
  }

  /** The receive loop for a block of `total` bytes when `avail` more bytes will ever come:
      the bytes received when it stops, and the next grant.  Where it runs dry the code's
      loop goes on receiving zero bytes for ever; the model stops there. */
  function RecvLoop(ask: Ask, total: nat, received: nat, avail: nat, grants: nat -> nat, pos: nat): (r: (nat, nat))
    ensures received <= r.0 <= received + avail
    decreases avail
  {
    if received >= total || avail == 0 then (received, pos)
    else
      var n := Recv(if ask == Whole then total else total - received, avail, grants(pos));
      RecvLoop(ask, total, received + n, avail - n, grants, pos + 1)
  }

  /** The loop gets its block exactly when enough bytes will come; a peer that closes
      earlier leaves it spinning. */
  lemma {:induction false} RecvLoopEnds(ask: Ask, total: nat, received: nat, avail: nat, grants: nat -> nat, pos: nat)
    ensures RecvLoop(ask, total, received, avail, grants, pos).0 >= total <==> received + avail >= total
    decreases avail
  {
    if received < total && avail > 0 {
      var n := Recv(if ask == Whole then total else total - received, avail, grants(pos));
      RecvLoopEnds(ask, total, received + n, avail - n, grants, pos + 1);
    }
  }

  /** Asking for the missing part never takes more than the block, however it is chunked. */
  lemma {:induction false} MissingIsExact(total: nat, received: nat, avail: nat, grants: nat -> nat, pos: nat)
    requires received <= total
    ensures RecvLoop(Missing, total, received, avail, grants, pos).0 == Min(total, received + avail)
    decreases avail
  {
    if received < total && avail > 0 {
      var n := Recv(total - received, avail, grants(pos));
      MissingIsExact(total, received + n, avail - n, grants, pos + 1);
    }
  }

  /** The first `k` chunks that a loop asking for `total` bytes each time would get. */
  function Chunks(total: nat, grants: nat -> nat, pos: nat, k: nat): nat
    decreases k
  {
    if k == 0 then 0 else Min(total, AtLeastOne(grants(pos))) + Chunks(total, grants, pos + 1, k - 1)
  }

  /** Some of the chunks end where the block ends. */
  ghost predicate ChunkEndsAt(total: nat, received: nat, grants: nat -> nat, pos: nat) {
    exists k: nat :: received + Chunks(total, grants, pos, k) == total
  }

  lemma ChunkEndsLater(total: nat, received: nat, grants: nat -> nat, pos: nat)
    requires received < total
    ensures var c := Min(total, AtLeastOne(grants(pos)));
            ChunkEndsAt(total, received, grants, pos) <==> ChunkEndsAt(total, received + c, grants, pos + 1)
  {
    var c := Min(total, AtLeastOne(grants(pos)));
    if ChunkEndsAt(total, received, grants, pos) {
      var k: nat :| received + Chunks(total, grants, pos, k) == total;
      assert k > 0;
      assert received + c + Chunks(total, grants, pos + 1, k - 1) == total;
    }
    if ChunkEndsAt(total, received + c, grants, pos + 1) {
      var k: nat :| received + c + Chunks(total, grants, pos + 1, k) == total;
      assert received + Chunks(total, grants, pos, k + 1) == total;
    }
  }

  /** Asking for the whole block each time, as core/core.c does, takes exactly the block if
      and only if nothing follows the block on the stream or some chunk ends where the
      block ends; otherwise it takes bytes of what follows. */
  lemma {:induction false} WholeIsExactIff(total: nat, received: nat, avail: nat, grants: nat -> nat, pos: nat)
    requires received < total <= received + avail
    ensures RecvLoop(Whole, total, received, avail, grants, pos).0 == total
            <==> (received + avail == total || ChunkEndsAt(total, received, grants, pos))
    decreases avail
  {
    var c := Min(total, AtLeastOne(grants(pos)));
    var n := Recv(total, avail, grants(pos));
    ChunkEndsLater(total, received, grants, pos);
    if received + n < total {
      WholeIsExactIff(total, received + n, avail - n, grants, pos + 1);
    } else {
      if ChunkEndsAt(total, received + c, grants, pos + 1) {
        var k: nat :| received + c + Chunks(total, grants, pos + 1, k) == total;
      } else {
        assert received + c + Chunks(total, grants, pos + 1, 0) != total;
      }
    }
  }

  // ------------------------------------------------------------- the reader

  /** One connection at the reader: the bytes still to come, the reused header struct, the
      position in the grants, and the events handed on so far. */
  datatype Stream = Stream(bytes: seq<byte>, mem: Memory, pos: nat, out: seq<Event>, stalled: bool)

  /** Who is at the other end; the reader overwrites the sender's own claim with it. */
  datatype From = From(addr: Addr, port: nat)

  function Stamp(e: Event, from: From): Event {
    e.(addr := from.addr, port := from.port)
  }

  /** The event inside a plain text, none when it is shorter than its own lengths say. */
  function EventIn(plain: seq<byte>, from: From): seq<Event> {
    if |plain| < EVT_SIZE || EVT_SIZE + DataLen(plain) > |plain| then []
    else [Stamp(FromHeader(plain, plain[EVT_SIZE..EVT_SIZE + DataLen(plain)]), from)]
  }

  function Opened(s: Suite, priv: nat, m: Memory, body: seq<byte>, from: From): seq<Event> {
    if PassLen(m) + BodyLen(m) > |body| then []
    else EventIn(Open(s, priv, Envelope(Magic(m), m[4..12], PassLen(m), BodyLen(m), body)), from)
  }

  function RecvHeader(ask: Ask, avail: nat, grants: nat -> nat, pos: nat): (r: (nat, nat))
    ensures r.0 <= avail && r.0 <= ENC_SIZE && (avail > 0 ==> r.0 > 0)
  {
    if ask == Whole then (Recv(ENC_SIZE, avail, grants(pos)), pos + 1)
    else
      MissingIsExact(ENC_SIZE, 0, avail, grants, pos);
      RecvLoop(Missing, ENC_SIZE, 0, avail, grants, pos)
  }

  /** The body loop and the hand-over, once a header with the right magic number is there. */
  function RoundBody(ask: Ask, s: Suite, priv: nat, from: From, grants: nat -> nat, out: seq<Event>,
                     mem: Memory, rest: seq<byte>, pos: nat): (r: Stream)
    ensures |r.bytes| <= |rest|
  {
    var (got, pos2) := RecvLoop(ask, Total(mem), 0, |rest|, grants, pos);
    if got < Total(mem) then Stream(rest[got..], mem, pos2, out, true)
    else Stream(rest[got..], mem, pos2, out + Opened(s, priv, mem, rest[..Total(mem)], from), false)
  }

  /** One round of the reader on a readable connection.  With `Whole` it is the code's:
      the header is a single receive over the reused struct, and the body loop asks for
      the whole body each time. */
  function Round(ask: Ask, s: Suite, priv: nat, from: From, grants: nat -> nat, st: Stream): (r: Stream)
    requires st.bytes != [] && !st.stalled
    ensures |r.bytes| < |st.bytes|
  {
    var (n, pos) := RecvHeader(ask, |st.bytes|, grants, st.pos);
    var mem: Memory := st.bytes[..n] + st.mem[n..];
    var rest := st.bytes[n..];
    if ask == Missing && n < ENC_SIZE then Stream(rest, mem, pos, st.out, true)
    else if Magic(mem) != MAGIC then Stream(rest, mem, pos, st.out, false)
    else RoundBody(ask, s, priv, from, grants, st.out, mem, rest, pos)
  }

  function ReadAll(ask: Ask, s: Suite, priv: nat, from: From, grants: nat -> nat, st: Stream): Stream
    decreases |st.bytes|
  {
    if st.bytes == [] || st.stalled then st
    else ReadAll(ask, s, priv, from, grants, Round(ask, s, priv, from, grants, st))
  }

  // ------------------------------------------------------------- the sender

  /** The two library facts everything rests on: the block cipher is a permutation, and
      the receiver's private key undoes the public key that the sender holds. */
  ghost predicate Sound(s: Suite, pub: nat, priv: nat) {
    s.block.Permutation() && s.Pair(pub, priv)
  }

  /** An event to send, with everything the sender draws at random or leaves to chance. */
  datatype Message = Message(e: Event, ptr: Pointer, nonce: nat, pw: seq<byte>, salt: Salt, junk: Junk) {
    predicate Proper() {
      Fits(e) && |e.data| + EVT_SIZE + 16 <= INT_MAX && |pw| == PW_LEN && junk.Shaped()
    }
  }

  /** `send_event_to_peer`: the packed event, sealed, header and body in one piece. */
  function Wire(s: Suite, pub: nat, m: Message): seq<byte>
    requires m.Proper()
  {
    var e := Seal(s, pub, m.nonce, m.pw, m.salt, Struct(m.e, m.ptr));
    EnvHeader(e, m.junk) + e.body
  }

  ghost predicate AllProper(ms: seq<Message>) {
    forall i :: 0 <= i < |ms| ==> ms[i].Proper()
  }

  function WireAll(s: Suite, pub: nat, ms: seq<Message>): seq<byte>
    requires forall i :: 0 <= i < |ms| ==> ms[i].Proper()
  {
    if ms == [] then [] else Wire(s, pub, ms[0]) + WireAll(s, pub, ms[1..])
  }

  function EventsOf(ms: seq<Message>, from: From): seq<Event> {
    if ms == [] then [] else [Stamp(ms[0].e, from)] + EventsOf(ms[1..], from)
  }

  /** What is to come out of the reader: kind, tag and data of each event as sent, in order,
      with the address and port of the connection instead of the sender's claim. */
  ghost predicate HandedOn(out: seq<Event>, before: seq<Event>, ms: seq<Message>, from: From) {
    && |out| == |before| + |ms| && out[..|before|] == before
    && forall i :: 0 <= i < |ms| ==>
         out[|before| + i] == Event(ms[i].e.kind, ms[i].e.tag, from.addr, from.port, ms[i].e.data)
  }

  lemma {:induction false} EventsOfEach(ms: seq<Message>, from: From)
    ensures |EventsOf(ms, from)| == |ms|
    ensures forall i :: 0 <= i < |ms| ==>
              EventsOf(ms, from)[i] == Event(ms[i].e.kind, ms[i].e.tag, from.addr, from.port, ms[i].e.data)
    decreases |ms|
  {
    if ms != [] {
      EventsOfEach(ms[1..], from);
    }
  }

  lemma EventsOfHandedOn(before: seq<Event>, ms: seq<Message>, from: From)
    ensures HandedOn(before + EventsOf(ms, from), before, ms, from)
  {
    EventsOfEach(ms, from);
  }

  function BodySize(s: Suite, pub: nat, m: Message): nat {
    |s.rsaEnc(pub, m.pw, m.nonce)| + ((|m.e.data| + EVT_SIZE) / 16 + 1) * 16
  }

  /** The header that a message puts on the wire, read back. */
  lemma WireFields(s: Suite, pub: nat, priv: nat, m: Message)
    requires Sound(s, pub, priv) && m.Proper()
    ensures var e := Seal(s, pub, m.nonce, m.pw, m.salt, Struct(m.e, m.ptr));
            var mem := EnvHeader(e, m.junk);
            && Magic(mem) == MAGIC && m.salt == mem[4..12]
            && PassLen(mem) == e.passLen && BodyLen(mem) == e.dataLen
            && Total(mem) == |e.body| == BodySize(s, pub, m) > 0
            && e.passLen + e.dataLen == |e.body|
  {
    var plain := Struct(m.e, m.ptr);
    SealedParts(s, pub, priv, m.nonce, m.pw, m.salt, plain);
    var e := Seal(s, pub, m.nonce, m.pw, m.salt, plain);
    EnvFields(e, m.junk);
    SmallMod(e.passLen + e.dataLen, 0x1_0000_0000);
  }

  lemma EventBack(e: Event, ptr: Pointer, from: From)
    requires Fits(e)
    ensures EventIn(Struct(e, ptr), from) == [Stamp(e, from)]
  {
    HeaderFields(e, ptr, e.data);
    assert Struct(e, ptr)[EVT_SIZE..EVT_SIZE + |e.data|] == e.data;
  }

  /** A message on the wire is a header and a body from which the receiver gets its event back. */
  lemma WireParts(s: Suite, pub: nat, priv: nat, from: From, m: Message) returns (h: Memory, body: seq<byte>)
    requires Sound(s, pub, priv) && m.Proper()
    ensures Wire(s, pub, m) == h + body && Magic(h) == MAGIC
    ensures Total(h) == |body| == BodySize(s, pub, m) > 0
    ensures Opened(s, priv, h, body, from) == [Stamp(m.e, from)]
    ensures Stamp(m.e, from) == Event(m.e.kind, m.e.tag, from.addr, from.port, m.e.data)
  {
    var e := Seal(s, pub, m.nonce, m.pw, m.salt, Struct(m.e, m.ptr));
    h, body := EnvHeader(e, m.junk), e.body;
    WireFields(s, pub, priv, m);
    OpenSeal(s, pub, priv, m.nonce, m.pw, m.salt, Struct(m.e, m.ptr));
    assert Envelope(Magic(h), h[4..12], PassLen(h), BodyLen(h), e.body) == e;
    EventBack(m.e, m.ptr, from);
  }

  /** The reader's two loops take exactly a header and a body of `body` bytes, `tail` bytes
      following; the grants stand at `pos` before, `pos1` between and `pos2` after. */
  ghost predicate TakesExactly(ask: Ask, grants: nat -> nat, pos: nat, body: nat, tail: nat, pos1: nat, pos2: nat) {
    && RecvHeader(ask, ENC_SIZE + body + tail, grants, pos) == (ENC_SIZE, pos1)
    && RecvLoop(ask, body, 0, body + tail, grants, pos1) == (body, pos2)
  }

  lemma Associate(a: seq<byte>, b: seq<byte>, c: seq<byte>)
    ensures (a + b) + c == a + (b + c)
  {
  }

  lemma BodyExact(ask: Ask, s: Suite, priv: nat, from: From, grants: nat -> nat, out: seq<Event>,
                  h: Memory, body: seq<byte>, tail: seq<byte>, pos1: nat, pos2: nat)
    requires Total(h) == |body|
    requires RecvLoop(ask, |body|, 0, |body| + |tail|, grants, pos1) == (|body|, pos2)
    ensures RoundBody(ask, s, priv, from, grants, out, h, body + tail, pos1)
            == Stream(tail, h, pos2, out + Opened(s, priv, h, body, from), false)
  {
    assert (body + tail)[..|body|] == body && (body + tail)[|body|..] == tail;
  }

  /** A round over one header and one body that it takes exactly. */
  lemma RoundExact(ask: Ask, s: Suite, priv: nat, from: From, grants: nat -> nat, st: Stream,
                   h: Memory, body: seq<byte>, tail: seq<byte>, pos1: nat, pos2: nat)
    requires !st.stalled && st.bytes == h + (body + tail)
    requires Magic(h) == MAGIC && Total(h) == |body|
    requires TakesExactly(ask, grants, st.pos, |body|, |tail|, pos1, pos2)
    ensures Round(ask, s, priv, from, grants, st)
            == Stream(tail, h, pos2, st.out + Opened(s, priv, h, body, from), false)
  {
    assert st.bytes[..ENC_SIZE] == h && st.bytes[ENC_SIZE..] == body + tail;
    assert st.mem[ENC_SIZE..] == [] && h + [] == h;
    BodyExact(ask, s, priv, from, grants, st.out, h, body, tail, pos1, pos2);
  }

  /** A round that reads exactly one whole message hands on exactly its event. */
  lemma RoundOfMessage(ask: Ask, s: Suite, pub: nat, priv: nat, from: From, grants: nat -> nat, st: Stream,
                       m: Message, tail: seq<byte>, pos1: nat, pos2: nat)
    requires Sound(s, pub, priv) && m.Proper() && !st.stalled
    requires st.bytes == Wire(s, pub, m) + tail
    requires TakesExactly(ask, grants, st.pos, BodySize(s, pub, m), |tail|, pos1, pos2)
    ensures exists h: Memory ::
              Round(ask, s, priv, from, grants, st)
              == Stream(tail, h, pos2, st.out + [Stamp(m.e, from)], false)
  {
    var h, body := WireParts(s, pub, priv, from, m);
    Associate(h, body, tail);
    RoundExact(ask, s, priv, from, grants, st, h, body, tail, pos1, pos2);
  }

  lemma WireLength(s: Suite, pub: nat, priv: nat, m: Message)
    requires Sound(s, pub, priv) && m.Proper()
    ensures |Wire(s, pub, m)| == ENC_SIZE + BodySize(s, pub, m) && BodySize(s, pub, m) > 0
  {
    WireFields(s, pub, priv, m);
  }

  lemma EventsOfCons(out: seq<Event>, ms: seq<Message>, from: From)
    requires ms != []
    ensures out + EventsOf(ms, from) == (out + [Stamp(ms[0].e, from)]) + EventsOf(ms[1..], from)
  {
  }

  /** The stream as the reader finds it after one round that took one message exactly. */
  lemma AfterOne(ask: Ask, s: Suite, pub: nat, priv: nat, from: From, grants: nat -> nat, st: Stream,
                 ms: seq<Message>, pos1: nat, pos2: nat)
    returns (st1: Stream)
    requires Sound(s, pub, priv) && AllProper(ms) && ms != []
    requires st.bytes == WireAll(s, pub, ms) && !st.stalled
    requires TakesExactly(ask, grants, st.pos, BodySize(s, pub, ms[0]), |WireAll(s, pub, ms[1..])|, pos1, pos2)
    ensures st1.bytes == WireAll(s, pub, ms[1..]) && !st1.stalled && st1.pos == pos2
    ensures st1.out + EventsOf(ms[1..], from) == st.out + EventsOf(ms, from)
    ensures ReadAll(ask, s, priv, from, grants, st) == ReadAll(ask, s, priv, from, grants, st1)
  {
    var tail := WireAll(s, pub, ms[1..]);
    WireLength(s, pub, priv, ms[0]);
    RoundOfMessage(ask, s, pub, priv, from, grants, st, ms[0], tail, pos1, pos2);
    st1 := Round(ask, s, priv, from, grants, st);
    EventsOfCons(st.out, ms, from);
  }

  lemma MissingTakesExactly(grants: nat -> nat, pos: nat, body: nat, tail: nat) returns (pos1: nat, pos2: nat)
    ensures TakesExactly(Missing, grants, pos, body, tail, pos1, pos2)
  {
    MissingIsExact(ENC_SIZE, 0, ENC_SIZE + body + tail, grants, pos);
    pos1 := RecvHeader(Missing, ENC_SIZE + body + tail, grants, pos).1;
    MissingIsExact(body, 0, body + tail, grants, pos1);
    pos2 := RecvLoop(Missing, body, 0, body + tail, grants, pos1).1;
  }

  /** Every list of events arrives unchanged and in order over every chunking of the
      stream, when each receive asks for what is missing. */
  lemma {:induction false} EveryChunking(s: Suite, pub: nat, priv: nat, from: From, grants: nat -> nat, st: Stream,
                                         ms: seq<Message>)
    requires Sound(s, pub, priv) && AllProper(ms)
    requires st.bytes == WireAll(s, pub, ms) && !st.stalled
    ensures var r := ReadAll(Missing, s, priv, from, grants, st);
            r.bytes == [] && !r.stalled && r.out == st.out + EventsOf(ms, from) && HandedOn(r.out, st.out, ms, from)
    decreases |ms|
  {
    EventsOfHandedOn(st.out, ms, from);
    if ms != [] {
      WireLength(s, pub, priv, ms[0]);
      var pos1, pos2 := MissingTakesExactly(grants, st.pos, BodySize(s, pub, ms[0]), |WireAll(s, pub, ms[1..])|);
      var st1 := AfterOne(Missing, s, pub, priv, from, grants, st, ms, pos1, pos2);
      EveryChunking(s, pub, priv, from, grants, st1, ms[1..]);
    }
  }

  /** The chunkings under which the code's reader stays in step: each header is there in
      one piece, and each body either ends the stream or ends with one of its chunks. */
  ghost predicate Aligned(s: Suite, pub: nat, ms: seq<Message>, grants: nat -> nat, pos: nat)
    requires AllProper(ms)
    decreases |ms|
  {
    ms == [] ||
    var total, tail := BodySize(s, pub, ms[0]), |WireAll(s, pub, ms[1..])|;
    && FirstAligned(total, tail, grants, pos)
    && Aligned(s, pub, ms[1..], grants, NextPos(total, tail, grants, pos))
  }

  /** The grants' position after one envelope. */
  function NextPos(total: nat, tail: nat, grants: nat -> nat, pos: nat): nat {
    RecvLoop(Whole, total, 0, total + tail, grants, pos + 1).1
  }

  ghost predicate FirstAligned(total: nat, tail: nat, grants: nat -> nat, pos: nat) {
    grants(pos) >= ENC_SIZE && (tail == 0 || ChunkEndsAt(total, 0, grants, pos + 1))
  }

  /** Where every envelope is there at once, in whole, every chunking is aligned. */
  lemma {:induction false} WholeEnvelopesAligned(s: Suite, pub: nat, ms: seq<Message>, grants: nat -> nat, pos: nat)
    requires AllProper(ms) && forall k: nat :: grants(k) >= ENC_SIZE
    requires forall i, k: nat :: 0 <= i < |ms| ==> grants(k) >= BodySize(s, pub, ms[i]) > 0
    ensures Aligned(s, pub, ms, grants, pos)
    decreases |ms|
  {
    if ms != [] {
      var total, tail := BodySize(s, pub, ms[0]), |WireAll(s, pub, ms[1..])|;
      assert grants(pos + 1) >= total > 0;
      assert Chunks(total, grants, pos + 2, 0) == 0;
      assert Chunks(total, grants, pos + 1, 1) == total;
      assert FirstAligned(total, tail, grants, pos);
      WholeEnvelopesAligned(s, pub, ms[1..], grants, NextPos(total, tail, grants, pos));
    }
  }

  /** One envelope is taken exactly if and only if it is aligned. */
  lemma TakesExactlyIff(total: nat, tail: nat, grants: nat -> nat, pos: nat)
    requires total > 0
    ensures TakesExactly(Whole, grants, pos, total, tail, pos + 1, NextPos(total, tail, grants, pos))
            <==> FirstAligned(total, tail, grants, pos)
  {
    WholeIsExactIff(total, 0, total + tail, grants, pos + 1);
  }

  lemma AlignedHead(s: Suite, pub: nat, ms: seq<Message>, grants: nat -> nat, pos: nat, total: nat, tail: nat)
    requires AllProper(ms) && ms != [] && Aligned(s, pub, ms, grants, pos)
    requires 0 < total == BodySize(s, pub, ms[0]) && tail == |WireAll(s, pub, ms[1..])|
    ensures TakesExactly(Whole, grants, pos, total, tail, pos + 1, NextPos(total, tail, grants, pos))
    ensures Aligned(s, pub, ms[1..], grants, NextPos(total, tail, grants, pos))
  {
    TakesExactlyIff(total, tail, grants, pos);
  }

  lemma AlignedRound(s: Suite, pub: nat, priv: nat, from: From, grants: nat -> nat, st: Stream,
                     ms: seq<Message>) returns (st1: Stream)
    requires Sound(s, pub, priv) && AllProper(ms) && ms != []
    requires st.bytes == WireAll(s, pub, ms) && !st.stalled && Aligned(s, pub, ms, grants, st.pos)
    ensures st1.bytes == WireAll(s, pub, ms[1..]) && !st1.stalled && Aligned(s, pub, ms[1..], grants, st1.pos)
    ensures st1.out + EventsOf(ms[1..], from) == st.out + EventsOf(ms, from)
    ensures ReadAll(Whole, s, priv, from, grants, st) == ReadAll(Whole, s, priv, from, grants, st1)
  {
    WireLength(s, pub, priv, ms[0]);
    var total, tail := BodySize(s, pub, ms[0]), |WireAll(s, pub, ms[1..])|;
    AlignedHead(s, pub, ms, grants, st.pos, total, tail);
    st1 := AfterOne(Whole, s, pub, priv, from, grants, st, ms, st.pos + 1, NextPos(total, tail, grants, st.pos));
  }

  /** The code's reader hands on every event in order over every aligned chunking. */
  lemma {:induction false} AlignedChunking(s: Suite, pub: nat, priv: nat, from: From, grants: nat -> nat,
                                           st: Stream, ms: seq<Message>)
    requires Sound(s, pub, priv) && AllProper(ms)
    requires st.bytes == WireAll(s, pub, ms) && !st.stalled && Aligned(s, pub, ms, grants, st.pos)
    ensures var r := ReadAll(Whole, s, priv, from, grants, st);
            r.bytes == [] && !r.stalled && r.out == st.out + EventsOf(ms, from) && HandedOn(r.out, st.out, ms, from)
    decreases |ms|
  {
    EventsOfHandedOn(st.out, ms, from);
    if ms != [] {
      var st1 := AlignedRound(s, pub, priv, from, grants, st, ms);
      AlignedChunking(s, pub, priv, from, grants, st1, ms[1..]);
    }
  }

  /** Every round of the code's reader takes exactly one envelope: its header comes in one
      piece, and what is left afterwards are the envelopes that follow. */
  ghost predicate RoundByRound(s: Suite, pub: nat, priv: nat, from: From, grants: nat -> nat, st: Stream,
                               ms: seq<Message>)
    requires AllProper(ms)
    decreases |ms|
  {
    ms == [] ||
    (st.bytes != [] && !st.stalled
     && var st1 := Round(Whole, s, priv, from, grants, st);
        && RecvHeader(Whole, |st.bytes|, grants, st.pos).0 == ENC_SIZE
        && st1.bytes == WireAll(s, pub, ms[1..])
        && RoundByRound(s, pub, priv, from, grants, st1, ms[1..]))
  }

  /** A round whose header is there in one piece goes on to the body loop with it. */
  lemma HeaderInOnePiece(s: Suite, priv: nat, from: From, grants: nat -> nat, st: Stream, h: Memory, rest: seq<byte>)
    requires !st.stalled && st.bytes == h + rest && Magic(h) == MAGIC && grants(st.pos) >= ENC_SIZE
    ensures Round(Whole, s, priv, from, grants, st)
            == RoundBody(Whole, s, priv, from, grants, st.out, h, rest, st.pos + 1)
  {
    assert st.bytes[..ENC_SIZE] == h && st.bytes[ENC_SIZE..] == rest;
    assert st.mem[ENC_SIZE..] == [] && h + [] == h;
  }

  /** The header of a round of the code's reader: what one receive brings lies over the start of
      the struct of the round before.  With a wrong magic number it is dropped and nothing else. */
  lemma HeaderOverlay(s: Suite, priv: nat, from: From, grants: nat -> nat, st: Stream)
    requires st.bytes != [] && !st.stalled
    ensures var n := Min(Min(32, |st.bytes|), AtLeastOne(grants(st.pos)));
            var r := Round(Whole, s, priv, from, grants, st);
            && r.mem == st.bytes[..n] + st.mem[n..]
            && (Num(r.mem[0..4]) != 0x0074B12B ==> r == Stream(st.bytes[n..], r.mem, st.pos + 1, st.out, false))
  {
  }

  /** What the body loop takes beyond the body is lost; the event is read from the body alone. */
  lemma RoundBodyLeaves(ask: Ask, s: Suite, priv: nat, from: From, grants: nat -> nat, out: seq<Event>, h: Memory,
                        rest: seq<byte>, pos: nat)
    ensures var (got, pos2) := RecvLoop(ask, Total(h), 0, |rest|, grants, pos);
            var r := RoundBody(ask, s, priv, from, grants, out, h, rest, pos);
            && r.bytes == rest[got..] && r.mem == h && r.pos == pos2 && (r.stalled <==> got < Total(h))
            && r.out == if r.stalled then out else out + Opened(s, priv, h, rest[..Total(h)], from)
  {
  }

  lemma DropIsTailIff(body: seq<byte>, tail: seq<byte>, n: nat)
    requires n <= |body| + |tail|
    ensures (body + tail)[n..] == tail <==> n == |body|
  {
    assert (body + tail)[|body|..] == tail;
    assert |(body + tail)[n..]| == |body| + |tail| - n;
  }

  lemma BodyLeavesTailIff(s: Suite, priv: nat, from: From, grants: nat -> nat, out: seq<Event>, h: Memory,
                          body: seq<byte>, tail: seq<byte>, pos: nat, got: nat, pos2: nat)
    requires Total(h) == |body| && (got, pos2) == RecvLoop(Whole, |body|, 0, |body| + |tail|, grants, pos)
    ensures var r := RoundBody(Whole, s, priv, from, grants, out, h, body + tail, pos);
            (r.bytes == tail <==> got == |body|) && r.pos == pos2 && (got == |body| ==> !r.stalled)
  {
    RoundBodyLeaves(Whole, s, priv, from, grants, out, h, body + tail, pos);
    DropIsTailIff(body, tail, got);
  }

  lemma WholeHeaderIff(avail: nat, grants: nat -> nat, pos: nat)
    requires avail >= ENC_SIZE
    ensures RecvHeader(Whole, avail, grants, pos).0 == ENC_SIZE <==> grants(pos) >= ENC_SIZE
  {
  }

  /** A round whose header is there in one piece takes exactly its envelope if and only if the
      body ends the stream or ends with a chunk. */
  lemma BodyTakenIff(s: Suite, priv: nat, from: From, grants: nat -> nat, st: Stream, h: Memory,
                     body: seq<byte>, tail: seq<byte>)
    requires !st.stalled && st.bytes == h + (body + tail) && Magic(h) == MAGIC && Total(h) == |body| > 0
    requires grants(st.pos) >= ENC_SIZE
    ensures var st1 := Round(Whole, s, priv, from, grants, st);
            && (st1.bytes == tail <==> FirstAligned(|body|, |tail|, grants, st.pos))
            && (st1.bytes == tail ==> !st1.stalled) && st1.pos == NextPos(|body|, |tail|, grants, st.pos)
  {
    HeaderInOnePiece(s, priv, from, grants, st, h, body + tail);
    var (got, pos2) := RecvLoop(Whole, |body|, 0, |body| + |tail|, grants, st.pos + 1);
    BodyLeavesTailIff(s, priv, from, grants, st.out, h, body, tail, st.pos + 1, got, pos2);
    WholeIsExactIff(|body|, 0, |body| + |tail|, grants, st.pos + 1);
  }

  /** One round takes exactly one envelope if and only if that envelope is aligned. */
  lemma EnvelopeTakenIff(s: Suite, priv: nat, from: From, grants: nat -> nat, st: Stream, h: Memory,
                         body: seq<byte>, tail: seq<byte>)
    requires !st.stalled && st.bytes == h + (body + tail) && Magic(h) == MAGIC && Total(h) == |body| > 0
    ensures var st1 := Round(Whole, s, priv, from, grants, st);
            && (RecvHeader(Whole, |st.bytes|, grants, st.pos).0 == ENC_SIZE && st1.bytes == tail
                <==> FirstAligned(|body|, |tail|, grants, st.pos))
            && (FirstAligned(|body|, |tail|, grants, st.pos)
                ==> !st1.stalled && st1.pos == NextPos(|body|, |tail|, grants, st.pos))
  {
    WholeHeaderIff(|st.bytes|, grants, st.pos);
    if grants(st.pos) >= ENC_SIZE {
      BodyTakenIff(s, priv, from, grants, st, h, body, tail);
    } else {
      assert !FirstAligned(|body|, |tail|, grants, st.pos);
    }
  }

  /** The same for a message on the wire. */
  lemma RoundTakesOneIff(s: Suite, pub: nat, priv: nat, from: From, grants: nat -> nat, st: Stream, m: Message,
                         tail: seq<byte>)
    requires Sound(s, pub, priv) && m.Proper() && st.bytes == Wire(s, pub, m) + tail && !st.stalled
    ensures st.bytes != []
    ensures var st1 := Round(Whole, s, priv, from, grants, st);
            && (RecvHeader(Whole, |st.bytes|, grants, st.pos).0 == ENC_SIZE && st1.bytes == tail
                <==> FirstAligned(BodySize(s, pub, m), |tail|, grants, st.pos))
            && (FirstAligned(BodySize(s, pub, m), |tail|, grants, st.pos) ==>
                  !st1.stalled && st1.pos == NextPos(BodySize(s, pub, m), |tail|, grants, st.pos))
  {
    var h, body := WireParts(s, pub, priv, from, m);
    Associate(h, body, tail);
    EnvelopeTakenIff(s, priv, from, grants, st, h, body, tail);
  }

  /** Over the whole stream: every round takes exactly one envelope if and only if the
      chunking is aligned. */
  lemma {:induction false} RoundByRoundIff(s: Suite, pub: nat, priv: nat, from: From, grants: nat -> nat,
                                           st: Stream, ms: seq<Message>)
    requires Sound(s, pub, priv) && AllProper(ms) && st.bytes == WireAll(s, pub, ms) && !st.stalled
    ensures RoundByRound(s, pub, priv, from, grants, st, ms) <==> Aligned(s, pub, ms, grants, st.pos)
    decreases |ms|
  {
    if ms != [] {
      var tail := WireAll(s, pub, ms[1..]);
      RoundTakesOneIff(s, pub, priv, from, grants, st, ms[0], tail);
      if FirstAligned(BodySize(s, pub, ms[0]), |tail|, grants, st.pos) {
        RoundByRoundIff(s, pub, priv, from, grants, Round(Whole, s, priv, from, grants, st), ms[1..]);
      }
    }
  }
}
