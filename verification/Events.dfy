/** The packed event struct of core/event.h, and sending and receiving events over the
    pipe between the core and its user interfaces (core/event.c). */
module Events {
  import opened Bytes

  const EVT_SIZE: nat := 35      // sizeof(evt_t) == sizeof(pipeevt_t)

  type Addr = a: seq<byte> | |a| == 16 witness Zeros(16)
  type Pointer = p: seq<byte> | |p| == 8 witness Zeros(8)

  /** `tag` is `fd_from` of a pipe event and `dummy` of a peer event. */
  datatype Event = Event(kind: byte, tag: nat, addr: Addr, port: nat, data: seq<byte>)

  predicate Fits(e: Event) {
    e.tag < 0x1_0000_0000 && e.port < 0x1_0000 && |e.data| < 0x1_0000_0000
  }

  /** The fixed part in memory; the data pointer is sent as whatever it was. */
  function Header(e: Event, ptr: Pointer): (h: seq<byte>)
    ensures |h| == EVT_SIZE
  {
    [e.kind] + Le(e.tag, 4) + e.addr + Le(e.port, 2) + Le(|e.data|, 4) + ptr
  }

  /** `event_new` puts the data right behind the fixed part, `event_send` sends both. */
  function Struct(e: Event, ptr: Pointer): seq<byte> {
    Header(e, ptr) + e.data
  }

  function DataLen(h: seq<byte>): nat
    requires |h| >= EVT_SIZE
  {
    Num(h[23..27])
  }

  /** The fields of a fixed part, with the given data. */
  function FromHeader(h: seq<byte>, data: seq<byte>): Event
    requires |h| >= EVT_SIZE
  {
    Event(h[0], Num(h[1..5]), h[5..21], Num(h[21..23]), data)
  }

  lemma HeaderFields(e: Event, ptr: Pointer, rest: seq<byte>)
    requires Fits(e)
    ensures var h := Header(e, ptr) + rest;
            DataLen(h) == |e.data| && forall d :: FromHeader(h, d) == e.(data := d)
  {
    var h := Header(e, ptr) + rest;
    assert h[1..5] == Le(e.tag, 4) && h[5..21] == e.addr && h[21..23] == Le(e.port, 2) && h[23..27] == Le(|e.data|, 4);
    Pows();
    NumLeFits(e.tag, 4);
    NumLeFits(e.port, 2);
    NumLeFits(|e.data|, 4);
  }

  /** Where the fields of the packed struct lie, little-endian. */
  lemma HeaderLayout(e: Event, ptr: Pointer)
    ensures var b := Struct(e, ptr);
            && |b| == 35 + |e.data| && b[0] == e.kind && b[5..21] == e.addr && b[27..35] == ptr && b[35..] == e.data
            && (forall i :: 0 <= i < 4 ==> b[1 + i] == e.tag / Pow256(i) % 256)
            && b[21] == e.port % 256 && b[22] == e.port / 256 % 256
            && (forall i :: 0 <= i < 4 ==> b[23 + i] == |e.data| / Pow256(i) % 256)
  {
    var b := Struct(e, ptr);
    assert b[1..5] == Le(e.tag, 4) && b[21..23] == Le(e.port, 2) && b[23..27] == Le(|e.data|, 4);
    forall i | 0 <= i < 4
      ensures b[1 + i] == e.tag / Pow256(i) % 256 && b[23 + i] == |e.data| / Pow256(i) % 256
    {
      LeByte(e.tag, 4, i);
      LeByte(|e.data|, 4, i);
      assert b[1 + i] == b[1..5][i] && b[23 + i] == b[23..27][i];
    }
    Pows();
    LeByte(e.port, 2, 0);
    LeByte(e.port, 2, 1);
    assert b[21] == b[21..23][0] && b[22] == b[21..23][1];
  }

  /** What one `event_recv` on a pipe comes to when each read gets all it asked for or
      all there is: an event, the end of the pipe, a truncated fixed part (status -1),
      data whose length is negative as an `int` and reads as a failure (status -2), or
      truncated data, on which the source's assertion stops the program. */
  datatype Outcome = Received(e: Event, rest: seq<byte>) | Closed | Truncated | Failed | Stopped

  /** The first length that is negative when it goes through a 32-bit `int`. */
  const INT_LIMIT: nat := 0x8000_0000

  function EventRecv(pipe: seq<byte>, fd: nat): Outcome {
    if pipe == [] then Closed
    else if |pipe| < EVT_SIZE then Truncated
    else
      var n := DataLen(pipe);
      var got := if EVT_SIZE + n <= |pipe| then n else |pipe| - EVT_SIZE;
      if got >= INT_LIMIT then Failed
      else if got < n then Stopped
      else Received(FromHeader(pipe, pipe[EVT_SIZE..EVT_SIZE + n]).(tag := fd), pipe[EVT_SIZE + n..])
  }

  function SendAll(es: seq<Event>, ptrs: seq<Pointer>): seq<byte>
    requires |es| == |ptrs|
  {
    if es == [] then [] else Struct(es[0], ptrs[0]) + SendAll(es[1..], ptrs[1..])
  }

  function Tagged(es: seq<Event>, fd: nat): (r: seq<Event>)
    ensures |r| == |es|
    ensures forall i :: 0 <= i < |es| ==> r[i] == es[i].(tag := fd)
  {
    if es == [] then [] else [es[0].(tag := fd)] + Tagged(es[1..], fd)
  }

  /** The receiver's loop until the pipe is closed or broken. */
  function ReceiveAll(pipe: seq<byte>, fd: nat): (seq<Event>, Outcome)
    decreases |pipe|
  {
    match EventRecv(pipe, fd)
    case Received(e, rest) =>
      var (es, end) := ReceiveAll(rest, fd);
      ([e] + es, end)
    case end => ([], end)
  }

  lemma ReceiveSent(e: Event, ptr: Pointer, rest: seq<byte>, fd: nat)
    requires Fits(e)
    ensures EventRecv(Struct(e, ptr) + rest, fd)
            == if |e.data| < INT_LIMIT then Received(e.(tag := fd), rest) else Failed
  {
    var pipe := Struct(e, ptr) + rest;
    assert pipe == Header(e, ptr) + (e.data + rest);
    HeaderFields(e, ptr, e.data + rest);
    assert pipe[EVT_SIZE..EVT_SIZE + |e.data|] == e.data;
    assert pipe[EVT_SIZE + |e.data|..] == rest;
  }

  lemma ReceiveFirst(e: Event, ptr: Pointer, rest: seq<byte>, fd: nat)
    requires Fits(e)
    ensures ReceiveAll(Struct(e, ptr) + rest, fd)
            == if |e.data| < INT_LIMIT then ([e.(tag := fd)] + ReceiveAll(rest, fd).0, ReceiveAll(rest, fd).1)
               else ([], Failed)
  {
    ReceiveSent(e, ptr, rest, fd);
  }

  /** The length of each event's data is not negative as an `int`. */
  ghost predicate AllShort(es: seq<Event>) {
    forall i :: 0 <= i < |es| ==> |es[i].data| < INT_LIMIT
  }

  lemma AllShortTail(es: seq<Event>)
    requires es != []
    ensures AllShort(es) <==> |es[0].data| < INT_LIMIT && AllShort(es[1..])
  {
    assert es == [es[0]] + es[1..];
  }

  /** Whatever is sent over a pipe is received: the same types, addresses, ports and data
      in the same order, marked with the pipe they came from, and nothing is left over, if
      and only if no length is negative as an `int`. */
  lemma {:induction false} PipeRoundTrip(es: seq<Event>, ptrs: seq<Pointer>, fd: nat)
    requires |es| == |ptrs| && forall i :: 0 <= i < |es| ==> Fits(es[i])
    ensures ReceiveAll(SendAll(es, ptrs), fd) == (Tagged(es, fd), Closed) <==> AllShort(es)
    decreases |es|
  {
    if es != [] {
      var rest := SendAll(es[1..], ptrs[1..]);
      ReceiveFirst(es[0], ptrs[0], rest, fd);
      PipeRoundTrip(es[1..], ptrs[1..], fd);
      AllShortTail(es);
      var head, got := [es[0].(tag := fd)], ReceiveAll(rest, fd).0;
      assert (head + got)[1..] == got && (head + Tagged(es[1..], fd))[1..] == Tagged(es[1..], fd);
    }
  }

  /** A read in the middle of an event is noticed: every cut of an event's bytes other
      than at its ends is reported as truncated or failed, or stops the program. */
  lemma CutIsNoticed(e: Event, ptr: Pointer, n: nat, fd: nat)
    requires Fits(e) && n < |Struct(e, ptr)|
    ensures EventRecv(Struct(e, ptr)[..n], fd) == if n == 0 then Closed else if n < EVT_SIZE then Truncated
                                                     else if n - EVT_SIZE >= INT_LIMIT then Failed else Stopped
  {
    if n >= EVT_SIZE {
      var cut := Struct(e, ptr)[..n];
      assert cut == Header(e, ptr) + e.data[..n - EVT_SIZE];
      HeaderFields(e, ptr, e.data[..n - EVT_SIZE]);
    }
  }
}
