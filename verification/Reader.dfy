/** The reader of core/core.c on one connection, statement by statement. */
module Reader {
  import opened Bytes
  import opened Events
  import opened Aes
  import opened Framing

  class Reader {
    const suite: Suite
    const priv: nat
    const from: From
    const grants: nat -> nat      // how much is there at each receive
    const dec: Decryptor
    var wire: seq<byte>           // what the peer has sent or will send
    var pos: nat
    var encdata: Memory           // the reused header struct
    var databuf: seq<byte>        // what the body loop has stored so far
    var maxdatabuflen: nat
    var out: seq<Event>
    var stalled: bool

    ghost function State(): Stream
      reads this
    {
      Stream(wire, encdata, pos, out, stalled)
    }

    constructor (suite: Suite, priv: nat, from: From, grants: nat -> nat, wire: seq<byte>)
      ensures dec.Valid() && fresh(dec) && fresh(dec.decdata) && maxdatabuflen == 0
      ensures this.suite == suite && this.priv == priv && this.from == from && this.grants == grants
      ensures State() == Stream(wire, Zeros(32), 0, [], false)
    {
      this.suite, this.priv, this.from, this.grants, this.wire := suite, priv, from, grants, wire;
      dec := new Decryptor();
      pos, encdata, databuf, maxdatabuflen, out, stalled := 0, Zeros(32), [], 0, [], false;
    }

    /** One `recv` of at most `want` bytes. */
    method Receive(want: nat) returns (chunk: seq<byte>)
      modifies this`wire, this`pos
      ensures |chunk| == Recv(want, old(|wire|), grants(old(pos)))
      ensures chunk + wire == old(wire) && chunk == old(wire)[..|chunk|] && wire == old(wire)[|chunk|..]
              && pos == old(pos) + 1
    {
      var n := Recv(want, |wire|, grants(pos));
      chunk := wire[..n];
      wire := wire[n..];
      pos := pos + 1;
    }

    /** The body loop, which asks for all `total` bytes on every turn. */
    method ReceiveBody(total: nat) returns (received: nat)
      modifies this`wire, this`pos, this`databuf
      ensures (received, pos) == RecvLoop(Whole, total, 0, old(|wire|), grants, old(pos))
      ensures databuf + wire == old(wire) && |databuf| == received
    {
      received := 0;
      databuf := [];
      while received < total && wire != []
        invariant databuf + wire == old(wire) && |databuf| == received
        invariant RecvLoop(Whole, total, 0, old(|wire|), grants, old(pos))
                  == RecvLoop(Whole, total, received, |wire|, grants, pos)
        decreases |wire|
      {
        OneTurn(total, received, |wire|, grants, pos);
        received := ReceiveMore(total);
      }
    }

    /** One turn of the body loop. */
    method ReceiveMore(total: nat) returns (received: nat)
      requires total > 0 && wire != []
      modifies this`wire, this`pos, this`databuf
      ensures databuf + wire == old(databuf + wire) && |databuf| == received
      ensures received == old(|databuf|) + Recv(total, old(|wire|), grants(old(pos)))
      ensures |wire| == old(|wire|) - Recv(total, old(|wire|), grants(old(pos))) < old(|wire|) && pos == old(pos) + 1
    {
      ghost var before := databuf;
      var chunk := Receive(total);
      Associate(before, chunk, wire);
      databuf := databuf + chunk;
      received := |databuf|;
    }

    /** Decrypting the body and handing its event on. */
    method Deliver(body: seq<byte>)
      requires dec.Valid() && Magic(encdata) == MAGIC
      modifies this`out, dec, dec.decdata
      ensures dec.Valid() && (dec.decdata == old(dec.decdata) || fresh(dec.decdata))
      ensures out == old(out) + Opened(suite, priv, encdata, body, from)
    {
      var passLen, dataLen := PassLen(encdata), BodyLen(encdata);
      if passLen + dataLen > |body| { return; }
      dec.DecryptWithKey(suite, priv, Envelope(Magic(encdata), encdata[4..12], passLen, dataLen, body));
      out := out + EventIn(dec.decdata[..dec.declen], from);
    }

    /** Body and hand-over behind a header with the right magic number. */
    method ReadBody() returns (received: nat)
      requires !stalled && dec.Valid() && Magic(encdata) == MAGIC
      modifies this`wire, this`pos, this`databuf, this`out, this`stalled, dec, dec.decdata
      ensures dec.Valid() && (dec.decdata == old(dec.decdata) || fresh(dec.decdata))
      ensures State() == RoundBody(Whole, suite, priv, from, grants, old(out), encdata, old(wire), old(pos))
      ensures (received, pos) == RecvLoop(Whole, Total(encdata), 0, old(|wire|), grants, old(pos))
    {
      var total := Total(encdata);
      ghost var was := wire;
      received := ReceiveBody(total);
      SplitAt(databuf, wire, 0);
      if received < total {
        stalled := true;
        return;
      }
      SplitAt(databuf, wire, total);
      Deliver(databuf[..total]);
    }

    /** The single receive of a header over the reused struct. */
    method ReceiveHeader()
      modifies this`wire, this`pos, this`encdata
      ensures var (n, p) := RecvHeader(Whole, old(|wire|), grants, old(pos));
              pos == p && wire == old(wire)[n..] && encdata == old(wire)[..n] + old(encdata)[n..]
    {
      var head := Receive(ENC_SIZE);
      encdata := head + encdata[|head|..];
    }

    /** One turn on the readable connection.  The buffer's capacity never shrinks and
        covers the body, so a body that is taken exactly stays inside it. */
    method ReadOne()
      requires wire != [] && !stalled && dec.Valid()
      modifies this, dec, dec.decdata
      ensures dec.Valid() && (dec.decdata == old(dec.decdata) || fresh(dec.decdata))
      ensures State() == Round(Whole, suite, priv, from, grants, old(State()))
      ensures maxdatabuflen >= old(maxdatabuflen)
      ensures Magic(encdata) == MAGIC ==> Total(encdata) <= maxdatabuflen
      ensures maxdatabuflen == old(maxdatabuflen) || maxdatabuflen == Total(encdata)
    {
      ghost var was := State();
      ReceiveHeader();
      if Magic(encdata) != MAGIC { return; }
      if Total(encdata) > maxdatabuflen {
        maxdatabuflen := Total(encdata);
      }
      var received := ReadBody();
      assert Round(Whole, suite, priv, from, grants, was) == State();
    }

    /** The read loop on this connection until nothing is left to read. */
    method ReadToEnd()
      requires dec.Valid()
      modifies this, dec, dec.decdata
      ensures State() == ReadAll(Whole, suite, priv, from, grants, old(State()))
      ensures maxdatabuflen >= old(maxdatabuflen)
    {
      while wire != [] && !stalled
        invariant dec.Valid() && (dec.decdata == old(dec.decdata) || fresh(dec.decdata))
        invariant ReadAll(Whole, suite, priv, from, grants, old(State()))
                  == ReadAll(Whole, suite, priv, from, grants, State())
        invariant maxdatabuflen >= old(maxdatabuflen)
        decreases |wire|
      {
        ReadOne();
      }
    }
  }

  lemma OneTurn(total: nat, received: nat, avail: nat, grants: nat -> nat, pos: nat)
    requires received < total && avail > 0
    ensures var n := Recv(total, avail, grants(pos));
            RecvLoop(Whole, total, received, avail, grants, pos)
            == RecvLoop(Whole, total, received + n, avail - n, grants, pos + 1)
  {
  }

  lemma SplitAt(a: seq<byte>, b: seq<byte>, n: nat)
    requires n <= |a|
    ensures (a + b)[|a|..] == b && (a + b)[..n] == a[..n]
  {
  }

  /** A concrete chunking that the code's reader loses bytes to: the first body comes in
      two chunks and the second message is already there with the second chunk.  The body
      loop takes one byte too many, and the next header does not start with the magic
      number any more. */
  lemma ChunkAcrossTheEnd(total: nat, tail: nat, grants: nat -> nat)
    requires 1 < total <= tail && grants(0) == ENC_SIZE && grants(1) == 1 && grants(2) >= total
    ensures RecvLoop(Whole, total, 0, total + tail, grants, 1) == (total + 1, 3)
    ensures !FirstAligned(total, tail, grants, 0)
  {
    assert RecvLoop(Whole, total, 1, total + tail - 1, grants, 2)
           == RecvLoop(Whole, total, total + 1, tail - 1, grants, 3);
    TakesExactlyIff(total, tail, grants, 0);
  }

  /** The envelope after the stolen byte is refused for its magic number. */
  lemma StolenByteHidesMagic(s: Suite, pub: nat, priv: nat, m: Message, mem: Memory)
    requires Sound(s, pub, priv) && m.Proper()
    requires |Wire(s, pub, m)| > ENC_SIZE && mem == Wire(s, pub, m)[1..ENC_SIZE + 1]
    ensures Magic(mem) != MAGIC
  {
    var e := Seal(s, pub, m.nonce, m.pw, m.salt, Struct(m.e, m.ptr));
    var h := EnvHeader(e, m.junk);
    assert mem[0] == Wire(s, pub, m)[1] == h[1];
    assert h[0..4] == Le(MAGIC, 4);
    assert h[1] == h[0..4][1] == Le(MAGIC, 4)[1] == 0xB1;
    LowByte(mem[0..4]);
    LowByteOfMagic();
  }

  lemma LowByte(bs: seq<byte>)
    requires bs != []
    ensures Num(bs) % 256 == bs[0]
  {
  }

  lemma LowByteOfMagic()
    ensures MAGIC % 256 == 0x2B
  {
  }
}
