/** The receiver's file while parts arrive (`handlefilepart` in core/handlers.c). */
module Reassembly {
  import opened Bytes
  import opened Collections
  import opened FileParts

  /** Seek and write; a gap behind the old end reads as zeros. */
  function WriteAt(file: seq<byte>, at: nat, data: seq<byte>): (r: seq<byte>)
    ensures data == [] ==> r == file
    ensures data != [] ==> |r| == if |file| > at + |data| then |file| else at + |data|
    ensures data != [] ==> forall i :: 0 <= i < |r| ==>
              r[i] == if at <= i < at + |data| then data[i - at] else if i < |file| then file[i] else 0
  {
    if data == [] then file
    else
      var padded := if |file| < at then file + Zeros(at - |file|) else file;
      padded[..at] + data + if at + |data| < |padded| then padded[at + |data|..] else []
  }

  /** The transfer is cleared by a part 0 that is not a full part; a part without data
      is not written and clears nothing. */
  predicate Clears(part: nat, data: seq<byte>) {
    part == 0 && data != [] && |data| != FILE_PART_BYTES
  }

  datatype Incoming = Incoming(file: seq<byte>, active: bool)

  function Deliver(r: Incoming, part: nat, data: seq<byte>): Incoming {
    if !r.active then r
    else Incoming(WriteAt(r.file, SeekOffset(part), data), !Clears(part, data))
  }

  /** Parts of `file` delivered in the given order, repeats included. */
  function DeliverAll(r: Incoming, file: seq<byte>, parts: seq<nat>): Incoming
    requires forall k :: 0 <= k < |parts| ==> parts[k] < Parts(|file|)
  {
    if parts == [] then r
    else
      var last := |parts| - 1;
      Deliver(DeliverAll(r, file, parts[..last]), parts[last], Part(file, parts[last]))
  }

  // ------------------------------------------------------------- any order, any size

  /** Where 32-bit offsets wrap: 8192 full parts. */
  const LIMIT: nat := 8192 * FILE_PART_BYTES

  /** The delivered part `part` is written over position `x`. */
  predicate Covers(file: seq<byte>, part: nat, x: nat)
    requires part < Parts(|file|)
  {
    SeekOffset(part) <= x < SeekOffset(part) + |Part(file, part)|
  }

  /** The last of the parts that is written over position `x`. */
  function LastCover(file: seq<byte>, parts: seq<nat>, x: nat): (r: Option<nat>)
    requires forall k :: 0 <= k < |parts| ==> parts[k] < Parts(|file|)
    ensures r.Some? ==> r.value in parts && r.value < Parts(|file|) && Covers(file, r.value, x)
    ensures r == None ==> forall k :: 0 <= k < |parts| ==> !Covers(file, parts[k], x)
  {
    if parts == [] then None
    else
      var last := |parts| - 1;
      if Covers(file, parts[last], x) then Some(parts[last]) else LastCover(file, parts[..last], x)
  }

  /** What then stands at position `x`: a byte of that part, or what was there before. */
  function ByteAt(file: seq<byte>, before: seq<byte>, parts: seq<nat>, x: nat): byte
    requires forall k :: 0 <= k < |parts| ==> parts[k] < Parts(|file|)
  {
    match LastCover(file, parts, x)
    case Some(part) => Part(file, part)[x - SeekOffset(part)]
    case None => if x < |before| then before[x] else 0
  }

  function Later(a: nat, b: nat): nat { if a > b then a else b }

  /** How long the file is then. */
  function Reach(file: seq<byte>, before: seq<byte>, parts: seq<nat>): (r: nat)
    requires forall k :: 0 <= k < |parts| ==> parts[k] < Parts(|file|)
    ensures r >= |before| && forall k :: 0 <= k < |parts| && Part(file, parts[k]) != [] ==>
                               r >= SeekOffset(parts[k]) + |Part(file, parts[k])|
    ensures r == |before| || exists k :: 0 <= k < |parts| && Part(file, parts[k]) != []
                                         && r == SeekOffset(parts[k]) + |Part(file, parts[k])|
  {
    if parts == [] then |before|
    else
      var last := |parts| - 1;
      var r := Reach(file, before, parts[..last]);
      if Part(file, parts[last]) == [] then r else Later(r, SeekOffset(parts[last]) + |Part(file, parts[last])|)
  }

  /** The file is what was there before with the delivered parts written over it. */
  ghost predicate Overwritten(file: seq<byte>, before: seq<byte>, parts: seq<nat>, now: seq<byte>)
    requires forall k :: 0 <= k < |parts| ==> parts[k] < Parts(|file|)
  {
    |now| == Reach(file, before, parts) && forall x :: 0 <= x < |now| ==> now[x] == ByteAt(file, before, parts, x)
  }

  lemma WriteOneMore(file: seq<byte>, before: seq<byte>, parts: seq<nat>, now: seq<byte>)
    requires parts != [] && forall k :: 0 <= k < |parts| ==> parts[k] < Parts(|file|)
    requires Overwritten(file, before, parts[..|parts| - 1], now)
    ensures var last := parts[|parts| - 1];
            Overwritten(file, before, parts, WriteAt(now, SeekOffset(last), Part(file, last)))
  {
    var front, last := parts[..|parts| - 1], parts[|parts| - 1];
    var r := WriteAt(now, SeekOffset(last), Part(file, last));
    forall x | 0 <= x < |r|
      ensures r[x] == ByteAt(file, before, parts, x)
    {
      if !Covers(file, last, x) && x >= |now| {
        assert LastCover(file, front, x) == None;
      }
    }
  }

  /** A file of a single part: it does not matter how often that part comes. */
  lemma {:induction false} OnlyPartRepeats(file: seq<byte>, before: seq<byte>, parts: seq<nat>, x: nat)
    requires 0 < |file| < FILE_PART_BYTES && parts != [] && forall k :: 0 <= k < |parts| ==> parts[k] < Parts(|file|)
    ensures LastCover(file, parts, x) == if x < |file| then Some(0) else None
    ensures Reach(file, before, parts) == Later(|before|, |file|)
    decreases |parts|
  {
    var last := |parts| - 1;
    assert parts[last] == 0 && SeekOffset(0) == 0 && Part(file, 0) == file;
    if last > 0 {
      OnlyPartRepeats(file, before, parts[..last], x);
    }
  }

  lemma OneMore(file: seq<byte>, before: seq<byte>, parts: seq<nat>, r: Incoming)
    requires parts != [] && forall k :: 0 <= k < |parts| ==> parts[k] < Parts(|file|)
    requires Overwritten(file, before, parts[..|parts| - 1], r.file)
    requires !r.active <==> 0 < |file| < FILE_PART_BYTES && |parts| > 1
    ensures var r' := Deliver(r, parts[|parts| - 1], Part(file, parts[|parts| - 1]));
            Overwritten(file, before, parts, r'.file) && (!r'.active <==> 0 < |file| < FILE_PART_BYTES)
  {
    var front := parts[..|parts| - 1];
    if r.active {
      WriteOneMore(file, before, parts, r.file);
    } else {
      forall x: nat
        ensures LastCover(file, parts, x) == LastCover(file, front, x)
      {
        OnlyPartRepeats(file, before, parts, x);
        OnlyPartRepeats(file, before, front, x);
      }
      OnlyPartRepeats(file, before, parts, 0);
      OnlyPartRepeats(file, before, front, 0);
    }
  }

  /** After any deliveries of any file in any order, with repeats, each byte is that of the
      last part written over it, and all other bytes are as before; the transfer is over
      exactly when the file is a single non-empty part and that part has come. */
  lemma {:induction false} AnyOrder(file: seq<byte>, before: seq<byte>, parts: seq<nat>)
    requires forall k :: 0 <= k < |parts| ==> parts[k] < Parts(|file|)
    ensures var r := DeliverAll(Incoming(before, true), file, parts);
            && Overwritten(file, before, parts, r.file)
            && (!r.active <==> 0 < |file| < FILE_PART_BYTES && parts != [])
    decreases |parts|
  {
    if parts != [] {
      var front := parts[..|parts| - 1];
      AnyOrder(file, before, front);
      OneMore(file, before, parts, DeliverAll(Incoming(before, true), file, front));
    }
  }

  // ------------------------------------------------------------- up to the limit

  /** Bytes of delivered parts are the sender's, all others are untouched. */
  ghost predicate RightSoFar(file: seq<byte>, before: seq<byte>, parts: seq<nat>, now: seq<byte>) {
    && |now| >= |before|
    && (forall i :: 0 <= i < |file| && i / FILE_PART_BYTES in parts ==> i < |now|)
    && (forall i :: 0 <= i < |now| ==>
          now[i] == if i < |file| && i / FILE_PART_BYTES in parts then file[i]
                    else if i < |before| then before[i] else 0)
    && (|now| > |before| ==> |now| <= |file|)
  }

  /** Up to the limit each position belongs to the one part of its number. */
  lemma CoversIff(file: seq<byte>, part: nat, x: nat)
    requires |file| <= LIMIT && part < Parts(|file|)
    ensures Covers(file, part, x) <==> x < |file| && part == x / FILE_PART_BYTES
    ensures Part(file, part) != [] ==> SeekOffset(part) == part * FILE_PART_BYTES
    ensures Covers(file, part, x) ==> Part(file, part)[x - SeekOffset(part)] == file[x]
  {
    if Part(file, part) != [] {
      SeekExactIff(part);
      if x < |file| {
        ByteInPart(|file|, x, part);
      }
    }
  }

  lemma RightByte(file: seq<byte>, before: seq<byte>, parts: seq<nat>, x: nat)
    requires |file| <= LIMIT && forall k :: 0 <= k < |parts| ==> parts[k] < Parts(|file|)
    ensures ByteAt(file, before, parts, x) == if x < |file| && x / FILE_PART_BYTES in parts then file[x]
                                              else if x < |before| then before[x] else 0
    ensures x < |file| && x / FILE_PART_BYTES in parts ==> x < Reach(file, before, parts)
  {
    if LastCover(file, parts, x).Some? {
      CoversIff(file, LastCover(file, parts, x).value, x);
    }
    if x < |file| && x / FILE_PART_BYTES in parts {
      var k :| 0 <= k < |parts| && parts[k] == x / FILE_PART_BYTES;
      CoversIff(file, parts[k], x);
    }
  }

  /** For every file up to the limit, delivered bytes are right and all others untouched. */
  lemma AnyOrderRight(file: seq<byte>, before: seq<byte>, parts: seq<nat>)
    requires |file| <= LIMIT && forall k :: 0 <= k < |parts| ==> parts[k] < Parts(|file|)
    ensures RightSoFar(file, before, parts, DeliverAll(Incoming(before, true), file, parts).file)
  {
    AnyOrder(file, before, parts);
    var now := DeliverAll(Incoming(before, true), file, parts).file;
    forall x | 0 <= x < |now| || x < |file|
      ensures x >= 0 ==> ByteAt(file, before, parts, x) == if x < |file| && x / FILE_PART_BYTES in parts then file[x]
                                                           else if x < |before| then before[x] else 0
      ensures 0 <= x < |file| && x / FILE_PART_BYTES in parts ==> x < |now|
    {
      if x >= 0 { RightByte(file, before, parts, x); }
    }
    if |now| > |before| {
      var k :| 0 <= k < |parts| && Part(file, parts[k]) != [] && |now| == SeekOffset(parts[k]) + |Part(file, parts[k])|;
      CoversIff(file, parts[k], 0);
    }
  }

  // ------------------------------------------------------------- beyond it

  /** Every write ends at the limit or below it. */
  lemma WritesEndBelow(file: seq<byte>, part: nat)
    requires part < Parts(|file|)
    ensures SeekOffset(part) + |Part(file, part)| <= LIMIT
    ensures part < Parts(|file|) - 1 ==> |Part(file, part)| == FILE_PART_BYTES
  {
    OffsetMod(part);
  }

  /** Once every part number of a file beyond the limit has come, the received file is as
      long as it was before, but at least up to the limit. */
  lemma LongReach(file: seq<byte>, before: seq<byte>, parts: seq<nat>)
    requires |file| > LIMIT && forall k :: 0 <= k < |parts| ==> parts[k] < Parts(|file|)
    requires forall p :: 0 <= p < Parts(|file|) ==> p in parts
    ensures Reach(file, before, parts) == Later(|before|, LIMIT)
  {
    assert 8191 in parts;
    var j :| 0 <= j < |parts| && parts[j] == 8191;
    WritesEndBelow(file, 8191);
    OffsetMod(8191);
    if Reach(file, before, parts) != |before| {
      var k :| 0 <= k < |parts| && Part(file, parts[k]) != []
               && Reach(file, before, parts) == SeekOffset(parts[k]) + |Part(file, parts[k])|;
      WritesEndBelow(file, parts[k]);
    }
  }

  /** A file beyond the limit is received rightly only by a receiver that has the bytes from
      the limit on already, in a file of the same length, and if the parts that come last
      for each wrapped offset happen to agree with the file there. */
  ghost predicate HappensToAgree(file: seq<byte>, before: seq<byte>, parts: seq<nat>)
    requires forall k :: 0 <= k < |parts| ==> parts[k] < Parts(|file|)
  {
    && |before| == |file| >= LIMIT && before[LIMIT..] == file[LIMIT..]
    && forall x :: 0 <= x < LIMIT ==>
         match LastCover(file, parts, x)
         case Some(part) => Part(file, part)[x - SeekOffset(part)] == file[x]
         case None => false
  }

  lemma LongFileIff(file: seq<byte>, before: seq<byte>, parts: seq<nat>)
    requires |file| > LIMIT && forall k :: 0 <= k < |parts| ==> parts[k] < Parts(|file|)
    requires forall p :: 0 <= p < Parts(|file|) ==> p in parts
    ensures DeliverAll(Incoming(before, true), file, parts).file == file <==> HappensToAgree(file, before, parts)
  {
    var now := DeliverAll(Incoming(before, true), file, parts).file;
    AnyOrder(file, before, parts);
    LongReach(file, before, parts);
    if |before| == |file| {
      forall x | 0 <= x < |file|
        ensures x >= LIMIT ==> ByteAt(file, before, parts, x) == before[x]
        ensures x < LIMIT ==> LastCover(file, parts, x).Some?
      {
        LongCover(file, parts, x);
      }
      AgreeIff(file, before, parts, now);
    }
  }

  lemma AgreeIff(file: seq<byte>, before: seq<byte>, parts: seq<nat>, now: seq<byte>)
    requires |file| == |before| == |now| > LIMIT && forall k :: 0 <= k < |parts| ==> parts[k] < Parts(|file|)
    requires forall x :: 0 <= x < |now| ==> now[x] == ByteAt(file, before, parts, x)
    requires forall x :: LIMIT <= x < |file| ==> ByteAt(file, before, parts, x) == before[x]
    requires forall x :: 0 <= x < LIMIT ==> LastCover(file, parts, x).Some?
    ensures now == file <==> HappensToAgree(file, before, parts)
  {
    assert now[LIMIT..] == before[LIMIT..];
    assert now == now[..LIMIT] + now[LIMIT..] && file == file[..LIMIT] + file[LIMIT..];
    if HappensToAgree(file, before, parts) {
      assert now[..LIMIT] == file[..LIMIT];
    } else if before[LIMIT..] == file[LIMIT..] {
      var x :| 0 <= x < LIMIT && ByteAt(file, before, parts, x) != file[x];
      assert now[x] != file[x];
    }
  }

  lemma LongCover(file: seq<byte>, parts: seq<nat>, x: nat)
    requires |file| > LIMIT && forall k :: 0 <= k < |parts| ==> parts[k] < Parts(|file|)
    requires forall p :: 0 <= p < Parts(|file|) ==> p in parts
    ensures LastCover(file, parts, x).Some? <==> x < LIMIT
  {
    if x < LIMIT {
      var p := x / FILE_PART_BYTES;
      assert p in parts;
      var k :| 0 <= k < |parts| && parts[k] == p;
      WritesEndBelow(file, p);
      SeekExactIff(p);
      assert Covers(file, p, x);
    } else if LastCover(file, parts, x).Some? {
      WritesEndBelow(file, LastCover(file, parts, x).value);
    }
  }

  // ------------------------------------------------------------- complete files

  lemma EveryByteThere(file: seq<byte>, before: seq<byte>, parts: seq<nat>, now: seq<byte>, i: nat)
    requires forall p :: 0 <= p < Parts(|file|) ==> p in parts
    requires RightSoFar(file, before, parts, now) && i < |file|
    ensures i < |now| && now[i] == file[i]
  {
    var k := i / FILE_PART_BYTES;
    assert k < Parts(|file|) && k in parts;
  }

  lemma ShortFileIff(file: seq<byte>, before: seq<byte>, parts: seq<nat>)
    requires |file| <= LIMIT && forall k :: 0 <= k < |parts| ==> parts[k] < Parts(|file|)
    requires forall p :: 0 <= p < Parts(|file|) ==> p in parts
    ensures DeliverAll(Incoming(before, true), file, parts).file == file <==> |before| <= |file|
  {
    AnyOrderRight(file, before, parts);
    var now := DeliverAll(Incoming(before, true), file, parts).file;
    if |before| <= |file| {
      if |file| > 0 {
        EveryByteThere(file, before, parts, now, |file| - 1);
      }
      forall i | 0 <= i < |file|
        ensures i < |now| && now[i] == file[i]
      {
        EveryByteThere(file, before, parts, now, i);
      }
    }
  }

  /** Once every part number of a file has come, in any order and with repeats, the received
      file is the sender's exactly when it was not longer before and the file is not beyond
      the limit; beyond it, only by the accident described above. */
  lemma CompleteIff(file: seq<byte>, before: seq<byte>, parts: seq<nat>)
    requires forall k :: 0 <= k < |parts| ==> parts[k] < Parts(|file|)
    requires forall p :: 0 <= p < Parts(|file|) ==> p in parts
    ensures DeliverAll(Incoming(before, true), file, parts).file == file
            <==> if |file| <= LIMIT then |before| <= |file| else HappensToAgree(file, before, parts)
    ensures |before| != |file| ==>
              (DeliverAll(Incoming(before, true), file, parts).file == file <==> |before| <= |file| <= LIMIT)
  {
    if |file| <= LIMIT {
      ShortFileIff(file, before, parts);
    } else {
      LongFileIff(file, before, parts);
    }
  }

  /** A concrete size that fails in every order: one byte beyond the limit, to a new file.
      The result is one byte short. */
  lemma OneByteBeyond(parts: seq<nat>)
    requires forall k :: 0 <= k < |parts| ==> parts[k] < Parts(LIMIT + 1)
    requires forall p :: 0 <= p < Parts(LIMIT + 1) ==> p in parts
    ensures |DeliverAll(Incoming([], true), Zeros(LIMIT + 1), parts).file| == LIMIT
  {
    AnyOrder(Zeros(LIMIT + 1), [], parts);
    LongReach(Zeros(LIMIT + 1), [], parts);
  }
}
