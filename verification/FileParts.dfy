/** Cutting a file into parts: the ranges of core/file.c with their 32-bit arithmetic, the
    part that core/handlers.c sends, and the loop that sends a metadata file. */
module FileParts {
  import opened Bytes

  const FILE_PART_BYTES: nat := 524288
  const U32: nat := 0x1_0000_0000

  /** Parts a 32-bit offset can tell apart, less the last, whose end does not fit. */
  const EXACT_PARTS: nat := 8191

  function Parts(size: nat): nat { size / FILE_PART_BYTES + 1 }

  /** `part_count` is a 32-bit field. */
  function PartCount(size: nat): nat { Parts(size) % U32 }

  // ------------------------------------------------------------- ranges

  /** Start and length of a part, without overflow. */
  function Range(part: nat, size: nat): (int, int) {
    var lo := part * FILE_PART_BYTES;
    (lo, if lo + FILE_PART_BYTES > size then size - lo else FILE_PART_BYTES)
  }

  /** The same as `SHA1_for_part` computes it: products and sums of the part number are
      unsigned 32-bit, the size is not. */
  function RangeU32(part: nat, size: nat): (int, int) {
    var lo := part * FILE_PART_BYTES % U32;
    (lo, if (lo + FILE_PART_BYTES) % U32 > size then size - lo else FILE_PART_BYTES)
  }

  lemma OffsetMod(part: nat)
    ensures part * FILE_PART_BYTES % U32 == part % 8192 * FILE_PART_BYTES
  {
    var q, r := part / 8192, part % 8192;
    assert part * FILE_PART_BYTES == q * U32 + r * FILE_PART_BYTES;
    ModUnique(part * FILE_PART_BYTES, U32, q, r * FILE_PART_BYTES);
  }

  lemma RangeExactBelow(part: nat, size: nat)
    requires part < EXACT_PARTS
    ensures RangeU32(part, size) == Range(part, size)
  {
    OffsetMod(part);
  }

  /** The 32-bit ranges of a file's parts are the true ones, all of them, exactly for files
      below 8191 full parts. */
  lemma RangesExactIff(size: nat)
    ensures (forall part :: 0 <= part < Parts(size) ==> RangeU32(part, size) == Range(part, size))
            <==> size < EXACT_PARTS * FILE_PART_BYTES
  {
    if size < EXACT_PARTS * FILE_PART_BYTES {
      forall part | 0 <= part < Parts(size)
        ensures RangeU32(part, size) == Range(part, size)
      {
        RangeExactBelow(part, size);
      }
    } else if Parts(size) == 8192 {
      OffsetMod(8191);
      assert RangeU32(8191, size) != Range(8191, size);
    } else {
      OffsetMod(8192);
      assert RangeU32(8192, size) != Range(8192, size);
    }
  }

  /** Bytes of part `part` of a file; the last part is short and may be empty. */
  function Part(file: seq<byte>, part: nat): (r: seq<byte>)
    requires part < Parts(|file|)
    ensures (|r|, part * FILE_PART_BYTES) == (Range(part, |file|).1, Range(part, |file|).0)
  {
    var (lo, n) := Range(part, |file|);
    file[lo..lo + n]
  }

  function Joined(file: seq<byte>, n: nat): seq<byte>
    requires n <= Parts(|file|)
  {
    if n == 0 then [] else Joined(file, n - 1) + Part(file, n - 1)
  }

  function TotalLength(size: nat, n: nat): int {
    if n == 0 then 0 else TotalLength(size, n - 1) + Range(n - 1, size).1
  }

  lemma {:induction false} JoinedIsPrefix(file: seq<byte>, n: nat)
    requires n <= Parts(|file|)
    ensures var hi := if n * FILE_PART_BYTES <= |file| then n * FILE_PART_BYTES else |file|;
            Joined(file, n) == file[..hi] && TotalLength(|file|, n) == hi
    decreases n
  {
    if n > 0 {
      JoinedIsPrefix(file, n - 1);
      var lo, len := (n - 1) * FILE_PART_BYTES, Range(n - 1, |file|).1;
      assert file[..lo] + file[lo..lo + len] == file[..lo + len];
    }
  }

  /** The parts tile the file: joined in order they are the file, and their lengths add up
      to its size. */
  lemma PartsTile(file: seq<byte>)
    ensures Joined(file, Parts(|file|)) == file && TotalLength(|file|, Parts(|file|)) == |file|
  {
    JoinedIsPrefix(file, Parts(|file|));
    assert file[..|file|] == file;
  }

  /** They are disjoint: each byte lies in the part of its number and in no other. */
  lemma ByteInPart(size: nat, i: nat, part: nat)
    requires i < size && part < Parts(size)
    ensures Range(part, size).0 <= i < Range(part, size).0 + Range(part, size).1 <==> part == i / FILE_PART_BYTES
  {
  }

  // ------------------------------------------------------------- sending

  /** What one call of `send_file_part` puts into its message: the right number of bytes,
      or an access outside its buffer of one part. */
  datatype Sent = Sent(content: seq<byte>) | Overrun

  /** An open file and its read position, with the sizes that the transfer records. */
  datatype Reading = Reading(file: seq<byte>, at: nat, size: nat)

  function Chunk(r: Reading): seq<byte> {
    if r.at >= |r.file| then []
    else if r.at + FILE_PART_BYTES <= |r.file| then r.file[r.at..r.at + FILE_PART_BYTES]
    else r.file[r.at..]
  }

  /** The message content.  The read goes to the buffer's start plus `part` parts, a product
      taken in 32 bits, without seeking in the file; after a short read the length is taken
      to be the whole size. */
  function SendPart(r: Reading, part: nat): Sent {
    if part * FILE_PART_BYTES % U32 != 0 then Overrun
    else if |Chunk(r)| == FILE_PART_BYTES then Sent(Chunk(r))
    else if r.size == |Chunk(r)| then Sent(Chunk(r))
    else Overrun
  }

  /** What `send_file_part` returns; the product is taken in 32 bits. */
  function SendReturn(r: Reading): int {
    if |Chunk(r)| == FILE_PART_BYTES then FILE_PART_BYTES
    else
      var ret := r.size - PartCount(r.size) * FILE_PART_BYTES % U32;
      if ret < 0 then r.size else ret
  }

  /** A full part returns its length, and a short one the whole size while the part count,
      modulo 8192, stands for more bytes than that; otherwise the difference. */
  lemma SendReturns(r: Reading)
    ensures |Chunk(r)| == 524288 ==> SendReturn(r) == 524288
    ensures |Chunk(r)| != 524288 ==>
              var counted := PartCount(r.size) % 8192 * 524288;
              SendReturn(r) == if r.size < counted then r.size else r.size - counted
  {
    OffsetMod(PartCount(r.size));
  }

  /** The answer to a part request carries the requested part exactly when the offset wraps
      to 0 and the requested part happens to be equal to the first one, which is sent. */
  lemma RequestedPartIff(file: seq<byte>, part: nat)
    requires part < Parts(|file|)
    ensures SendPart(Reading(file, 0, |file|), part) == Sent(Part(file, part))
            <==> part % 8192 == 0 && Part(file, part) == Part(file, 0)
  {
    OffsetMod(part);
    if part % 8192 == 0 { WrappedRequest(file, part); }
  }

  /** Any other part number that is a multiple of 8192 is answered with the first part. */
  lemma WrappedRequest(file: seq<byte>, part: nat)
    requires part < Parts(|file|) && part % 8192 == 0
    ensures SendPart(Reading(file, 0, |file|), part) == Sent(Part(file, 0))
  {
    OffsetMod(part);
  }

  /** A concrete request for a later part that is answered rightly: part 8192 of a file of
      8193 equal parts. */
  lemma WrapsToEqualPart()
    ensures var file := Zeros(8193 * FILE_PART_BYTES);
            SendPart(Reading(file, 0, |file|), 8192) == Sent(Part(file, 8192))
  {
    var file := Zeros(8193 * FILE_PART_BYTES);
    assert Part(file, 8192) == Part(file, 0);
    RequestedPartIff(file, 8192);
  }

  /** And one that is not: the last byte of the file differs. */
  lemma WrapsToOtherPart()
    ensures var file := Zeros(8193 * FILE_PART_BYTES - 1) + [1];
            SendPart(Reading(file, 0, |file|), 8192) == Sent(Part(file, 0)) != Sent(Part(file, 8192))
  {
    var file := Zeros(8193 * FILE_PART_BYTES - 1) + [1];
    assert Part(file, 8192)[FILE_PART_BYTES - 1] == 1 && Part(file, 0)[FILE_PART_BYTES - 1] == 0;
    WrappedRequest(file, 8192);
  }

  function Ceil(size: nat): nat {
    if size == 0 then 1 else (size + FILE_PART_BYTES - 1) / FILE_PART_BYTES
  }

  /** The messages for a metadata file: one for each part, none for an empty last part
      unless the file is empty; a short last message after others is not the part. */
  function MetadataSends(file: seq<byte>): (r: seq<Sent>)
    ensures |r| == Ceil(|file|)
  {
    seq(Ceil(|file|), i requires 0 <= i < Ceil(|file|) =>
          if i < |file| / FILE_PART_BYTES then Sent(Part(file, i))
          else if |file| < FILE_PART_BYTES then Sent(file)
          else Overrun)
  }

  lemma ShortReturnEnds(size: nat, at: nat)
    requires at == size / FILE_PART_BYTES * FILE_PART_BYTES
    ensures var ret := size - PartCount(size) * FILE_PART_BYTES % U32;
            at + (if ret < 0 then size else ret) >= size
  {
    var k := size / FILE_PART_BYTES;
    var c := PartCount(size);
    OffsetMod(c);
    CountMod(k + 1);
    if k + 1 < 8192 {
      assert c % 8192 == k + 1;
    } else {
      assert c % 8192 <= k;
    }
  }

  lemma CountMod(n: nat)
    ensures n % U32 % 8192 == n % 8192
  {
    var q, c := n / U32, n % U32;
    ModUnique(n, 8192, q * 524288 + c / 8192, c % 8192);
  }

  /** `sendmetadata`: part number 0 every time, the file read on from where it stands. */
  method SendMetadata(file: seq<byte>) returns (sends: seq<Sent>)
    ensures sends == MetadataSends(file)
  {
    var r := Reading(file, 0, |file|);
    var sent := 0;
    sends := [];
    var first := true;
    while first || sent < r.size
      invariant r.file == file && r.size == |file| && first == (sends == [])
      invariant |sends| <= Ceil(|file|) && forall i :: 0 <= i < |sends| ==> sends[i] == MetadataSends(file)[i]
      invariant sent < r.size || first ==> sent == r.at == |sends| * FILE_PART_BYTES <= |file|
      invariant sent >= r.size && !first ==> |sends| == Ceil(|file|)
      decreases first, r.size - sent
    {
      var n := |sends|;
      assert sent < r.size || n == 0;
      if |Chunk(r)| != FILE_PART_BYTES {
        ShortReturnEnds(|file|, r.at);
      }
      sends := sends + [SendPart(r, 0)];
      sent := sent + SendReturn(r);
      r := r.(at := r.at + |Chunk(r)|);
      first := false;
    }
  }

  /** Every metadata message carries its part of the metadata file exactly when that file
      is shorter than one part or a whole number of parts. */
  lemma MetadataSendsExactIff(file: seq<byte>)
    ensures (forall i :: 0 <= i < Ceil(|file|) ==> MetadataSends(file)[i] == Sent(Part(file, i)))
            <==> (|file| < FILE_PART_BYTES || |file| % FILE_PART_BYTES == 0)
  {
    if |file| < FILE_PART_BYTES {
      assert Part(file, 0) == file;
    } else if |file| % FILE_PART_BYTES != 0 {
      assert MetadataSends(file)[Ceil(|file|) - 1] == Overrun;
    }
  }

  // ------------------------------------------------------------- receiving

  /** Where `handlefilepart` seeks to: the product is unsigned 32-bit. */
  function SeekOffset(part: nat): nat { part * FILE_PART_BYTES % U32 }

  lemma SeekExactIff(part: nat)
    ensures SeekOffset(part) == part * FILE_PART_BYTES <==> part < 8192
  {
    OffsetMod(part);
  }
}
