/** The metadata file of core/file.c: the file's name, the digest of the whole file and the
    digests of its parts, stored under the digest in hexadecimal. */
module Metadata {
  import opened Bytes
  import opened FileParts

  const SHA_LEN: nat := 20

  type Digest = d: seq<byte> | |d| == 20 witness Zeros(20)
  type Hash = seq<byte> -> Digest

  /** Names the receiver can read back: without a NUL and, with the first digest, within one part. */
  predicate ProperName(name: seq<byte>) {
    (forall i :: 0 <= i < |name| ==> name[i] != 0) && |name| + 1 + SHA_LEN <= FILE_PART_BYTES
  }

  // ------------------------------------------------------------- hexadecimal

  const HEX := "0123456789abcdef"

  function HexByte(b: byte): (r: string)
    ensures |r| == 2
  {
    [HEX[b / 16], HEX[b % 16]]
  }

  function Hex(d: seq<byte>): (r: string)
    ensures |r| == 2 * |d|
  {
    if d == [] then [] else HexByte(d[0]) + Hex(d[1..])
  }

  lemma HexDigitInjective(a: nat, b: nat)
    requires a < 16 && b < 16 && HEX[a] == HEX[b]
    ensures a == b
  {
  }

  /** Different digests of one length have different names. */
  lemma {:induction false} HexInjective(d: seq<byte>, e: seq<byte>)
    requires |d| == |e| && Hex(d) == Hex(e)
    ensures d == e
    decreases |d|
  {
    if d != [] {
      assert Hex(d)[0] == HEX[d[0] / 16] && Hex(d)[1] == HEX[d[0] % 16];
      assert Hex(e)[0] == HEX[e[0] / 16] && Hex(e)[1] == HEX[e[0] % 16];
      HexDigitInjective(d[0] / 16, e[0] / 16);
      HexDigitInjective(d[0] % 16, e[0] % 16);
      assert d[0] == d[0] / 16 * 16 + d[0] % 16 == e[0];
      assert Hex(d)[2..] == Hex(d[1..]) && Hex(e)[2..] == Hex(e[1..]);
      HexInjective(d[1..], e[1..]);
    }
  }

  /** Digits 2i and 2i + 1 are the high and the low half of byte i, in lower case. */
  lemma {:induction false} HexDigits(d: seq<byte>, i: nat)
    requires i < |d|
    ensures Hex(d)[2 * i] == "0123456789abcdef"[d[i] / 16] && Hex(d)[2 * i + 1] == "0123456789abcdef"[d[i] % 16]
    decreases |d|
  {
    if i > 0 {
      HexDigits(d[1..], i - 1);
      assert Hex(d)[2..] == Hex(d[1..]);
    }
  }

  lemma {:induction false} HexAppend(d: seq<byte>, b: byte)
    ensures Hex(d + [b]) == Hex(d) + HexByte(b)
    decreases |d|
  {
    if d == [] {
      assert d + [b] == [b] && [b][1..] == [];
    } else {
      assert (d + [b])[1..] == d[1..] + [b];
      HexAppend(d[1..], b);
    }
  }

  /** `sha_to_str` */
  method ShaToStr(sha: Digest) returns (out: string)
    ensures out == Hex(sha)
  {
    out := "";
    for i := 0 to SHA_LEN
      invariant out == Hex(sha[..i])
    {
      HexAppend(sha[..i], sha[i]);
      assert sha[..i + 1] == sha[..i] + [sha[i]];
      out := out + HexByte(sha[i]);
    }
    assert sha[..SHA_LEN] == sha;
  }

  // ------------------------------------------------------------- the file

  function Digests(h: Hash, file: seq<byte>, n: nat): (r: seq<byte>)
    requires n <= Parts(|file|)
    ensures |r| == SHA_LEN * n
  {
    if n == 0 then [] else Digests(h, file, n - 1) + h(Part(file, n - 1))
  }

  function MetadataFile(h: Hash, name: seq<byte>, file: seq<byte>): seq<byte> {
    name + [0] + h(file) + Digests(h, file, Parts(|file|))
  }

  lemma {:induction false} DigestAt(h: Hash, file: seq<byte>, n: nat, i: nat)
    requires i < n <= Parts(|file|)
    ensures Digests(h, file, n)[20 * i..20 * i + 20] == h(Part(file, i))
    decreases n
  {
    if i < n - 1 {
      DigestAt(h, file, n - 1, i);
      assert Digests(h, file, n)[..20 * (n - 1)] == Digests(h, file, n - 1);
      assert Digests(h, file, n)[20 * i..20 * i + 20] == Digests(h, file, n - 1)[20 * i..20 * i + 20];
    }
  }

  /** The layout of a metadata file: name, NUL, the digest of the file, the digest of each
      512 kB of it. */
  ghost predicate IsMetadataOf(md: seq<byte>, h: Hash, name: seq<byte>, file: seq<byte>) {
    var parts := |file| / 524288 + 1;
    && |md| == |name| + 21 + 20 * parts
    && md[..|name|] == name && md[|name|] == 0 && md[|name| + 1..|name| + 21] == h(file)
    && forall i :: 0 <= i < parts ==>
         md[|name| + 21 + 20 * i..|name| + 41 + 20 * i]
         == h(file[524288 * i..if 524288 * (i + 1) <= |file| then 524288 * (i + 1) else |file|])
  }

  lemma MetadataLayout(h: Hash, name: seq<byte>, file: seq<byte>)
    ensures IsMetadataOf(MetadataFile(h, name, file), h, name, file)
  {
    var md, n := MetadataFile(h, name, file), Parts(|file|);
    var ds := Digests(h, file, n);
    assert md[|name| + 1..|name| + 21] == h(file) && md[|name| + 21..] == ds;
    forall i | 0 <= i < n
      ensures md[|name| + 21 + 20 * i..|name| + 41 + 20 * i]
              == h(file[524288 * i..if 524288 * (i + 1) <= |file| then 524288 * (i + 1) else |file|])
    {
      DigestAt(h, file, n, i);
      assert md[|name| + 21 + 20 * i..|name| + 41 + 20 * i] == ds[20 * i..20 * i + 20];
      var (lo, len) := Range(i, |file|);
      assert Part(file, i) == file[lo..lo + len];
    }
  }

  /** `create_metadata_file`, for files whose part ranges fit 32 bits. */
  method CreateMetadataFile(h: Hash, name: seq<byte>, file: seq<byte>) returns (sha: string, out: seq<byte>)
    requires |file| < EXACT_PARTS * FILE_PART_BYTES
    ensures sha == Hex(h(file)) && out == MetadataFile(h, name, file)
    ensures IsMetadataOf(out, h, name, file)
    ensures |out| == |name| + 1 + SHA_LEN * (PartCount(|file|) + 1)
  {
    MetadataLayout(h, name, file);
    var fullsha := h(file);
    sha := ShaToStr(fullsha);
    out := name + [0] + fullsha;
    for i := 0 to Parts(|file|)
      invariant out == name + [0] + fullsha + Digests(h, file, i)
    {
      RangeExactBelow(i, |file|);
      var (lo, bytes) := RangeU32(i, |file|);
      assert file[lo..lo + bytes] == Part(file, i);
      out := out + h(file[lo..lo + bytes]);
    }
  }

  // ------------------------------------------------------------- receiving

  /** What `handlemetadata` reads out of a message: the name up to its NUL and the digest
      behind it; none when the message ends before that. */
  datatype Parsed = NoMetadata | Parsed(name: seq<byte>, sha: Digest, rest: seq<byte>)

  function Parse(content: seq<byte>): Parsed {
    var n := StrLen(content);
    if n + 1 + SHA_LEN > |content| then NoMetadata
    else Parsed(content[..n], content[n + 1..n + 1 + SHA_LEN], content[n + 1..])
  }

  type Store = map<string, seq<byte>>

  /** `check_or_create_metadata`: an existing file is left alone. */
  function StoreMetadata(store: Store, content: seq<byte>): Store {
    match Parse(content)
    case NoMetadata => store
    case Parsed(name, sha, rest) =>
      if Hex(sha) in store then store else store[Hex(sha) := name + [0] + rest]
  }

  function StoreAll(store: Store, contents: seq<seq<byte>>): Store
    decreases |contents|
  {
    if contents == [] then store else StoreAll(StoreMetadata(store, contents[0]), contents[1..])
  }

  lemma ParsePrefix(name: seq<byte>, sha: Digest, more: seq<byte>)
    requires forall i :: 0 <= i < |name| ==> name[i] != 0
    ensures Parse(name + [0] + sha + more) == Parsed(name, sha, sha + more)
  {
    var c := name + [0] + sha + more;
    StrLenUnique(c, |name|);
    assert c[..|name|] == name;
    assert c[|name| + 1..|name| + 1 + SHA_LEN] == sha;
    assert c[|name| + 1..] == sha + more;
  }

  /** The receiver parses back the sender's name and digest and stores a byte-identical
      metadata file, under a name that only this digest has. */
  lemma MetadataRoundTrip(h: Hash, name: seq<byte>, file: seq<byte>, store: Store)
    requires ProperName(name) && Hex(h(file)) !in store
    ensures var md := MetadataFile(h, name, file);
            && Parse(md).Parsed? && Parse(md).name == name && Parse(md).sha == h(file)
            && StoreMetadata(store, md) == store[Hex(h(file)) := md]
            && |md| == |name| + 1 + SHA_LEN * (Parts(|file|) + 1)
  {
    var md := MetadataFile(h, name, file);
    var ds := Digests(h, file, Parts(|file|));
    ParsePrefix(name, h(file), ds);
    assert name + [0] + (h(file) + ds) == md;
  }

  lemma {:induction false} StoredStays(store: Store, contents: seq<seq<byte>>, key: string)
    requires key in store
    ensures key in StoreAll(store, contents) && StoreAll(store, contents)[key] == store[key]
    decreases |contents|
  {
    if contents != [] {
      StoredStays(StoreMetadata(store, contents[0]), contents[1..], key);
    }
  }

  lemma FirstMessage(md: seq<byte>)
    ensures MetadataSends(md)[0] == Sent(if |md| <= FILE_PART_BYTES then md else md[..FILE_PART_BYTES])
  {
    if |md| < FILE_PART_BYTES {
      assert MetadataSends(md)[0] == Sent(md);
    } else {
      assert MetadataSends(md)[0] == Sent(Part(md, 0));
      assert Part(md, 0) == md[..FILE_PART_BYTES];
      assert |md| == FILE_PART_BYTES ==> md[..FILE_PART_BYTES] == md;
    }
  }

  lemma PrefixStores(h: Hash, name: seq<byte>, file: seq<byte>, store: Store, n: nat)
    requires ProperName(name) && Hex(h(file)) !in store
    requires |name| + 1 + SHA_LEN <= n <= |MetadataFile(h, name, file)|
    ensures var c := MetadataFile(h, name, file)[..n];
            StoreMetadata(store, c) == store[Hex(h(file)) := c]
  {
    var md := MetadataFile(h, name, file);
    var prefix := name + [0] + h(file);
    var more := md[|prefix|..n];
    assert md[..n] == prefix + more;
    ParsePrefix(name, h(file), more);
    assert name + [0] + (h(file) + more) == prefix + more;
  }

  /** A metadata file goes out in messages of one part each, and the receiver takes each
      message for a whole metadata file.  Whatever the later messages hold, the receiver
      ends up with the sender's metadata file exactly when that is no longer than one part. */
  lemma StoredIff(h: Hash, name: seq<byte>, file: seq<byte>, store: Store, later: seq<seq<byte>>)
    requires ProperName(name) && Hex(h(file)) !in store
    ensures var md := MetadataFile(h, name, file);
            var first := MetadataSends(md)[0];
            && first.Sent?
            && Hex(h(file)) in StoreAll(store, [first.content] + later)
            && (StoreAll(store, [first.content] + later)[Hex(h(file))] == md <==> |md| <= FILE_PART_BYTES)
  {
    var md, key := MetadataFile(h, name, file), Hex(h(file));
    FirstMessage(md);
    var first := MetadataSends(md)[0].content;
    var n := if |md| <= FILE_PART_BYTES then |md| else FILE_PART_BYTES;
    assert first == md[..n];
    PrefixStores(h, name, file, store, n);
    StoredStays(StoreMetadata(store, first), later, key);
    assert ([first] + later)[1..] == later;
  }
}
