/** The cipher underneath crypto/aes.c: CBC (section 6.2 of NIST SP 800-38A) and block
    padding (section 6.3 of RFC 5652) over a block permutation, in the library's split
    into updates and a final call. */
module Cipher {
  import opened Bytes

  const BLOCK_SIZE: nat := 16

  type Block = b: seq<byte> | |b| == 16 witness Zeros(16)

  /** A keyed permutation of the 16-byte blocks and its inverse. */
  datatype BlockCipher = BlockCipher(enc: (seq<byte>, Block) -> Block, dec: (seq<byte>, Block) -> Block) {
    ghost predicate Permutation() {
      && (forall k, b :: dec(k, enc(k, b)) == b)
      && (forall k, b :: enc(k, dec(k, b)) == b)
    }
  }

  // --------------------------------------------------------------- xor

  /** Exclusive or, bit by bit. */
  function Xor(a: nat, b: nat): nat
    decreases a + b
  {
    if a == 0 && b == 0 then 0 else (a % 2 + b % 2) % 2 + 2 * Xor(a / 2, b / 2)
  }

  lemma {:induction false} XorBound(a: nat, b: nat, n: nat, bits: nat)
    requires a < n && b < n && n == Pow2(bits)
    ensures Xor(a, b) < n
  {
    if bits > 0 {
      var half := Pow2(bits - 1);
      assert n == 2 * half && a / 2 < half && b / 2 < half;
      XorBound(a / 2, b / 2, half, bits - 1);
      XorUnfold(a, b);
    }
  }

  function Pow2(n: nat): (r: nat)
    ensures r > 0
  {
    if n == 0 then 1 else 2 * Pow2(n - 1)
  }

  lemma XorUnfold(a: nat, b: nat)
    ensures Xor(a, b) % 2 == (a % 2 + b % 2) % 2 && Xor(a, b) / 2 == Xor(a / 2, b / 2)
  {
    var low, high := (a % 2 + b % 2) % 2, Xor(a / 2, b / 2);
    assert Xor(a, b) == low + 2 * high;
  }

  lemma ParityTwice(a: nat, b: nat, x: nat, y: nat)
    requires x % 2 == (a % 2 + b % 2) % 2 && y % 2 == (x % 2 + b % 2) % 2
    ensures y % 2 == a % 2
  {
  }

  lemma HalvesAgree(a: nat, y: nat)
    requires y / 2 == a / 2 && y % 2 == a % 2
    ensures y == a
  {
  }

  lemma {:induction false} XorTwice(a: nat, b: nat)
    ensures Xor(Xor(a, b), b) == a
    decreases a + b
  {
    if a + b > 0 {
      var x := Xor(a, b);
      var y := Xor(x, b);
      assert y / 2 == a / 2 && y % 2 == a % 2 by {
        XorTwice(a / 2, b / 2);
        XorUnfold(a, b);
        XorUnfold(x, b);
        ParityTwice(a, b, x, y);
      }
      HalvesAgree(a, y);
    }
  }

  /** Bit `i` of the result is set exactly when bit `i` differs. */
  lemma {:induction false} XorBits(a: nat, b: nat, i: nat)
    ensures Xor(a, b) / Pow2(i) % 2 == 1 <==> a / Pow2(i) % 2 != b / Pow2(i) % 2
    decreases i
  {
    XorUnfold(a, b);
    if i == 0 {
      LowestBit(a);
      LowestBit(b);
      LowestBit(Xor(a, b));
    } else {
      XorBits(a / 2, b / 2, i - 1);
      HalfThenShift(a, i);
      HalfThenShift(b, i);
      HalfThenShift(Xor(a, b), i);
    }
  }

  lemma LowestBit(n: nat)
    ensures n / Pow2(0) % 2 == n % 2
  {
    assert Pow2(0) == 1 && n / 1 == n;
  }

  lemma HalfThenShift(n: nat, i: nat)
    requires i > 0
    ensures n / 2 / Pow2(i - 1) == n / Pow2(i)
  {
    var p := Pow2(i - 1);
    var q, r := n / 2 / p, n / 2 % p;
    assert n == 2 * (q * p + r) + n % 2;
    assert 2 * (q * p) == q * (2 * p);
    QuotientUnique(n, 2 * p, q, 2 * r + n % 2);
  }

  lemma QuotientUnique(n: nat, m: nat, q: nat, r: nat)
    requires m > 0 && n == q * m + r && r < m
    ensures n / m == q
  {
    ModUnique(n, m, q, r);
    assert (n / m - q) * m == 0;
  }

  function XorByte(a: byte, b: byte): byte {
    XorBound(a, b, 256, 8);
    Xor(a, b)
  }

  function XorBlock(a: Block, b: Block): Block {
    seq(16, i requires 0 <= i < 16 => XorByte(a[i], b[i]))
  }

  lemma XorBlockTwice(a: Block, b: Block)
    ensures XorBlock(XorBlock(a, b), b) == a
  {
    forall i | 0 <= i < 16
      ensures XorBlock(XorBlock(a, b), b)[i] == a[i]
    {
      XorTwice(a[i], b[i]);
    }
  }

  // --------------------------------------------------------------- CBC

  predicate Whole(s: seq<byte>) { |s| % 16 == 0 }

  function CbcEncrypt(c: BlockCipher, key: seq<byte>, iv: Block, p: seq<byte>): (r: seq<byte>)
    requires Whole(p)
    ensures |r| == |p|
    decreases |p|
  {
    if p == [] then []
    else
      var b := c.enc(key, XorBlock(p[..16], iv));
      b + CbcEncrypt(c, key, b, p[16..])
  }

  function CbcDecrypt(c: BlockCipher, key: seq<byte>, iv: Block, s: seq<byte>): (r: seq<byte>)
    requires Whole(s)
    ensures |r| == |s|
    decreases |s|
  {
    if s == [] then []
    else XorBlock(c.dec(key, s[..16]), iv) + CbcDecrypt(c, key, s[..16], s[16..])
  }

  /** Block `i` of the ciphertext is the encryption of block `i` of the text, combined with
      the ciphertext block before it, the first with the initial vector. */
  lemma {:induction false} CbcBlocks(c: BlockCipher, key: seq<byte>, iv: Block, p: seq<byte>, i: nat)
    requires Whole(p) && 16 * i < |p|
    ensures var e := CbcEncrypt(c, key, iv, p);
            e[16 * i..16 * i + 16]
            == c.enc(key, XorBlock(p[16 * i..16 * i + 16], if i == 0 then iv else e[16 * i - 16..16 * i]))
    decreases |p|
  {
    var e := CbcEncrypt(c, key, iv, p);
    var b := c.enc(key, XorBlock(p[..16], iv));
    var rest := CbcEncrypt(c, key, b, p[16..]);
    assert e == b + rest && e[..16] == b;
    if i > 0 {
      CbcBlocks(c, key, b, p[16..], i - 1);
      assert e[16 * i..16 * i + 16] == rest[16 * (i - 1)..16 * (i - 1) + 16];
      assert p[16 * i..16 * i + 16] == p[16..][16 * (i - 1)..16 * (i - 1) + 16];
      if i > 1 {
        assert e[16 * i - 16..16 * i] == rest[16 * (i - 1) - 16..16 * (i - 1)];
      } else {
        assert e[0..16] == b;
      }
    }
  }

  lemma {:induction false} CbcRoundTrip(c: BlockCipher, key: seq<byte>, iv: Block, p: seq<byte>)
    requires c.Permutation() && Whole(p)
    ensures CbcDecrypt(c, key, iv, CbcEncrypt(c, key, iv, p)) == p
    decreases |p|
  {
    if p != [] {
      var b := c.enc(key, XorBlock(p[..16], iv));
      var e := CbcEncrypt(c, key, iv, p);
      assert e[..16] == b && e[16..] == CbcEncrypt(c, key, b, p[16..]);
      XorBlockTwice(p[..16], iv);
      CbcRoundTrip(c, key, b, p[16..]);
      assert p == p[..16] + p[16..];
    }
  }

  lemma {:induction false} CbcRoundTripBack(c: BlockCipher, key: seq<byte>, iv: Block, s: seq<byte>)
    requires c.Permutation() && Whole(s)
    ensures CbcEncrypt(c, key, iv, CbcDecrypt(c, key, iv, s)) == s
    decreases |s|
  {
    if s != [] {
      var d := CbcDecrypt(c, key, iv, s);
      var x := c.dec(key, s[..16]);
      assert d[..16] == XorBlock(x, iv) && d[16..] == CbcDecrypt(c, key, s[..16], s[16..]);
      XorBlockTwice(x, iv);
      CbcRoundTripBack(c, key, s[..16], s[16..]);
      assert s == s[..16] + s[16..];
    }
  }

  function LastBlock(s: seq<byte>, iv: Block): Block
    requires Whole(s)
  {
    if s == [] then iv else s[|s| - 16..]
  }

  lemma CbcFirst(c: BlockCipher, key: seq<byte>, iv: Block, first: Block, q: seq<byte>)
    requires Whole(q)
    ensures Whole(first + q)
    ensures var b := c.enc(key, XorBlock(first, iv));
            CbcEncrypt(c, key, iv, first + q) == b + CbcEncrypt(c, key, b, q)
  {
    assert (first + q)[..16] == first && (first + q)[16..] == q;
  }

  lemma LastBlockAfter(b: Block, rest: seq<byte>, iv: Block)
    requires Whole(rest)
    ensures Whole(b + rest) && LastBlock(b + rest, iv) == LastBlock(rest, b)
  {
  }

  /** Encrypting in pieces: the chaining block carries over. */
  lemma {:induction false} CbcSplit(c: BlockCipher, key: seq<byte>, iv: Block, p: seq<byte>, q: seq<byte>)
    requires Whole(p) && Whole(q)
    ensures Whole(p + q)
    ensures var e := CbcEncrypt(c, key, iv, p);
            CbcEncrypt(c, key, iv, p + q) == e + CbcEncrypt(c, key, LastBlock(e, iv), q)
    decreases |p|
  {
    if p == [] {
      assert p + q == q;
    } else {
      var first, tail := p[..16], p[16..];
      var b := c.enc(key, XorBlock(first, iv));
      var rest := CbcEncrypt(c, key, b, tail);
      CbcSplit(c, key, b, tail, q);
      CbcFirst(c, key, iv, first, tail + q);
      assert p + q == first + (tail + q);
      LastBlockAfter(b, rest, iv);
      var more := CbcEncrypt(c, key, LastBlock(rest, b), q);
      assert b + (rest + more) == (b + rest) + more;
    }
  }

  lemma CbcDecryptFirst(c: BlockCipher, key: seq<byte>, iv: Block, first: Block, t: seq<byte>)
    requires Whole(t)
    ensures Whole(first + t)
    ensures CbcDecrypt(c, key, iv, first + t) == XorBlock(c.dec(key, first), iv) + CbcDecrypt(c, key, first, t)
  {
    assert (first + t)[..16] == first && (first + t)[16..] == t;
  }

  lemma {:induction false} CbcDecryptSplit(c: BlockCipher, key: seq<byte>, iv: Block, s: seq<byte>, t: seq<byte>)
    requires Whole(s) && Whole(t)
    ensures Whole(s + t)
    ensures CbcDecrypt(c, key, iv, s + t) == CbcDecrypt(c, key, iv, s) + CbcDecrypt(c, key, LastBlock(s, iv), t)
    decreases |s|
  {
    if s == [] {
      assert s + t == t;
    } else {
      var first, tail := s[..16], s[16..];
      CbcDecryptSplit(c, key, first, tail, t);
      CbcDecryptFirst(c, key, iv, first, tail + t);
      assert s + t == first + (tail + t) && s == first + tail;
      LastBlockAfter(first, tail, iv);
      var head, rest := XorBlock(c.dec(key, first), iv), CbcDecrypt(c, key, first, tail);
      var more := CbcDecrypt(c, key, LastBlock(tail, first), t);
      assert head + (rest + more) == (head + rest) + more;
    }
  }

  // --------------------------------------------------------------- padding

  function PadLen(n: nat): nat { 16 - n % 16 }

  function Padding(n: nat): seq<byte>
    requires 1 <= n <= 16
  {
    seq(n, _ => n)
  }

  function Pad(p: seq<byte>): (r: seq<byte>)
    ensures Whole(r) && |r| == (|p| / 16 + 1) * 16
  {
    p + Padding(PadLen(|p|))
  }

  /** The text comes first, then up to the next multiple of 16, one byte at least, bytes that
      each hold their own number. */
  lemma PadBytes(p: seq<byte>)
    ensures var r := Pad(p);
            |r| % 16 == 0 && |p| < |r| <= |p| + 16 && r[..|p|] == p
            && forall i :: |p| <= i < |r| ==> r[i] == |r| - |p|
  {
  }

  predicate ValidPad(b: Block) {
    1 <= b[15] <= 16 && forall i :: 16 - b[15] <= i < 16 ==> b[i] == b[15]
  }

  // ------------------------------------------- the library's streaming calls

  /** `EVP_EncryptUpdate`: every whole block goes out, the remainder waits. */
  function EncryptUpdate(c: BlockCipher, key: seq<byte>, iv: Block, data: seq<byte>): (seq<byte>, Block, seq<byte>) {
    var n := |data| / 16 * 16;
    var out := CbcEncrypt(c, key, iv, data[..n]);
    (out, LastBlock(out, iv), data[n..])
  }

  /** `EVP_EncryptFinal_ex`: the remainder goes out padded to one block. */
  function EncryptFinal(c: BlockCipher, key: seq<byte>, chain: Block, rest: seq<byte>): (r: seq<byte>)
    requires |rest| < 16
    ensures |r| == 16
  {
    CbcEncrypt(c, key, chain, Pad(rest))
  }

  function Encrypt(c: BlockCipher, key: seq<byte>, iv: Block, data: seq<byte>): seq<byte> {
    var (out, chain, rest) := EncryptUpdate(c, key, iv, data);
    out + EncryptFinal(c, key, chain, rest)
  }

  /** Update and final together are CBC over the padded message; the result is the next
      multiple of 16 above the length, which fits a buffer of length + 16. */
  lemma EncryptIsCbcOfPadded(c: BlockCipher, key: seq<byte>, iv: Block, data: seq<byte>)
    ensures Encrypt(c, key, iv, data) == CbcEncrypt(c, key, iv, Pad(data))
    ensures |Encrypt(c, key, iv, data)| == (|data| / 16 + 1) * 16 <= |data| + 16
  {
    var n := |data| / 16 * 16;
    assert Pad(data) == data[..n] + Pad(data[n..]) by {
      assert |data[n..]| % 16 == |data| % 16;
      assert data == data[..n] + data[n..];
    }
    CbcSplit(c, key, iv, data[..n], Pad(data[n..]));
  }

  /** `EVP_DecryptUpdate`: holds the last block back when the input ends on a block boundary. */
  function DecryptUpdate(c: BlockCipher, key: seq<byte>, iv: Block, s: seq<byte>): (r: (seq<byte>, seq<byte>))
    ensures |r.0| <= |s|
  {
    if Whole(s) && s != [] then (CbcDecrypt(c, key, iv, s[..|s| - 16]), s[|s| - 16..])
    else (CbcDecrypt(c, key, iv, s[..|s| / 16 * 16]), s[|s| / 16 * 16..])
  }

  /** `EVP_DecryptFinal_ex`: the held block without its padding, nothing on an error.
      The caller in crypto/aes.c does not look at the error. */
  function DecryptFinal(c: BlockCipher, key: seq<byte>, chain: Block, held: seq<byte>): (r: seq<byte>)
    ensures |r| <= 16
  {
    if |held| != 16 then []
    else
      var b: Block := XorBlock(c.dec(key, held), chain);
      if ValidPad(b) then b[..16 - b[15]] else []
  }

  /** The block that the final call of a decryption chains with. */
  function ChainBefore(s: seq<byte>, iv: Block): Block {
    var n := if Whole(s) && s != [] then |s| - 16 else |s| / 16 * 16;
    LastBlock(s[..n], iv)
  }

  function Decrypt(c: BlockCipher, key: seq<byte>, iv: Block, s: seq<byte>): (r: seq<byte>)
  {
    var (out, held) := DecryptUpdate(c, key, iv, s);
    out + DecryptFinal(c, key, ChainBefore(s, iv), held)
  }

  /** Ciphertexts whose decryption ends in well-formed padding. */
  predicate Accepted(c: BlockCipher, key: seq<byte>, iv: Block, s: seq<byte>) {
    Whole(s) && s != [] && ValidPad(LastBlock(CbcDecrypt(c, key, iv, s), iv))
  }

  /** Plain text recovered from an accepted ciphertext, in one piece. */
  lemma DecryptOfAccepted(c: BlockCipher, key: seq<byte>, iv: Block, s: seq<byte>)
    requires Accepted(c, key, iv, s)
    ensures var d := CbcDecrypt(c, key, iv, s);
            Decrypt(c, key, iv, s) == d[..|d| - d[|d| - 1]]
  {
    var n := |s| - 16;
    var d := CbcDecrypt(c, key, iv, s);
    assert s == s[..n] + s[n..];
    CbcDecryptSplit(c, key, iv, s[..n], s[n..]);
    var b := XorBlock(c.dec(key, s[n..]), ChainBefore(s, iv));
    assert s[n..][16..] == [] && s[n..][..16] == s[n..];
    assert CbcDecrypt(c, key, ChainBefore(s, iv), s[n..]) == b;
    assert d == CbcDecrypt(c, key, iv, s[..n]) + b;
    assert LastBlock(d, iv) == b;
  }

  /** Decryption undoes encryption, for every message. */
  lemma RoundTrip(c: BlockCipher, key: seq<byte>, iv: Block, data: seq<byte>)
    requires c.Permutation()
    ensures Accepted(c, key, iv, Encrypt(c, key, iv, data))
    ensures Decrypt(c, key, iv, Encrypt(c, key, iv, data)) == data
  {
    var p, e := Pad(data), Encrypt(c, key, iv, data);
    EncryptIsCbcOfPadded(c, key, iv, data);
    CbcRoundTrip(c, key, iv, p);
    var k := PadLen(|data|);
    assert forall i :: |p| - k <= i < |p| ==> p[i] == k;
    assert LastBlock(p, iv)[15] == p[|p| - 1] == k;
    assert forall i :: 16 - k <= i < 16 ==> LastBlock(p, iv)[i] == p[|p| - 16 + i];
    DecryptOfAccepted(c, key, iv, e);
    assert p[..|p| - k] == data;
  }

  /** Of any other ciphertext the whole blocks come out, without the last one if that is where
      the padding should be. */
  lemma DecryptOfRejected(c: BlockCipher, key: seq<byte>, iv: Block, s: seq<byte>)
    requires !Accepted(c, key, iv, s)
    ensures Decrypt(c, key, iv, s)
            == CbcDecrypt(c, key, iv, s[..if |s| % 16 == 0 && s != [] then |s| - 16 else |s| / 16 * 16])
  {
    if Whole(s) && s != [] {
      LastDecrypted(c, key, iv, s);
      assert DecryptFinal(c, key, ChainBefore(s, iv), s[|s| - 16..]) == [];
    }
  }

  /** The last block that a decryption yields is what the final call looks at. */
  lemma LastDecrypted(c: BlockCipher, key: seq<byte>, iv: Block, s: seq<byte>)
    requires Whole(s) && s != []
    ensures LastBlock(CbcDecrypt(c, key, iv, s), iv) == XorBlock(c.dec(key, s[|s| - 16..]), ChainBefore(s, iv))
  {
    var n := |s| - 16;
    assert s == s[..n] + s[n..];
    CbcDecryptSplit(c, key, iv, s[..n], s[n..]);
    var b := XorBlock(c.dec(key, s[n..]), ChainBefore(s, iv));
    assert s[n..][16..] == [] && s[n..][..16] == s[n..];
    assert CbcDecrypt(c, key, ChainBefore(s, iv), s[n..]) == b;
  }

  lemma Repad(d: seq<byte>, iv: Block)
    requires Whole(d) && d != [] && ValidPad(LastBlock(d, iv))
    ensures d[|d| - 1] <= |d| && Pad(d[..|d| - d[|d| - 1]]) == d
  {
    var b, k := LastBlock(d, iv), d[|d| - 1];
    assert b[15] == k;
    assert forall i :: |d| - k <= i < |d| ==> d[i] == b[i - (|d| - 16)];
    assert PadLen(|d| - k) == k;
  }

  lemma AcceptedReencrypts(c: BlockCipher, key: seq<byte>, iv: Block, s: seq<byte>)
    requires c.Permutation() && Accepted(c, key, iv, s)
    ensures Encrypt(c, key, iv, Decrypt(c, key, iv, s)) == s
  {
    var d := CbcDecrypt(c, key, iv, s);
    DecryptOfAccepted(c, key, iv, s);
    Repad(d, iv);
    EncryptIsCbcOfPadded(c, key, iv, d[..|d| - d[|d| - 1]]);
    CbcRoundTripBack(c, key, iv, s);
  }

  /** The accepted ciphertexts are exactly the encryptions of some message, and each is
      the encryption of what it decrypts to. */
  lemma AcceptedIffEncryption(c: BlockCipher, key: seq<byte>, iv: Block, s: seq<byte>)
    requires c.Permutation()
    ensures Accepted(c, key, iv, s) <==> Encrypt(c, key, iv, Decrypt(c, key, iv, s)) == s
  {
    RoundTrip(c, key, iv, Decrypt(c, key, iv, s));
    if Accepted(c, key, iv, s) {
      AcceptedReencrypts(c, key, iv, s);
    }
  }
}
