/** Sealed envelopes of crypto/aes.c: a random password encrypted for the receiver, and
    the payload under a key derived from that password. */
module Aes {
  import opened Bytes
  import opened Cipher

  const MAGIC: nat := 0x0074B12B
  const SALT_LEN: nat := 8
  const PW_LEN: nat := 80
  const INT_MAX: nat := 0x7FFF_FFFF

  type Derived = d: seq<byte> | |d| == 48 witness Zeros(48)

  /** The cryptography the program takes from its library: the block cipher, the key
      derivation (section 5.2 of RFC 8018) from password and salt, and public-key
      encryption, whose padding is random (`nonce`). */
  datatype Suite = Suite(
    block: BlockCipher,
    kdf: (seq<byte>, seq<byte>) -> Derived,
    rsaEnc: (nat, seq<byte>, nat) -> seq<byte>,
    rsaDec: (nat, seq<byte>) -> seq<byte>)
  {
    /** `priv` undoes `pub` on passwords, and a sealed password's length fits 16 bits. */
    ghost predicate Pair(pub: nat, priv: nat) {
      forall pw: seq<byte>, nonce {:trigger rsaEnc(pub, pw, nonce)} ::
        |pw| == PW_LEN ==> rsaDec(priv, rsaEnc(pub, pw, nonce)) == pw && |rsaEnc(pub, pw, nonce)| < 0x1_0000
    }
  }

  /** `enc_t`, with the bytes that its data pointer designates. */
  datatype Envelope = Envelope(magic: nat, salt: seq<byte>, passLen: nat, dataLen: nat, body: seq<byte>)

  function Key(d: Derived): seq<byte> { d[..32] }

  function Iv(d: Derived): Block { d[32..] }

  function Seal(s: Suite, pub: nat, nonce: nat, pw: seq<byte>, salt: seq<byte>, data: seq<byte>): Envelope {
    var pass := s.rsaEnc(pub, pw, nonce);
    var d := s.kdf(pw, salt);
    var c := Encrypt(s.block, Key(d), Iv(d), data);
    Envelope(MAGIC, salt, |pass| % 0x1_0000, |c| % 0x1_0000_0000, pass + c)
  }

  function Open(s: Suite, priv: nat, e: Envelope): seq<byte>
    requires e.passLen + e.dataLen <= |e.body|
  {
    var pw := s.rsaDec(priv, e.body[..e.passLen]);
    var d := s.kdf(pw, e.salt);
    Decrypt(s.block, Key(d), Iv(d), e.body[e.passLen..e.passLen + e.dataLen])
  }

  lemma SealedParts(s: Suite, pub: nat, priv: nat, nonce: nat, pw: seq<byte>, salt: seq<byte>, data: seq<byte>)
    requires s.Pair(pub, priv) && |pw| == PW_LEN && |data| + 16 <= INT_MAX
    ensures var e := Seal(s, pub, nonce, pw, salt, data);
            var d := s.kdf(pw, salt);
            && e.passLen == |s.rsaEnc(pub, pw, nonce)| && e.dataLen == (|data| / 16 + 1) * 16
            && e.passLen + e.dataLen == |e.body|
            && e.body[..e.passLen] == s.rsaEnc(pub, pw, nonce)
            && e.body[e.passLen..e.passLen + e.dataLen] == Encrypt(s.block, Key(d), Iv(d), data)
  {
    var d := s.kdf(pw, salt);
    var pass, c := s.rsaEnc(pub, pw, nonce), Encrypt(s.block, Key(d), Iv(d), data);
    EncryptIsCbcOfPadded(s.block, Key(d), Iv(d), data);
    Slices(pass, c);
    SmallMod(|pass|, 0x1_0000);
    SmallMod(|c|, 0x1_0000_0000);
  }

  lemma PasswordBack(s: Suite, pub: nat, priv: nat, nonce: nat, pw: seq<byte>)
    requires s.Pair(pub, priv) && |pw| == PW_LEN
    ensures s.rsaDec(priv, s.rsaEnc(pub, pw, nonce)) == pw
  {
  }

  lemma SmallMod(n: nat, m: nat)
    requires n < m
    ensures n % m == n
  {
  }

  lemma Slices(a: seq<byte>, b: seq<byte>)
    ensures (a + b)[..|a|] == a && (a + b)[|a|..|a| + |b|] == b
  {
  }

  /** The ciphertext is CBC over the padded text, under the first 32 of the 48 bytes that are
      derived from password and salt, with the last 16 as the initial vector; the password
      goes before it under the public key, and the salt in the clear. */
  lemma SealIsCbc(s: Suite, pub: nat, priv: nat, nonce: nat, pw: seq<byte>, salt: seq<byte>, data: seq<byte>)
    requires s.Pair(pub, priv) && |pw| == 80 && |data| + 16 <= 0x7FFF_FFFF
    ensures var e, pass, d := Seal(s, pub, nonce, pw, salt, data), s.rsaEnc(pub, pw, nonce), s.kdf(pw, salt);
            && e.magic == 0x0074B12B && e.salt == salt
            && e.passLen == |pass| && e.dataLen == (|data| / 16 + 1) * 16
            && e.body == pass + CbcEncrypt(s.block, d[..32], d[32..48], Pad(data))
  {
    var d := s.kdf(pw, salt);
    SealedParts(s, pub, priv, nonce, pw, salt, data);
    EncryptIsCbcOfPadded(s.block, Key(d), Iv(d), data);
    assert d[32..] == d[32..48];
  }

  /** Opening reads the password from the start of the body and decrypts what follows it,
      under the same two parts of the derived bytes. */
  lemma OpenIsCbc(s: Suite, priv: nat, e: Envelope)
    requires e.passLen + e.dataLen <= |e.body|
    ensures var d := s.kdf(s.rsaDec(priv, e.body[..e.passLen]), e.salt);
            var c := e.body[e.passLen..e.passLen + e.dataLen];
            Accepted(s.block, d[..32], d[32..48], c) ==>
              var p := CbcDecrypt(s.block, d[..32], d[32..48], c);
              p != [] && p[|p| - 1] <= |p| && Open(s, priv, e) == p[..|p| - p[|p| - 1]]
  {
    var d := s.kdf(s.rsaDec(priv, e.body[..e.passLen]), e.salt);
    var c := e.body[e.passLen..e.passLen + e.dataLen];
    assert d[32..] == d[32..48];
    if Accepted(s.block, d[..32], d[32..48], c) {
      DecryptOfAccepted(s.block, d[..32], d[32..48], c);
    }
  }

  /** What was sealed for a key is what that key opens. */
  lemma OpenSeal(s: Suite, pub: nat, priv: nat, nonce: nat, pw: seq<byte>, salt: seq<byte>, data: seq<byte>)
    requires s.block.Permutation() && s.Pair(pub, priv) && |pw| == PW_LEN && |data| + 16 <= INT_MAX
    ensures var e := Seal(s, pub, nonce, pw, salt, data);
            && e.passLen == |s.rsaEnc(pub, pw, nonce)| && e.dataLen == (|data| / 16 + 1) * 16
            && e.passLen + e.dataLen == |e.body|
            && Open(s, priv, e) == data
  {
    var e, d := Seal(s, pub, nonce, pw, salt, data), s.kdf(pw, salt);
    SealedParts(s, pub, priv, nonce, pw, salt, data);
    PasswordBack(s, pub, priv, nonce, pw);
    assert e.salt == salt;
    assert Open(s, priv, e) == Decrypt(s.block, Key(d), Iv(d), Encrypt(s.block, Key(d), Iv(d), data));
    RoundTrip(s.block, Key(d), Iv(d), data);
  }

  /** memcpy into an array. */
  method Copy(a: array<byte>, at: nat, s: seq<byte>)
    requires at + |s| <= a.Length
    modifies a
    ensures a[..at] == old(a[..at]) && a[at..at + |s|] == s && a[at + |s|..] == old(a[at + |s|..])
  {
    for i := 0 to |s|
      invariant forall k :: 0 <= k < a.Length ==> a[k] == if at <= k < at + i then s[k - at] else old(a[k])
    {
      a[at + i] := s[i];
    }
  }

  /** `aes_encrypt_with_pass`; the ciphertext goes through a buffer of length + 16. */
  method EncryptWithPass(s: Suite, pub: nat, nonce: nat, pw: seq<byte>, salt: seq<byte>, data: seq<byte>)
    returns (enc: Envelope)
    requires |data| + BLOCK_SIZE <= INT_MAX
    ensures enc == Seal(s, pub, nonce, pw, salt, data)
  {
    var d := s.kdf(pw, salt);
    var c := new byte[|data| + BLOCK_SIZE];
    var (out, chain, rest) := EncryptUpdate(s.block, Key(d), Iv(d), data);
    Copy(c, 0, out);
    var cLen := |out|;
    assert c[..cLen] == c[0..cLen] == out;
    var fin := EncryptFinal(s.block, Key(d), chain, rest);
    Copy(c, cLen, fin);
    var fLen := |fin|;
    assert c[..cLen + fLen] == c[..cLen] + c[cLen..cLen + fLen] == out + fin;
    var pass := s.rsaEnc(pub, pw, nonce);
    enc := Envelope(MAGIC, salt, |pass| % 0x1_0000, (cLen + fLen) % 0x1_0000_0000, pass + c[..cLen + fLen]);
  }

  /** The static buffer that every decryption reuses. */
  class Decryptor {
    var decdata: array<byte>   // its length is the allocation
    var declen: nat

    /** The recorded length stays inside the allocation, and no byte of an earlier plain
        text survives behind the current one. */
    ghost predicate Valid()
      reads this, decdata
    {
      declen <= decdata.Length && forall i :: declen <= i < decdata.Length ==> decdata[i] == 0
    }

    ghost function Plain(): seq<byte>
      reads this, decdata
      requires Valid()
    {
      decdata[..declen]
    }

    constructor ()
      ensures Valid() && declen == 0 && fresh(decdata)
    {
      decdata := new byte[0];
      declen := 0;
    }

    /** memset of the first `n` bytes to zero. */
    method Wipe(n: nat)
      requires n <= decdata.Length
      modifies decdata
      ensures forall k :: 0 <= k < decdata.Length ==> decdata[k] == if k < n then 0 else old(decdata[k])
    {
      for i := 0 to n
        invariant forall k :: 0 <= k < decdata.Length ==> decdata[k] == if k < i then 0 else old(decdata[k])
      {
        decdata[i] := 0;
      }
    }

    /** Replacing the previous plain text: wipe it, grow the buffer if need be, copy. */
    method Store(plain: seq<byte>)
      requires Valid()
      modifies this, decdata
      ensures Valid() && (decdata == old(decdata) || fresh(decdata))
      ensures Plain() == plain && declen == |plain|
      ensures declen <= old(declen) ==> decdata == old(decdata)
      ensures declen > old(declen) ==> decdata.Length == declen
    {
      if declen > 0 { Wipe(declen); }
      if |plain| > declen {
        decdata := new byte[|plain|];
      }
      declen := |plain|;
      Copy(decdata, 0, plain);
      assert decdata[..declen] == decdata[0..declen];
    }

    /** `aes_decrypt_with_key` on an envelope whose magic number the caller has checked. */
    method DecryptWithKey(s: Suite, priv: nat, e: Envelope)
      requires Valid() && e.magic == MAGIC && e.passLen + e.dataLen <= |e.body|
      modifies this, decdata
      ensures Valid() && (decdata == old(decdata) || fresh(decdata))
      ensures Plain() == Open(s, priv, e)
    {
      Wipe(declen);
      var plain := DecryptBody(s, priv, e);
      Store(plain);
    }
  }

  /** The decryption itself, through a stack buffer of length + 16. */
  method DecryptBody(s: Suite, priv: nat, e: Envelope) returns (plain: seq<byte>)
    requires e.passLen + e.dataLen <= |e.body|
    ensures plain == Open(s, priv, e)
  {
    var pw := s.rsaDec(priv, e.body[..e.passLen]);
    var d := s.kdf(pw, e.salt);
    var c := e.body[e.passLen..e.passLen + e.dataLen];
    var p := new byte[|c| + BLOCK_SIZE];
    var (out, held) := DecryptUpdate(s.block, Key(d), Iv(d), c);
    var fin := DecryptFinal(s.block, Key(d), ChainBefore(c, Iv(d)), held);
    assert Open(s, priv, e) == out + fin;
    Copy(p, 0, out);
    assert p[..|out|] == p[0..|out|] == out;
    Copy(p, |out|, fin);
    plain := p[..|out| + |fin|];
    assert plain == p[..|out|] + p[|out|..|out| + |fin|];
  }
}
