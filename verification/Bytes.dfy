/** Bytes, little-endian numbers and NUL-terminated strings in memory. */
module Bytes {

  type byte = x: int | 0 <= x < 256

  function Pow256(w: nat): (r: nat)
    ensures r > 0
  {
    if w == 0 then 1 else 256 * Pow256(w - 1)
  }

  /** The low `w` bytes of `n`, least significant first: how the host stores an unsigned number. */
  function Le(n: nat, w: nat): (r: seq<byte>)
    ensures |r| == w
  {
    if w == 0 then [] else [n % 256] + Le(n / 256, w - 1)
  }

  /** Byte `i` is the one of weight 256^i. */
  lemma {:induction false} LeByte(n: nat, w: nat, i: nat)
    requires i < w
    ensures Le(n, w)[i] == n / Pow256(i) % 256
    decreases w
  {
    if i > 0 {
      LeByte(n / 256, w - 1, i - 1);
      DivTwice(n, Pow256(i - 1));
    }
  }

  lemma DivTwice(n: nat, p: nat)
    requires p > 0
    ensures n / 256 / p == n / (256 * p)
  {
    var q, r := n / 256 / p, n / 256 % p;
    assert n == 256 * (q * p + r) + n % 256;
    assert 256 * (q * p) == q * (256 * p);
    ModUnique(n, 256 * p, q, 256 * r + n % 256);
    assert (n / (256 * p) - q) * (256 * p) == 0;
  }

  function Num(bs: seq<byte>): nat {
    if bs == [] then 0 else bs[0] + 256 * Num(bs[1..])
  }

  /** Storing and loading keeps a number modulo the field's range. */
  lemma {:induction false} NumLe(n: nat, w: nat)
    ensures Num(Le(n, w)) == n % Pow256(w)
  {
    if w > 0 {
      NumLe(n / 256, w - 1);
      var p := Pow256(w - 1);
      assert Le(n, w)[1..] == Le(n / 256, w - 1);
      ModSplit(n, p);
    }
  }

  lemma ModSplit(n: nat, p: nat)
    requires p > 0
    ensures n % (256 * p) == n % 256 + 256 * ((n / 256) % p)
  {
    var q, r := (n / 256) / p, (n / 256) % p;
    assert n == 256 * (q * p + r) + n % 256;
    assert 256 * (q * p) == q * (256 * p);
    ModUnique(n, 256 * p, q, n % 256 + 256 * r);
  }

  lemma ModUnique(n: nat, m: nat, q: nat, r: nat)
    requires m > 0 && n == q * m + r && r < m
    ensures n % m == r
  {
    var q', r' := n / m, n % m;
    assert q' * m + r' == q * m + r;
    if q' > q {
      MulGap(q, q', m);
    } else if q' < q {
      MulGap(q', q, m);
    }
  }

  lemma MulGap(a: nat, b: nat, m: nat)
    requires a < b
    ensures b * m >= a * m + m
  {
    var d := b - a - 1;
    assert b * m == a * m + m + d * m;
  }

  lemma Pows()
    ensures Pow256(1) == 0x100 && Pow256(2) == 0x1_0000 && Pow256(4) == 0x1_0000_0000
    ensures Pow256(8) == 0x1_0000_0000_0000_0000
  {
    assert Pow256(2) == 256 * Pow256(1);
    assert Pow256(3) == 256 * Pow256(2);
    assert Pow256(4) == 256 * Pow256(3);
    assert Pow256(5) == 256 * Pow256(4);
    assert Pow256(6) == 256 * Pow256(5);
    assert Pow256(7) == 256 * Pow256(6);
    assert Pow256(8) == 256 * Pow256(7);
  }

  /** A number that fits its field is loaded back as stored. */
  lemma NumLeFits(n: nat, w: nat)
    requires n < Pow256(w)
    ensures Num(Le(n, w)) == n
  {
    NumLe(n, w);
  }

  function Zeros(n: nat): (r: seq<byte>)
    ensures |r| == n
  {
    seq(n, _ => 0)
  }

  /** `strlen`: the index of the first NUL, or the length when there is none. */
  function StrLen(bs: seq<byte>): (n: nat)
    ensures n <= |bs|
    ensures n < |bs| ==> bs[n] == 0
    ensures forall i :: 0 <= i < n ==> bs[i] != 0
  {
    if bs == [] || bs[0] == 0 then 0 else 1 + StrLen(bs[1..])
  }

  lemma StrLenUnique(bs: seq<byte>, n: nat)
    requires n < |bs| && bs[n] == 0 && forall i :: 0 <= i < n ==> bs[i] != 0
    ensures StrLen(bs) == n
  {
  }
}
