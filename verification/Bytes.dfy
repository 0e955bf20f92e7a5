/** Machine words and their little-endian byte images, as the engine's raw
    stream writes lay them out. */
module Bytes {

  const TWO32 := 0x1_0000_0000
  const TWO64 := 0x1_0000_0000_0000_0000

  type byte = x: int | 0 <= x < 256
  type u32 = x: int | 0 <= x < TWO32
  type u64 = x: int | 0 <= x < TWO64

  /** A byte string whose length a 64-bit `size_t` can hold. */
  type Data = s: seq<byte> | |s| < TWO64

  /** A size narrowed to an unsigned 32-bit field. */
  function Low32(n: nat): (w: u32) {
    n % TWO32
  }

  lemma Low32Of(n: nat)
    ensures Low32(n) == n <==> n < TWO32
    ensures (n - Low32(n)) % 0x1_0000_0000 == 0
  {
  }

  function Pow256(w: nat): (p: nat)
    ensures p > 0
  {
    if w == 0 then 1 else 256 * Pow256(w - 1)
  }

  /** The low `w` bytes of `n`, least significant first. */
  function ToLE(n: nat, w: nat): (b: seq<byte>)
    ensures |b| == w
  {
    if w == 0 then [] else [n % 256] + ToLE(n / 256, w - 1)
  }

  function FromLE(b: seq<byte>): (n: nat)
    ensures n < Pow256(|b|)
  {
    if b == [] then 0 else b[0] + 256 * FromLE(b[1..])
  }

  function Zeros(n: nat): (b: seq<byte>)
    ensures |b| == n
  {
    seq(n, i => 0)
  }

  lemma PowValues()
    ensures Pow256(4) == TWO32
    ensures Pow256(8) == TWO64
  {
    assert Pow256(2) == 65536;
    assert Pow256(4) == 256 * (256 * Pow256(2));
    assert Pow256(6) == 256 * (256 * Pow256(4));
    assert Pow256(8) == 256 * (256 * Pow256(6));
  }

  lemma DivDiv(n: nat, p: nat)
    requires p > 0
    ensures n / 256 / p == n / (256 * p)
  {
    var q, r := n / 256 / p, n / 256 % p * 256 + n % 256;
    assert n / 256 == q * p + n / 256 % p;
    assert n == q * (256 * p) + r && 0 <= r < 256 * p;
    Quotient(n, 256 * p, q, r);
  }

  lemma Quotient(n: nat, d: nat, q: nat, r: nat)
    requires n == q * d + r && r < d
    ensures n / d == q
  {
    var e := n / d - q;
    assert n / d * d + n % d == q * d + r;
    assert e * d == r - n % d;
    Multiple(e, d);
  }

  lemma Multiple(e: int, d: nat)
    ensures e > 0 ==> e * d >= d
    ensures e < 0 ==> e * d <= 0 - d
  {
  }

  /** The i-th byte is the i-th digit to base 256, least significant first. */
  lemma {:induction false} DigitAt(n: nat, w: nat, i: nat)
    requires i < w
    ensures ToLE(n, w)[i] == n / Pow256(i) % 256
  {
    if i > 0 {
      DigitAt(n / 256, w - 1, i - 1);
      DivDiv(n, Pow256(i - 1));
    }
  }

  lemma {:induction false} LittleEndianRoundTrip(n: nat, w: nat)
    requires n < Pow256(w)
    ensures FromLE(ToLE(n, w)) == n
  {
    if w > 0 {
      LittleEndianRoundTrip(n / 256, w - 1);
      assert ToLE(n, w)[1..] == ToLE(n / 256, w - 1);
    }
  }
}
