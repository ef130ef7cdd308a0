/** The bits of a little-endian byte string (monocypher.c, scalar_bit). */
module ScalarBits {
  import opened ModArith
  import opened Sums
  import opened Words

  /** scalar_bit: bit i of s, and 0 below position 0. */
  function ScalarBit(s: seq<u8>, i: int): (b: int)
    requires i < 8 * |s|
    ensures 0 <= b <= 1
  {
    if i < 0 then 0 else (s[i / 8] / Pow2(i % 8)) % 2
  }

  /** The number that bits 0 to n - 1 spell. */
  ghost function BitNum(s: seq<u8>, n: nat): nat
    requires n <= 8 * |s|
  {
    if n == 0 then 0 else BitNum(s, n - 1) + ScalarBit(s, n - 1) * Pow2(n - 1)
  }

  /** The number that bits i to n - 1 spell, shifted down by i: what a ladder that scans from the top has read. */
  ghost function Top(s: seq<u8>, i: nat, n: nat): nat
    requires i <= n <= 8 * |s|
    decreases n - i
  {
    if i == n then 0 else 2 * Top(s, i + 1, n) + ScalarBit(s, i)
  }

  lemma {:induction false} TopSplits(s: seq<u8>, i: nat, n: nat)
    requires i <= n <= 8 * |s|
    ensures BitNum(s, n) == Top(s, i, n) * Pow2(i) + BitNum(s, i)
    decreases n - i
  {
    if i < n {
      TopSplits(s, i + 1, n);
      assert BitNum(s, i + 1) == BitNum(s, i) + ScalarBit(s, i) * Pow2(i);
      assert Top(s, i, n) == 2 * Top(s, i + 1, n) + ScalarBit(s, i) && Pow2(i + 1) == 2 * Pow2(i);
      hide *;
      Horner(Top(s, i + 1, n), ScalarBit(s, i), Pow2(i));
    }
  }

  lemma Horner(t: int, b: int, w: int)
    ensures (2 * t + b) * w == t * (2 * w) + b * w
  {
    assert (2 * t) * w == t * (2 * w);
  }

  lemma {:induction false} BitNumBound(s: seq<u8>, n: nat)
    requires n <= 8 * |s|
    ensures BitNum(s, n) < Pow2(n)
  {
    if n > 0 {
      BitNumBound(s, n - 1);
      var b, w := ScalarBit(s, n - 1), Pow2(n - 1);
      assert b * w <= w;
    }
  }

  /** The low n bits of a byte are its remainder by 2^n. */
  lemma {:induction false} ByteBits(x: u8, n: nat)
    requires n <= 8
    ensures x % Pow2(n) == BitsOfByte(x, n)
  {
    if n > 0 {
      ByteBits(x, n - 1);
      ModDouble(x, Pow2(n - 1));
    }
  }

  lemma ModDouble(x: nat, p: nat)
    requires p > 0
    ensures x % (2 * p) == x % p + ((x / p) % 2) * p
  {
    var q, r := x / p, x % p;
    var h, b := q / 2, q % 2;
    assert x == q * p + r;
    Horner(h, b, p);
    assert 0 <= b * p <= p;
    Quotient(x, h, b * p + r, 2 * p);
  }

  ghost function BitsOfByte(x: u8, n: nat): nat
  {
    if n == 0 then 0 else BitsOfByte(x, n - 1) + ((x / Pow2(n - 1)) % 2) * Pow2(n - 1)
  }

  lemma {:induction false} BitNumByte(s: seq<u8>, k: nat, n: nat)
    requires k < |s| && n <= 8
    ensures BitNum(s, 8 * k + n) == BitNum(s, 8 * k) + BitsOfByte(s[k], n) * Pow2(8 * k)
  {
    hide BitNum, ScalarBit, Pow2;
    if n > 0 {
      BitNumByte(s, k, n - 1);
      Pow2Add(8 * k, n - 1);
      BitNumStep(s, 8 * k + n - 1);
      BitOfByte(s, k, n - 1);
      SplitBit(BitsOfByte(s[k], n - 1), ScalarBit(s, 8 * k + n - 1), Pow2(n - 1), Pow2(8 * k));
    }
  }

  lemma BitNumStep(s: seq<u8>, i: nat)
    requires i < 8 * |s|
    ensures BitNum(s, i + 1) == BitNum(s, i) + ScalarBit(s, i) * Pow2(i)
  {
  }

  lemma BitOfByte(s: seq<u8>, k: nat, j: nat)
    requires k < |s| && j < 8
    ensures ScalarBit(s, 8 * k + j) == (s[k] / Pow2(j)) % 2
  {
    hide Pow2;
    assert (8 * k + j) / 8 == k && (8 * k + j) % 8 == j;
  }

  lemma SplitBit(low: int, b: int, p: int, w: int)
    ensures (low + b * p) * w == low * w + b * (w * p)
  {
    assert (b * p) * w == b * (w * p);
  }

  /** The bits spell the same number as the bytes. */
  lemma {:induction false} BitsSpellNumber(s: seq<u8>, n: nat)
    requires n <= |s|
    ensures BitNum(s, 8 * n) == Num(s, 256, n)
    ensures Pow2(8 * n) == Pow(256, n)
  {
    if n > 0 {
      BitsSpellNumber(s, n - 1);
      NextByteSpelt(s, n - 1);
    }
  }

  lemma NextByteSpelt(s: seq<u8>, n: nat)
    requires n < |s| && BitNum(s, 8 * n) == Num(s, 256, n) && Pow2(8 * n) == Pow(256, n)
    ensures BitNum(s, 8 * n + 8) == Num(s, 256, n + 1) && Pow2(8 * n + 8) == Pow(256, n + 1)
  {
    hide BitNum, Num, Pow, Pow2, BitsOfByte;
    BitNumByte(s, n, 8);
    ByteBits(s[n], 8);
    Pow2Byte();
    Quotient(s[n], 0, s[n], 256);
    PowNext(256, n);
    NumNext(s, 256, n);
    Pow2Add(8 * n, 8);
  }

  /** No bit is set at position i or above when the number is below 2^i. */
  lemma TopIsZero(s: seq<u8>, i: nat, n: nat)
    requires i <= n <= 8 * |s| && BitNum(s, n) < Pow2(i)
    ensures Top(s, i, n) == 0
  {
    hide *;
    TopSplits(s, i, n);
    NoMultiple(Top(s, i, n), Pow2(i), BitNum(s, i), BitNum(s, n));
  }

  lemma NoMultiple(t: nat, w: nat, r: nat, x: nat)
    requires w > 0 && x == t * w + r && x < w
    ensures t == 0
  {
    Scale(t, w);
  }

  lemma TopIsAll(s: seq<u8>, n: nat)
    requires n <= 8 * |s|
    ensures Top(s, 0, n) == BitNum(s, n)
  {
    TopSplits(s, 0, n);
    assert Pow2(0) == 1 && BitNum(s, 0) == 0;
  }

  lemma Pow253()
    ensures Pow2(253) == 0x2000000000000000000000000000000000000000000000000000000000000000
  {
    Pow2Values();
    assert Pow2(255) == 2 * Pow2(254) == 4 * Pow2(253);
  }
}
