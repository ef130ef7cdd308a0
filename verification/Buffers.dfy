/** What the streaming hashes and the flash code share about byte buffers. */
module Buffers {
  import M = ModArith

  function Zeros(k: nat): (z: seq<bv8>)
    ensures |z| == k
  {
    seq(k, _ => 0)
  }

  lemma Assoc<T>(a: seq<T>, b: seq<T>, c: seq<T>)
    ensures (a + b) + c == a + (b + c)
  {
  }

  function Min(a: nat, b: nat): nat
  {
    if a <= b then a else b
  }

  /** gap(x, p), align(x, p): how many bytes x is short of a multiple of p. */
  function Gap(x: nat, p: nat): (g: nat)
    requires p > 0
    ensures g < p && (x + g) % p == 0
  {
    AlignUp(x, p);
    (p - x % p) % p
  }

  lemma AlignUp(x: nat, p: nat)
    requires p > 0
    ensures (x + (p - x % p) % p) % p == 0
  {
    var q, r := x / p, x % p;
    assert x == q * p + r;
    if r == 0 {
      M.Quotient(p, 1, 0, p);
      M.Quotient(x + 0, q, 0, p);
    } else {
      M.Quotient(p - r, 0, p - r, p);
      assert (q + 1) * p == q * p + p;
      M.Quotient(x + (p - r), q + 1, 0, p);
    }
  }

  /** The whole words that bring a buffer of `have` bytes towards its next block. */
  function WordsToGap(have: nat, size: nat): (used: nat)
    ensures used <= size && used % 8 == 0
    ensures have % 8 == 0 && 0 < have < 128 ==>
              have + used <= 128 && (have + used) % 8 == 0 && (size - used < 8 || (have + used) % 128 == 0)
  {
    hide Gap, Min;
    WordsFit(have, Gap(have, 128), size, Min(Gap(have, 128), size));
    8 * (Min(Gap(have, 128), size) / 8)
  }

  lemma WordsFit(have: nat, gap: nat, size: nat, n: nat)
    requires gap < 128 && (have + gap) % 128 == 0 && n == if gap <= size then gap else size
    ensures 8 * (n / 8) <= size && (8 * (n / 8)) % 8 == 0
    ensures have % 8 == 0 && 0 < have < 128 ==>
              have + 8 * (n / 8) <= 128 && (have + 8 * (n / 8)) % 8 == 0 && (size - 8 * (n / 8) < 8 || (have + 8 * (n / 8)) % 128 == 0)
  {
    if have % 8 == 0 && 0 < have < 128 {
      assert gap == 128 - have && gap == 8 * (16 - have / 8);
    }
  }
}
