/** Little-endian numbers: bytes, 32-bit words, and the loads and stores between them. */
module Words {
  import opened ModArith
  import opened Sums

  type u8 = x: int | 0 <= x < 0x100
  type u32 = x: int | 0 <= x < 0x1_0000_0000
  type u64 = x: int | 0 <= x < 0x1_0000_0000_0000_0000

  const B32: int := 0x1_0000_0000

  /** s[0] + s[1] * base + ... + s[n - 1] * base^(n - 1) */
  ghost function Num(s: seq<int>, base: int, n: nat): int
    requires n <= |s|
  {
    if n == 0 then 0 else Num(s, base, n - 1) + s[n - 1] * Pow(base, n - 1)
  }

  /** Only the first n digits matter. */
  lemma {:induction false} NumPrefix(s: seq<int>, t: seq<int>, base: int, n: nat)
    requires n <= |s| && n <= |t|
    requires forall i :: 0 <= i < n ==> s[i] == t[i]
    ensures Num(s, base, n) == Num(t, base, n)
  {
    if n > 0 {
      NumPrefix(s, t, base, n - 1);
    }
  }

  lemma NumNext(s: seq<int>, base: int, n: nat)
    requires n < |s|
    ensures Num(s, base, n + 1) == Num(s, base, n) + s[n] * Pow(base, n)
  {
  }

  /** n digits stay below base^n. */
  lemma {:induction false} NumBound(s: seq<int>, base: int, n: nat)
    requires n <= |s| && base > 0 && forall i :: 0 <= i < n ==> 0 <= s[i] < base
    ensures 0 <= Num(s, base, n) < Pow(base, n)
  {
    if n > 0 {
      NumBound(s, base, n - 1);
      PowPositive(base, n - 1);
      DigitBound(s[n - 1], base, Pow(base, n - 1));
    }
  }

  lemma DigitBound(d: int, base: int, w: int)
    requires 0 <= d < base && w > 0
    ensures 0 <= d * w <= base * w - w
  {
    assert (base - 1 - d) * w >= 0;
    assert (base - 1 - d) * w == base * w - w - d * w;
  }

  /** Splitting a number after its first k digits. */
  lemma {:induction false} NumSplit(s: seq<int>, base: int, k: nat, n: nat)
    requires k + n <= |s|
    ensures Num(s, base, k + n) == Num(s, base, k) + Pow(base, k) * Num(s[k..], base, n)
  {
    if n > 0 {
      NumSplit(s, base, k, n - 1);
      PowAdd(base, k, n - 1);
      SplitStep(Pow(base, k), Num(s[k..], base, n - 1), s[k + n - 1], Pow(base, n - 1));
    }
  }

  lemma SplitStep(w: int, v: int, d: int, u: int)
    ensures w * (v + d * u) == w * v + d * (w * u)
  {
    assert w * (d * u) == d * (w * u);
  }

  /** A number with canonical digits determines them. */
  lemma {:induction false} NumUnique(s: seq<int>, t: seq<int>, base: int, n: nat)
    requires n <= |s| && n <= |t| && base > 0
    requires forall i :: 0 <= i < n ==> 0 <= s[i] < base && 0 <= t[i] < base
    requires Num(s, base, n) == Num(t, base, n)
    ensures forall i :: 0 <= i < n ==> s[i] == t[i]
  {
    if n > 0 {
      NumBound(s, base, n - 1);
      NumBound(t, base, n - 1);
      var w := Pow(base, n - 1);
      Quotient(Num(s, base, n), s[n - 1], Num(s, base, n - 1), w);
      Quotient(Num(t, base, n), t[n - 1], Num(t, base, n - 1), w);
      NumUnique(s, t, base, n - 1);
    }
  }

  // ---------- bytes and words ----------

  /** Bitwise or of two non-negative numbers. */
  function BitOr(a: nat, b: nat): (r: nat)
  {
    if a == 0 then b
    else if b == 0 then a
    else 2 * BitOr(a / 2, b / 2) + (if a % 2 == 1 || b % 2 == 1 then 1 else 0)
  }

  /** Or-ing numbers that share no bit adds them. */
  lemma {:induction false} BitOrDisjoint(a: nat, b: nat, k: nat)
    requires a < Pow2(k)
    ensures BitOr(a, b * Pow2(k)) == a + b * Pow2(k)
  {
    if k > 0 && a > 0 && b * Pow2(k) > 0 {
      var c := b * Pow2(k - 1);
      assert b * Pow2(k) == 2 * c;
      BitOrDisjoint(a / 2, b, k - 1);
    }
  }

  /** load24_le: the three bytes shifted and or-ed together. */
  function Load24(a: u8, b: u8, c: u8): (r: u32)
    ensures r == a + 0x100 * b + 0x1_0000 * c
  {
    OrBytes(a, b, 8);
    OrBytes(a + 0x100 * b, c, 16);
    BitOr(BitOr(a, b * 0x100), c * 0x1_0000)
  }

  /** load32_le */
  function Load32(a: u8, b: u8, c: u8, d: u8): (r: u32)
    ensures r == a + 0x100 * b + 0x1_0000 * c + 0x100_0000 * d
  {
    ShiftValues();
    OrBytes(a + 0x100 * b + 0x1_0000 * c, d, 24);
    BitOr(Load24(a, b, c), d * 0x100_0000)
  }

  lemma OrBytes(low: nat, byte: nat, shift: nat)
    requires low < Pow2(shift)
    requires shift == 8 || shift == 16 || shift == 24
    ensures Pow2(8) == 0x100 && Pow2(16) == 0x1_0000 && Pow2(24) == 0x100_0000
    ensures BitOr(low, byte * Pow2(shift)) == low + byte * Pow2(shift)
  {
    ShiftValues();
    BitOrDisjoint(low, byte, shift);
  }

  lemma ShiftValues()
    ensures Pow2(8) == 0x100 && Pow2(16) == 0x1_0000 && Pow2(24) == 0x100_0000 && Pow2(32) == 0x1_0000_0000
  {
    Pow2Values();
    Pow2Known(16, 8, 0x1_0000, 0x100);
  }

  /** The word that four consecutive bytes hold. */
  function WordAt(s: seq<u8>, k: nat): (r: u32)
    requires 4 * k + 4 <= |s|
  {
    Load32(s[4 * k], s[4 * k + 1], s[4 * k + 2], s[4 * k + 3])
  }

  lemma WordIsNumber(s: seq<u8>, k: nat)
    requires 4 * k + 4 <= |s|
    ensures WordAt(s, k) == Num(s[4 * k..], 256, 4)
  {
    var t: seq<int> := s[4 * k..];
    assert Pow(256, 0) == 1 && Pow(256, 1) == 0x100 && Pow(256, 2) == 0x1_0000 && Pow(256, 3) == 0x100_0000;
    assert Num(t, 256, 1) == Num(t, 256, 0) + t[0] * 1;
    assert Num(t, 256, 2) == t[0] + 0x100 * t[1];
    assert Num(t, 256, 4) == Num(t, 256, 2) + 0x1_0000 * t[2] + 0x100_0000 * t[3];
  }

  lemma {:induction false} PowBytes(n: nat)
    ensures Pow(256, 4 * n) == Pow(B32, n)
  {
    if n > 0 {
      PowBytes(n - 1);
      PowAdd(256, 4, 4 * n - 4);
      assert Pow(256, 4) == B32 by {
        assert Pow(256, 2) == 0x1_0000;
      }
    }
  }

  /** Reading bytes four at a time does not change the number they spell. */
  lemma {:induction false} BytesAsWords(s: seq<u8>, w: seq<u32>, n: nat)
    requires 4 * n <= |s| && n <= |w|
    requires forall k :: 0 <= k < n ==> w[k] == WordAt(s, k)
    ensures Num(s, 256, 4 * n) == Num(w, B32, n)
  {
    hide Pow, WordAt;
    if n > 0 {
      NumNext(w, B32, n - 1);
      BytesAsWords(s, w, n - 1);
      NumSplit(s, 256, 4 * n - 4, 4);
      PowBytes(n - 1);
      WordIsNumber(s, n - 1);
      SameProduct(Pow(256, 4 * n - 4), Pow(B32, n - 1), Num(s[4 * n - 4..], 256, 4), w[n - 1]);
    }
  }

  lemma SameProduct(a: int, b: int, x: int, y: int)
    requires a == b && x == y
    ensures a * x == y * b
  {
  }

  /** store32_le */
  method Store32(out: array<u8>, at: nat, x: u32)
    requires at + 4 <= out.Length
    modifies out
    ensures Load32(out[at], out[at + 1], out[at + 2], out[at + 3]) == x
    ensures forall i :: 0 <= i < out.Length && !(at <= i < at + 4) ==> out[i] == old(out[i])
  {
    hide Load32;
    ByteSplit(x);
    out[at] := x % 0x100;
    out[at + 1] := x / 0x100 % 0x100;
    out[at + 2] := x / 0x1_0000 % 0x100;
    out[at + 3] := x / 0x100_0000 % 0x100;
  }

  lemma ByteSplit(x: u32)
    ensures Load32(x % 0x100, x / 0x100 % 0x100, x / 0x1_0000 % 0x100, x / 0x100_0000 % 0x100) == x
  {
    hide Load32;
    var y := x / 0x100;
    var z := y / 0x100;
    assert x / 0x1_0000 == z && x / 0x100_0000 == z / 0x100;
  }

  /** store32_le_buf */
  method StoreWords(out: array<u8>, w: seq<u32>)
    requires out.Length == 4 * |w|
    modifies out
    ensures Num(out[..], 256, 4 * |w|) == Num(w, B32, |w|)
  {
    hide Load32;
    for i := 0 to |w|
      invariant forall k :: 0 <= k < i ==> WordAt(out[..], k) == w[k]
    {
      Store32(out, 4 * i, w[i]);
    }
    BytesAsWords(out[..], w, |w|);
  }

  /** load32_le_buf */
  function LoadWords(s: seq<u8>, n: nat): (w: seq<u32>)
    requires |s| == 4 * n
    ensures |w| == n && Num(w, B32, n) == Num(s, 256, 4 * n)
  {
    hide Load32;
    var w := seq(n, k requires 0 <= k < n => WordAt(s, k));
    BytesAsWords(s, w, n);
    w
  }

  /** A number of eight 32-bit words, written out. */
  ghost function Words8(w: seq<int>): int
    requires |w| == 8
  {
    w[0] + 0x100000000 * w[1] + 0x10000000000000000 * w[2]
    + 0x1000000000000000000000000 * w[3]
    + 0x100000000000000000000000000000000 * w[4]
    + 0x10000000000000000000000000000000000000000 * w[5]
    + 0x1000000000000000000000000000000000000000000000000 * w[6]
    + 0x100000000000000000000000000000000000000000000000000000000 * w[7]
  }

  lemma WordWeights()
    ensures Pow(B32, 0) == 1 && Pow(B32, 1) == 0x100000000 && Pow(B32, 2) == 0x10000000000000000
    ensures Pow(B32, 3) == 0x1000000000000000000000000 && Pow(B32, 4) == 0x100000000000000000000000000000000
    ensures Pow(B32, 5) == 0x10000000000000000000000000000000000000000 && Pow(B32, 6) == 0x1000000000000000000000000000000000000000000000000
    ensures Pow(B32, 7) == 0x100000000000000000000000000000000000000000000000000000000
    ensures Pow(B32, 8) == 0x10000000000000000000000000000000000000000000000000000000000000000
  {
    assert Pow(B32, 2) == B32 * Pow(B32, 1) && Pow(B32, 4) == B32 * Pow(B32, 3) && Pow(B32, 6) == B32 * Pow(B32, 5) && Pow(B32, 8) == B32 * Pow(B32, 7);
  }

  lemma Words8Value(w: seq<int>)
    requires |w| == 8
    ensures Num(w, B32, 8) == Words8(w)
  {
    WordWeights();
    hide Pow;
    assert Num(w, B32, 2) == Num(w, B32, 0) + w[0] * Pow(B32, 0) + w[1] * Pow(B32, 1);
    assert Num(w, B32, 4) == Num(w, B32, 2) + w[2] * Pow(B32, 2) + w[3] * Pow(B32, 3);
    assert Num(w, B32, 6) == Num(w, B32, 4) + w[4] * Pow(B32, 4) + w[5] * Pow(B32, 5);
    assert Num(w, B32, 8) == Num(w, B32, 6) + w[6] * Pow(B32, 6) + w[7] * Pow(B32, 7);
  }
}
