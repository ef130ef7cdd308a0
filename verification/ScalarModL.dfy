/** Arithmetic modulo L on little-endian 32-bit words (monocypher.c, "Arithmetic modulo L"). */
module ScalarModL {
  import opened ModArith
  import opened Words

  /** The order of the base point: 2^252 + 27742317777372353535851937790883648493. */
  const L: int := 0x1000000000000000000000000000000014def9dea2f79cd65812631a5cf5d3ed

  function LWords(): (w: seq<u32>)
    ensures |w| == 8
  {
    [0x5cf5d3ed, 0x5812631a, 0xa2f79cd6, 0x14def9de, 0x00000000, 0x00000000, 0x00000000, 0x10000000]
  }

  /** Base 2^32 value of the first n words. */
  ghost function Val(s: seq<int>, n: nat): int
    requires n <= |s|
  {
    Num(s, B32, n)
  }

  ghost function W(n: nat): int
  {
    Pow(B32, n)
  }

  // ---------- one row of a product ----------

  /** What n words and the carry out of them are worth. */
  ghost function WithCarry(p: seq<int>, n: nat, carry: int): int
    requires n <= |p|
  {
    Val(p, n) + carry * W(n)
  }

  /** p plus m * b, shifted by `at` words, after j words of b. */
  ghost function RowTarget(p: seq<int>, at: nat, m: int, b: seq<int>, j: nat): int
    requires at + j <= |p| && j <= |b|
  {
    Val(p, at + j) + m * (W(at) * Val(b, j))
  }

  lemma RowStep(old_p: seq<int>, p: seq<int>, q: seq<int>, at: nat, m: int, b: seq<int>, j: nat, carry: int, low: int, up: int)
    requires at + j < |old_p| && |old_p| == |p| == |q| && j < |b|
    requires WithCarry(p, at + j, carry) == RowTarget(old_p, at, m, b, j)
    requires forall k :: 0 <= k < at + j ==> q[k] == p[k]
    requires q[at + j] == low
    requires carry + old_p[at + j] + m * b[j] == low + B32 * up
    ensures WithCarry(q, at + j + 1, up) == RowTarget(old_p, at, m, b, j + 1)
  {
    NumPrefix(p, q, B32, at + j);
    PowAdd(B32, at, j);
    RowArith(Val(old_p, at + j), Val(q, at + j), old_p[at + j], carry, low, up, m, b[j], W(at), W(j), Val(b, j));
  }

  lemma RowArith(v: int, u: int, x: int, carry: int, low: int, up: int, m: int, bj: int, wa: int, wj: int, vb: int)
    requires u + carry * (wa * wj) == v + m * (wa * vb)
    requires carry + x + m * bj == low + B32 * up
    ensures u + low * (wa * wj) + up * (B32 * (wa * wj)) == v + x * (wa * wj) + m * (wa * (vb + bj * wj))
  {
    var w := wa * wj;
    assert (carry + x + m * bj) * w == (low + B32 * up) * w;
    assert (carry + x + m * bj) * w == carry * w + x * w + (m * bj) * w;
    assert (low + B32 * up) * w == low * w + up * (B32 * w);
    assert wa * (vb + bj * wj) == wa * vb + bj * w by {
      assert wa * (bj * wj) == bj * w;
    }
    assert m * (wa * vb + bj * w) == m * (wa * vb) + (m * bj) * w;
  }

  lemma RowFits(carry: int, x: int, m: int, b: int)
    requires 0 <= carry < B32 && 0 <= x < B32 && 0 <= m < B32 && 0 <= b < B32
    ensures 0 <= m * b
    ensures 0 <= carry + x + m * b < 0x1_0000_0000_0000_0000
  {
    MulUp(m, b, 0xffff_ffff);
  }

  lemma MulUp(m: int, b: int, top: int)
    requires 0 <= m <= top && 0 <= b
    ensures 0 <= m * b <= top * b
  {
  }

  /** The inner loop of every product here: p += (m * b) << (32 * at), over n words. No uint64 overflow. */
  method MulRow(p: array<u32>, at: nat, m: u32, b: seq<u32>, n: nat) returns (carry: u32)
    requires at + n <= p.Length && n <= |b|
    modifies p
    ensures WithCarry(p[..], at + n, carry) == RowTarget(old(p[..]), at, m, b, n)
    ensures forall k :: 0 <= k < p.Length && !(at <= k < at + n) ==> p[k] == old(p[k])
  {
    ghost var P := p[..];
    var c: u64 := 0;
    RowStart(P, at, m, b);
    hide WithCarry, RowTarget;
    for j := 0 to n
      invariant c < B32
      invariant WithCarry(p[..], at + j, c) == RowTarget(P, at, m, b, j)
      invariant forall k :: 0 <= k < p.Length && !(at <= k < at + j) ==> p[k] == P[k]
    {
      ghost var before, carry0 := p[..], c;
      RowFits(c, p[at + j], m, b[j]);
      c := c + p[at + j] + m * b[j];
      p[at + j] := c % B32;
      c := c / B32;
      RowStep(P, before, p[..], at, m, b, j, carry0, p[at + j], c);
    }
    carry := c;
  }

  lemma RowStart(p: seq<int>, at: nat, m: int, b: seq<int>)
    requires at <= |p|
    ensures WithCarry(p, at, 0) == RowTarget(p, at, m, b, 0)
  {
  }

  // ---------- products ----------

  /** p[0..n) = a * b + p[0..n), for n = |b|: every row ends by storing its carry one word further. */
  method MultiplyAdd(p: array<u32>, a: seq<u32>, b: seq<u32>)
    requires |a| + |b| <= p.Length
    modifies p
    ensures Val(p[..], |a| + |b|) == Val(a, |a|) * Val(b, |b|) + old(Val(p[..], |b|))
    ensures forall k :: |a| + |b| <= k < p.Length ==> p[k] == old(p[k])
  {
    ghost var P := p[..];
    var n := |b|;
    hide Val, WithCarry, RowTarget;
    ProductStart(P, a, b);
    for i := 0 to |a|
      invariant Val(p[..], i + n) == ProductTarget(P, a, b, i)
      invariant forall k :: |a| + n <= k < p.Length ==> p[k] == P[k]
    {
      ghost var before := p[..];
      var carry := MulRow(p, i, a[i], b, n);
      ghost var row := p[..];
      p[i + n] := carry;
      ProductStep(P, before, row, p[..], a, b, i, carry);
    }
    ProductEnd(P, a, b);
  }

  ghost function ProductTarget(p: seq<int>, a: seq<int>, b: seq<int>, i: nat): int
    requires i <= |a| && |b| <= |p|
  {
    Val(a, i) * Val(b, |b|) + Val(p, |b|)
  }

  lemma ProductStart(p: seq<int>, a: seq<int>, b: seq<int>)
    requires |b| <= |p|
    ensures Val(p, |b|) == ProductTarget(p, a, b, 0)
  {
  }

  lemma ProductEnd(p: seq<int>, a: seq<int>, b: seq<int>)
    requires |b| <= |p|
    ensures ProductTarget(p, a, b, |a|) == Val(a, |a|) * Val(b, |b|) + Val(p, |b|)
  {
  }

  lemma ProductStep(old_p: seq<int>, p: seq<int>, row: seq<int>, q: seq<int>, a: seq<int>, b: seq<int>, i: nat, carry: int)
    requires i < |a| && i + |b| < |p| == |row| == |q| && |b| <= |old_p|
    requires Val(p, i + |b|) == ProductTarget(old_p, a, b, i)
    requires WithCarry(row, i + |b|, carry) == RowTarget(p, i, a[i], b, |b|)
    requires q == row[i + |b| := carry]
    ensures Val(q, i + 1 + |b|) == ProductTarget(old_p, a, b, i + 1)
  {
    NumPrefix(row, q, B32, i + |b|);
    assert Val(q, i + |b| + 1) == Val(q, i + |b|) + carry * W(i + |b|);
    assert Val(a, i + 1) == Val(a, i) + a[i] * W(i);
    var v := Val(b, |b|);
    assert (Val(a, i) + a[i] * W(i)) * v == Val(a, i) * v + a[i] * (W(i) * v);
  }

  /** p[0..n) = a * b + p[0..n) modulo 2^(32 n): row i only goes up to word n, and its carry is dropped. */
  method MultiplyLow(p: array<u32>, a: seq<u32>, b: seq<u32>)
    requires |a| == |b| <= p.Length
    modifies p
    ensures W(|a|) > 0 && Cong(Val(p[..], |a|), Val(a, |a|) * Val(b, |b|) + old(Val(p[..], |a|)), W(|a|))
    ensures forall k :: |a| <= k < p.Length ==> p[k] == old(p[k])
  {
    ghost var P := p[..];
    var n := |a|;
    PowPositive(B32, n);
    hide Val, W, WithCarry, RowTarget, Cong;
    LowStart(P, a, b);
    for i := 0 to n
      invariant Cong(Val(p[..], n), ProductTarget(P, a, b, i), W(n))
      invariant forall k :: n <= k < p.Length ==> p[k] == P[k]
    {
      ghost var before := p[..];
      var carry := MulRow(p, i, a[i], b, n - i);
      LowStep(P, before, p[..], a, b, i, carry);
    }
    ProductEnd(P, a, b);
  }

  lemma LowStart(p: seq<int>, a: seq<int>, b: seq<int>)
    requires |a| == |b| <= |p| && W(|b|) > 0
    ensures Cong(Val(p, |b|), ProductTarget(p, a, b, 0), W(|b|))
  {
  }

  lemma LowStep(old_p: seq<int>, p: seq<int>, q: seq<int>, a: seq<int>, b: seq<int>, i: nat, carry: int)
    requires i < |a| == |b| && |b| <= |old_p| == |p| == |q| && W(|b|) > 0
    requires Cong(Val(p, |b|), ProductTarget(old_p, a, b, i), W(|b|))
    requires WithCarry(q, |b|, carry) == RowTarget(p, i, a[i], b, |b| - i)
    ensures Cong(Val(q, |b|), ProductTarget(old_p, a, b, i + 1), W(|b|))
  {
    var n := |b|;
    var w, vb := W(n), Val(b, n);
    var top := Num(b[n - i..], B32, i);
    NumSplit(b, B32, n - i, i);
    PowAdd(B32, i, n - i);
    assert Val(a, i + 1) == Val(a, i) + a[i] * W(i);
    hide *;
    LowArith(a[i], W(i), Val(b, n - i), W(n - i), top, vb, w);
    LowCombine(Val(q, n), Val(p, n), ProductTarget(old_p, a, b, i), a[i] * (W(i) * Val(b, n - i)), (a[i] * W(i)) * vb,
               carry, a[i] * top, w);
    ProductTargetStep(old_p, a, b, i);
  }

  lemma ProductTargetStep(p: seq<int>, a: seq<int>, b: seq<int>, i: nat)
    requires i < |a| && |b| <= |p|
    ensures ProductTarget(p, a, b, i + 1) == ProductTarget(p, a, b, i) + (a[i] * W(i)) * Val(b, |b|)
  {
    assert Val(a, i + 1) == Val(a, i) + a[i] * W(i);
    var x, y, v := Val(a, i), a[i] * W(i), Val(b, |b|);
    assert (x + y) * v == x * v + y * v;
  }

  lemma LowCombine(q: int, p: int, t: int, x: int, y: int, carry: int, top: int, w: int)
    requires w > 0 && Cong(p, t, w)
    requires q + carry * w == p + x && x == y + -top * w
    ensures Cong(q, t + y, w)
  {
    hide Cong;
    Shift(q, p + x, -carry, w);
    Shift(x, y, -top, w);
    Add(p, t, x, y, w);
    Trans(q, p + x, t + y, w);
  }

  lemma LowArith(m: int, wi: int, low: int, wl: int, top: int, v: int, w: int)
    requires v == low + wl * top && wi * wl == w
    ensures m * (wi * low) == (m * wi) * v + -(m * top) * w
  {
    assert (m * wi) * (low + wl * top) == m * (wi * low) + (m * wi) * (wl * top);
    assert (m * wi) * (wl * top) == (m * top) * (wi * wl);
  }

  // ---------- comparison and subtraction through complements ----------

  /** ~w on 32 bits */
  function Not32(w: u32): (r: u32)
  {
    0xffff_ffff - w
  }

  /** ~w & mask, where the mask is all ones or all zeros. */
  function Masked(w: u32, above: int): (r: u32)
  {
    if above == 1 then Not32(w) else 0
  }

  lemma LWordsValue()
    ensures Val(LWords(), 8) == L
  {
    Words8Value(LWords());
    hide Val;
  }

  /** low + carry * 2^(32 i), where low spells the words produced so far. */
  ghost function SumSoFar(low: int, carry: int, i: nat): int
  {
    low + carry * W(i)
  }

  lemma AddWordStep(low: int, carry: int, i: nat, x: int, y: int, digit: int, up: int, a: int, b: int)
    requires SumSoFar(low, carry, i) == a + b
    requires carry + x + y == digit + B32 * up
    ensures SumSoFar(low + digit * W(i), up, i + 1) == (a + x * W(i)) + (b + y * W(i))
  {
    var w := W(i);
    assert (carry + x + y) * w == carry * w + x * w + y * w;
    assert (digit + B32 * up) * w == digit * w + up * (B32 * w);
  }

  lemma DigitRange(low: int, digit: int, i: nat)
    requires 0 <= low < W(i) && 0 <= digit < B32
    ensures 0 <= low + digit * W(i) < W(i + 1)
  {
    DigitBound(digit, B32, W(i));
  }

  /** The complement of the first n words of w, as a number: 2^(32 n) - 1 - w. */
  lemma ComplementStep(w: seq<u32>, i: nat, mask: int)
    requires i < |w| && 0 <= mask <= 1
    ensures mask * (W(i + 1) - 1 - Val(w, i + 1)) == mask * (W(i) - 1 - Val(w, i)) + (mask * Not32(w[i])) * W(i)
  {
    assert (0xffff_ffff - w[i]) * W(i) == 0xffff_ffff * W(i) - w[i] * W(i);
  }

  /** is_above_l: carry of x + ~L + 1. */
  method IsAboveL(x: seq<u32>) returns (above: u64)
    requires |x| == 8
    ensures above == if Val(x, 8) >= L then 1 else 0
  {
    var l := LWords();
    var carry: u64 := 1;
    ghost var low := 0;
    CompareStart(x, l);
    hide Val, W, SumSoFar, LWords;
    for i := 0 to 8
      invariant 0 <= carry <= 1 && 0 <= low < W(i)
      invariant SumSoFar(low, carry, i) == Val(x, i) + (1 * (W(i) - 1 - Val(l, i)) + 1)
    {
      ghost var c := carry;
      carry := carry + x[i] + Not32(l[i]);
      ghost var digit := carry % B32;
      carry := carry / B32;
      AddWordStep(low, c, i, x[i], Not32(l[i]), digit, carry, Val(x, i), 1 * (W(i) - 1 - Val(l, i)) + 1);
      ComplementStep(l, i, 1);
      ValStep(x, i);
      DigitRange(low, digit, i);
      low := low + digit * W(i);
    }
    above := carry;
    CompareEnd(x, low, carry);
  }

  lemma ValStep(x: seq<int>, i: nat)
    requires i < |x|
    ensures Val(x, i + 1) == Val(x, i) + x[i] * W(i)
  {
  }

  lemma CompareStart(x: seq<int>, l: seq<int>)
    ensures W(0) == 1 && SumSoFar(0, 1, 0) == Val(x, 0) + (1 * (W(0) - 1 - Val(l, 0)) + 1)
  {
  }

  lemma CompareEnd(x: seq<u32>, low: int, carry: int)
    requires |x| == 8 && 0 <= carry <= 1 && 0 <= low < W(8)
    requires SumSoFar(low, carry, 8) == Val(x, 8) + (1 * (W(8) - 1 - Val(LWords(), 8)) + 1)
    ensures carry == if Val(x, 8) >= L then 1 else 0
  {
    LWordsValue();
    NumBound(x, B32, 8);
    hide Val;
  }

  /** The loop of remove_l: r = x + (~L & mask) + carry, for the carry and mask that `above` stands for. */
  method AddMasked(r: array<u32>, x: seq<u32>, above: u64) returns (carry: u64)
    requires |x| == 8 && 8 <= r.Length && 0 <= above <= 1
    modifies r
    ensures 0 <= carry <= 2
    ensures SumSoFar(Val(r[..], 8), carry, 8) == RemoveTarget(x, LWords(), 8, above)
    ensures forall k :: 8 <= k < r.Length ==> r[k] == old(r[k])
  {
    var l := LWords();
    carry := above;
    RemoveStart(x, l, r[..], above);
    hide Val, W, SumSoFar, LWords, RemoveTarget;
    for i := 0 to 8
      invariant 0 <= carry <= 2
      invariant SumSoFar(Val(r[..], i), carry, i) == RemoveTarget(x, l, i, above)
      invariant forall k :: 8 <= k < r.Length ==> r[k] == old(r[k])
    {
      ghost var c, before := carry, r[..];
      carry := carry + x[i] + Masked(l[i], above);
      r[i] := carry % B32;
      carry := carry / B32;
      RemoveStep(before, r[..], x, l, i, above, c, carry);
    }
  }

  /** remove_l: x - L when x >= L, x otherwise. */
  method RemoveL(r: array<u32>, x: seq<u32>)
    requires |x| == 8 && 8 <= r.Length
    modifies r
    ensures Val(r[..], 8) == if Val(x, 8) >= L then Val(x, 8) - L else Val(x, 8)
    ensures forall k :: 8 <= k < r.Length ==> r[k] == old(r[k])
  {
    hide *;
    var above := IsAboveL(x);
    var carry := AddMasked(r, x, above);
    RemoveEnd(x, r[..], above, carry);
  }

  /** The first i words of x plus the masked complement of L, plus the initial carry. */
  ghost function RemoveTarget(x: seq<int>, l: seq<int>, i: nat, above: int): int
    requires i <= |x| && i <= |l|
  {
    Val(x, i) + (above * (W(i) - 1 - Val(l, i)) + above)
  }

  lemma RemoveStart(x: seq<int>, l: seq<int>, r: seq<int>, above: int)
    ensures SumSoFar(Val(r, 0), above, 0) == RemoveTarget(x, l, 0, above)
  {
  }

  lemma RemoveStep(r: seq<u32>, q: seq<u32>, x: seq<u32>, l: seq<u32>, i: nat, above: int, carry: int, up: int)
    requires i < 8 <= |x| && 8 <= |l| && 8 <= |r| == |q| && 0 <= above <= 1
    requires SumSoFar(Val(r, i), carry, i) == RemoveTarget(x, l, i, above)
    requires forall k :: 0 <= k < i ==> q[k] == r[k]
    requires carry + x[i] + Masked(l[i], above) == q[i] + B32 * up
    ensures SumSoFar(Val(q, i + 1), up, i + 1) == RemoveTarget(x, l, i + 1, above)
  {
    NumPrefix(r, q, B32, i);
    assert Masked(l[i], above) == above * Not32(l[i]);
    AddWordStep(Val(q, i), carry, i, x[i], Masked(l[i], above), q[i], up,
                Val(x, i), above * (W(i) - 1 - Val(l, i)) + above);
    ComplementStep(l, i, above);
    ValStep(x, i);
    ValStep(q, i);
  }

  lemma RemoveEnd(x: seq<u32>, r: seq<u32>, above: int, carry: int)
    requires |x| == 8 && 8 <= |r| && 0 <= carry <= 2
    requires above == if Val(x, 8) >= L then 1 else 0
    requires SumSoFar(Val(r, 8), carry, 8) == RemoveTarget(x, LWords(), 8, above)
    ensures Val(r, 8) == if Val(x, 8) >= L then Val(x, 8) - L else Val(x, 8)
  {
    LWordsValue();
    NumBound(x, B32, 8);
    NumBound(r, B32, 8);
    WordWeights();
    hide Val;
  }

  // ---------- Barrett reduction ----------

  /** floor(2^512 / L) */
  const R: int := 0xfffffffffffffffffffffffffffffffeb2106215d086329a7ed9ce5a30a2c131b

  function RWords(): (w: seq<u32>)
    ensures |w| == 9
  {
    [0x0a2c131b, 0xed9ce5a3, 0x086329a7, 0x2106215d, 0xffffffeb, 0xffffffff, 0xffffffff, 0xffffffff, 0xf]
  }

  lemma RWordsValue()
    ensures Val(RWords(), 9) == R
  {
    var w: seq<int> := RWords();
    NumPrefix(w, w[..8], B32, 8);
    Words8Value(w[..8]);
    WordWeights();
    assert Val(w, 9) == Val(w, 8) + w[8] * W(8);
  }

  /** The Barrett quotient is the true quotient or one less: the remainder it leaves is below 2 L. */
  lemma BarrettQuotient(x: int)
    requires 0 <= x < 0x100000000000000000000000000000000000000000000000000000000000000000000000000000000000000000000000000000000000000000000000000000000
    ensures var q := (x * R) / 0x100000000000000000000000000000000000000000000000000000000000000000000000000000000000000000000000000000000000000000000000000000000;
            0 <= q && 0 <= x - q * L < 2 * L
  {
    var m := 0x100000000000000000000000000000000000000000000000000000000000000000000000000000000000000000000000000000000000000000000000000000000;
    var q := (x * R) / m;
    assert 0x100000000000000000000000000000000000000000000000000000000000000000000000000000000000000000000000000000000000000000000000000000000 - L < R * L <= m;
  }

  /** r = x - r on eight words, through the complement of r. */
  method SubtractFrom(r: array<u32>, x: seq<u32>)
    requires 8 <= r.Length && 8 <= |x|
    modifies r
    ensures W(8) > 0 && Cong(Val(r[..], 8), Val(x, 8) - old(Val(r[..], 8)), W(8))
    ensures forall k :: 8 <= k < r.Length ==> r[k] == old(r[k])
  {
    ghost var l := r[..];
    var carry: u64 := 1;
    RemoveStart(x, l, r[..], 1);
    hide Val, W, SumSoFar, RemoveTarget, Cong;
    for i := 0 to 8
      invariant 0 <= carry <= 1
      invariant SumSoFar(Val(r[..], i), carry, i) == RemoveTarget(x, l, i, 1)
      invariant forall k :: i <= k < r.Length ==> r[k] == l[k]
    {
      ghost var c, before := carry, r[..];
      carry := carry + x[i] + Not32(r[i]);
      r[i] := carry % B32;
      carry := carry / B32;
      RemoveStep(before, r[..], x, l, i, 1, c, carry);
    }
    SubtractEnd(x, l, r[..], carry);
  }

  lemma SubtractEnd(x: seq<u32>, l: seq<u32>, r: seq<u32>, carry: int)
    requires 8 <= |x| && 8 <= |r| == |l|
    requires SumSoFar(Val(r, 8), carry, 8) == RemoveTarget(x, l, 8, 1)
    ensures W(8) > 0 && Cong(Val(r, 8), Val(x, 8) - Val(l, 8), W(8))
  {
    WordWeights();
    assert W(8) == 0x10000000000000000000000000000000000000000000000000000000000000000;
    hide Val, W;
    Shift(Val(r, 8), Val(x, 8) - Val(l, 8), 1 - carry, W(8));
  }

  lemma QuotientWords(p: seq<u32>, x: seq<u32>)
    requires |p| == 25 && |x| == 16
    requires Val(p, 25) == Val(RWords(), 9) * Val(x, 16)
    ensures 0 <= Val(x, 16) < 0x100000000000000000000000000000000000000000000000000000000000000000000000000000000000000000000000000000000000000000000000000000000
    ensures W(8) > 0 && Cong(Val(p[16..24], 8), (Val(x, 16) * R) / 0x100000000000000000000000000000000000000000000000000000000000000000000000000000000000000000000000000000000000000000000000000000000, W(8))
  {
    RWordsValue();
    WordWeights();
    PowAdd(B32, 8, 8);
    NumBound(x, B32, 16);
    NumBound(p, B32, 16);
    NumSplit(p, B32, 16, 9);
    var q: seq<int> := p[16..];
    NumPrefix(q, p[16..24], B32, 8);
    assert Val(q, 9) == Val(q, 8) + q[8] * W(8);
    hide Val, W, Cong;
    Quotient(Val(x, 16) * R, Val(q, 9), Val(p, 16), 0x100000000000000000000000000000000000000000000000000000000000000000000000000000000000000000000000000000000000000000000000000000000);
    Shift(Val(q, 8), Val(q, 9), -q[8], W(8));
  }

  /** The truncated product and difference give the exact remainder, because it fits 256 bits. */
  lemma RemainderFits(X: int, low: int, high: int, q: int, qs: int, prod: int, diff: int)
    requires 0 <= X < 0x100000000000000000000000000000000000000000000000000000000000000000000000000000000000000000000000000000000000000000000000000000000 && X == low + high * 0x10000000000000000000000000000000000000000000000000000000000000000
    requires q == (X * R) / 0x100000000000000000000000000000000000000000000000000000000000000000000000000000000000000000000000000000000000000000000000000000000 && Cong(qs, q, 0x10000000000000000000000000000000000000000000000000000000000000000)
    requires Cong(prod, qs * L, 0x10000000000000000000000000000000000000000000000000000000000000000) && Cong(diff, low - prod, 0x10000000000000000000000000000000000000000000000000000000000000000) && 0 <= diff < 0x10000000000000000000000000000000000000000000000000000000000000000
    ensures diff == X - q * L && 0 <= diff < 2 * L
  {
    BarrettQuotient(X);
    var m := 0x10000000000000000000000000000000000000000000000000000000000000000;
    Refl(L, m);
    Mul(qs, q, L, L, m);
    Trans(prod, qs * L, q * L, m);
    Shift(low, X, -high, m);
    Add(low, X, prod, q * L, m);
    Trans(diff, low - prod, X - q * L, m);
    Unique(diff, X - q * L, m);
  }

  /** The part of mod_l before its conditional subtraction. */
  method BarrettRemainder(xr: array<u32>, x: seq<u32>)
    requires xr.Length == 25 && |x| == 16 && forall k :: 0 <= k < 25 ==> xr[k] == 0
    modifies xr
    ensures Cong(Val(xr[..], 8), Val(x, 16), L) && 0 <= Val(xr[..], 8) < 2 * L
  {
    ZeroWords(xr[..], 16);
    hide Val, W, Cong, LWords, RWords;
    MultiplyAdd(xr, RWords(), x);
    var q := xr[16..24];
    QuotientWords(xr[..], x);
    ZeroFirst8(xr);
    MultiplyLow(xr, q, LWords());
    ghost var prod := Val(xr[..], 8);
    SubtractFrom(xr, x);
    BarrettEnds(x, q, prod, xr[..]);
  }

  method ZeroFirst8(p: array<u32>)
    requires 8 <= p.Length
    modifies p
    ensures Val(p[..], 8) == 0
  {
    for i := 0 to 8
      invariant forall k :: 0 <= k < i ==> p[k] == 0
    {
      p[i] := 0;
    }
    ZeroWords(p[..], 8);
  }

  /** mod_l: full reduction of a 512-bit number. */
  method ModL(reduced: array<u8>, x: seq<u32>)
    requires reduced.Length == 32 && |x| == 16
    modifies reduced
    ensures Num(reduced[..], 256, 32) == Val(x, 16) % L
  {
    hide *;
    var xr := new u32[25](_ => 0);
    BarrettRemainder(xr, x);
    var r := xr[..8];
    ValPrefix(xr[..], 8);
    RemoveL(xr, r);
    FinalSubtraction(x, r, xr[..]);
    StoreWords(reduced, xr[..8]);
  }

  lemma ValPrefix(p: seq<int>, n: nat)
    requires n <= |p|
    ensures Val(p[..n], n) == Val(p, n)
  {
    NumPrefix(p, p[..n], B32, n);
  }

  lemma {:induction false} ZeroWords(p: seq<int>, n: nat)
    requires n <= |p| && forall k :: 0 <= k < n ==> p[k] == 0
    ensures Val(p, n) == 0
  {
    if n > 0 {
      ZeroWords(p, n - 1);
    }
  }

  lemma BarrettEnds(x: seq<u32>, q: seq<u32>, prod: int, r: seq<u32>)
    requires |x| == 16 && |q| == 8 && 8 <= |r|
    requires 0 <= Val(x, 16) < 0x100000000000000000000000000000000000000000000000000000000000000000000000000000000000000000000000000000000000000000000000000000000
    requires W(8) > 0 && Cong(Val(q, 8), (Val(x, 16) * R) / 0x100000000000000000000000000000000000000000000000000000000000000000000000000000000000000000000000000000000000000000000000000000000, W(8))
    requires Cong(prod, Val(q, 8) * Val(LWords(), 8) + 0, W(8))
    requires Cong(Val(r, 8), Val(x, 8) - prod, W(8))
    ensures Cong(Val(r, 8), Val(x, 16), L) && 0 <= Val(r, 8) < 2 * L
  {
    LWordsValue();
    WordWeights();
    NumSplit(x, B32, 8, 8);
    NumBound(r, B32, 8);
    assert W(8) == 0x10000000000000000000000000000000000000000000000000000000000000000;
    hide Val, W, Cong;
    var quotient := (Val(x, 16) * R) / 0x100000000000000000000000000000000000000000000000000000000000000000000000000000000000000000000000000000000000000000000000000000000;
    RemainderFits(Val(x, 16), Val(x, 8), Num(x[8..], B32, 8), quotient, Val(q, 8), prod, Val(r, 8));
    Shift(Val(r, 8), Val(x, 16), -quotient, L);
  }

  lemma FinalSubtraction(x: seq<u32>, r: seq<u32>, out: seq<u32>)
    requires |x| == 16 && |r| == 8 && 8 <= |out|
    requires Cong(Val(r, 8), Val(x, 16), L) && 0 <= Val(r, 8) < 2 * L
    requires Val(out, 8) == if Val(r, 8) >= L then Val(r, 8) - L else Val(r, 8)
    ensures Num(out[..8], B32, 8) == Val(x, 16) % L
  {
    NumPrefix(out, out[..8], B32, 8);
    hide Val;
    if Val(r, 8) >= L {
      Shift(Val(out, 8), Val(r, 8), -1, L);
    }
    Unique(Val(out, 8), Val(x, 16) % L, L);
  }

  /** crypto_eddsa_reduce */
  method EddsaReduce(reduced: array<u8>, expanded: seq<u8>)
    requires reduced.Length == 32 && |expanded| == 64
    modifies reduced
    ensures Num(reduced[..], 256, 32) == Num(expanded, 256, 64) % L
  {
    ModL(reduced, LoadWords(expanded, 16));
  }

  /** crypto_eddsa_mul_add: a * b + c modulo L, for any 256-bit operands. */
  method EddsaMulAdd(r: array<u8>, a: seq<u8>, b: seq<u8>, c: seq<u8>)
    requires r.Length == 32 && |a| == |b| == |c| == 32
    modifies r
    ensures Num(r[..], 256, 32) == (Num(a, 256, 32) * Num(b, 256, 32) + Num(c, 256, 32)) % L
  {
    hide Num, Val;
    var A, B, C := LoadWords(a, 8), LoadWords(b, 8), LoadWords(c, 8);
    var p := new u32[16](i requires 0 <= i < 16 => if i < 8 then C[i] else 0);
    assert p[..8] == C;
    ValPrefix(p[..], 8);
    MultiplyAdd(p, A, B);
    WordsToBytes(a, A, b, B, c, C);
    ModL(r, p[..]);
  }

  lemma WordsToBytes(a: seq<u8>, A: seq<u32>, b: seq<u8>, B: seq<u32>, c: seq<u8>, C: seq<u32>)
    requires |a| == |b| == |c| == 32 && A == LoadWords(a, 8) && B == LoadWords(b, 8) && C == LoadWords(c, 8)
    ensures Val(A, 8) == Num(a, 256, 32) && Val(B, 8) == Num(b, 256, 32) && Val(C, 8) == Num(c, 256, 32)
  {
  }
}
