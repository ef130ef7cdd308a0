/** Montgomery reduction modulo L and the scalar inverse built on it (monocypher.c, redc and
    crypto_x25519_inverse). */
module ScalarInverse {
  import opened ModArith
  import opened Sums
  import opened Words
  import opened ScalarBits
  import opened ScalarModL

  /** 2^256 */
  const R256: int := 0x10000000000000000000000000000000000000000000000000000000000000000

  /** -1 / L modulo 2^256 */
  const K: int := 0x9db6c6f26fe9183614e75438ffa36beab1a206f2fdba84ffd2b51da312547e1b

  function KWords(): (w: seq<u32>)
    ensures |w| == 8
  {
    [0x12547e1b, 0xd2b51da3, 0xfdba84ff, 0xb1a206f2, 0xffa36bea, 0x14e75438, 0x6fe91836, 0x9db6c6f2]
  }

  lemma KWordsValue()
    ensures Val(KWords(), 8) == K
  {
    Words8Value(KWords());
    hide Num;
  }

  lemma KInverts()
    ensures K * L + 1 == 0x9db6c6f26fe9183614e75438ffa36beb7f5c66a973f754cc766cca43d5f0d24 * R256
  {
  }

  /** s = x * k cancels the low half of x: x + s * L is a multiple of 2^256, and small. */
  lemma LowHalfCancels(x: int, low: int, s: int)
    requires 0 <= x < L * R256 && 0 <= s < R256
    requires Cong(x, low, R256) && Cong(s, low * K, R256)
    ensures (x + s * L) % R256 == 0
    ensures 0 <= (x + s * L) / R256 < 2 * L
  {
    KInverts();
    hide Cong;
    Refl(L, R256);
    Mul(s, low * K, L, L, R256);
    Add(x, low, s * L, low * K * L, R256);
    var c := 0x9db6c6f26fe9183614e75438ffa36beb7f5c66a973f754cc766cca43d5f0d24;
    MultipleOf(low, K * L, c, R256);
    Shift(low + low * K * L, 0, low * c, R256);
    Trans(x + s * L, low + low * K * L, 0, R256);
    IsMultiple(x + s * L, R256);
    SumBound(s);
  }

  lemma MultipleOf(low: int, kl: int, c: int, m: int)
    requires kl + 1 == c * m
    ensures low + low * kl == 0 + (low * c) * m
  {
    assert low * (kl + 1) == low * kl + low;
    assert low * (c * m) == (low * c) * m;
  }

  lemma IsMultiple(a: int, m: int)
    requires m > 0 && Cong(a, 0, m)
    ensures a % m == 0
  {
  }

  lemma SumBound(s: int)
    requires 0 <= s < R256
    ensures 0 <= s * L <= (R256 - 1) * L
  {
  }

  /** t += x on sixteen words. */
  method AddWords(t: array<u32>, x: seq<u32>) returns (carry: u64)
    requires t.Length == 16 && |x| == 16
    modifies t
    ensures 0 <= carry <= 1
    ensures SumSoFar(Val(t[..], 16), carry, 16) == AddTarget(old(t[..]), x, 16)
  {
    hide Val, W, SumSoFar, AddTarget;
    ghost var T := t[..];
    carry := 0;
    AddStart(T, t[..], x);
    for i := 0 to 16
      invariant 0 <= carry <= 1
      invariant SumSoFar(Val(t[..], i), carry, i) == AddTarget(T, x, i)
      invariant forall k :: i <= k < 16 ==> t[k] == T[k]
    {
      ghost var c, before := carry, t[..];
      carry := carry + t[i] + x[i];
      t[i] := carry % B32;
      carry := carry / B32;
      AddStep(T, before, t[..], x, i, c, carry);
    }
  }

  ghost function AddTarget(t: seq<int>, x: seq<int>, i: nat): int
    requires i <= |t| && i <= |x|
  {
    Val(t, i) + Val(x, i)
  }

  lemma AddStart(T: seq<int>, t: seq<int>, x: seq<int>)
    ensures SumSoFar(Val(t, 0), 0, 0) == AddTarget(T, x, 0)
  {
    assert Val(T, 0) == 0 && Val(x, 0) == 0 && Val(t, 0) == 0;
    hide W, Val;
  }

  lemma AddStep(T: seq<u32>, r: seq<u32>, q: seq<u32>, x: seq<u32>, i: nat, carry: int, up: int)
    requires |T| == |r| == |q| == |x| == 16 && i < 16
    requires SumSoFar(Val(r, i), carry, i) == AddTarget(T, x, i)
    requires forall k :: 0 <= k < i ==> q[k] == r[k]
    requires carry + T[i] + x[i] == q[i] + B32 * up
    ensures SumSoFar(Val(q, i + 1), up, i + 1) == AddTarget(T, x, i + 1)
  {
    NumPrefix(r, q, B32, i);
    AddWordStep(Val(q, i), carry, i, T[i], x[i], q[i], up, Val(T, i), Val(x, i));
  }

  lemma AddEnd(T: seq<u32>, t: seq<u32>, x: seq<u32>, carry: int)
    requires |T| == |t| == |x| == 16 && 0 <= carry <= 1
    requires SumSoFar(Val(t, 16), carry, 16) == AddTarget(T, x, 16)
    requires Val(T, 16) + Val(x, 16) < W(16)
    ensures Val(t, 16) == Val(T, 16) + Val(x, 16)
  {
    NumBound(t, B32, 16);
    hide Val, W;
  }

  /** redc: x / 2^256 modulo L, fully reduced, for every x below L * 2^256. */
  method Redc(u: array<u32>, x: seq<u32>)
    requires u.Length == 8 && |x| == 16 && Val(x, 16) < L * R256
    modifies u
    ensures 0 <= Val(u[..], 8) < L
    ensures Cong(Val(u[..], 8) * R256, Val(x, 16), L)
  {
    hide *;
    var s := new u32[8](_ => 0);
    ZeroWords(s[..], 8);
    MultiplyLow(s, x[..8], KWords());
    var t := new u32[16](_ => 0);
    ZeroWords(t[..], 8);
    MultiplyAdd(t, s[..], LWords());
    RedcSum(x, s[..], t[..]);
    ghost var T := t[..];
    var carry := AddWords(t, x);
    AddEnd(T, t[..], x, carry);
    var h := t[8..];
    RedcHalf(x, s[..], t[..]);
    RemoveL(u, h);
    RedcEnds(x, s[..], h, u[..]);
  }

  /** What redc knows after s = x * k modulo 2^256. */
  lemma RedcSum(x: seq<u32>, s: seq<u32>, t: seq<u32>)
    requires |x| == |t| == 16 && |s| == 8 && Val(x, 16) < L * R256
    requires W(8) > 0 && Cong(Val(s, 8), Val(x[..8], 8) * Val(KWords(), 8) + 0, W(8))
    requires Val(t, 16) == Val(s, 8) * Val(LWords(), 8) + 0
    ensures Val(t, 16) == Val(s, 8) * L
    ensures (Val(x, 16) + Val(s, 8) * L) % R256 == 0 && 0 <= (Val(x, 16) + Val(s, 8) * L) / R256 < 2 * L
    ensures Val(t, 16) + Val(x, 16) < W(16)
  {
    KWordsValue();
    LWordsValue();
    WordWeights();
    assert W(8) == R256;
    assert W(16) == R256 * R256 by { PowAdd(B32, 8, 8); }
    NumBound(x, B32, 16);
    NumBound(s, B32, 8);
    NumSplit(x, B32, 8, 8);
    NumPrefix(x, x[..8], B32, 8);
    hide Val, W, Cong;
    Shift(Val(x, 16), Val(x[..8], 8), Num(x[8..], B32, 8), R256);
    LowHalfCancels(Val(x, 16), Val(x[..8], 8), Val(s, 8));
  }

  /** The low half of the sum is zero, so its high half is the quotient. */
  lemma RedcHalf(x: seq<u32>, s: seq<u32>, t: seq<u32>)
    requires |x| == |t| == 16 && |s| == 8
    requires Val(t, 16) == Val(s, 8) * L + Val(x, 16) && (Val(x, 16) + Val(s, 8) * L) % R256 == 0
    ensures Val(t[8..], 8) == (Val(x, 16) + Val(s, 8) * L) / R256
  {
    WordWeights();
    assert W(8) == R256;
    NumSplit(t, B32, 8, 8);
    NumBound(t, B32, 8);
    hide Val, W;
    Quotient(Val(t, 16), Val(t[8..], 8), Val(t, 8), R256);
  }

  lemma RedcEnds(x: seq<u32>, s: seq<u32>, h: seq<u32>, u: seq<u32>)
    requires |x| == 16 && |s| == |h| == |u| == 8
    requires (Val(x, 16) + Val(s, 8) * L) % R256 == 0
    requires Val(h, 8) == (Val(x, 16) + Val(s, 8) * L) / R256 && 0 <= Val(h, 8) < 2 * L
    requires Val(u, 8) == if Val(h, 8) >= L then Val(h, 8) - L else Val(h, 8)
    ensures 0 <= Val(u, 8) < L && Cong(Val(u, 8) * R256, Val(x, 16), L)
  {
    hide Val, Cong;
    var k := if Val(h, 8) >= L then R256 else 0;
    assert Val(h, 8) * R256 == Val(x, 16) + Val(s, 8) * L;
    Shift(Val(u, 8) * R256, Val(x, 16), Val(s, 8) - k, L);
  }

  // ---------- the inverse ----------

  /** 1 / 2^256 modulo L */
  const R256_INVERSE: int := 0x9db6c6f26fe9183614e75438ffa36beb7f5c66a973f754cc766cca43d5f0d24

  lemma CancelR256(u: int, v: int)
    requires Cong(u * R256, v * R256, L)
    ensures Cong(u, v, L)
  {
    hide Cong;
    Refl(R256_INVERSE, L);
    Mul(u * R256, v * R256, R256_INVERSE, R256_INVERSE, L);
    InverseUndoes(u);
    InverseUndoes(v);
    Sym(u * R256 * R256_INVERSE, u, L);
    Trans(u, u * R256 * R256_INVERSE, v * R256 * R256_INVERSE, L);
    Trans(u, v * R256 * R256_INVERSE, v, L);
  }

  lemma Sym(a: int, b: int, m: int)
    requires m > 0 && Cong(a, b, m)
    ensures Cong(b, a, m)
  {
  }

  lemma InverseUndoes(u: int)
    ensures Cong(u * R256 * R256_INVERSE, u, L)
  {
    hide Cong;
    var c := 0x9db6c6f26fe9183614e75438ffa36beab1a206f2fdba84ffd2b51da312547e1b;
    assert R256 * R256_INVERSE == 1 + c * L;
    InverseArith(u, R256, R256_INVERSE, c, L);
    Shift(u * R256 * R256_INVERSE, u, u * c, L);
  }

  lemma InverseArith(u: int, r: int, i: int, c: int, m: int)
    requires r * i == 1 + c * m
    ensures u * r * i == u + (u * c) * m
  {
    assert u * r * i == u * (r * i);
    assert u * (c * m) == (u * c) * m;
  }

  /** x is the Montgomery form of v. */
  ghost predicate Mont(x: int, v: int)
  {
    0 <= x < L && Cong(x, v * R256, L)
  }

  /** A Montgomery product stands for the product. */
  lemma MontProduct(x: int, y: int, u: int, v: int, w: int)
    requires Mont(x, v) && Mont(y, w) && 0 <= u < L && Cong(u * R256, x * y, L)
    ensures Mont(u, v * w)
  {
    hide Cong;
    Mul(x, v * R256, y, w * R256, L);
    assert (v * R256) * (w * R256) == (v * w * R256) * R256 by { Rearrange(v, w, R256); }
    Trans(u * R256, x * y, (v * w * R256) * R256, L);
    CancelR256(u, v * w * R256);
  }

  lemma Rearrange(v: int, w: int, r: int)
    ensures (v * r) * (w * r) == (v * w * r) * r
  {
    assert (v * r) * (w * r) == v * (r * (w * r));
    assert r * (w * r) == w * r * r;
    assert v * (w * r * r) == v * w * r * r;
  }

  lemma ProductSmall(x: int, y: int)
    requires 0 <= x < L && 0 <= y < L
    ensures 0 <= x * y < L * R256
  {
    MulUp(x, y, L - 1);
  }

  /** multiply, then redc: a product in Montgomery form. u may be one of the factors. */
  method MontMul(u: array<u32>, a: seq<u32>, b: seq<u32>, ghost v: int, ghost w: int)
    requires u.Length == 8 && |a| == |b| == 8 && Mont(Val(a, 8), v) && Mont(Val(b, 8), w)
    modifies u
    ensures Mont(Val(u[..], 8), v * w)
  {
    hide Val, W, Cong;
    var product := new u32[16](_ => 0);
    ZeroWords(product[..], 8);
    MultiplyAdd(product, a, b);
    ProductSmall(Val(a, 8), Val(b, 8));
    Redc(u, product[..]);
    MontProduct(Val(a, 8), Val(b, 8), Val(u[..], 8), v, w);
  }

  /** L - 2, the exponent, as bytes */
  function Lm2(): (s: seq<u8>)
    ensures |s| == 32
  {
    [0xeb, 0xd3, 0xf5, 0x5c, 0x1a, 0x63, 0x12, 0x58]
    + [0xd6, 0x9c, 0xf7, 0xa2, 0xde, 0xf9, 0xde, 0x14]
    + [0x00, 0x00, 0x00, 0x00, 0x00, 0x00, 0x00, 0x00]
    + [0x00, 0x00, 0x00, 0x00, 0x00, 0x00, 0x00, 0x10]
  }

  lemma Lm2LowWords()
    ensures var s := Lm2();
      WordAt(s, 0) == 0x5cf5d3eb && WordAt(s, 1) == 0x5812631a && WordAt(s, 2) == 0xa2f79cd6 && WordAt(s, 3) == 0x14def9de
  {
    hide Load32, Lm2;
    Lm2Bytes();
    LoadLm2();
  }

  lemma Lm2Bytes()
    ensures var s := Lm2();
      s[0] == 0xeb && s[1] == 0xd3 && s[2] == 0xf5 && s[3] == 0x5c && s[4] == 0x1a && s[5] == 0x63 && s[6] == 0x12 && s[7] == 0x58
    ensures var s := Lm2();
      s[8] == 0xd6 && s[9] == 0x9c && s[10] == 0xf7 && s[11] == 0xa2 && s[12] == 0xde && s[13] == 0xf9 && s[14] == 0xde && s[15] == 0x14
  {
  }

  lemma LoadLm2()
    ensures Load32(0xeb, 0xd3, 0xf5, 0x5c) == 0x5cf5d3eb && Load32(0x1a, 0x63, 0x12, 0x58) == 0x5812631a
    ensures Load32(0xd6, 0x9c, 0xf7, 0xa2) == 0xa2f79cd6 && Load32(0xde, 0xf9, 0xde, 0x14) == 0x14def9de
  {
  }

  lemma Lm2HighWords()
    ensures var s := Lm2();
      WordAt(s, 4) == 0 && WordAt(s, 5) == 0 && WordAt(s, 6) == 0 && WordAt(s, 7) == 0x10000000
  {
    hide Load32;
  }

  lemma Lm2Value()
    ensures Num(Lm2(), 256, 32) == L - 2
  {
    hide Num, WordAt, Lm2;
    var w: seq<u32> := [0x5cf5d3eb, 0x5812631a, 0xa2f79cd6, 0x14def9de, 0, 0, 0, 0x10000000];
    Lm2LowWords();
    Lm2HighWords();
    BytesAsWords(Lm2(), w, 8);
    Words8Value(w);
  }

  /** A ladder over bits 252 down to 0 reads all of L - 2. */
  lemma Lm2Bits()
    ensures Top(Lm2(), 253, 256) == 0 && Top(Lm2(), 0, 256) == L - 2
  {
    hide Top, BitNum, Num, Pow2, Lm2;
    Lm2Value();
    BitsSpellNumber(Lm2(), 32);
    Pow253();
    TopIsZero(Lm2(), 253, 256);
    TopIsAll(Lm2(), 256);
  }

  /** crypto_eddsa_trim_scalar */
  function Trim(s: seq<u8>): (t: seq<u8>)
    requires |s| == 32
    ensures |t| == 32
  {
    s[0 := s[0] / 8 * 8][31 := s[31] % 64 + 64]
  }

  /** The Montgomery form of 1. */
  function OneWords(): (w: seq<u32>)
    ensures |w| == 8
  {
    [0x8d98951d, 0xd6ec3174, 0x737dcf70, 0xc6ef5bf4, 0xfffffffe, 0xffffffff, 0xffffffff, 0x0fffffff]
  }

  lemma OneWordsValue()
    ensures Mont(Val(OneWords(), 8), 1)
  {
    hide Num;
    Words8Value(OneWords());
  }

  /** scalar * 2^256 modulo L */
  method ToMontgomery(s: seq<u8>) returns (m: seq<u32>)
    requires |s| == 32
    ensures |m| == 8 && Mont(Val(m, 8), Num(s, 256, 32))
  {
    hide Num, W, Cong, Mont;
    var x := LoadWords(s, 8);
    var shifted: seq<u32> := seq(8, _ => 0) + x;
    var out := new u8[32];
    ModL(out, shifted);
    m := LoadWords(out[..], 8);
    ShiftedValue(s, x, shifted);
    ReducedMont(Num(s, 256, 32), Val(shifted, 16), Val(m, 8));
  }

  lemma ShiftedValue(s: seq<u8>, x: seq<u32>, shifted: seq<u32>)
    requires |s| == 32 && x == LoadWords(s, 8) && |shifted| == 16
    requires shifted[8..] == x && forall k :: 0 <= k < 8 ==> shifted[k] == 0
    ensures Val(shifted, 16) == Num(s, 256, 32) * R256
  {
    hide Num;
    ZeroWords(shifted, 8);
    NumSplit(shifted, B32, 8, 8);
    WordWeights();
  }

  lemma ReducedMont(v: int, x: int, m: int)
    requires x == v * R256 && m == x % L
    ensures Mont(m, v)
  {
    Quotient(m, 0, m, L);
  }

  /** One bit of the exponent: square, and multiply when the bit is set. */
  method PowerStep(m: array<u32>, base: seq<u32>, bit: int, ghost s: int, ghost e: nat)
    requires m.Length == 8 && |base| == 8 && 0 <= bit <= 1
    requires Mont(Val(m[..], 8), Pow(s, e)) && Mont(Val(base, 8), s)
    modifies m
    ensures Mont(Val(m[..], 8), Pow(s, 2 * e + bit))
  {
    hide Val, Mont, Pow;
    PowAdd(s, e, e);
    MontMul(m, m[..], m[..], Pow(s, e), Pow(s, e));
    if bit == 1 {
      PowNext(s, 2 * e);
      MontMul(m, m[..], base, Pow(s, 2 * e), s);
    }
  }

  /** v^(L-2) modulo L, the inverse of v when L is prime and does not divide v. */
  ghost function FermatInverse(v: int): (r: int)
    ensures 0 <= r < L && r % L == r
  {
    Pow(v, L - 2) % L
  }

  /** The scalar part of crypto_x25519_inverse, before the cofactor: s^(L-2) modulo L by square and multiply. */
  method InverseModL(s: seq<u8>) returns (out: seq<u8>)
    requires |s| == 32
    ensures |out| == 32 && Num(out, 256, 32) == FermatInverse(Num(s, 256, 32))
  {
    hide Num, Mont, Pow, Cong, Top, OneWords, ScalarBit;
    ghost var v := Num(s, 256, 32);
    var base := ToMontgomery(s);
    var one := OneWords();
    var m := new u32[8](i requires 0 <= i < 8 => one[i]);
    assert m[..] == one;
    OneWordsValue();
    PowZero(v);
    Lm2Bits();
    var i := 252;
    while i >= 0
      invariant -1 <= i <= 252
      invariant Mont(Val(m[..], 8), Pow(v, Top(Lm2(), i + 1, 256)))
    {
      PowerStep(m, base, ScalarBit(Lm2(), i), v, Top(Lm2(), i + 1, 256));
      TopStep(Lm2(), i);
      i := i - 1;
    }
    var x: seq<u32> := m[..] + seq(8, _ => 0);
    FromMontgomeryFits(m[..], x, Pow(v, L - 2));
    Redc(m, x);
    FromMontgomery(Val(x, 16), Val(m[..], 8), Pow(v, L - 2));
    var bytes := new u8[32];
    StoreWords(bytes, m[..]);
    out := bytes[..];
  }

  lemma PowZero(v: int)
    ensures Pow(v, 0) == 1
  {
  }

  lemma TopStep(s: seq<u8>, i: nat)
    requires i < 256 <= 8 * |s|
    ensures Top(s, i, 256) == 2 * Top(s, i + 1, 256) + ScalarBit(s, i)
  {
  }

  lemma FromMontgomeryFits(m: seq<u32>, x: seq<u32>, v: int)
    requires |m| == 8 && |x| == 16 && x[..8] == m && (forall k :: 8 <= k < 16 ==> x[k] == 0)
    requires Mont(Val(m, 8), v)
    ensures Val(x, 16) == Val(m, 8) && Val(x, 16) < L * R256
  {
    hide Num;
    NumSplit(x, B32, 8, 8);
    ZeroWords(x[8..], 8);
    NumPrefix(x, m, B32, 8);
  }

  lemma FromMontgomery(x: int, u: int, v: int)
    requires Mont(x, v) && 0 <= u < L && Cong(u * R256, x, L)
    ensures u == v % L
  {
    hide Cong;
    Trans(u * R256, x, v * R256, L);
    CancelR256(u, v);
    ModIsCong(v);
    Trans(u, v, v % L, L);
    Unique(u, v % L, L);
  }

  lemma ModIsCong(v: int)
    ensures Cong(v, v % L, L)
  {
  }

  // ---------- clearing the cofactor ----------

  /** add_xl: s + (x mod 8) * L, when that fits 256 bits. */
  method AddXl(s: seq<u8>, x: u8) returns (out: seq<u8>)
    requires |s| == 32 && Num(s, 256, 32) + (x % 8) * L < R256
    ensures |out| == 32 && Num(out, 256, 32) == Num(s, 256, 32) + (x % 8) * L
  {
    hide Num, W, LWords, SumSoFar, ScaledTarget;
    var mod8: u64 := x % 8;
    var w := LoadWords(s, 8);
    var l := LWords();
    var r := new u32[8](_ => 0);
    var carry: u64 := 0;
    ScaledStart(w, l, mod8, r[..]);
    for i := 0 to 8
      invariant 0 <= carry <= 8
      invariant SumSoFar(Val(r[..], i), carry, i) == ScaledTarget(w, l, mod8, i)
    {
      ghost var c, before := carry, r[..];
      ScaledWordFits(l[i], mod8);
      carry := carry + w[i] + l[i] * mod8;
      r[i] := carry % B32;
      carry := carry / B32;
      ScaledStep(before, r[..], w, l, mod8, i, c, carry);
    }
    ScaledEnd(w, mod8, r[..], carry);
    var bytes := new u8[32];
    StoreWords(bytes, r[..]);
    out := bytes[..];
  }

  ghost function ScaledTarget(w: seq<int>, l: seq<int>, m: int, i: nat): int
    requires i <= |w| && i <= |l|
  {
    Val(w, i) + m * Val(l, i)
  }

  lemma ScaledWordFits(l: u32, m: int)
    requires 0 <= m <= 7
    ensures 0 <= l * m <= 7 * 0xffff_ffff
  {
  }

  lemma ScaledStart(w: seq<int>, l: seq<int>, m: int, r: seq<int>)
    ensures SumSoFar(Val(r, 0), 0, 0) == ScaledTarget(w, l, m, 0)
  {
  }

  lemma ScaledStep(r: seq<u32>, q: seq<u32>, w: seq<u32>, l: seq<u32>, m: int, i: nat, carry: int, up: int)
    requires i < 8 == |r| == |q| == |w| == |l|
    requires SumSoFar(Val(r, i), carry, i) == ScaledTarget(w, l, m, i)
    requires forall k :: 0 <= k < i ==> q[k] == r[k]
    requires carry + w[i] + l[i] * m == q[i] + B32 * up
    ensures SumSoFar(Val(q, i + 1), up, i + 1) == ScaledTarget(w, l, m, i + 1)
  {
    hide *;
    NumPrefix(r, q, B32, i);
    ValIsNum(r, i);
    ValIsNum(q, i);
    ScaledTargetStep(w, l, m, i);
    ValStep(q, i);
    AddWordStep(Val(q, i), carry, i, w[i], l[i] * m, q[i], up, Val(w, i), m * Val(l, i));
  }

  lemma ValIsNum(s: seq<int>, n: nat)
    requires n <= |s|
    ensures Val(s, n) == Num(s, B32, n)
  {
  }

  lemma ScaledTargetStep(w: seq<int>, l: seq<int>, m: int, i: nat)
    requires i < |w| && i < |l|
    ensures ScaledTarget(w, l, m, i) == Val(w, i) + m * Val(l, i)
    ensures ScaledTarget(w, l, m, i + 1) == (Val(w, i) + w[i] * W(i)) + (m * Val(l, i) + l[i] * m * W(i))
  {
    hide Num, W;
    ValStep(w, i);
    ValStep(l, i);
    ScaleSum(m, Val(l, i), l[i], W(i));
  }

  lemma ScaleSum(m: int, v: int, d: int, w: int)
    ensures m * (v + d * w) == m * v + d * m * w
  {
    assert m * (d * w) == d * m * w;
  }

  lemma ScaledEnd(w: seq<u32>, m: int, r: seq<u32>, carry: int)
    requires |w| == |r| == 8 && 0 <= carry <= 8
    requires SumSoFar(Val(r, 8), carry, 8) == ScaledTarget(w, LWords(), m, 8)
    requires Val(w, 8) + m * L < R256
    ensures Val(r, 8) == Val(w, 8) + m * L
  {
    hide Num, LWords;
    LWordsValue();
    NumBound(r, B32, 8);
    WordWeights();
  }

  /** Adding 3 s L clears the cofactor: the result is s modulo L and 0 modulo 8. */
  method ClearCofactor(s: seq<u8>) returns (out: seq<u8>)
    requires |s| == 32 && Num(s, 256, 32) < L
    ensures |out| == 32
    ensures Cong(Num(out, 256, 32), Num(s, 256, 32), L) && Num(out, 256, 32) % 8 == 0
  {
    hide Num, Cong;
    LowByte(s);
    var low: int := s[0];
    var x: u8 := (low * 3) % 0x100;
    CofactorArith(Num(s, 256, 32), s[0], x % 8);
    out := AddXl(s, x);
    Shift(Num(out, 256, 32), Num(s, 256, 32), x % 8, L);
  }

  lemma LowByte(s: seq<u8>)
    requires |s| == 32
    ensures Num(s, 256, 32) % 8 == s[0] % 8 && 0 <= Num(s, 256, 32)
  {
    NumSplit(s, 256, 1, 31);
    NumBound(s, 256, 32);
    LowDigit(s);
    hide *;
    Mod8(s[0], Num(s[1..], 256, 31));
  }

  lemma LowDigit(s: seq<int>)
    requires |s| >= 1
    ensures Num(s, 256, 1) == s[0] && Pow(256, 1) == 256
  {
    assert Num(s, 256, 0) == 0 && Pow(256, 0) == 1;
  }

  lemma Mod8(low: int, rest: int)
    ensures (low + 256 * rest) % 8 == low % 8
  {
    Quotient(low + 256 * rest, low / 8 + 32 * rest, low % 8, 8);
  }

  lemma CofactorArith(v: int, s0: u8, m: int)
    requires 0 <= v < L && v % 8 == s0 % 8 && m == (s0 * 3) % 0x100 % 8
    ensures v + m * L < R256 && (v + m * L) % 8 == 0
  {
    var r := s0 % 8;
    TimesThree(s0 / 8, r, s0);
    EighthOf(v / 8, r, m);
    Quotient(v + m * L, v / 8 + m * (L / 8) + (r + 5 * m) / 8, 0, 8);
  }

  lemma TimesThree(k: int, r: int, s0: int)
    requires s0 == 8 * k + r && 0 <= s0 < 0x100 && 0 <= r < 8
    ensures (s0 * 3) % 0x100 % 8 == (3 * r) % 8
  {
    var wraps := (s0 * 3) / 0x100;
    Quotient((s0 * 3) % 0x100, 3 * k - 32 * wraps + (3 * r) / 8, (3 * r) % 8, 8);
  }

  lemma EighthOf(a: int, r: int, m: int)
    requires 0 <= r < 8 && m == (3 * r) % 8
    ensures 0 <= m < 8 && r + 5 * m == 8 * ((r + 5 * m) / 8)
    ensures (8 * a + r) + m * L == (a + m * (L / 8) + (r + 5 * m) / 8) * 8
  {
    if r == 0 {} else if r == 1 {} else if r == 2 {} else if r == 3 {}
    else if r == 4 {} else if r == 5 {} else if r == 6 {} else {}
  }

  /** crypto_x25519_inverse up to its final ladder: the scalar that undoes a multiplication by the trimmed key. */
  method X25519InverseScalar(private_key: seq<u8>) returns (scalar: seq<u8>)
    requires |private_key| == 32
    ensures |scalar| == 32
    ensures Num(scalar, 256, 32) % L == FermatInverse(Num(Trim(private_key), 256, 32))
    ensures Num(scalar, 256, 32) % 8 == 0
  {
    hide Num, FermatInverse;
    var inverse := InverseModL(Trim(private_key));
    scalar := ClearCofactor(inverse);
  }
}
