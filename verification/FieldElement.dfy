/** Ten-limb arithmetic modulo 2^255 - 19 (monocypher.c, "Arithmetic modulo 2^255 - 19").
    The newtypes make every C operation carry its own overflow check. */
module FieldElement {
  import opened ModArith
  import opened Sums
  import opened Convolution

  newtype i32 = x: int | -0x8000_0000 <= x < 0x8000_0000
  newtype i64 = x: int | -0x8000_0000_0000_0000 <= x < 0x8000_0000_0000_0000

  const P: int := 0x7fffffffffffffffffffffffffffffffffffffffffffffffffffffffffffffed

  /** Limb i weighs 2^ceil(25.5 * i). */
  function Exponent(i: nat): nat
  {
    25 * i + (i + 1) / 2
  }

  function Weight(i: nat): (w: nat)
    ensures w > 0
  {
    Pow2(Exponent(i))
  }

  ghost function WeightOf(): int -> int
  {
    i => if i >= 0 then Weight(i) else 0
  }

  ghost function At(t: seq<int>): int -> int
  {
    i => if 0 <= i < |t| then t[i] else 0
  }

  /** The integer that a limb vector stands for. */
  ghost function Value(t: seq<int>): int
  {
    Sum(Times(WeightOf(), At(t)), |t|)
  }

  /** What FE_CARRY leaves: |even limbs| < 1.1 * 2^25, |odd limbs| < 1.1 * 2^24. */
  predicate Carried(f: seq<i32>)
  {
    Bounded(f, 36909875, 18454937)
  }

  /** What a multiplication accepts: |even limbs| < 1.65 * 2^26, |odd limbs| < 1.65 * 2^25. */
  predicate Loose(f: seq<i32>)
  {
    Bounded(f, 110729625, 55364812)
  }

  predicate Bounded(f: seq<i32>, even: int, odd: int)
  {
    match |f|
    case 10 =>
      && Within(f[0] as int, even) && Within(f[1] as int, odd) && Within(f[2] as int, even)
      && Within(f[3] as int, odd) && Within(f[4] as int, even) && Within(f[5] as int, odd)
      && Within(f[6] as int, even) && Within(f[7] as int, odd) && Within(f[8] as int, even)
      && Within(f[9] as int, odd)
    case _ => false
  }

  predicate Within(x: int, b: int)
  {
    -b <= x <= b
  }

  lemma BoundedAt(f: seq<i32>, even: int, odd: int, i: nat)
    requires Bounded(f, even, odd) && i < 10
    ensures Within(f[i] as int, if i % 2 == 0 then even else odd)
  {
  }

  ghost function Ints(f: seq<i32>): (r: seq<int>)
  {
    seq(|f|, i requires 0 <= i < |f| => f[i] as int)
  }

  /** The residue class of a field element, as an integer. */
  ghost function Fe(f: seq<i32>): int
  {
    Value(Ints(f))
  }

  // ---------- products of limbs ----------

  lemma MulBound(a: int, b: int, A: int, B: int)
    requires -A <= a <= A && -B <= b <= B
    ensures -(A * B) <= a * b <= A * B
  {
    MulLe(if a >= 0 then a else -a, if b >= 0 then b else -b, A, B);
  }

  lemma MulLe(a: nat, b: nat, A: nat, B: nat)
    requires a <= A && b <= B
    ensures 0 <= a * b <= A * B
  {
    assert a * b <= a * B <= A * B;
  }

  /** The factor that limb i of f and limb j of g carry in the unrolled sums of fe_mul:
      2 when both are odd, 19 when the product wraps past 2^255. */
  function LeftFactor(f: i32, i: nat, j: nat): (r: i32)
    requires i % 2 == 1 ==> -55364812 <= f as int <= 55364812
  {
    if i % 2 == 1 && j % 2 == 1 then f * 2 else f
  }

  function RightFactor(g: i32, i: nat, j: nat): (r: i32)
    requires -110729625 <= g as int <= 110729625
  {
    if i + j >= 10 then g * 19 else g
  }

  /** fe_mul's t_k after its first n products: f0 * g_k + f1 * g_(k-1) + ..., indices mod 10. */
  function LimbSum(f: seq<i32>, g: seq<i32>, k: nat, n: nat): (t: i64)
    requires Loose(f) && Loose(g) && k < 10 && n <= 10
    ensures -(n * 232959947200171875) <= t as int <= n * 232959947200171875
  {
    if n == 0 then 0
    else
      var i := n - 1;
      var j := if k >= i then k - i else k + 10 - i;
      BoundedAt(f, 110729625, 55364812, i);
      BoundedAt(g, 110729625, 55364812, j);
      hide Bounded;
      var a, b := LeftFactor(f[i], i, j), RightFactor(g[j], i, j);
      MulBound(a as int, b as int, 110729625, 2103862875);
      LimbSum(f, g, k, n - 1) + a as i64 * b as i64
  }

  // ---------- the ten sums are the product modulo 2^255 - 19 ----------

  lemma ExponentSum(i: nat, j: nat)
    ensures Exponent(i) + Exponent(j) == Exponent(i + j) + (if i % 2 == 1 && j % 2 == 1 then 1 else 0)
    ensures Exponent(i + 10) == Exponent(i) + 255
  {
    hide Exponent;
    Halves(i);
    Halves(j);
    Halves(i + j);
    Halves(i + 10);
  }

  /** Limbs alternate between 26 and 25 bits. */
  lemma Halves(i: nat)
    ensures i % 2 == 0 ==> 2 * Exponent(i) == 51 * i
    ensures i % 2 == 1 ==> 2 * Exponent(i) == 51 * i + 1
  {
  }

  lemma WrapAround(e: nat)
    ensures Cong(Pow2(255 + e), 19 * Pow2(e), P)
  {
    Pow2Add(255, e);
    Pow2Values();
    var x := Pow2(e);
    assert (P + 19) * x == 19 * x + x * P;
    Shift(Pow2(255 + e), 19 * x, x, P);
  }

  /** The factor that fe_mul puts on f_i * g_j. */
  function Factor(i: int, j: int): int
  {
    (if i % 2 == 1 && j % 2 == 1 then 2 else 1) * (if i + j < 10 then 1 else 19)
  }

  lemma ExactWeightProduct(i: nat, j: nat)
    ensures Weight(i) * Weight(j) == (if i % 2 == 1 && j % 2 == 1 then 2 else 1) * Pow2(Exponent(i + j))
  {
    hide Pow2, Exponent;
    ExponentSum(i, j);
    Pow2Add(Exponent(i), Exponent(j));
    Pow2Next(Exponent(i + j));
  }

  /** Multiplying weights wraps around at 2^255, which is 19 modulo P. */
  lemma WeightProduct(i: nat, j: nat)
    requires i < 10 && j < 10
    ensures Cong(Weight(i) * Weight(j), Factor(i, j) * Weight(if i + j < 10 then i + j else i + j - 10), P)
  {
    ExactWeightProduct(i, j);
    if i + j >= 10 {
      var k := i + j - 10;
      ExponentSum(k, 0);
      WrapAround(Exponent(k));
      var two := if i % 2 == 1 && j % 2 == 1 then 2 else 1;
      assert Cong(two, two, P) && Factor(i, j) == two * 19;
      hide Pow2, Exponent, Cong, Factor;
      Mul(two, two, Pow2(255 + Exponent(k)), 19 * Weight(k), P);
    }
  }

  lemma {:induction false} LimbSumIsConvSum(f: seq<i32>, g: seq<i32>, k: nat, n: nat)
    requires Loose(f) && Loose(g) && k < 10 && n <= 10
    ensures LimbSum(f, g, k, n) as int == ConvSum(FactorOf(), At(Ints(f)), At(Ints(g)), k, n)
  {
    hide Bounded;
    if n > 0 {
      LimbSumIsConvSum(f, g, k, n - 1);
      LimbProduct(f, g, n - 1, Partner(k, n - 1));
    }
  }

  lemma LimbProduct(f: seq<i32>, g: seq<i32>, i: nat, j: nat)
    requires Loose(f) && Loose(g) && i < 10 && j < 10
    ensures |f| == |g| == 10
    ensures Within(f[i] as int, if i % 2 == 0 then 110729625 else 55364812) && Within(g[j] as int, 110729625)
    ensures LeftFactor(f[i], i, j) as int * RightFactor(g[j], i, j) as int == Factor(i, j) * (f[i] as int * g[j] as int)
  {
    BoundedAt(f, 110729625, 55364812, i);
    BoundedAt(g, 110729625, 55364812, j);
    hide Bounded;
    Factors(f[i] as int, g[j] as int);
  }

  lemma Factors(x: int, y: int)
    ensures (x * 2) * y == 2 * (x * y) && x * (y * 19) == 19 * (x * y) && (x * 2) * (y * 19) == 38 * (x * y)
  {
  }

  ghost function FactorOf(): (int, int) -> int
  {
    (i, j) => Factor(i, j)
  }

  /** The ten sums of fe_mul. */
  ghost function Product(f: seq<i32>, g: seq<i32>): seq<int>
    requires Loose(f) && Loose(g)
  {
    seq(10, k requires 0 <= k < 10 => LimbSum(f, g, k, 10) as int)
  }

  lemma FieldWeightsMultiply()
    ensures WeightsMultiply(WeightOf(), FactorOf(), P)
  {
    hide Pow2, Cong, Exponent;
    forall i, j | 0 <= i < 10 && 0 <= j < 10
      ensures Cong(WeightOf()(i) * WeightOf()(j), FactorOf()(i, j) * WeightOf()(Wrap(i + j)), P)
    {
      WeightProduct(i, j);
    }
  }

  lemma ProductSums(f: seq<i32>, g: seq<i32>)
    requires Loose(f) && Loose(g)
    ensures Sum(Sums10(WeightOf(), FactorOf(), At(Ints(f)), At(Ints(g)), 10), 10) == Value(Product(f, g))
  {
    hide Pow2, Exponent, Factor, Sum, LimbSum, ConvSum;
    var w, sums := WeightOf(), Sums10(WeightOf(), FactorOf(), At(Ints(f)), At(Ints(g)), 10);
    forall k | 0 <= k < 10 ensures sums(k) == Times(w, At(Product(f, g)))(k) {
      LimbSumIsConvSum(f, g, k, 10);
    }
    SumEq(sums, Times(w, At(Product(f, g))), 10);
  }

  /** Main result on fe_mul before its carry: the sums stand for the product. */
  lemma ProductValue(f: seq<i32>, g: seq<i32>)
    requires Loose(f) && Loose(g)
    ensures Cong(Value(Product(f, g)), Fe(f) * Fe(g), P)
  {
    hide Cong, Sum, Times, At, WeightsMultiply, Sums10, LimbSum, WeightOf, FactorOf;
    FieldWeightsMultiply();
    ProductSums(f, g);
    PartialProduct(WeightOf(), FactorOf(), At(Ints(f)), At(Ints(g)), 10, P);
  }

  // ---------- carry propagation ----------

  lemma Weights()
    ensures Weight(0) == 1
    ensures Weight(1) == 0x4000000
    ensures Weight(2) == 0x8000000000000
    ensures Weight(3) == 0x20000000000000000000
    ensures Weight(4) == 0x40000000000000000000000000
    ensures Weight(5) == 0x100000000000000000000000000000000
    ensures Weight(6) == 0x200000000000000000000000000000000000000
    ensures Weight(7) == 0x800000000000000000000000000000000000000000000
    ensures Weight(8) == 0x1000000000000000000000000000000000000000000000000000
    ensures Weight(9) == 0x4000000000000000000000000000000000000000000000000000000000
  {
    assert Pow2(0) == 1 && Pow2(13) == 0x2000 && Pow2(12) == 0x1000;
    hide Pow2;
    Pow2Known(13, 12, 0x2000, 0x1000);
    Pow2Known(13, 13, 0x2000, 0x2000);
    Pow2Known(26, 25, 0x4000000, 0x2000000);
    Pow2Known(51, 26, 0x8000000000000, 0x4000000);
    Pow2Known(77, 25, 0x20000000000000000000, 0x2000000);
    Pow2Known(102, 26, 0x40000000000000000000000000, 0x4000000);
    Pow2Known(128, 25, 0x100000000000000000000000000000000, 0x2000000);
    Pow2Known(153, 26, 0x200000000000000000000000000000000000000, 0x4000000);
    Pow2Known(179, 25, 0x800000000000000000000000000000000000000000000, 0x2000000);
    Pow2Known(204, 26, 0x1000000000000000000000000000000000000000000000000000, 0x4000000);
  }

  /** The value of ten limbs, written out. */
  ghost function Value10(t: seq<int>): int
    requires |t| == 10
  {
    t[0]
         + 0x4000000 * t[1]
         + 0x8000000000000 * t[2]
         + 0x20000000000000000000 * t[3]
         + 0x40000000000000000000000000 * t[4]
         + 0x100000000000000000000000000000000 * t[5]
         + 0x200000000000000000000000000000000000000 * t[6]
         + 0x800000000000000000000000000000000000000000000 * t[7]
         + 0x1000000000000000000000000000000000000000000000000000 * t[8]
         + 0x4000000000000000000000000000000000000000000000000000000000 * t[9]
  }

  lemma ValueWrittenOut(t: seq<int>)
    requires |t| == 10
    ensures Value(t) == Value10(t)
  {
    Weights();
    hide Weight;
    var f := Times(WeightOf(), At(t));
    assert Sum(f, 2) == Sum(f, 0) + f(0) + f(1);
    assert Sum(f, 4) == Sum(f, 2) + f(2) + f(3);
    assert Sum(f, 6) == Sum(f, 4) + f(4) + f(5);
    assert Sum(f, 8) == Sum(f, 6) + f(6) + f(7);
    assert Sum(f, 10) == Sum(f, 8) + f(8) + f(9);
  }

  ghost function Longs(t: seq<i64>): (r: seq<int>)
  {
    seq(|t|, i requires 0 <= i < |t| => t[i] as int)
  }

  /** What FE_CARRY needs. The rounding constant is added to t0 first, so t0 must leave room for it. */
  predicate CarryReady(t: seq<i64>)
  {
    && |t| == 10
    && -0x8000_0000_0000_0000 <= t[0] as int < 0x7fff_ffff_fe00_0000
    && forall i :: 1 <= i < 10 ==> -0x4000_0000_0000_0000 < t[i] as int < 0x4000_0000_0000_0000
  }

  /** The first rounding of the chain stays in 64 bits if and only if t0 is below 2^63 - 2^25; |t0| < 2^63, as the
      comment of the code has it, is not enough. */
  lemma RoundingFits(t0: i64)
    ensures -0x8000_0000_0000_0000 <= t0 as int + 0x200_0000 < 0x8000_0000_0000_0000 <==> t0 as int < 0x7fff_ffff_fe00_0000
    ensures 0x7fff_ffff_fe00_0000 < 0x8000_0000_0000_0000 == 0x7fff_ffff_fe00_0000 + 0x200_0000
  {
  }

  /** c = (t + 2^(bits-1)) >> bits;  t -= c << bits;  next += c * scale, as one line of FE_CARRY does.
      The arithmetic right shift is a floor division. */
  method Carry(t: i64, next: i64, bits: nat, scale: i64) returns (low: i64, up: i64, ghost c: int)
    requires (bits == 26 && scale == 1) || (bits == 25 && (scale == 1 || scale == 19))
    requires t as int < 0x7fff_ffff_fe00_0000
    requires -0x4000_0080_0000_0000 <= next as int <= 0x4000_0080_0000_0000
    ensures low as int == t as int - c * (if bits == 26 then 0x400_0000 else 0x200_0000)
    ensures up as int == next as int + c * scale as int
    ensures bits == 26 ==> Within(low as int, 0x200_0000)
    ensures bits == 25 ==> Within(low as int, 0x100_0000)
    ensures Within(c, 0x40_0000_0000)
    ensures bits == 26 && Within(t as int, 0x2000_0000_0000) ==> Within(c, 0x8_0000)
  {
    var size: i64 := if bits == 26 then 0x400_0000 else 0x200_0000;
    var k := (t + size / 2) / size;
    low := t - k * size;
    up := next + k * scale;
    c := k as int;
  }

  /** h is t after the twelve carries c, in the order of FE_CARRY. */
  ghost predicate CarriedFrom(t: seq<int>, c: seq<int>, h: seq<int>)
    requires |t| == |h| == 10 && |c| == 12
  {
    && h[0] == t[0] - c[0] * 0x400_0000 + c[10] * 19 - c[11] * 0x400_0000
    && h[1] == t[1] + c[0] - c[2] * 0x200_0000 + c[11]
    && h[2] == t[2] + c[2] - c[4] * 0x400_0000
    && h[3] == t[3] + c[4] - c[6] * 0x200_0000
    && h[4] == t[4] - c[1] * 0x400_0000 + c[6] - c[8] * 0x400_0000
    && h[5] == t[5] + c[1] - c[3] * 0x200_0000 + c[8]
    && h[6] == t[6] + c[3] - c[5] * 0x400_0000
    && h[7] == t[7] + c[5] - c[7] * 0x200_0000
    && h[8] == t[8] + c[7] - c[9] * 0x400_0000
    && h[9] == t[9] + c[9] - c[10] * 0x200_0000
  }

  /** The carries leave the value unchanged, up to the multiple of P that the wrap-around drops. */
  lemma CarriesKeepValue(t: seq<int>, c: seq<int>, h: seq<int>)
    requires |t| == |h| == 10 && |c| == 12 && CarriedFrom(t, c, h)
    ensures Value10(h) == Value10(t) - c[10] * P
  {
  }

  /** The twelve carry steps of FE_CARRY; no operation leaves the int64 range. */
  method CarryChain(t: seq<i64>) returns (h: seq<i32>, ghost c: seq<int>)
    requires CarryReady(t)
    ensures |h| == 10 && |c| == 12
    ensures Carried(h)
    ensures CarriedFrom(Longs(t), c, Ints(h))
  {
    var t0, t1, t2, t3, t4 := t[0], t[1], t[2], t[3], t[4];
    var t5, t6, t7, t8, t9 := t[5], t[6], t[7], t[8], t[9];
    ghost var c0: int, c1: int, c2: int, c3: int, c4: int, c5: int, c6: int, c7: int, c8: int, c9: int, c10: int, c11: int;
    t0, t1, c0 := Carry(t0, t1, 26, 1);
    t4, t5, c1 := Carry(t4, t5, 26, 1);
    t1, t2, c2 := Carry(t1, t2, 25, 1);
    t5, t6, c3 := Carry(t5, t6, 25, 1);
    t2, t3, c4 := Carry(t2, t3, 26, 1);
    t6, t7, c5 := Carry(t6, t7, 26, 1);
    t3, t4, c6 := Carry(t3, t4, 25, 1);
    t7, t8, c7 := Carry(t7, t8, 25, 1);
    t4, t5, c8 := Carry(t4, t5, 26, 1);
    t8, t9, c9 := Carry(t8, t9, 26, 1);
    t9, t0, c10 := Carry(t9, t0, 25, 19);
    t0, t1, c11 := Carry(t0, t1, 26, 1);
    h := [t0 as i32, t1 as i32, t2 as i32, t3 as i32, t4 as i32,
          t5 as i32, t6 as i32, t7 as i32, t8 as i32, t9 as i32];
    c := [c0, c1, c2, c3, c4, c5, c6, c7, c8, c9, c10, c11];
  }

  /** FE_CARRY: the value is kept modulo P, and the limbs end in the range that Carried describes. */
  method FeCarry(h: array<i32>, t: seq<i64>)
    requires h.Length == 10 && CarryReady(t)
    modifies h
    ensures Carried(h[..])
    ensures Cong(Fe(h[..]), Value(Longs(t)), P)
  {
    hide Value, Value10, Cong, Carried, CarriedFrom, Pow2;
    var u, c := CarryChain(t);
    CarriesKeepValue(Longs(t), c, Ints(u));
    ValueWrittenOut(Ints(u));
    ValueWrittenOut(Longs(t));
    h[0], h[1], h[2], h[3], h[4] := u[0], u[1], u[2], u[3], u[4];
    h[5], h[6], h[7], h[8], h[9] := u[5], u[6], u[7], u[8], u[9];
    assert h[..] == u;
    Shift(Fe(u), Value(Longs(t)), -c[10], P);
  }

  // ---------- squaring ----------

  /** f * (i64) g */
  function Mul64(f: i32, g: i32): (t: i64)
    requires Within(f as int, 221459250) && Within(g as int, 2103862875)
    ensures t as int == f as int * g as int
    ensures Within(t as int, 465919894400343750)
  {
    MulBound(f as int, g as int, 221459250, 2103862875);
    f as i64 * g as i64
  }

  /** fe_sq's sum k: equal factors are computed once and doubled. */
  function SquareSum(f: seq<i32>, k: nat): (t: i64)
    requires Loose(f) && k < 10
    ensures Within(t as int, 2795519366402062500)
  {
    hide Mul64;
    if k == 0 then
      Mul64(f[0], f[0]) + Mul64(f[1] * 2, f[9] * 38) + Mul64(f[2] * 2, f[8] * 19)
      + Mul64(f[3] * 2, f[7] * 38) + Mul64(f[4] * 2, f[6] * 19) + Mul64(f[5], f[5] * 38)
    else if k == 1 then
      Mul64(f[0] * 2, f[1]) + Mul64(f[2], f[9] * 38) + Mul64(f[3] * 2, f[8] * 19)
      + Mul64(f[4], f[7] * 38) + Mul64(f[5] * 2, f[6] * 19)
    else if k == 2 then
      Mul64(f[0] * 2, f[2]) + Mul64(f[1] * 2, f[1]) + Mul64(f[3] * 2, f[9] * 38)
      + Mul64(f[4] * 2, f[8] * 19) + Mul64(f[5] * 2, f[7] * 38) + Mul64(f[6], f[6] * 19)
    else if k == 3 then
      Mul64(f[0] * 2, f[3]) + Mul64(f[1] * 2, f[2]) + Mul64(f[4], f[9] * 38)
      + Mul64(f[5] * 2, f[8] * 19) + Mul64(f[6], f[7] * 38)
    else if k == 4 then
      Mul64(f[0] * 2, f[4]) + Mul64(f[1] * 2, f[3] * 2) + Mul64(f[2], f[2])
      + Mul64(f[5] * 2, f[9] * 38) + Mul64(f[6] * 2, f[8] * 19) + Mul64(f[7], f[7] * 38)
    else if k == 5 then
      Mul64(f[0] * 2, f[5]) + Mul64(f[1] * 2, f[4]) + Mul64(f[2] * 2, f[3])
      + Mul64(f[6], f[9] * 38) + Mul64(f[7] * 2, f[8] * 19)
    else if k == 6 then
      Mul64(f[0] * 2, f[6]) + Mul64(f[1] * 2, f[5] * 2) + Mul64(f[2] * 2, f[4])
      + Mul64(f[3] * 2, f[3]) + Mul64(f[7] * 2, f[9] * 38) + Mul64(f[8], f[8] * 19)
    else if k == 7 then
      Mul64(f[0] * 2, f[7]) + Mul64(f[1] * 2, f[6]) + Mul64(f[2] * 2, f[5])
      + Mul64(f[3] * 2, f[4]) + Mul64(f[8], f[9] * 38)
    else if k == 8 then
      Mul64(f[0] * 2, f[8]) + Mul64(f[1] * 2, f[7] * 2) + Mul64(f[2] * 2, f[6])
      + Mul64(f[3] * 2, f[5] * 2) + Mul64(f[4], f[4]) + Mul64(f[9], f[9] * 38)
    else
      Mul64(f[0] * 2, f[9]) + Mul64(f[1] * 2, f[8]) + Mul64(f[2] * 2, f[7])
      + Mul64(f[3] * 2, f[6]) + Mul64(f[4], f[5] * 2)
  }

  /** One product's share of sum k, with the factor fe_mul gives it. */
  ghost function Share(x: seq<int>, k: int, i: int): int
    requires |x| == 10 && 0 <= i < 10 && 0 <= k < 10
  {
    Factor(i, Partner(k, i)) * (x[i] * x[Partner(k, i)])
  }

  ghost function Shares(x: seq<int>, k: int): int
    requires |x| == 10 && 0 <= k < 10
  {
    Share(x, k, 0) + Share(x, k, 1) + Share(x, k, 2) + Share(x, k, 3) + Share(x, k, 4)
    + Share(x, k, 5) + Share(x, k, 6) + Share(x, k, 7) + Share(x, k, 8) + Share(x, k, 9)
  }

  lemma ConvSumWrittenOut(x: seq<int>, k: int)
    requires |x| == 10 && 0 <= k < 10
    ensures ConvSum(FactorOf(), At(x), At(x), k, 10)
         == Shares(x, k)
  {
    hide Factor;
    var c, a := FactorOf(), At(x);
    assert ConvSum(c, a, a, k, 2) == ConvSum(c, a, a, k, 0) + Share(x, k, 0) + Share(x, k, 1);
    assert ConvSum(c, a, a, k, 4) == ConvSum(c, a, a, k, 2) + Share(x, k, 2) + Share(x, k, 3);
    assert ConvSum(c, a, a, k, 6) == ConvSum(c, a, a, k, 4) + Share(x, k, 4) + Share(x, k, 5);
    assert ConvSum(c, a, a, k, 8) == ConvSum(c, a, a, k, 6) + Share(x, k, 6) + Share(x, k, 7);
    assert ConvSum(c, a, a, k, 10) == ConvSum(c, a, a, k, 8) + Share(x, k, 8) + Share(x, k, 9);
  }

  lemma SquareSharesFirst(f: seq<i32>, k: nat)
    requires Loose(f) && k < 2
    ensures SquareSum(f, k) as int == Shares(Ints(f), k)
  {
    if k == 0 {} else {}
  }

  lemma SquareSharesLow(f: seq<i32>, k: nat)
    requires Loose(f) && 2 <= k < 4
    ensures SquareSum(f, k) as int == Shares(Ints(f), k)
  {
    if k == 2 {} else {}
  }

  lemma SquareSharesMiddle(f: seq<i32>, k: nat)
    requires Loose(f) && 4 <= k < 6
    ensures SquareSum(f, k) as int == Shares(Ints(f), k)
  {
    if k == 4 {} else {}
  }

  lemma SquareSharesHigh(f: seq<i32>, k: nat)
    requires Loose(f) && 6 <= k < 8
    ensures SquareSum(f, k) as int == Shares(Ints(f), k)
  {
    if k == 6 {} else {}
  }

  lemma SquareSharesLast(f: seq<i32>, k: nat)
    requires Loose(f) && 8 <= k < 10
    ensures SquareSum(f, k) as int == Shares(Ints(f), k)
  {
    if k == 8 {} else {}
  }

  /** fe_sq adds up the same ten products as fe_mul(f, f). */
  lemma SquareSumIsLimbSum(f: seq<i32>, k: nat)
    requires Loose(f) && k < 10
    ensures SquareSum(f, k) == LimbSum(f, f, k, 10)
  {
    hide SquareSum, Shares, Bounded;
    LimbSumIsConvSum(f, f, k, 10);
    LimbProduct(f, f, 0, 0);
    ConvSumWrittenOut(Ints(f), k);
    if k < 2 {
      SquareSharesFirst(f, k);
    } else if k < 4 {
      SquareSharesLow(f, k);
    } else if k < 6 {
      SquareSharesMiddle(f, k);
    } else if k < 8 {
      SquareSharesHigh(f, k);
    } else {
      SquareSharesLast(f, k);
    }
  }

  // ---------- the operations ----------

  method FeMul(h: array<i32>, f: array<i32>, g: array<i32>)
    requires h.Length == 10 && Loose(f[..]) && Loose(g[..])
    modifies h
    ensures Carried(h[..])
    ensures Cong(Fe(h[..]), old(Fe(f[..]) * Fe(g[..])), P)
  {
    hide Value, Pow2, Cong, Bounded, LimbSum;
    var F, G := f[..], g[..];
    var t := seq(10, k requires 0 <= k < 10 => LimbSum(F, G, k, 10));
    assert Longs(t) == Product(F, G);
    ProductValue(F, G);
    LimbSumsReady(F, G, t);
    FeCarry(h, t);
    Trans(Fe(h[..]), Value(Longs(t)), Fe(F) * Fe(G), P);
  }

  lemma LimbSumsReady(f: seq<i32>, g: seq<i32>, t: seq<i64>)
    requires Loose(f) && Loose(g)
    requires |t| == 10 && forall k :: 0 <= k < 10 ==> t[k] == LimbSum(f, g, k, 10)
    ensures CarryReady(t)
  {
    hide Bounded;
  }

  method FeSq(h: array<i32>, f: array<i32>)
    requires h.Length == 10 && Loose(f[..])
    modifies h
    ensures Carried(h[..])
    ensures Cong(Fe(h[..]), old(Fe(f[..]) * Fe(f[..])), P)
  {
    hide Value, Pow2, Cong, Bounded, LimbSum, SquareSum;
    var F := f[..];
    var t := seq(10, k requires 0 <= k < 10 => SquareSum(F, k));
    forall k | 0 <= k < 10 ensures t[k] == LimbSum(F, F, k, 10) {
      SquareSumIsLimbSum(F, k);
    }
    assert Longs(t) == Product(F, F);
    ProductValue(F, F);
    LimbSumsReady(F, F, t);
    FeCarry(h, t);
    Trans(Fe(h[..]), Value(Longs(t)), Fe(F) * Fe(F), P);
  }

  /** Multiplication by a small constant. */
  method FeMulSmall(h: array<i32>, f: array<i32>, g: i32)
    requires h.Length == 10 && Loose(f[..])
    modifies h
    ensures Carried(h[..])
    ensures Cong(Fe(h[..]), old(Fe(f[..])) * g as int, P)
  {
    hide Value, Pow2, Cong;
    var F := f[..];
    var t := seq(10, k requires 0 <= k < 10 => Scaled(F, g, k));
    ScaledValue(F, g, t);
    hide Bounded;
    FeCarry(h, t);
  }

  function Scaled(f: seq<i32>, g: i32, k: nat): (t: i64)
    requires Loose(f) && k < 10
    ensures t as int == f[k] as int * g as int
    ensures Within(t as int, 0x400_0000_0000_0000)
  {
    BoundedAt(f, 110729625, 55364812, k);
    MulBound(f[k] as int, g as int, 110729625, 0x8000_0000);
    f[k] as i64 * g as i64
  }

  lemma ScaledValue(f: seq<i32>, g: i32, t: seq<i64>)
    requires Loose(f)
    requires |t| == 10 && forall k :: 0 <= k < 10 ==> t[k] as int == f[k] as int * g as int
    ensures Value(Longs(t)) == Fe(f) * g as int
  {
    assert |f| == 10;
    hide Bounded, Sum, Times;
    TimesScaled(WeightOf(), At(Ints(f)), At(Longs(t)), g as int, 10);
  }
}
