/** Field elements as 32 bytes (monocypher.c, fe_frombytes and fe_tobytes). */
module FieldBytes {
  import opened ModArith
  import opened Sums
  import opened Convolution
  import opened FieldElement
  import opened Words

  lemma PowKnown(a: nat, b: nat, x: int, y: int)
    requires Pow(256, a) == x && Pow(256, b) == y
    ensures Pow(256, a + b) == x * y
  {
    PowAdd(256, a, b);
  }

  lemma BytePowers()
    ensures Pow(256, 4) == 0x100000000
    ensures Pow(256, 7) == 0x100000000000000
    ensures Pow(256, 10) == 0x100000000000000000000
    ensures Pow(256, 13) == 0x100000000000000000000000000
    ensures Pow(256, 16) == 0x100000000000000000000000000000000
    ensures Pow(256, 20) == 0x10000000000000000000000000000000000000000
    ensures Pow(256, 23) == 0x10000000000000000000000000000000000000000000000
    ensures Pow(256, 26) == 0x10000000000000000000000000000000000000000000000000000
    ensures Pow(256, 29) == 0x10000000000000000000000000000000000000000000000000000000000
  {
    assert Pow(256, 0) == 1 && Pow(256, 2) == 0x1_0000 && Pow(256, 3) == 0x100_0000 && Pow(256, 4) == 0x1_0000_0000;
    hide Pow;
    PowKnown(4, 3, 0x100000000, 0x1000000);
    PowKnown(7, 3, 0x100000000000000, 0x1000000);
    PowKnown(10, 3, 0x100000000000000000000, 0x1000000);
    PowKnown(13, 3, 0x100000000000000000000000000, 0x1000000);
    PowKnown(16, 4, 0x100000000000000000000000000000000, 0x100000000);
    PowKnown(20, 3, 0x10000000000000000000000000000000000000000, 0x1000000);
    PowKnown(23, 3, 0x10000000000000000000000000000000000000000000000, 0x1000000);
    PowKnown(26, 3, 0x10000000000000000000000000000000000000000000000000000, 0x1000000);
  }

  /** The integer that 32 bytes spell, least significant first. */
  ghost function Le(s: seq<u8>): int
    requires |s| == 32
  {
    Num(s, 256, 32)
  }

  lemma Piece24(s: seq<u8>, k: nat, w: int)
    requires k + 3 <= |s| && Pow(256, k) == w
    ensures Num(s, 256, k + 3) == Num(s, 256, k) + w * Load24(s[k], s[k + 1], s[k + 2])
  {
    NumSplit(s, 256, k, 3);
    var t: seq<int> := s[k..];
    assert Num(t, 256, 1) == Num(t, 256, 0) + t[0] * 1;
    assert Num(t, 256, 2) == t[0] + 0x100 * t[1];
    assert Pow(256, 2) == 0x1_0000;
    assert Num(t, 256, 3) == Load24(s[k], s[k + 1], s[k + 2]);
  }

  lemma Piece32(s: seq<u8>, k: nat, w: int)
    requires k + 4 <= |s| && Pow(256, k) == w
    ensures Num(s, 256, k + 4) == Num(s, 256, k) + w * Load32(s[k], s[k + 1], s[k + 2], s[k + 3])
  {
    Piece24(s, k, w);
    PowAdd(256, k, 3);
    assert Pow(256, 3) == 0x100_0000 by { assert Pow(256, 2) == 0x1_0000; }
    hide Num, Pow, Load24, Load32;
    Append(w, Load24(s[k], s[k + 1], s[k + 2]), s[k + 3]);
  }

  lemma Append(w: int, low: int, d: int)
    ensures w * (low + 0x100_0000 * d) == w * low + d * (w * 0x100_0000)
  {
  }

  /** fe_frombytes' limbs before the carry: ten pieces of the 255-bit number. */
  function Pieces(s: seq<u8>): (t: seq<i64>)
    requires |s| == 32
    ensures CarryReady(t)
  {
    [Load32(s[0], s[1], s[2], s[3]) as i64,
     Load24(s[4], s[5], s[6]) as i64 * 0x40,
     Load24(s[7], s[8], s[9]) as i64 * 0x20,
     Load24(s[10], s[11], s[12]) as i64 * 8,
     Load24(s[13], s[14], s[15]) as i64 * 4,
     Load32(s[16], s[17], s[18], s[19]) as i64,
     Load24(s[20], s[21], s[22]) as i64 * 0x80,
     Load24(s[23], s[24], s[25]) as i64 * 0x20,
     Load24(s[26], s[27], s[28]) as i64 * 0x10,
     (Load24(s[29], s[30], s[31]) % 0x80_0000) as i64 * 4]
  }

  lemma LowPieces(s: seq<u8>)
    requires |s| == 32
    ensures Num(s, 256, 16) == Load32(s[0], s[1], s[2], s[3])
         + 0x100000000 * Load24(s[4], s[5], s[6])
         + 0x100000000000000 * Load24(s[7], s[8], s[9])
         + 0x100000000000000000000 * Load24(s[10], s[11], s[12])
         + 0x100000000000000000000000000 * Load24(s[13], s[14], s[15])
  {
    BytePowers();
    assert Num(s, 256, 0) == 0 && Pow(256, 0) == 1;
    hide Num, Pow, Load24, Load32;
    Piece32(s, 0, 0x1);
    Piece24(s, 4, 0x100000000);
    Piece24(s, 7, 0x100000000000000);
    Piece24(s, 10, 0x100000000000000000000);
    Piece24(s, 13, 0x100000000000000000000000000);
  }

  lemma HighPieces(s: seq<u8>)
    requires |s| == 32
    ensures Num(s, 256, 32) == Num(s, 256, 16) + 0x100000000000000000000000000000000 * Load32(s[16], s[17], s[18], s[19])
         + 0x10000000000000000000000000000000000000000 * Load24(s[20], s[21], s[22])
         + 0x10000000000000000000000000000000000000000000000 * Load24(s[23], s[24], s[25])
         + 0x10000000000000000000000000000000000000000000000000000 * Load24(s[26], s[27], s[28])
         + 0x10000000000000000000000000000000000000000000000000000000000 * Load24(s[29], s[30], s[31])
  {
    BytePowers();
    hide Num, Pow, Load24, Load32;
    Piece32(s, 16, 0x100000000000000000000000000000000);
    Piece24(s, 20, 0x10000000000000000000000000000000000000000);
    Piece24(s, 23, 0x10000000000000000000000000000000000000000000000);
    Piece24(s, 26, 0x10000000000000000000000000000000000000000000000000000);
    Piece24(s, 29, 0x10000000000000000000000000000000000000000000000000000000000);
  }

  /** The pieces spell the number without its top bit. */
  lemma PiecesValue(s: seq<u8>)
    requires |s| == 32
    ensures Value(Longs(Pieces(s))) == Le(s) - (Load24(s[29], s[30], s[31]) / 0x80_0000) * 0x8000000000000000000000000000000000000000000000000000000000000000
  {
    LowPieces(s);
    HighPieces(s);
    ValueWrittenOut(Longs(Pieces(s)));
    hide Num, Le, Pow, Load24, Load32, Value, CarryReady;
  }

  // ---------- encoding ----------

  /** Value of the first n limbs. */
  ghost function Partial(t: seq<i32>, n: nat): int
  {
    Sum(Times(WeightOf(), At(Ints(t))), n)
  }

  lemma PartialStep(t: seq<i32>, n: nat)
    requires n < |t|
    ensures Partial(t, n + 1) == Partial(t, n) + Weight(n) * t[n] as int
  {
    hide Weight;
  }

  lemma LimbSizes()
    ensures Pow2(26) == 0x400_0000 && Pow2(25) == 0x200_0000
  {
    assert Pow2(13) == 0x2000 && Pow2(12) == 0x1000;
    hide Pow2;
    Pow2Known(13, 12, 0x2000, 0x1000);
    Pow2Known(13, 13, 0x2000, 0x2000);
  }

  lemma ExponentStep(n: nat)
    ensures Exponent(n + 1) == Exponent(n) + (if n % 2 == 0 then 26 else 25)
  {
  }

  lemma WeightStep(n: nat)
    ensures Weight(n + 1) == Weight(n) * (if n % 2 == 0 then 0x400_0000 else 0x200_0000)
  {
    hide Exponent, Pow2;
    ExponentStep(n);
    LimbSizes();
    if n % 2 == 0 {
      Pow2Known(Exponent(n), 26, Weight(n), 0x400_0000);
    } else {
      Pow2Known(Exponent(n), 25, Weight(n), 0x200_0000);
    }
  }

  /** q is the floor of a / w. */
  ghost predicate FloorOf(q: int, a: int, w: int)
  {
    q * w <= a < (q + 1) * w
  }

  /** Dividing in two steps, adding a limb in between. */
  lemma FloorStep(q: int, a: int, w: int, t: int, p: int, m: int)
    requires w > 0 && FloorOf(q, a, w) && p * m <= q + t < (p + 1) * m
    ensures FloorOf(p, a + w * t, w * m)
  {
    assert q * w + w * t == (q + t) * w && (q + 1) * w + w * t == (q + t + 1) * w;
    MulMono(p * m, q + t, w);
    MulMono(q + t + 1, (p + 1) * m, w);
    assert (p * m) * w == p * (w * m) && ((p + 1) * m) * w == (p + 1) * (w * m);
  }

  lemma MulMono(x: int, y: int, w: int)
    requires x <= y && w >= 0
    ensures x * w <= y * w
  {
  }

  /** q += t[n];  q >>= 26 or 25 */
  method QuotientLimb(t: array<i32>, n: nat, q: i32, ghost q0: int) returns (p: i32)
    requires t.Length == 10 && Carried(t[..]) && n < 10
    requires -17 <= q as int <= 17 && FloorOf(q as int, Partial(t[..], n) + q0, Weight(n))
    ensures -17 <= p as int <= 17 && FloorOf(p as int, Partial(t[..], n + 1) + q0, Weight(n + 1))
  {
    BoundedAt(t[..], 36909875, 18454937, n);
    hide Bounded, FloorOf, Partial, Weight;
    p := (q + t[n]) / (if n % 2 == 0 then 0x400_0000 else 0x200_0000);
    QuotientStep(t[..], n, q0, q as int, p as int);
  }

  /** The first carry chain of fe_tobytes: q ends as the quotient by 2^255 of the value plus a
      rounded 19 * 2^-255 * value. */
  method Quotient255(t: array<i32>) returns (q: i32)
    requires t.Length == 10 && Carried(t[..])
    ensures FloorOf(q as int, Fe(t[..]) + TopRounding(t[9]), Weight(10))
  {
    ghost var T := t[..];
    QuotientStart(T);
    hide Weight, Partial, Bounded, FloorOf, Value, Ints;
    q := (19 * t[9] + 0x100_0000) / 0x200_0000;
    ghost var q0 := q as int;
    for i := 0 to 5
      invariant FloorOf(q as int, Partial(T, 2 * i) + q0, Weight(2 * i))
      invariant -17 <= q as int <= 17
    {
      q := QuotientLimb(t, 2 * i, q, q0);
      q := QuotientLimb(t, 2 * i + 1, q, q0);
    }
    PartialIsFe(T);
  }

  lemma QuotientStart(t: seq<i32>)
    requires Carried(t)
    ensures Within(t[9] as int, 18454937)
    ensures FloorOf(TopRounding(t[9]), Partial(t, 0) + TopRounding(t[9]), Weight(0))
    ensures -17 <= TopRounding(t[9]) <= 17
  {
    assert Weight(0) == 1 by { Weights(); }
  }

  lemma PartialIsFe(t: seq<i32>)
    requires |t| == 10
    ensures Partial(t, 10) == Fe(t)
  {
  }

  ghost function TopRounding(t9: i32): int
  {
    (19 * t9 as int + 0x100_0000) / 0x200_0000
  }

  lemma QuotientStep(t: seq<i32>, n: nat, q0: int, q: int, p: int)
    requires |t| == 10 && n < 10
    requires FloorOf(q, Partial(t, n) + q0, Weight(n))
    requires p == (q + t[n] as int) / (if n % 2 == 0 then 0x400_0000 else 0x200_0000)
    ensures FloorOf(p, Partial(t, n + 1) + q0, Weight(n + 1))
  {
    PartialStep(t, n);
    WeightStep(n);
    hide Weight, Partial, FloorOf;
    FloorStep(q, Partial(t, n) + q0, Weight(n), t[n] as int, p, if n % 2 == 0 then 0x400_0000 else 0x200_0000);
  }

  /** The top limb decides the sign. */
  lemma TopLimbDominates(t: seq<i32>)
    requires Carried(t)
    ensures Within(t[9] as int, 18454937)
    ensures -0x4000000000000000000000000000000000000000000000000000000000 < Fe(t) - 0x4000000000000000000000000000000000000000000000000000000000 * t[9] as int < 0x4000000000000000000000000000000000000000000000000000000000
  {
    ValueWrittenOut(Ints(t));
    hide Value;
  }

  lemma SignOfQuotient(v: int, top: int, q: int)
    requires -18454937 <= top <= 18454937
    requires -0x4000000000000000000000000000000000000000000000000000000000 < v - 0x4000000000000000000000000000000000000000000000000000000000 * top < 0x4000000000000000000000000000000000000000000000000000000000
    requires FloorOf(q, v + (19 * top + 0x100_0000) / 0x200_0000, 0x8000000000000000000000000000000000000000000000000000000000000000)
    ensures -P < v < P
    ensures q == if v >= 0 then 0 else -1
  {
  }

  lemma TopWeight()
    ensures Weight(10) == 0x8000000000000000000000000000000000000000000000000000000000000000
  {
    Weights();
    WeightStep(9);
    hide Weight;
  }

  /** The quotient is 0 for a non-negative value and -1 for a negative one. */
  lemma QuotientIsSign(t: seq<i32>, q: int)
    requires Carried(t) && FloorOf(q, Fe(t) + TopRounding(t[9]), Weight(10))
    ensures -P < Fe(t) < P
    ensures q == if Fe(t) >= 0 then 0 else -1
  {
    TopLimbDominates(t);
    TopWeight();
    hide Value, Weight, Carried, FloorOf;
    SignOfQuotient(Fe(t), t[9] as int, q);
  }

  /** q = x >> bits;  x -= q << bits */
  method SplitLimb(x: i32, even: bool) returns (low: i32, q: i32)
    requires Within(x as int, 36909894)
    ensures -2 <= q as int <= 2
    ensures even ==> 0 <= low as int < 0x400_0000 && low as int + q as int * 0x400_0000 == x as int
    ensures !even ==> 0 <= low as int < 0x200_0000 && low as int + q as int * 0x200_0000 == x as int
  {
    if even {
      q := x / 0x400_0000;
      low := x - q * 0x400_0000;
    } else {
      q := x / 0x200_0000;
      low := x - q * 0x200_0000;
    }
  }

  /** Limb i of a reduced number: non-negative and below 2^26 or 2^25. */
  ghost predicate Reduced(t: seq<i32>, n: nat)
  {
    |t| == 10 && n <= 10 &&
    forall i :: 0 <= i < n ==> 0 <= t[i] as int < (if i % 2 == 0 then 0x400_0000 else 0x200_0000)
  }

  lemma PartialPrefix(u: seq<i32>, v: seq<i32>, n: nat)
    requires n <= |u| && n <= |v| && forall k :: 0 <= k < n ==> u[k] == v[k]
    ensures Partial(u, n) == Partial(v, n)
  {
    hide Sum, Weight;
    SumEq(Times(WeightOf(), At(Ints(u))), Times(WeightOf(), At(Ints(v))), n);
  }

  /** The value reached after n limbs with q still to be carried in. */
  ghost function Pending(u: seq<i32>, n: nat, q: int): int
  {
    Partial(u, n) + q * Weight(n)
  }

  lemma ReduceStep(t: seq<i32>, u: seq<i32>, v: seq<i32>, n: nat, e: int, q: int, p: int)
    requires |t| == |u| == |v| == 10 && n < 10
    requires Pending(u, n, q) == Partial(t, n) + e
    requires forall k :: 0 <= k < n ==> v[k] == u[k]
    requires n % 2 == 0 ==> v[n] as int + p * 0x400_0000 == t[n] as int + q
    requires n % 2 == 1 ==> v[n] as int + p * 0x200_0000 == t[n] as int + q
    ensures Pending(v, n + 1, p) == Partial(t, n + 1) + e
  {
    PartialStep(t, n);
    PartialStep(v, n);
    WeightStep(n);
    PartialPrefix(u, v, n);
    hide Partial, Weight;
    ReduceSum(Weight(n), v[n] as int, p, if n % 2 == 0 then 0x400_0000 else 0x200_0000, t[n] as int, q);
  }

  lemma ReduceSum(w: int, r: int, p: int, m: int, x: int, q: int)
    requires r + p * m == x + q
    ensures w * r + p * (w * m) == w * x + q * w
  {
    assert p * (w * m) == w * (p * m);
    assert w * (r + p * m) == w * (x + q);
  }

  lemma ReducedValue(t: seq<i32>)
    requires Reduced(t, 10)
    ensures 0 <= Fe(t) < 0x8000000000000000000000000000000000000000000000000000000000000000
  {
    ValueWrittenOut(Ints(t));
    hide Value;
  }

  lemma FinalResidue(v: int, r: int, q: int)
    requires -P < v < P && 0 <= r < 0x8000000000000000000000000000000000000000000000000000000000000000
    requires r + q * 0x8000000000000000000000000000000000000000000000000000000000000000 == v + 19 * (if v >= 0 then 0 else -1)
    ensures r == v % P
  {
    Quotient(v, if v >= 0 then 0 else -1, r, P);
  }

  /** The two carry chains of fe_tobytes: t ends as the limbs of the canonical representative. */
  method ReduceFully(t: array<i32>)
    requires t.Length == 10 && Carried(t[..])
    modifies t
    ensures Reduced(t[..], 10) && Fe(t[..]) == old(Fe(t[..])) % P
  {
    ghost var T := t[..];
    var q := Quotient255(t);
    QuotientIsSign(T, q as int);
    q := q * 19;
    ghost var e := q as int;
    ReductionStarts(T, e);
    hide Weight, Partial, Value, FloorOf, Pending, Carried;
    for i := 0 to 5
      invariant Pending(t[..], 2 * i, q as int) == Partial(T, 2 * i) + e
      invariant Reduced(t[..], 2 * i) && -19 <= q as int <= 19
      invariant forall k :: 2 * i <= k < 10 ==> t[k] == T[k]
    {
      q := ReduceNext(t, T, 2 * i, q, e);
      q := ReduceNext(t, T, 2 * i + 1, q, e);
    }
    ReductionEnds(T, t[..], q as int, e);
  }

  lemma ReductionStarts(T: seq<i32>, e: int)
    ensures Pending(T, 0, e) == Partial(T, 0) + e
  {
    assert Weight(0) == 1 by { Weights(); }
  }

  lemma ReductionEnds(T: seq<i32>, t: seq<i32>, q: int, e: int)
    requires |T| == 10 && Reduced(t, 10) && Pending(t, 10, q) == Partial(T, 10) + e
    requires -P < Fe(T) < P && e == 19 * (if Fe(T) >= 0 then 0 else -1)
    ensures Fe(t) == Fe(T) % P
  {
    PartialIsFe(t);
    PartialIsFe(T);
    TopWeight();
    ReducedValue(t);
    hide Partial, Weight, Value;
    FinalResidue(Fe(T), Fe(t), q);
  }

  /** t[n] += q;  q = t[n] >> bits;  t[n] -= q << bits */
  method ReduceNext(t: array<i32>, ghost T: seq<i32>, n: nat, q: i32, ghost e: int) returns (p: i32)
    requires t.Length == 10 && Carried(T) && n < 10 && -19 <= q as int <= 19
    requires |T| == 10 && Pending(t[..], n, q as int) == Partial(T, n) + e && Reduced(t[..], n)
    requires forall k :: n <= k < 10 ==> t[k] == T[k]
    modifies t
    ensures Pending(t[..], n + 1, p as int) == Partial(T, n + 1) + e && Reduced(t[..], n + 1)
    ensures -19 <= p as int <= 19
    ensures forall k :: n + 1 <= k < 10 ==> t[k] == T[k]
  {
    BoundedAt(T, 36909875, 18454937, n);
    hide Bounded, Partial, Weight, Pending;
    ghost var before := t[..];
    t[n], p := SplitLimb(t[n] + q, n % 2 == 0);
    ReduceStep(T, before, t[..], n, e, q as int, p as int);
  }

  /** One output word: low | (high << shift), truncated to 32 bits. */
  function PackWord(low: nat, high: nat, shift: nat): (w: u32)
    requires shift <= 32 && low < Pow2(shift)
    ensures w == low + (high % Pow2(32 - shift)) * Pow2(shift)
  {
    PackWordFits(low, high, shift);
    BitOr(low, (high * Pow2(shift)) % 0x100000000)
  }

  lemma PackWordFits(low: nat, high: nat, shift: nat)
    requires shift <= 32 && low < Pow2(shift)
    ensures Pow2(32 - shift) > 0 && 0 <= low + (high % Pow2(32 - shift)) * Pow2(shift) < 0x100000000
    ensures BitOr(low, (high * Pow2(shift)) % 0x100000000) == low + (high % Pow2(32 - shift)) * Pow2(shift)
  {
    ShiftValues();
    hide Pow2;
    Pow2Add(shift, 32 - shift);
    TopBits(high, Pow2(shift), Pow2(32 - shift), 0x100000000);
    BitOrDisjoint(low, high % Pow2(32 - shift), shift);
  }

  /** Shifting left by s keeps the bits of high below t, and drops the rest. */
  lemma TopBits(high: nat, s: nat, t: nat, m: nat)
    requires s > 0 && t > 0 && s * t == m
    ensures 0 <= (high % t) * s <= m - s
    ensures (high * s) % m == (high % t) * s
  {
    var q, r := high / t, high % t;
    assert high == q * t + r;
    ShiftSplit(q, t, r, s);
    DigitBound(r, t, s);
    Quotient(high * s, q, r * s, m);
  }

  lemma ShiftSplit(q: int, t: int, r: int, s: int)
    ensures (q * t + r) * s == q * (s * t) + r * s
  {
    assert (q * t) * s == q * (s * t);
  }

  lemma PackShifts()
    ensures Pow2(6) == 0x40 && Pow2(7) == 0x80 && Pow2(12) == 0x1000 && Pow2(13) == 0x2000
    ensures Pow2(19) == 0x80000 && Pow2(20) == 0x100000 && Pow2(25) == 0x2000000 && Pow2(26) == 0x4000000
  {
    assert Pow2(6) == 0x40 && Pow2(7) == 0x80 && Pow2(12) == 0x1000 && Pow2(13) == 0x2000;
    hide Pow2;
    Pow2Known(12, 7, 0x1000, 0x80);
    Pow2Known(13, 7, 0x2000, 0x80);
    Pow2Known(13, 12, 0x2000, 0x1000);
    Pow2Known(13, 13, 0x2000, 0x2000);
  }

  /** The eight words that fe_tobytes stores. */
  function Pack(t: seq<i32>): (w: seq<u32>)
    requires Reduced(t, 10)
    ensures |w| == 8
  {
    PackShifts();
    hide Pow2;
    [PackWord(t[0] as int, t[1] as int, 26),
     PackWord(t[1] as int / 0x40, t[2] as int, 19),
     PackWord(t[2] as int / 0x2000, t[3] as int, 13),
     PackWord(t[3] as int / 0x80000, t[4] as int, 6),
     PackWord(t[5] as int, t[6] as int, 25),
     PackWord(t[6] as int / 0x80, t[7] as int, 19),
     PackWord(t[7] as int / 0x2000, t[8] as int, 12),
     PackWord(t[8] as int / 0x100000, t[9] as int, 6)]
  }

  lemma PackedWords(t: seq<i32>)
    requires Reduced(t, 10)
    ensures var w := Pack(t);
      && w[0] == t[0] as int + (t[1] as int % 0x40) * 0x4000000
      && w[1] == t[1] as int / 0x40 + (t[2] as int % 0x2000) * 0x80000
      && w[2] == t[2] as int / 0x2000 + (t[3] as int % 0x80000) * 0x2000
      && w[3] == t[3] as int / 0x80000 + t[4] as int * 0x40
      && w[4] == t[5] as int + (t[6] as int % 0x80) * 0x2000000
      && w[5] == t[6] as int / 0x80 + (t[7] as int % 0x2000) * 0x80000
      && w[6] == t[7] as int / 0x2000 + (t[8] as int % 0x100000) * 0x1000
      && w[7] == t[8] as int / 0x100000 + t[9] as int * 0x40
  {
    PackShifts();
    hide Pow2, PackWord;
  }

  /** The packed words spell the value of the limbs. */
  lemma PackedValue(t: seq<i32>)
    requires Reduced(t, 10)
    ensures Num(Pack(t), B32, 8) == Fe(t)
  {
    PackedWords(t);
    Words8Value(Pack(t));
    ValueWrittenOut(Ints(t));
    hide Pack, Value, Reduced;
  }

  // ---------- main results ----------

  /** fe_frombytes: the top bit is ignored, and the value is the rest of the number modulo P. */
  method FeFromBytes(h: array<i32>, s: seq<u8>)
    requires h.Length == 10 && |s| == 32
    modifies h
    ensures Carried(h[..])
    ensures Cong(Fe(h[..]), Le(s) % 0x8000000000000000000000000000000000000000000000000000000000000000, P)
  {
    hide Value, Carried, CarryReady, Cong;
    var t := Pieces(s);
    PiecesValue(s);
    WithoutTopBit(s);
    FeCarry(h, t);
  }

  lemma WithoutTopBit(s: seq<u8>)
    requires |s| == 32
    ensures Le(s) - (Load24(s[29], s[30], s[31]) / 0x80_0000) * 0x8000000000000000000000000000000000000000000000000000000000000000 == Le(s) % 0x8000000000000000000000000000000000000000000000000000000000000000
  {
    LowPieces(s);
    HighPieces(s);
    hide Num, Load24, Load32;
    var top: int := Load24(s[29], s[30], s[31]);
    Quotient(Le(s), top / 0x80_0000, Le(s) - (top / 0x80_0000) * 0x8000000000000000000000000000000000000000000000000000000000000000, 0x8000000000000000000000000000000000000000000000000000000000000000);
  }

  /** fe_tobytes writes the one representative in [0, 2^255 - 19). */
  method FeToBytes(s: array<u8>, h: array<i32>)
    requires s.Length == 32 && h.Length == 10 && Carried(h[..])
    modifies s
    ensures Le(s[..]) == old(Fe(h[..])) % P
  {
    hide Value, Carried, Pack;
    var t := new i32[10](i requires 0 <= i < 10 reads h => h[i]);
    assert t[..] == h[..];
    ReduceFully(t);
    PackedValue(t[..]);
    StoreWords(s, Pack(t[..]));
  }

  /** Decoding and encoding again reduces the 255-bit number modulo P, and is the identity on
      canonical encodings. */
  lemma RoundTrip(s: seq<u8>, out: seq<u8>, v: int)
    requires |s| == |out| == 32
    requires Cong(v, Le(s) % 0x8000000000000000000000000000000000000000000000000000000000000000, P)
    requires Le(out) == v % P
    ensures Le(out) == (Le(s) % 0x8000000000000000000000000000000000000000000000000000000000000000) % P
    ensures Le(s) < P <==> out == s
  {
    hide Num, Pow;
    NumBound(s, 256, 32);
    NumBound(out, 256, 32);
    if Le(s) < P {
      Quotient(Le(s), 0, Le(s), P);
      NumUnique(s, out, 256, 32);
    }
  }
}
