/** Poly1305 (monocypher.c, poly_blocks and crypto_poly1305_init, _update, _final) against section 2.5 of RFC 8439. */
module Poly1305 {
  import opened ModArith
  import opened Words
  import opened Buffers

  /** 2^130 - 5 */
  const P130: int := 0x3fffffffffffffffffffffffffffffffb
  const B128: int := 0x100000000000000000000000000000000

  // ---------- section 2.5 of RFC 8439 ----------

  /** Adds a block to the accumulator and multiplies by r. */
  ghost function Absorb(acc: int, n: int, r: int): int
  {
    ((acc + n) * r) % P130
  }

  /** A block read as a little-endian number with one more byte, a 1, at its end. */
  ghost function BlockNumber(block: seq<u8>): int
  {
    Num(block, 256, |block|) + Pow(256, |block|)
  }

  /** The accumulator after full blocks. */
  ghost function Acc(m: seq<u8>, r: int): int
    requires |m| % 16 == 0
  {
    if |m| == 0 then 0 else Absorb(Acc(m[..|m| - 16], r), BlockNumber(m[|m| - 16..]), r)
  }

  /** The accumulator after a whole message. */
  ghost function AccAll(msg: seq<u8>, r: int): int
  {
    var full := |msg| - |msg| % 16;
    if full == |msg| then Acc(msg, r) else Absorb(Acc(msg[..full], r), BlockNumber(msg[full..]), r)
  }

  /** The tag, as a number below 2^128. */
  ghost function Tag(msg: seq<u8>, r: int, s: int): int
  {
    (AccAll(msg, r) + s) % B128
  }

  // ---------- limbs ----------

  ghost function Value4(r: seq<int>): int
    requires |r| == 4
  {
    r[0] + 0x100000000 * r[1] + 0x10000000000000000 * r[2] + 0x1000000000000000000000000 * r[3]
  }

  ghost function Value5(h: seq<int>): int
    requires |h| == 5
  {
    h[0] + 0x100000000 * h[1] + 0x10000000000000000 * h[2] + 0x1000000000000000000000000 * h[3] + B128 * h[4]
  }

  /** r after init: its top four bits are clear, and so are the low two bits of all words but the first. */
  predicate Clamped(r: seq<u32>)
  {
    match |r|
    case 4 =>
      && r[0] <= 0x0fffffff && r[1] <= 0x0ffffffc && r[2] <= 0x0ffffffc && r[3] <= 0x0ffffffc
      && r[1] % 4 == 0 && r[2] % 4 == 0 && r[3] % 4 == 0
    case _ => false
  }

  /** What poly_blocks keeps: h <= 4_ffffffff_ffffffff_ffffffff_ffffffff. */
  predicate Small(h: seq<u32>)
  {
    match |h|
    case 5 => h[4] <= 4
    case _ => false
  }

  // ---------- the product ----------

  function MulU(a: u64, b: u64, ghost A: nat, ghost B: nat): (r: u64)
    requires a <= A && b <= B && A * B < 0x1_0000_0000_0000_0000
    ensures r <= A * B
  {
    MulLe(a, b, A, B);
    a * b
  }

  lemma MulLe(a: nat, b: nat, A: nat, B: nat)
    requires a <= A && b <= B
    ensures 0 <= a * b <= A * B
  {
    assert a * b <= a * B <= A * B;
  }

  /** h + c, limb by limb, without carries. */
  datatype Limbs5 = Limbs5(s0: u64, s1: u64, s2: u64, s3: u64, s4: u32)

  predicate SumSized(s: Limbs5)
  {
    match s
    case Limbs5(s0, s1, s2, s3, s4) => s0 <= 0x1_ffff_fffe && s1 <= 0x1_ffff_fffe && s2 <= 0x1_ffff_fffe && s3 <= 0x1_ffff_fffe && s4 <= 5
  }

  ghost function SumValue(s: Limbs5): int
  {
    s.s0 + 0x100000000 * s.s1 + 0x10000000000000000 * s.s2 + 0x1000000000000000000000000 * s.s3 + B128 * s.s4
  }

  /** One column of the product: four limb products and the small fifth one, without overflow. */
  function Column(a: u64, b: u64, c: u64, d: u64, e: u32, ra: u32, rb: u32, rc: u32, rd: u32, re: u32): (x: u64)
    requires a <= 0x1_ffff_fffe && b <= 0x1_ffff_fffe && c <= 0x1_ffff_fffe && d <= 0x1_ffff_fffe && e <= 5
    requires ra <= 0x0fffffff && rb <= 0x13fffffb && rc <= 0x13fffffb && rd <= 0x13fffffb && re <= 0x13fffffb
    ensures x == a * ra + b * rb + c * rc + d * rd + e * re
  {
    MulU(a, ra, 0x1_ffff_fffe, 0x0fffffff) + MulU(b, rb, 0x1_ffff_fffe, 0x13fffffb) + MulU(c, rc, 0x1_ffff_fffe, 0x13fffffb)
    + MulU(d, rd, 0x1_ffff_fffe, 0x13fffffb) + MulU(e, re, 5, 0x13fffffb)
  }

  /** (h + c) * r in five columns, where r's words come back times 5 past 2^130. */
  datatype Columns = Columns(x0: u64, x1: u64, x2: u64, x3: u64, x4: u32)

  ghost function ColumnsValue(x: Columns): int
  {
    x.x0 + 0x100000000 * x.x1 + 0x10000000000000000 * x.x2 + 0x1000000000000000000000000 * x.x3 + B128 * x.x4
  }

  method Multiply(s: Limbs5, r: seq<u32>) returns (x: Columns)
    requires SumSized(s) && Clamped(r)
    ensures Cong(ColumnsValue(x), SumValue(s) * Value4(r), P130)
    ensures x.x3 <= 0x7fff_fff2_ffff_ffff && x.x4 <= 15
  {
    var r0, r1, r2, r3 := r[0], r[1], r[2], r[3];
    var rr0: u32 := (r0 / 4) * 5;
    var rr1: u32 := r1 / 4 + r1;
    var rr2: u32 := r2 / 4 + r2;
    var rr3: u32 := r3 / 4 + r3;
    var rr4: u32 := r0 % 4;
    hide Column, Cong, ColumnsValue, SumValue, Value4;
    var x0 := Column(s.s0, s.s1, s.s2, s.s3, s.s4, r0, rr3, rr2, rr1, rr0);
    var x1 := Column(s.s0, s.s1, s.s2, s.s3, s.s4, r1, r0, rr3, rr2, rr1);
    var x2 := Column(s.s0, s.s1, s.s2, s.s3, s.s4, r2, r1, r0, rr3, rr2);
    var x3 := Column(s.s0, s.s1, s.s2, s.s3, s.s4, r3, r2, r1, r0, rr3);
    MulLe(s.s4, rr4, 5, 3);
    x := Columns(x0, x1, x2, x3, s.s4 * rr4);
    ThirdColumn(s.s0, s.s1, s.s2, s.s3, s.s4, r3, r2, r1, r0, rr3);
    ColumnsMean(s, r, x, rr0, rr1, rr2, rr3, rr4);
  }

  lemma ColumnsMean(s: Limbs5, r: seq<u32>, x: Columns, rr0: int, rr1: int, rr2: int, rr3: int, rr4: int)
    requires SumSized(s) && Clamped(r)
    requires rr0 == 5 * (r[0] / 4) && rr1 == 5 * (r[1] / 4) && rr2 == 5 * (r[2] / 4) && rr3 == 5 * (r[3] / 4) && rr4 == r[0] % 4
    requires x.x0 == s.s0 * r[0] + s.s1 * rr3 + s.s2 * rr2 + s.s3 * rr1 + s.s4 * rr0
    requires x.x1 == s.s0 * r[1] + s.s1 * r[0] + s.s2 * rr3 + s.s3 * rr2 + s.s4 * rr1
    requires x.x2 == s.s0 * r[2] + s.s1 * r[1] + s.s2 * r[0] + s.s3 * rr3 + s.s4 * rr2
    requires x.x3 == s.s0 * r[3] + s.s1 * r[2] + s.s2 * r[1] + s.s3 * r[0] + s.s4 * rr3
    requires x.x4 == s.s4 * rr4
    ensures Cong(ColumnsValue(x), SumValue(s) * Value4(r), P130)
  {
    hide Cong, ColumnsValue, SumValue, Value4, RowValue;
    var q0, q1, q2, q3, R := r[0] / 4, r[1] / 4, r[2] / 4, r[3] / 4, Value4(r);
    Value4Parts(r, rr4, q0, q1, q2, q3);
    var a := Row(s.s0, rr4, q0, q1, q2, q3, R);
    var b := Row(s.s1, rr4, q0, q1, q2, q3, R);
    var c := Row(s.s2, rr4, q0, q1, q2, q3, R);
    var d := Row(s.s3, rr4, q0, q1, q2, q3, R);
    var e := Row(s.s4, rr4, q0, q1, q2, q3, R);
    Rows(s, R);
    ColumnsOf(x);
    var k := ProductMeans(a, b, c, d, e, x.x0, x.x1, x.x2, x.x3, x.x4);
    Shift(ColumnsValue(x), SumValue(s) * Value4(r), -k, P130);
  }

  lemma ThirdColumn(a: nat, b: nat, c: nat, d: nat, e: nat, ra: nat, rb: nat, rc: nat, rd: nat, re: nat)
    requires a <= 0x1_ffff_fffe && b <= 0x1_ffff_fffe && c <= 0x1_ffff_fffe && d <= 0x1_ffff_fffe && e <= 5
    requires ra <= 0x0ffffffc && rb <= 0x0ffffffc && rc <= 0x0ffffffc && rd <= 0x0fffffff && re <= 0x13fffffb
    ensures a * ra + b * rb + c * rc + d * rd + e * re <= 0x7fff_fff2_ffff_ffff
  {
    MulLe(a, ra, 0x1_ffff_fffe, 0x0ffffffc);
    MulLe(b, rb, 0x1_ffff_fffe, 0x0ffffffc);
    MulLe(c, rc, 0x1_ffff_fffe, 0x0ffffffc);
    MulLe(d, rd, 0x1_ffff_fffe, 0x0fffffff);
    MulLe(e, re, 5, 0x13fffffb);
  }

  /** The products of one limb with the parts of r, whose words are 4 * q0 + low, 4 * q1, 4 * q2 and 4 * q3. */
  datatype Products = Products(low: int, q0: int, q1: int, q2: int, q3: int)

  ghost function RowValue(p: Products): int
  {
    4 * p.q0 + p.low + 0x100000000 * (4 * p.q1) + 0x10000000000000000 * (4 * p.q2) + 0x1000000000000000000000000 * (4 * p.q3)
  }

  /** Words q past 2^128 stand for 4q * 2^128 = q * 2^130, that is 5q. */
  lemma ProductMeans(a: Products, b: Products, c: Products, d: Products, e: Products, x0: int, x1: int, x2: int, x3: int, x4: int)
    returns (k: int)
    requires x0 == 4 * a.q0 + a.low + 5 * b.q3 + 5 * c.q2 + 5 * d.q1 + 5 * e.q0
    requires x1 == 4 * a.q1 + 4 * b.q0 + b.low + 5 * c.q3 + 5 * d.q2 + 5 * e.q1
    requires x2 == 4 * a.q2 + 4 * b.q1 + 4 * c.q0 + c.low + 5 * d.q3 + 5 * e.q2
    requires x3 == 4 * a.q3 + 4 * b.q2 + 4 * c.q1 + 4 * d.q0 + d.low + 5 * e.q3
    requires x4 == e.low
    ensures x0 + 0x100000000 * x1 + 0x10000000000000000 * x2 + 0x1000000000000000000000000 * x3 + B128 * x4
            == RowValue(a) + 0x100000000 * RowValue(b) + 0x10000000000000000 * RowValue(c)
               + 0x1000000000000000000000000 * RowValue(d) + B128 * RowValue(e) - k * P130
  {
    k := e.q0 + b.q3 + c.q2 + d.q1 + 0x100000000 * (c.q3 + d.q2 + e.q1)
         + 0x10000000000000000 * (d.q3 + e.q2) + 0x1000000000000000000000000 * e.q3;
  }

  lemma Value4Parts(r: seq<u32>, low: int, q0: int, q1: int, q2: int, q3: int)
    requires Clamped(r) && q0 == r[0] / 4 && low == r[0] % 4 && q1 == r[1] / 4 && q2 == r[2] / 4 && q3 == r[3] / 4
    ensures r[0] == 4 * q0 + low && r[1] == 4 * q1 && r[2] == 4 * q2 && r[3] == 4 * q3
    ensures Value4(r) == (4 * q0 + low) + 0x100000000 * (4 * q1) + 0x10000000000000000 * (4 * q2) + 0x1000000000000000000000000 * (4 * q3)
  {
  }

  lemma Row(s: int, low: int, q0: int, q1: int, q2: int, q3: int, R: int) returns (p: Products)
    requires R == (4 * q0 + low) + 0x100000000 * (4 * q1) + 0x10000000000000000 * (4 * q2) + 0x1000000000000000000000000 * (4 * q3)
    ensures s * (4 * q0 + low) == 4 * p.q0 + p.low && s * low == p.low && s * (5 * q0) == 5 * p.q0
    ensures s * (4 * q1) == 4 * p.q1 && s * (5 * q1) == 5 * p.q1
    ensures s * (4 * q2) == 4 * p.q2 && s * (5 * q2) == 5 * p.q2
    ensures s * (4 * q3) == 4 * p.q3 && s * (5 * q3) == 5 * p.q3
    ensures s * R == RowValue(p)
  {
    p := Products(s * low, s * q0, s * q1, s * q2, s * q3);
  }

  lemma Rows(s: Limbs5, R: int)
    ensures SumValue(s) * R == s.s0 * R + 0x100000000 * (s.s1 * R) + 0x10000000000000000 * (s.s2 * R)
                               + 0x1000000000000000000000000 * (s.s3 * R) + B128 * (s.s4 * R)
  {
  }

  lemma Value5Of(a: int, b: int, c: int, d: int, e: int)
    ensures Value5([a, b, c, d, e]) == a + 0x100000000 * b + 0x10000000000000000 * c + 0x1000000000000000000000000 * d + B128 * e
  {
  }

  lemma ColumnsOf(x: Columns)
    ensures ColumnsValue(x) == x.x0 + 0x100000000 * x.x1 + 0x10000000000000000 * x.x2 + 0x1000000000000000000000000 * x.x3 + B128 * x.x4
  {
  }

  /** No sum of the chain overflows. */
  lemma ReduceRange(x0: u64, x1: u64, x2: u64, x3: u64, x4: u32)
    requires x3 <= 0x7fff_fff2_ffff_ffff && x4 <= 15
    ensures x4 + x3 / 0x1_0000_0000 <= 0x8000_0001
    ensures x0 / 0x1_0000_0000 < 0x1_0000_0000 && x1 / 0x1_0000_0000 < 0x1_0000_0000 && x2 / 0x1_0000_0000 < 0x1_0000_0000
  {
  }

  /** Carrying what is above 2^130 round to the lowest word, times 5, takes away a multiple of 2^130 - 5. */
  lemma ReduceArith(x0: int, x1: int, x2: int, x3: int, x4: int, u5: int, u0: int, u1: int, u2: int, u3: int)
    requires u5 == x4 + x3 / 0x1_0000_0000 && u0 == (u5 / 4) * 5 + x0 % 0x1_0000_0000
    requires u1 == u0 / 0x1_0000_0000 + x1 % 0x1_0000_0000 + x0 / 0x1_0000_0000
    requires u2 == u1 / 0x1_0000_0000 + x2 % 0x1_0000_0000 + x1 / 0x1_0000_0000
    requires u3 == u2 / 0x1_0000_0000 + x3 % 0x1_0000_0000 + x2 / 0x1_0000_0000
    ensures u0 % 0x1_0000_0000 + 0x1_0000_0000 * (u1 % 0x1_0000_0000) + 0x1_0000_0000_0000_0000 * (u2 % 0x1_0000_0000)
            + 0x1_0000_0000_0000_0000_0000_0000 * (u3 % 0x1_0000_0000) + B128 * (u3 / 0x1_0000_0000 + u5 % 4)
         == x0 + 0x1_0000_0000 * x1 + 0x1_0000_0000_0000_0000 * x2 + 0x1_0000_0000_0000_0000_0000_0000 * x3 + B128 * x4 + (-(u5 / 4)) * P130
  {
  }

  /** The carries, folding what passes 2^130 back in times 5. The top limb ends at most 4. */
  method Reduce(x: Columns) returns (h: seq<u32>)
    requires x.x3 <= 0x7fff_fff2_ffff_ffff && x.x4 <= 15
    ensures Small(h) && Cong(Value5(h), ColumnsValue(x), P130)
  {
    hide Cong, Value5, ColumnsValue;
    ReduceRange(x.x0, x.x1, x.x2, x.x3, x.x4);
    var u5: u32 := x.x4 + x.x3 / 0x1_0000_0000;
    var u0: u64 := (u5 / 4) * 5 + x.x0 % 0x1_0000_0000;
    var u1: u64 := u0 / 0x1_0000_0000 + x.x1 % 0x1_0000_0000 + x.x0 / 0x1_0000_0000;
    var u2: u64 := u1 / 0x1_0000_0000 + x.x2 % 0x1_0000_0000 + x.x1 / 0x1_0000_0000;
    var u3: u64 := u2 / 0x1_0000_0000 + x.x3 % 0x1_0000_0000 + x.x2 / 0x1_0000_0000;
    var u4: u32 := u3 / 0x1_0000_0000 + u5 % 4;
    h := [u0 % 0x1_0000_0000, u1 % 0x1_0000_0000, u2 % 0x1_0000_0000, u3 % 0x1_0000_0000, u4];
    ReduceArith(x.x0, x.x1, x.x2, x.x3, x.x4, u5, u0, u1, u2, u3);
    Value5Of(u0 % 0x1_0000_0000, u1 % 0x1_0000_0000, u2 % 0x1_0000_0000, u3 % 0x1_0000_0000, u4);
    ColumnsOf(x);
    Shift(Value5(h), ColumnsValue(x), -(u5 / 4), P130);
  }

  // ---------- poly_blocks ----------

  lemma BlockWords(block: seq<u8>)
    requires |block| == 16
    ensures Num(block, 256, 16) == Value4([WordAt(block, 0), WordAt(block, 1), WordAt(block, 2), WordAt(block, 3)])
    ensures Pow(256, 16) == B128
  {
    var w: seq<u32> := [WordAt(block, 0), WordAt(block, 1), WordAt(block, 2), WordAt(block, 3)];
    WordWeights();
    PowBytes(4);
    hide Load32, Pow;
    BytesAsWords(block, w, 4);
    assert Num(w, B32, 2) == Num(w, B32, 0) + w[0] * Pow(B32, 0) + w[1] * Pow(B32, 1);
    assert Num(w, B32, 4) == Num(w, B32, 2) + w[2] * Pow(B32, 2) + w[3] * Pow(B32, 3);
  }

  /** One round of poly_blocks: h becomes (h + c) * r modulo 2^130 - 5. */
  method Block(h: seq<u32>, r: seq<u32>, block: seq<u8>, end: u32) returns (h': seq<u32>)
    requires Small(h) && Clamped(r) && |block| == 16 && end <= 1
    ensures Small(h') && Cong(Value5(h'), (Value5(h) + Num(block, 256, 16) + end * B128) * Value4(r), P130)
  {
    hide Num, Load32, Cong, Value4, Value5, ColumnsValue, SumValue;
    var s := Limbs5(h[0] + WordAt(block, 0), h[1] + WordAt(block, 1), h[2] + WordAt(block, 2), h[3] + WordAt(block, 3), h[4] + end);
    SumMeans(h, block, end, s);
    var x := Multiply(s, r);
    h' := Reduce(x);
    Trans(Value5(h'), ColumnsValue(x), SumValue(s) * Value4(r), P130);
  }

  lemma SumMeans(h: seq<u32>, block: seq<u8>, end: u32, s: Limbs5)
    requires Small(h) && |block| == 16 && end <= 1
    requires s.s0 == h[0] + WordAt(block, 0) && s.s1 == h[1] + WordAt(block, 1) && s.s2 == h[2] + WordAt(block, 2)
    requires s.s3 == h[3] + WordAt(block, 3) && s.s4 == h[4] + end
    ensures SumValue(s) == Value5(h) + Num(block, 256, 16) + end * B128
  {
    hide Num, Load32;
    BlockWords(block);
  }

  // ---------- the message so far ----------

  /** One more full block. */
  lemma AccAppend(m: seq<u8>, block: seq<u8>, r: int)
    requires |m| % 16 == 0 && |block| == 16
    ensures |m + block| % 16 == 0 && Acc(m + block, r) == Absorb(Acc(m, r), BlockNumber(block), r)
  {
    hide Absorb, BlockNumber;
    assert (m + block)[..|m|] == m && (m + block)[|m|..] == block;
  }

  lemma AbsorbCong(h: int, acc: int, n: int, r: int, h': int)
    requires Cong(h, acc, P130) && Cong(h', (h + n) * r, P130)
    ensures Cong(h', Absorb(acc, n, r), P130)
  {
    hide Cong;
    Refl(n, P130);
    Add(h, acc, n, n, P130);
    Refl(r, P130);
    Mul(h + n, acc + n, r, r, P130);
    Trans(h', (h + n) * r, (acc + n) * r, P130);
    Shift((acc + n) * r, Absorb(acc, n, r), (acc + n) * r / P130, P130);
    Trans(h', (acc + n) * r, Absorb(acc, n, r), P130);
  }

  /** The last block, padded with a 1 and zeros, spells the block number. */
  lemma PaddedBlock(block: seq<u8>, rest: seq<u8>)
    requires |block| == 16 && |rest| < 16 && block[..|rest|] == rest && block[|rest|] == 1
    requires forall i :: |rest| < i < 16 ==> block[i] == 0
    ensures Num(block, 256, 16) == BlockNumber(rest)
  {
    NumPrefix(block, rest, 256, |rest|);
    ZeroTail(block, |rest| + 1);
  }

  lemma {:induction false} ZeroTail(s: seq<u8>, n: nat)
    requires n <= |s| && forall i :: n <= i < |s| ==> s[i] == 0
    ensures Num(s, 256, |s|) == Num(s, 256, n)
    decreases |s|
  {
    if n < |s| {
      var t := s[..|s| - 1];
      ZeroTail(t, n);
      NumPrefix(s, t, 256, n);
      NumPrefix(s, t, 256, |s| - 1);
    }
  }

  // ---------- the key ----------

  /** Section 2.5.1 of RFC 8439: the top four bits of bytes 3, 7, 11 and 15 and the low two bits of
      bytes 4, 8 and 12 are cleared. */
  function ClampBytes(k: seq<u8>): (c: seq<u8>)
    requires |k| >= 16
    ensures |c| == 16
  {
    [k[0], k[1], k[2], k[3] % 16, k[4] / 4 * 4, k[5], k[6], k[7] % 16,
     k[8] / 4 * 4, k[9], k[10], k[11] % 16, k[12] / 4 * 4, k[13], k[14], k[15] % 16]
  }

  /** & 0x0fffffff */
  function LowBits(x: u32): (r: u32)
  {
    x % 0x10000000
  }

  /** & 0x0ffffffc */
  function MiddleBits(x: u32): (r: u32)
  {
    x % 0x10000000 / 4 * 4
  }

  lemma ClampedWords(k: seq<u8>, i: nat)
    requires |k| >= 16 && i < 4
    ensures WordAt(ClampBytes(k), i) == if i == 0 then LowBits(WordAt(k, 0)) else MiddleBits(WordAt(k, i))
  {
    hide Load32, LowBits, MiddleBits;
    ClampWord(k[4 * i], k[4 * i + 1], k[4 * i + 2], k[4 * i + 3]);
  }

  lemma ClampWord(a: u8, b: u8, c: u8, d: u8)
    ensures Load32(a, b, c, d % 16) == LowBits(Load32(a, b, c, d))
    ensures Load32(a / 4 * 4, b, c, d % 16) == MiddleBits(Load32(a, b, c, d))
  {
    hide Load32;
    var low: int := a + 0x100 * b + 0x1_0000 * c;
    Quotient(Load32(a, b, c, d), d / 16, low + 0x100_0000 * (d % 16), 0x10000000);
    Quotient(low + 0x100_0000 * (d % 16), a / 4 + 0x40 * b + 0x4000 * c + 0x40_0000 * (d % 16), a % 4, 4);
  }

  lemma KeyWords(key: seq<u8>, r: seq<u32>)
    requires |key| >= 16 && |r| == 4 && forall i :: 0 <= i < 4 ==> r[i] == if i == 0 then LowBits(WordAt(key, 0)) else MiddleBits(WordAt(key, i))
    ensures Value4(r) == Num(ClampBytes(key), 256, 16) && Clamped(r)
  {
    hide Num, Load32, WordAt;
    ClampedWords(key, 0);
    ClampedWords(key, 1);
    ClampedWords(key, 2);
    ClampedWords(key, 3);
    BlockWords(ClampBytes(key));
  }

  // ---------- final ----------

  /** The number of times 2^130 - 5 has to come off h, by carrying 5 through it. */
  method Excess(h: seq<u32>) returns (c: u64)
    requires Small(h)
    ensures c == (Value5(h) + 5) / 0x400000000000000000000000000000000 * 5 && c <= 5
  {
    hide Num, Pow;
    c := 5;
    NumZero(h);
    for i := 0 to 4
      invariant c <= 5 && (i > 0 ==> c <= 1)
      invariant 0 <= Carried(h, i, c) < Pow(B32, i)
    {
      CarryStep(h, i, c);
      c := c + h[i];
      c := c / 0x1_0000_0000;
    }
    LowFour(h);
    c := c + h[4];
    ExcessMeans(Num(h, B32, 4), h[4], c, Value5(h));
    c := (c / 4) * 5;
  }

  /** What of 5 + the first i words lies below the carry. */
  ghost function Carried(h: seq<u32>, i: nat, c: int): int
    requires i <= |h|
  {
    5 + Num(h, B32, i) - c * Pow(B32, i)
  }

  lemma NumZero(h: seq<u32>)
    ensures Num(h, B32, 0) == 0 && Pow(B32, 0) == 1
  {
  }

  lemma CarryStep(h: seq<u32>, i: nat, c: int)
    requires i < |h| && 0 <= Carried(h, i, c) < Pow(B32, i)
    ensures 0 <= Carried(h, i + 1, (c + h[i]) / 0x1_0000_0000) < Pow(B32, i + 1)
  {
    var w := Pow(B32, i);
    assert Num(h, B32, i + 1) == Num(h, B32, i) + h[i] * w && Pow(B32, i + 1) == B32 * w;
    hide Num, Pow;
    CarryArith(Num(h, B32, i), h[i], c, w);
  }

  lemma CarryArith(v: int, d: int, c: int, w: int)
    requires 0 <= 5 + v - c * w < w
    ensures 0 <= 5 + (v + d * w) - ((c + d) / 0x1_0000_0000) * (B32 * w) < B32 * w
  {
    var q, r := (c + d) / 0x1_0000_0000, (c + d) % 0x1_0000_0000;
    assert c + d == q * B32 + r;
    assert (c + d) * w == q * (B32 * w) + r * w by {
      assert (q * B32) * w == q * (B32 * w);
    }
    DigitBound(r, B32, w);
  }

  lemma LowFour(h: seq<u32>)
    requires |h| == 5
    ensures Value5(h) == Num(h, B32, 4) + B128 * h[4] && Pow(B32, 4) == B128
    ensures 0 <= Num(h, B32, 4) < B128
  {
    WordWeights();
    hide Pow;
    NumBound(h, B32, 4);
    assert Num(h, B32, 2) == Num(h, B32, 0) + h[0] * Pow(B32, 0) + h[1] * Pow(B32, 1);
    assert Num(h, B32, 4) == Num(h, B32, 2) + h[2] * Pow(B32, 2) + h[3] * Pow(B32, 3);
  }

  lemma ExcessMeans(low: int, top: int, c: int, v: int)
    requires v == low + B128 * top && 0 <= low < B128 && 0 <= top <= 4
    requires 0 <= 5 + low - (c - top) * B128 < B128
    ensures (v + 5) / 0x400000000000000000000000000000000 == c / 4 && 0 <= c / 4 <= 1
  {
    Quotient(v + 5, c / 4, v + 5 - c / 4 * 0x400000000000000000000000000000000, 0x400000000000000000000000000000000);
  }

  /** Adds the excess and the pad, and writes the low 128 bits out. */
  method AddAndStore(h: seq<u32>, pad: seq<u32>, excess: u64, mac: array<u8>)
    requires |h| == 5 && |pad| == 4 && excess <= 5 && mac.Length == 16
    modifies mac
    ensures Num(mac[..], 256, 16) == (excess + Num(h, B32, 4) + Num(pad, B32, 4)) % B128
  {
    hide Num, Pow, Load32;
    var c: u64 := excess;
    ghost var w: seq<u32> := [];
    SumStart(h, pad, w, c);
    for i := 0 to 4
      invariant |w| == i && c <= 0x1_ffff_ffff
      invariant forall k :: 0 <= k < i ==> WordAt(mac[..], k) == w[k]
      invariant Stored(w, c, i) == excess + Num(h, B32, i) + Num(pad, B32, i)
    {
      c := c + h[i] + pad[i];
      StoreStep(h, pad, w, c, i);
      Store32(mac, 4 * i, c % 0x1_0000_0000);
      w := w + [c % 0x1_0000_0000];
      c := c / 0x1_0000_0000;
    }
    BytesAsWords(mac[..], w, 4);
    StoredAll(w, c, excess + Num(h, B32, 4) + Num(pad, B32, 4));
  }

  /** The words stored so far and the carry above them. */
  ghost function Stored(w: seq<u32>, c: int, i: nat): int
    requires i <= |w|
  {
    Num(w, B32, i) + c * Pow(B32, i)
  }

  lemma SumStart(h: seq<u32>, pad: seq<u32>, w: seq<u32>, c: int)
    ensures Stored(w, c, 0) == c + Num(h, B32, 0) + Num(pad, B32, 0)
  {
  }

  lemma StoreStep(h: seq<u32>, pad: seq<u32>, w: seq<u32>, c: u64, i: nat)
    requires i < |h| && i < |pad| && |w| == i
    ensures Stored(w + [c % 0x1_0000_0000], c / 0x1_0000_0000, i + 1)
            == Stored(w, c - h[i] - pad[i], i) + (Num(h, B32, i + 1) - Num(h, B32, i)) + (Num(pad, B32, i + 1) - Num(pad, B32, i))
  {
    var w', p := w + [c % 0x1_0000_0000], Pow(B32, i);
    NumPrefix(w, w', B32, i);
    assert Num(w', B32, i + 1) == Num(w', B32, i) + (c % 0x1_0000_0000) * p && Pow(B32, i + 1) == B32 * p;
    hide Num, Pow;
    StoreArith(c, h[i], pad[i], p);
  }

  lemma StoreArith(c: int, a: int, b: int, p: int)
    ensures (c % 0x1_0000_0000) * p + (c / 0x1_0000_0000) * (B32 * p) == (c - a - b) * p + a * p + b * p
  {
    var q, r := c / 0x1_0000_0000, c % 0x1_0000_0000;
    assert (q * B32 + r) * p == q * (B32 * p) + r * p by { assert (q * B32) * p == q * (B32 * p); }
    assert c == q * B32 + r;
  }

  lemma StoredAll(w: seq<u32>, c: int, x: int)
    requires |w| == 4 && Stored(w, c, 4) == x
    ensures Num(w, B32, 4) == x % B128
  {
    WordWeights();
    NumBound(w, B32, 4);
    Quotient(x, c, Num(w, B32, 4), B128);
  }

  /** Taking the excess off leaves the residue, modulo 2^128. */
  lemma FinalArith(v: int, acc: int, low: int, s: int, tag: int)
    requires 0 <= v < 5 * B128 && 0 <= acc < P130 && Cong(v, acc, P130) && Cong(low, v, B128)
    requires tag == ((v + 5) / 0x400000000000000000000000000000000 * 5 + low + s) % B128
    ensures tag == (acc + s) % B128
  {
    var q := (v + 5) / 0x400000000000000000000000000000000;
    var k := Witness(v, acc, P130);
    assert 0 <= k <= 1;
    assert q == k;
    var j := Witness(low, v, B128);
    Shift(q * 5 + low + s, acc + s, j + 4 * q, B128);
  }

  /** h holds the accumulator of the full blocks m. */
  ghost predicate Absorbed(h: seq<u32>, r: seq<u32>, m: seq<u8>)
  {
    match |r|
    case 4 => Small(h) && Clamped(r) && |m| % 16 == 0 && Cong(Value5(h), Acc(m, Value4(r)), P130)
    case _ => false
  }

  lemma AbsorbedNext(h: seq<u32>, r: seq<u32>, m: seq<u8>, block: seq<u8>, n: int, h': seq<u32>)
    requires Absorbed(h, r, m) && n == BlockNumber(block)
    requires Small(h') && Cong(Value5(h'), (Value5(h) + n) * Value4(r), P130)
    ensures Cong(Value5(h'), Absorb(Acc(m, Value4(r)), BlockNumber(block), Value4(r)), P130)
    ensures |block| == 16 ==> Absorbed(h', r, m + block)
  {
    hide Cong, Absorb, Value4, Value5, BlockNumber, Clamped;
    AbsorbCong(Value5(h), Acc(m, Value4(r)), n, Value4(r), Value5(h'));
    if |block| == 16 {
      AccAppend(m, block, Value4(r));
    }
  }

  class Poly1305Ctx {
    const c: array<u8>
    var c_idx: nat
    var r: seq<u32>
    var pad: seq<u32>
    var h: seq<u32>

    /** The state after the message `msg`: its full blocks are in h, and the rest waits in c. */
    ghost predicate After(msg: seq<u8>)
      reads this, c
    {
      && c.Length == 16 && c_idx == |msg| % 16 && |pad| == 4
      && c[..c_idx] == msg[|msg| - c_idx..] && Absorbed(h, r, msg[..|msg| - c_idx])
    }

    /** crypto_poly1305_init */
    constructor Init(key: seq<u8>)
      requires |key| == 32
      ensures After([]) && fresh(c)
      ensures Value4(r) == Num(ClampBytes(key), 256, 16) && Num(pad, B32, 4) == Num(key[16..], 256, 16)
    {
      hide Num, Load32, Clamped, LowBits, MiddleBits, ClampBytes;
      h := [0, 0, 0, 0, 0];
      c_idx := 0;
      c := new u8[16](i => 0);
      var words: seq<u32> := [LowBits(WordAt(key, 0)), MiddleBits(WordAt(key, 1)), MiddleBits(WordAt(key, 2)), MiddleBits(WordAt(key, 3))];
      KeyWords(key, words);
      r := words;
      pad := LoadWords(key[16..], 4);
      new;
      assert c[..0] == [];
    }

    /** Fills the waiting block as far as the message goes and absorbs it when it is full. */
    method Align(message: seq<u8>, ghost msg: seq<u8>) returns (aligned: nat, ghost full: seq<u8>)
      requires After(msg)
      modifies this`h, this`c_idx, c
      ensures c.Length == 16 && c_idx < 16 && |pad| == 4 && aligned <= |message|
      ensures full + c[..c_idx] == msg + message[..aligned] && Absorbed(h, r, full)
      ensures c_idx == 0 || aligned == |message|
    {
      hide Absorbed;
      aligned := if (16 - c_idx) % 16 < |message| then (16 - c_idx) % 16 else |message|;
      GapFacts(c_idx, |message|, aligned);
      full := msg[..|msg| - c_idx];
      assert msg == full + c[..c_idx];
      Assoc(full, c[..c_idx], message[..aligned]);
      Fill(message[..aligned]);
      if c_idx == 16 {
        assert c[..16] == c[..];
        h := PolyBlocks(h, r, c[..], full);
        full := full + c[..];
        c_idx := 0;
        assert full + c[..0] == full;
      }
    }

    /** crypto_poly1305_update: any chunk of any length continues the message. */
    method Update(message: seq<u8>, ghost msg: seq<u8>)
      requires After(msg)
      modifies this`h, this`c_idx, c
      ensures After(msg + message)
    {
      hide Absorbed;
      if |message| == 0 {
        assert msg + message == msg;
        return;
      }
      var aligned;
      ghost var full;
      aligned, full := Align(message, msg);
      var rest := message[aligned..];
      var nb_blocks := |rest| / 16;
      h := PolyBlocks(h, r, rest[..16 * nb_blocks], full);
      ghost var waiting := c[..c_idx];
      Fill(rest[16 * nb_blocks..]);
      Recut(msg, message, aligned, full, waiting, nb_blocks);
      AbsorbedShape(h, r, full + rest[..16 * nb_blocks]);
      SplitAt(full + rest[..16 * nb_blocks], c[..c_idx], msg + message);
    }

    /** Copies bytes into the block buffer. */
    method Fill(bytes: seq<u8>)
      requires c.Length == 16 && c_idx + |bytes| <= 16
      modifies this`c_idx, c
      ensures c_idx == old(c_idx) + |bytes|
      ensures c[..c_idx] == old(c[..c_idx]) + bytes
    {
      ghost var before := c[..c_idx];
      for i := 0 to |bytes|
        invariant c_idx == old(c_idx) + i && c[..c_idx] == before + bytes[..i]
      {
        c[c_idx] := bytes[i];
        c_idx := c_idx + 1;
      }
    }

    /** The last, partial block. */
    method Finish(ghost msg: seq<u8>)
      requires After(msg)
      modifies this`h, c
      ensures Small(h) && Cong(Value5(h), AccAll(msg, Value4(r)), P130)
    {
      hide Num, Pow, Cong, Value4, Value5, Clamped, Absorb;
      if c_idx != 0 {
        ghost var rest, seen := msg[|msg| - c_idx..], msg[..|msg| - c_idx];
        AbsorbedShape(h, r, seen);
        for i := c_idx to 16
          invariant c[..c_idx] == rest && h == old(h)
          invariant forall k :: c_idx <= k < i ==> c[k] == 0
        {
          c[i] := 0;
        }
        c[c_idx] := 1;
        assert c[..c_idx] == rest;
        PaddedBlock(c[..], rest);
        ghost var old_h := h;
        h := Block(h, r, c[..], 0);
        AbsorbedNext(old_h, r, seen, rest, BlockNumber(rest), h);
      } else {
        assert msg[..|msg|] == msg;
      }
    }

    /** crypto_poly1305_final: the tag of the whole message, however it was cut. */
    method Final(mac: array<u8>, ghost msg: seq<u8>)
      requires After(msg) && mac.Length == 16 && mac != c
      modifies this`h, c, mac
      ensures Num(mac[..], 256, 16) == Tag(msg, Value4(r), Num(pad, B32, 4))
    {
      hide Num, Cong, Value4, AccAll, Absorbed;
      assert |r| == 4 by { AbsorbedShape(h, r, msg[..|msg| - c_idx]); }
      Finish(msg);
      var excess := Excess(h);
      LowFour(h);
      AddAndStore(h, pad, excess, mac);
      AccRange(msg, Value4(r));
      ghost var top: int := h[4];
      Shift(Num(h, B32, 4), Value5(h), 0 - top, B128);
      FinalArith(Value5(h), AccAll(msg, Value4(r)), Num(h, B32, 4), Num(pad, B32, 4), Num(mac[..], 256, 16));
    }
  }

  lemma AbsorbedShape(h: seq<u32>, r: seq<u32>, m: seq<u8>)
    requires Absorbed(h, r, m)
    ensures |r| == 4 && Clamped(r) && Small(h) && |m| % 16 == 0
  {
  }

  /** Cutting the message at the new block boundary. */
  lemma Recut(msg: seq<u8>, message: seq<u8>, aligned: nat, full: seq<u8>, waiting: seq<u8>, nb_blocks: nat)
    requires aligned <= |message| && full + waiting == msg + message[..aligned] && 16 * nb_blocks <= |message| - aligned
    requires nb_blocks > 0 ==> waiting == []
    ensures var rest := message[aligned..];
            (full + rest[..16 * nb_blocks]) + (waiting + rest[16 * nb_blocks..]) == msg + message
  {
    var rest := message[aligned..];
    var blocks, last := rest[..16 * nb_blocks], rest[16 * nb_blocks..];
    assert message[..aligned] + rest == message && blocks + last == rest;
    assert blocks + waiting == waiting + blocks;
    Assoc(full, blocks, waiting + last);
    Assoc(blocks, waiting, last);
    Assoc(waiting, blocks, last);
    Assoc(full, waiting, rest);
    Assoc(msg, message[..aligned], rest);
  }

  lemma SplitAt(full: seq<u8>, waiting: seq<u8>, msg: seq<u8>)
    requires full + waiting == msg && |full| % 16 == 0 && |waiting| < 16
    ensures |waiting| == |msg| % 16 && msg[|msg| - |waiting|..] == waiting && msg[..|msg| - |waiting|] == full
  {
  }

  /** gap(c_idx, 16), cut to the message: it fills the block, or takes the whole message. */
  lemma GapFacts(c_idx: nat, size: nat, aligned: nat)
    requires c_idx < 16 && aligned == if (16 - c_idx) % 16 < size then (16 - c_idx) % 16 else size
    ensures aligned <= size && (c_idx + aligned == 16 || aligned == size || (c_idx == 0 && aligned == 0)) && c_idx + aligned <= 16
  {
  }

  /** poly_blocks on whole message blocks. */
  method PolyBlocks(h0: seq<u32>, r: seq<u32>, data: seq<u8>, ghost m: seq<u8>) returns (h: seq<u32>)
    requires |data| % 16 == 0 && Absorbed(h0, r, m)
    ensures Absorbed(h, r, m + data)
  {
    hide Num, Pow, Cong, Value4, Value5, Clamped, Absorbed;
    var nb_blocks := |data| / 16;
    h := h0;
    assert m + data[..0] == m;
    for i := 0 to nb_blocks
      invariant Absorbed(h, r, m + data[..16 * i])
    {
      var block := data[16 * i..16 * i + 16];
      ghost var seen, old_h := m + data[..16 * i], h;
      AbsorbedShape(h, r, seen);
      h := Block(h, r, block, 1);
      BlockWords(block);
      AbsorbedNext(old_h, r, seen, block, Num(block, 256, 16) + B128, h);
      assert m + data[..16 * (i + 1)] == seen + block;
    }
    assert data[..16 * nb_blocks] == data;
  }

  lemma AccRange(msg: seq<u8>, r: int)
    ensures 0 <= AccAll(msg, r) < P130
  {
  }

  /** crypto_poly1305: the one-time tag of RFC 8439 for every key and message. */
  method Poly1305(mac: array<u8>, message: seq<u8>, key: seq<u8>)
    requires mac.Length == 16 && |key| == 32
    modifies mac
    ensures Num(mac[..], 256, 16) == Tag(message, Num(ClampBytes(key), 256, 16), Num(key[16..], 256, 16))
  {
    hide Num, Tag, Value4;
    var ctx := new Poly1305Ctx.Init(key);
    ghost var r, pad := ctx.r, ctx.pad;
    ctx.Update(message, []);
    assert [] + message == message;
    ctx.Final(mac, message);
  }
}
