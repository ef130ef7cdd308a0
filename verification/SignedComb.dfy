/** Base point multiplication with twin signed combs (monocypher.c, ge_scalarmult_base), over an abstract group. */
module SignedComb {
  import M = ModArith
  import opened Sums
  import opened Words
  import opened ScalarBits
  import opened BitOps
  import opened AbelianGroup
  import ScalarModL

  const L := ScalarModL.L

  // ---------- every bit means 1 or -1 ----------

  /** All bits set form: bit 1 means 1, bit 0 means -1. */
  function Sign(s: seq<u8>, i: nat): (d: int)
    requires i < 8 * |s|
    ensures d == 1 || d == -1
  {
    2 * ScalarBit(s, i) - 1
  }

  /** The number that signs 0 to n - 1 spell. */
  ghost function SignedNum(s: seq<u8>, n: nat): int
    requires n <= 8 * |s|
  {
    if n == 0 then 0 else SignedNum(s, n - 1) + Sign(s, n - 1) * Pow2(n - 1)
  }

  /** Reading bits as signs doubles the number and takes off all ones. */
  lemma {:induction false} SignsReadTwice(s: seq<u8>, n: nat)
    requires n <= 8 * |s|
    ensures SignedNum(s, n) == 2 * BitNum(s, n) - (Pow2(n) - 1)
  {
    hide Sign, ScalarBit;
    if n > 0 {
      SignsReadTwice(s, n - 1);
      SignOfBit(s, n - 1);
    }
  }

  lemma SignOfBit(s: seq<u8>, i: nat)
    requires i < 8 * |s|
    ensures Sign(s, i) * Pow2(i) == 2 * (ScalarBit(s, i) * Pow2(i)) - Pow2(i)
  {
    hide ScalarBit, Pow2;
    TwiceMinusOne(ScalarBit(s, i), Pow2(i));
  }

  lemma TwiceMinusOne(b: int, w: int)
    ensures (2 * b - 1) * w == 2 * (b * w) - w
  {
  }

  /** (2^256 - 1) / 2 modulo L. */
  const HALF_ONES: seq<u8> := [
    142, 74, 204, 70, 186, 24, 118, 107, 184, 231, 190, 57, 250, 173, 119, 99,
    255, 255, 255, 255, 255, 255, 255, 255, 255, 255, 255, 255, 255, 255, 255, 7]

  /** 1 / 2 modulo L. */
  const HALF_MOD_L: seq<u8> := [
    247, 233, 122, 46, 141, 49, 9, 44, 107, 206, 123, 81, 239, 124, 111, 10,
    0, 0, 0, 0, 0, 0, 0, 0, 0, 0, 0, 0, 0, 0, 0, 8]

  const HALF_ONES_VALUE: int := 0x7ffffffffffffffffffffffffffffff6377adfa39bee7b86b7618ba46cc4a8e
  const HALF_VALUE: int := 0x80000000000000000000000000000000a6f7cef517bce6b2c09318d2e7ae9f7

  /** With t = scalar / 2 + (2^256 - 1) / 2 mod L, the signs of t spell the scalar modulo L. */
  lemma SignsSpellScalar(t: seq<u8>, scalar: int)
    requires |t| == 32 && Num(t, 256, 32) == (scalar * HALF_VALUE + HALF_ONES_VALUE) % L
    ensures M.Cong(SignedNum(t, 256), scalar, L)
  {
    BitsSpellNumber(t, 32);
    SignsReadTwice(t, 256);
    Pow2Values();
    hide Num, BitNum, Pow2, SignedNum, ScalarBit;
    HalvesDouble(BitNum(t, 256), scalar);
  }

  lemma HalvesDouble(t: int, scalar: int)
    requires t == (scalar * HALF_VALUE + HALF_ONES_VALUE) % L
    ensures M.Cong(2 * t - 0xffffffffffffffffffffffffffffffffffffffffffffffffffffffffffffffff, scalar, L)
  {
    var x := scalar * HALF_VALUE + HALF_ONES_VALUE;
    var q := x / L;
    M.Shift(2 * t - 0xffffffffffffffffffffffffffffffffffffffffffffffffffffffffffffffff, scalar, scalar - 2 * q - 15, L);
  }

  /** The two constants are what their comments say. */
  lemma Halves()
    ensures Num(HALF_ONES, 256, 32) == HALF_ONES_VALUE && Num(HALF_MOD_L, 256, 32) == HALF_VALUE
  {
    hide Num, Load32;
    OnesWords();
    HalfWords();
    ByWords(HALF_ONES, [0x46cc4a8e, 0x6b7618ba, 0x39bee7b8, 0x6377adfa, 0xffffffff, 0xffffffff, 0xffffffff, 0x7ffffff]);
    ByWords(HALF_MOD_L, [0x2e7ae9f7, 0x2c09318d, 0x517bce6b, 0xa6f7cef, 0x0, 0x0, 0x0, 0x8000000]);
  }

  lemma OnesWords()
    ensures forall k :: 0 <= k < 8 ==> WordAt(HALF_ONES, k) == [0x46cc4a8e, 0x6b7618ba, 0x39bee7b8, 0x6377adfa, 0xffffffff, 0xffffffff, 0xffffffff, 0x7ffffff][k]
  {
    hide Load32;
  }

  lemma HalfWords()
    ensures forall k :: 0 <= k < 8 ==> WordAt(HALF_MOD_L, k) == [0x2e7ae9f7, 0x2c09318d, 0x517bce6b, 0xa6f7cef, 0x0, 0x0, 0x0, 0x8000000][k]
  {
    hide Load32;
  }

  lemma ByWords(s: seq<u8>, w: seq<u32>)
    requires |s| == 32 && |w| == 8 && forall k :: 0 <= k < 8 ==> w[k] == WordAt(s, k)
    ensures Num(s, 256, 32) == Words8(w)
  {
    hide Num, Load32, Words8;
    BytesAsWords(s, w, 8);
    Words8Value(w);
  }

  // ---------- columns of the comb ----------

  /** Bits 32k + i to 32k + 31, scanned from the top as signs. */
  ghost function Block(s: seq<u8>, k: nat, i: nat): int
    requires |s| == 32 && k < 8 && i <= 32
    decreases 32 - i
  {
    if i == 32 then 0 else 2 * Block(s, k, i + 1) + Sign(s, 32 * k + i)
  }

  lemma SignedNumNext(s: seq<u8>, n: nat)
    requires n < 8 * |s|
    ensures SignedNum(s, n + 1) == SignedNum(s, n) + Sign(s, n) * Pow2(n)
  {
  }

  lemma {:induction false} BlockSplits(s: seq<u8>, k: nat, i: nat)
    requires |s| == 32 && k < 8 && i <= 32
    ensures SignedNum(s, 32 * k + 32) == SignedNum(s, 32 * k + i) + Block(s, k, i) * Pow2(32 * k + i)
    decreases 32 - i
  {
    hide SignedNum, Sign, Pow2;
    if i < 32 {
      BlockSplits(s, k, i + 1);
      var d, w := Sign(s, 32 * k + i), Pow2(32 * k + i);
      SignedNumNext(s, 32 * k + i);
      Pow2Next(32 * k + i);
      Horner(Block(s, k, i + 1), d, w);
    }
  }

  /** The four teeth at positions i, i + 32, i + 64, i + 96. */
  ghost function Teeth(s: seq<u8>, i: nat): int
    requires i + 96 < 8 * |s|
  {
    Sign(s, i) + 0x100000000 * Sign(s, i + 32) + 0x10000000000000000 * Sign(s, i + 64)
    + 0x1000000000000000000000000 * Sign(s, i + 96)
  }

  const TWIN: int := 0x100000000000000000000000000000000

  /** What the ladder has accumulated once column i is done. */
  ghost function Columns(s: seq<u8>, i: nat): int
    requires |s| == 32 && i <= 32
    decreases 32 - i
  {
    if i == 32 then 0 else 2 * Columns(s, i + 1) + Teeth(s, i) + TWIN * Teeth(s, i + 128)
  }

  /** Blocks weighted by their places. */
  ghost function Blocks(s: seq<u8>, i: nat): int
    requires |s| == 32 && i <= 32
  {
    Block(s, 0, i) + 0x100000000 * Block(s, 1, i) + 0x10000000000000000 * Block(s, 2, i)
    + 0x1000000000000000000000000 * Block(s, 3, i)
    + TWIN * (Block(s, 4, i) + 0x100000000 * Block(s, 5, i) + 0x10000000000000000 * Block(s, 6, i)
              + 0x1000000000000000000000000 * Block(s, 7, i))
  }

  lemma {:induction false} ColumnsAreBlocks(s: seq<u8>, i: nat)
    requires |s| == 32 && i <= 32
    ensures Columns(s, i) == Blocks(s, i)
    decreases 32 - i
  {
    hide Sign;
    if i < 32 {
      ColumnsAreBlocks(s, i + 1);
    }
  }

  lemma BlockWeights()
    ensures Pow2(0) == 1 && Pow2(32) == 0x100000000 && Pow2(64) == 0x10000000000000000 && Pow2(96) == 0x1000000000000000000000000
    ensures Pow2(128) == TWIN && Pow2(160) == TWIN * 0x100000000 && Pow2(192) == TWIN * 0x10000000000000000
    ensures Pow2(224) == TWIN * 0x1000000000000000000000000
  {
    Pow2Values();
    Pow2Known(64, 32, 0x10000000000000000, 0x100000000);
    Pow2Known(128, 32, TWIN, 0x100000000);
    Pow2Known(128, 64, TWIN, 0x10000000000000000);
    Pow2Known(128, 96, TWIN, 0x1000000000000000000000000);
  }

  lemma BlockAt(s: seq<u8>, k: nat, w: int)
    requires |s| == 32 && k < 8 && Pow2(32 * k) == w
    ensures SignedNum(s, 32 * k + 32) == SignedNum(s, 32 * k) + w * Block(s, k, 0)
  {
    hide *;
    BlockSplits(s, k, 0);
  }

  lemma LowBlocks(s: seq<u8>)
    requires |s| == 32
    ensures SignedNum(s, 128) == Block(s, 0, 0) + 0x100000000 * Block(s, 1, 0) + 0x10000000000000000 * Block(s, 2, 0)
                                 + 0x1000000000000000000000000 * Block(s, 3, 0)
  {
    assert SignedNum(s, 0) == 0;
    hide *;
    BlockWeights();
    BlockAt(s, 0, 1);
    BlockAt(s, 1, 0x100000000);
    BlockAt(s, 2, 0x10000000000000000);
    BlockAt(s, 3, 0x1000000000000000000000000);
  }

  lemma HighBlocks(s: seq<u8>)
    requires |s| == 32
    ensures SignedNum(s, 256) == SignedNum(s, 128)
              + TWIN * (Block(s, 4, 0) + 0x100000000 * Block(s, 5, 0) + 0x10000000000000000 * Block(s, 6, 0)
                        + 0x1000000000000000000000000 * Block(s, 7, 0))
  {
    hide *;
    BlockWeights();
    BlockAt(s, 4, TWIN);
    BlockAt(s, 5, TWIN * 0x100000000);
    BlockAt(s, 6, TWIN * 0x10000000000000000);
    BlockAt(s, 7, TWIN * 0x1000000000000000000000000);
    Factor(TWIN, Block(s, 4, 0), Block(s, 5, 0), Block(s, 6, 0), Block(s, 7, 0));
  }

  lemma Factor(t: int, a: int, b: int, c: int, d: int)
    ensures t * (a + 0x100000000 * b + 0x10000000000000000 * c + 0x1000000000000000000000000 * d)
            == t * a + (t * 0x100000000) * b + (t * 0x10000000000000000) * c + (t * 0x1000000000000000000000000) * d
  {
  }

  /** The columns, taken together, spell the whole signed number. */
  lemma ColumnsSpellAll(s: seq<u8>)
    requires |s| == 32
    ensures Columns(s, 0) == SignedNum(s, 256)
  {
    hide SignedNum, Block, Columns;
    ColumnsAreBlocks(s, 0);
    LowBlocks(s);
    HighBlocks(s);
  }

  // ---------- the lookup ----------

  /** The mask that picks table entry `index`: 1 there, 0 at the other entries. */
  function Select(j: int, index: int): (r: int)
  {
    ((BitXor(j, index) - 1) / 256) % 2
  }

  lemma {:induction false} XorIsZero(a: nat, b: nat, n: nat)
    requires a < Pow2(n) && b < Pow2(n)
    ensures 0 <= BitXor(a, b) < Pow2(n) && (BitXor(a, b) == 0 <==> a == b)
  {
    XorBits(a, b);
    XorOfZeros();
    hide BitXor;
    if n > 0 {
      XorIsZero(a / 2, b / 2, n - 1);
    }
  }

  lemma SelectsOne(j: nat, index: nat)
    requires j < 8 && index < 8
    ensures Select(j, index) == if j == index then 1 else 0
  {
    XorIsZero(j, index, 3);
  }

  /** A precomputed point in Niels form. */
  datatype Precomp<F> = Precomp(Yp: F, Ym: F, T2: F)

  /** What a comb's entry number j stands for, in multiples of the comb's base. */
  function Entry(j: nat): int
  {
    0x1000000000000000000000000 + 0x10000000000000000 * (2 * ((j / 4) % 2) - 1)
    + 0x100000000 * (2 * ((j / 2) % 2) - 1) + (2 * (j % 2) - 1)
  }

  /** The group, its generator, and how precomputed points and their negation are read. */
  datatype Tables<!G, !F> = Tables(
    group: Group<G>, B: G, point: Precomp<F> -> G, fneg: F -> F, low: seq<Precomp<F>>, high: seq<Precomp<F>>)

  ghost predicate CombOf<G, F(!new)>(t: Tables<G, F>, comb: seq<Precomp<F>>, base: int)
  {
    |comb| == 8 && forall j :: 0 <= j < 8 ==> t.point(comb[j]) == Mul(t.group, base * Entry(j), t.B)
  }

  /** Swapping Yp and Ym and negating T2 negates a precomputed point. */
  ghost predicate Negates<G, F(!new)>(t: Tables<G, F>, c: Precomp<F>)
  {
    t.point(Precomp(c.Ym, c.Yp, t.fneg(c.T2))) == t.group.neg(t.point(c))
  }

  /** What the precomputed tables are trusted for: B has order L, and both combs hold their multiples of B. */
  ghost predicate Sound<G(!new), F(!new)>(t: Tables<G, F>)
  {
    && Abelian(t.group)
    && Mul(t.group, L, t.B) == t.group.zero
    && CombOf(t, t.low, 1) && CombOf(t, t.high, TWIN)
    && forall c :: Negates(t, c)
  }

  /** Index and sign of the entry for four teeth: entry `index` is the teeth's value, negated when the top bit is 0. */
  lemma TeethIndex(s: seq<u8>, i: nat, teeth: int, high: int, index: int)
    requires i + 96 < 8 * |s|
    requires teeth == ScalarBit(s, i) + 2 * ScalarBit(s, i + 32) + 4 * ScalarBit(s, i + 64) + 8 * ScalarBit(s, i + 96)
    requires high == teeth / 8 && index == BitXor(teeth, high - 1) % 8
    ensures 0 <= index < 8
    ensures high == 1 ==> Entry(index) == Teeth(s, i)
    ensures high == 0 ==> Entry(index) == -Teeth(s, i)
    ensures high == 0 || high == 1
  {
    hide ScalarBit, BitXor, Entry;
    EntryOfBits(ScalarBit(s, i), ScalarBit(s, i + 32), ScalarBit(s, i + 64));
    EntryOfBits(1 - ScalarBit(s, i), 1 - ScalarBit(s, i + 32), 1 - ScalarBit(s, i + 64));
    XorMinusOne(teeth);
  }

  lemma EntryOfBits(a: int, b: int, c: int)
    requires 0 <= a <= 1 && 0 <= b <= 1 && 0 <= c <= 1
    ensures Entry(a + 2 * b + 4 * c) == 0x1000000000000000000000000 + 0x10000000000000000 * (2 * c - 1)
                                        + 0x100000000 * (2 * b - 1) + (2 * a - 1)
  {
  }

  lemma XorMinusOne(x: nat)
    ensures BitXor(x, -1) == -1 - x && BitXor(x, 0) == x
  {
  }

  /** lookup_add: adds the teeth's multiple of the comb's base to p, whatever tmp_c held before. */
  method LookupAdd<G(!new), F(!new)>(t: Tables<G, F>, comb: seq<Precomp<F>>, ghost base: int,
      scalar: seq<u8>, i: nat, p: G, old_tmp: Precomp<F>)
    returns (r: G, tmp_c: Precomp<F>)
    requires Sound(t) && CombOf(t, comb, base) && |scalar| == 32 && i + 96 < 256
    ensures r == t.group.add(p, Mul(t.group, base * Teeth(scalar, i), t.B))
  {
    hide ScalarBit, BitXor, Abelian, Mul, Select, Teeth, Entry;
    var teeth: int := ScalarBit(scalar, i) + 2 * ScalarBit(scalar, i + 32)
                      + 4 * ScalarBit(scalar, i + 64) + 8 * ScalarBit(scalar, i + 96);
    var high := teeth / 8;
    var index := BitXor(teeth, high - 1) % 8;
    TeethIndex(scalar, i, teeth, high, index);
    tmp_c := old_tmp;
    for j := 0 to 8
      invariant j > index ==> tmp_c == comb[index]
    {
      SelectsOne(j, index);
      if Select(j, index) == 1 {
        tmp_c := comb[j];
      }
    }
    assert Negates(t, tmp_c);
    NegateProduct(t.group, base, Entry(index), Teeth(scalar, i), t.B);
    var tmp_a := t.fneg(tmp_c.T2);
    if BitXor(high, 1) == 1 {
      tmp_c := Precomp(tmp_c.Ym, tmp_c.Yp, tmp_a);
    }
    XorOne(high);
    r := t.group.add(p, t.point(tmp_c));
  }

  lemma XorOne(b: int)
    requires b == 0 || b == 1
    ensures BitXor(b, 1) == 1 - b
  {
  }

  lemma NegateProduct<G(!new)>(g: Group<G>, base: int, e: int, v: int, B: G)
    requires Abelian(g)
    ensures e == -v ==> g.neg(Mul(g, base * e, B)) == Mul(g, base * v, B)
  {
    hide Abelian, Mul;
    if e == -v {
      MulNeg(g, base * e, B);
      assert -(base * e) == base * v;
    }
  }

  /** Both lookups of a column. */
  method Column<G(!new), F(!new)>(t: Tables<G, F>, s: seq<u8>, i: nat, p: G, old_tmp: Precomp<F>, ghost acc: int)
    returns (r: G, tmp_c: Precomp<F>)
    requires Sound(t) && |s| == 32 && i < 32 && p == Mul(t.group, acc, t.B)
    ensures r == Mul(t.group, acc + Teeth(s, i) + TWIN * Teeth(s, i + 128), t.B)
  {
    hide Abelian, Mul, Teeth, CombOf;
    r, tmp_c := LookupAdd(t, t.low, 1, s, i, p, old_tmp);
    MulAdd(t.group, acc, 1 * Teeth(s, i), t.B);
    r, tmp_c := LookupAdd(t, t.high, TWIN, s, i + 128, r, tmp_c);
    MulAdd(t.group, acc + Teeth(s, i), TWIN * Teeth(s, i + 128), t.B);
  }

  lemma ColumnStep(s: seq<u8>, i: nat)
    requires |s| == 32 && i < 32
    ensures Columns(s, i) == 2 * Columns(s, i + 1) + Teeth(s, i) + TWIN * Teeth(s, i + 128)
    ensures Columns(s, 32) == 0
  {
  }

  /** ge_scalarmult_base: [scalar]B for every 256-bit scalar. */
  method ScalarMultBase<G(!new), F(!new)>(t: Tables<G, F>, scalar: seq<u8>, init: Precomp<F>) returns (p: G)
    requires Sound(t) && |scalar| == 32
    ensures p == Mul(t.group, Num(scalar, 256, 32), t.B)
  {
    hide Abelian, Mul, Teeth, CombOf, Columns, Num, BitNum, SignedNum, M.Cong;
    var buffer := new u8[32];
    ScalarModL.EddsaMulAdd(buffer, scalar, HALF_MOD_L, HALF_ONES);
    var s_scalar := buffer[..];
    Halves();
    SignsSpellScalar(s_scalar, Num(scalar, 256, 32));
    ColumnsSpellAll(s_scalar);
    ColumnStep(s_scalar, 31);
    MulZero(t.group, t.B);
    p := t.group.zero;
    var tmp_c;
    p, tmp_c := Column(t, s_scalar, 31, p, init, 0);
    var i := 30;
    while i >= 0
      invariant -1 <= i <= 30 && p == Mul(t.group, Columns(s_scalar, i + 1), t.B)
    {
      MulAdd(t.group, Columns(s_scalar, i + 1), Columns(s_scalar, i + 1), t.B);
      p := t.group.add(p, p);
      ColumnStep(s_scalar, i);
      p, tmp_c := Column(t, s_scalar, i, p, tmp_c, 2 * Columns(s_scalar, i + 1));
      i := i - 1;
    }
    MulCong(t.group, SignedNum(s_scalar, 256), Num(scalar, 256, 32), L, t.B);
  }
}
