/** The Ed25519 verification ladder (monocypher.c, crypto_eddsa_check_equation), over an abstract group. */
module SignatureCheck {
  import opened Sums
  import opened Words
  import opened ScalarBits
  import opened ScalarModL
  import opened SlidingWindow
  import opened AbelianGroup
  import opened Options

  /** The curve as the ladder uses it: its group, base point, point decoding (None off the curve),
      point encoding, and the table of odd multiples of the base point. */
  datatype Curve<!G> = Curve(
    group: Group<G>, B: G, decode: seq<u8> -> Option<G>, encode: G -> seq<u8>, bWindow: seq<G>)

  /** Encoding of the neutral element. */
  function ZeroPoint(): seq<u8>
  {
    [1] + seq(31, _ => 0)
  }

  /** What the precomputed table and the point formulas are trusted for. */
  ghost predicate Sound<G(!new)>(c: Curve<G>)
  {
    && Abelian(c.group)
    && |c.bWindow| == 8
    && (forall k :: 0 <= k < 8 ==> c.bWindow[k] == Mul(c.group, 2 * k + 1, c.B))
    && (forall x :: c.encode(x) == ZeroPoint() <==> x == c.group.zero)
  }

  /** Section 5.1.7 of RFC 8032, step 3: [8][S]B = [8]R + [8][k]A. */
  ghost predicate GroupEquation<G>(c: Curve<G>, s: int, h: int, A: G, R: G)
  {
    var g := c.group;
    Mul(g, 8, Mul(g, s, c.B)) == g.add(Mul(g, 8, R), Mul(g, 8, Mul(g, h, A)))
  }

  /** A signature is accepted when both points decode, S is below L, and the equation holds. */
  ghost predicate Accepts<G>(c: Curve<G>, signature: seq<u8>, public_key: seq<u8>, h: seq<u8>)
    requires |signature| == 64 && |h| == 32
  {
    && c.decode(public_key).Some? && c.decode(signature[..32]).Some?
    && Num(signature[32..], 256, 32) < L
    && GroupEquation(c, Num(signature[32..], 256, 32), Num(h, 256, 32), c.decode(public_key).value, c.decode(signature[..32]).value)
  }

  /** ge_double */
  function Double<G>(g: Group<G>, x: G): G
  {
    g.add(x, x)
  }

  /** ge_sub */
  function Sub<G>(g: Group<G>, x: G, y: G): G
  {
    g.add(x, g.neg(y))
  }

  // ---------- one ladder step ----------

  /** Adding the table entry that a signed digit selects adds that multiple of the point. */
  method AddDigit<G(!new)>(g: Group<G>, sum: G, table: seq<G>, digit: int, width: nat, ghost P: G) returns (r: G)
    requires Abelian(g) && width >= 2 && |table| == Pow2(width - 2) && DigitFits(digit, width)
    requires forall k :: 0 <= k < |table| ==> table[k] == Mul(g, 2 * k + 1, P)
    ensures r == g.add(sum, Mul(g, digit, P))
  {
    hide Abelian, Mul, DigitFits, Pow2;
    DigitIndexesTable(digit, width);
    r := sum;
    if digit > 0 {
      r := g.add(r, table[digit / 2]);
    }
    if digit < 0 {
      r := Sub(g, r, table[(-digit) / 2]);
      MulNeg(g, -digit, P);
    }
    if digit == 0 {
      MulZero(g, P);
      Unit(g, sum);
    }
  }

  /** One round after the doubling: both digits are added at the current weight. */
  method AddDigits<G(!new)>(c: Curve<G>, doubled: G, N: G, lutA: seq<G>, h_digit: int, s_digit: int, ghost a: int, ghost b: int)
    returns (sum: G)
    requires Sound(c) && DigitFits(h_digit, 3) && DigitFits(s_digit, 5)
    requires |lutA| == 2 && forall k :: 0 <= k < 2 ==> lutA[k] == Mul(c.group, 2 * k + 1, N)
    requires doubled == Double(c.group, Lin(c.group, a, N, b, c.B))
    ensures sum == Lin(c.group, 2 * a + h_digit, N, 2 * b + s_digit, c.B)
  {
    hide Abelian, Mul, Pow2, DigitFits, Lin;
    TableSizes();
    LinAdd(c.group, a, b, a, b, N, c.B);
    sum := AddDigit(c.group, doubled, lutA, h_digit, 3, N);
    LinAddFirst(c.group, a + a, b + b, h_digit, N, c.B);
    sum := AddDigit(c.group, sum, c.bWindow, s_digit, 5, c.B);
    LinAddSecond(c.group, a + a + h_digit, b + b, s_digit, N, c.B);
  }

  lemma TableSizes()
    ensures Pow2(1) == 2 && Pow2(3) == 8
  {
  }

  /** The merged double-and-add ladder: it ends with [h]N + [s]B. */
  method Ladder<G(!new)>(c: Curve<G>, N: G, lutA: seq<G>, h: seq<u8>, s: seq<u8>) returns (sum: G)
    requires Sound(c) && |h| == |s| == 32
    requires BitNum(h, 256) < Pow2(253) && BitNum(s, 256) < Pow2(253)
    requires |lutA| == 2 && forall k :: 0 <= k < 2 ==> lutA[k] == Mul(c.group, 2 * k + 1, N)
    ensures sum == Lin(c.group, BitNum(h, 256), N, BitNum(s, 256), c.B)
  {
    hide Abelian, Mul, Recodes, BitNum, Pow2, DigitFits, Lin;
    var g := c.group;
    TableSizes();
    var h_slide := new SlideCtx(h, 3);
    var s_slide := new SlideCtx(s, 5);
    var i: int := if h_slide.next_check >= s_slide.next_check then h_slide.next_check else s_slide.next_check;
    sum := g.zero;
    ghost var a, b := 0, 0;
    LinZero(g, N, c.B);
    while i >= 0
      invariant -1 <= i <= 253
      invariant h_slide.State(h, i, a, 3) && s_slide.State(s, i, b, 5)
      invariant sum == Lin(g, a, N, b, c.B)
    {
      ghost var a0, b0 := a, b;
      sum := Double(g, sum);
      var h_digit := h_slide.Step(3, i, h, a);
      var s_digit := s_slide.Step(5, i, s, b);
      a, b := 2 * a + h_digit, 2 * b + s_digit;
      sum := AddDigits(c, sum, N, lutA, h_digit, s_digit, a0, b0);
      i := i - 1;
    }
    RecodedFully(h, a, 3, h_slide.next_index, h_slide.next_digit, Position(h_slide.next_check));
    RecodedFully(s, b, 5, s_slide.next_index, s_slide.next_digit, Position(s_slide.next_check));
  }

  lemma LinZero<G(!new)>(g: Group<G>, A: G, B: G)
    requires Abelian(g)
    ensures g.zero == Lin(g, 0, A, 0, B)
  {
    MulZero(g, A);
    MulZero(g, B);
    Unit(g, g.zero);
  }

  // ---------- the final comparison ----------

  /** Three doublings multiply by 8. */
  lemma Eightfold<G(!new)>(g: Group<G>, x: G)
    requires Abelian(g)
    ensures Double(g, Double(g, Double(g, x))) == Mul(g, 8, x)
  {
    hide Abelian, Mul;
    MulOne(g, x);
    MulAdd(g, 1, 1, x);
    MulAdd(g, 2, 2, x);
    MulAdd(g, 4, 4, x);
  }

  /** [8](-[h]A + [s]B - R) is the neutral element exactly when the group equation holds. */
  lemma EquationDecided<G(!new)>(c: Curve<G>, s: int, h: nat, A: G, R: G)
    requires Sound(c)
    ensures var g := c.group;
            (Mul(g, 8, g.add(Lin(g, h, g.neg(A), s, c.B), g.neg(R))) == g.zero) <==> GroupEquation(c, s, h, A, R)
  {
    hide Abelian, Mul;
    var g := c.group;
    var sB, hA := Mul(g, s, c.B), Mul(g, h, A);
    TimesNeg(g, h, A);
    TimesSum(g, 8, g.neg(hA), sB);
    TimesSum(g, 8, g.add(g.neg(hA), sB), g.neg(R));
    TimesNeg(g, 8, hA);
    TimesNeg(g, 8, R);
    DifferenceIsZero(g, Mul(g, 8, hA), Mul(g, 8, sB), Mul(g, 8, R));
  }

  lemma DifferenceIsZero<G(!new)>(g: Group<G>, a: G, s: G, r: G)
    requires Abelian(g)
    ensures (g.add(g.add(g.neg(a), s), g.neg(r)) == g.zero) <==> s == g.add(r, a)
  {
    hide Abelian;
    var d := g.add(g.neg(a), s);
    if g.add(d, g.neg(r)) == g.zero {
      Comm(g, d, g.neg(r));
      NegOf(g, g.neg(r), d);
      NegNeg(g, r);
      // d = r, so s = r + a
      Comm(g, g.neg(a), s);
      Assoc(g, s, g.neg(a), a);
      Inverse(g, a);
      Unit(g, s);
    }
    if s == g.add(r, a) {
      Comm(g, g.neg(a), s);
      Assoc(g, r, a, g.neg(a));
      Inverse(g, a);
      Unit(g, r);
      Inverse(g, r);
    }
  }

  /** crypto_eddsa_check_equation: 0 exactly for the signatures that section 5.1.7 of RFC 8032 accepts,
      -1 for all others. h is the hash modulo L. */
  method CheckEquation<G(!new)>(c: Curve<G>, signature: seq<u8>, public_key: seq<u8>, h: seq<u8>) returns (r: int)
    requires Sound(c) && |signature| == 64 && |public_key| == |h| == 32 && Num(h, 256, 32) < L
    ensures r == if Accepts(c, signature, public_key, h) then 0 else -1
  {
    hide Abelian, Mul, BitNum, Num, Pow2, Lin, GroupEquation, Val;
    var g := c.group;
    var s := signature[32..];
    var above := IsAboveL(LoadWords(s, 8));
    ScalarSizes(s, h);
    var A, R := c.decode(public_key), c.decode(signature[..32]);
    if A.None? || R.None? || above == 1 {
      return -1;
    }
    var minus_A, minus_R := g.neg(A.value), g.neg(R.value);
    var minus_A2 := Double(g, minus_A);
    var lutA := [minus_A, g.add(minus_A2, minus_A)];
    OddMultiples(g, minus_A);
    var sum := Ladder(c, minus_A, lutA, h, s);
    sum := g.add(sum, minus_R);
    Eightfold(g, sum);
    EquationDecided(c, Num(s, 256, 32), Num(h, 256, 32), A.value, R.value);
    sum := Double(g, sum);
    sum := Double(g, sum);
    sum := Double(g, sum);
    r := if c.encode(sum) == ZeroPoint() then 0 else -1;
  }

  lemma OddMultiples<G(!new)>(g: Group<G>, x: G)
    requires Abelian(g)
    ensures Mul(g, 1, x) == x && Mul(g, 3, x) == g.add(Double(g, x), x)
  {
    hide Abelian, Mul;
    MulOne(g, x);
    MulAdd(g, 1, 1, x);
    MulAdd(g, 2, 1, x);
  }

  lemma ScalarSizes(s: seq<u8>, h: seq<u8>)
    requires |s| == |h| == 32 && Num(h, 256, 32) < L
    ensures Val(LoadWords(s, 8), 8) == Num(s, 256, 32) == BitNum(s, 256)
    ensures Num(h, 256, 32) == BitNum(h, 256) < Pow2(253)
    ensures Num(s, 256, 32) < L ==> BitNum(s, 256) < Pow2(253)
  {
    hide Num, BitNum, Pow2, ScalarBit;
    BitsSpellNumber(s, 32);
    BitsSpellNumber(h, 32);
    Pow253();
  }
}
