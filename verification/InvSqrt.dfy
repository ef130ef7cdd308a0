/** Inverse square roots and inverses modulo 2^255 - 19 (monocypher.c, invsqrt and fe_invert). */
module InvSqrt {
  import opened ModArith
  import opened Sums
  import opened FieldElement
  import opened Fermat
  import F = FieldOps
  type Limbs = F.Limbs

  // ---------- powers in registers ----------

  /** Register t holds x^e. */
  ghost predicate Holds(t: Limbs, x: int, e: nat)
  {
    match |t|
    case 10 => F.Sized(t, 1) && Cong(Fe(t), Pow(x, e), P)
    case _ => false
  }

  lemma MakeHolds(t: Limbs, x: int, e: nat)
    requires F.Sized(t, 1) && Cong(Fe(t), Pow(x, e), P)
    ensures Holds(t, x, e)
  {
  }

  ghost function Shifted(a: nat, n: nat): nat
  {
    a * Pow2(n)
  }

  method MulPow(f: Limbs, g: Limbs, ghost x: int, ghost a: nat, ghost b: nat) returns (h: Limbs)
    requires Holds(f, x, a) && Holds(g, x, b)
    ensures Holds(h, x, a + b)
  {
    hide Fe, Pow, Cong, F.Sized;
    h := F.Mul(f, g, 1, 1);
    PowAdd(x, a, b);
    Mul(Fe(f), Pow(x, a), Fe(g), Pow(x, b), P);
    Trans(Fe(h), Fe(f) * Fe(g), Pow(x, a + b), P);
    MakeHolds(h, x, a + b);
  }

  method SquarePow(f: Limbs, ghost x: int, ghost a: nat) returns (h: Limbs)
    requires Holds(f, x, a)
    ensures Holds(h, x, 2 * a)
  {
    hide Fe, Pow, Cong, F.Sized;
    h := F.Square(f, 1);
    PowAdd(x, a, a);
    Mul(Fe(f), Pow(x, a), Fe(f), Pow(x, a), P);
    Trans(Fe(h), Fe(f) * Fe(f), Pow(x, a + a), P);
    MakeHolds(h, x, 2 * a);
  }

  /** One squaring into the register, then n - 1 more in place. */
  method SquareTimes(f: Limbs, n: nat, ghost x: int, ghost a: nat) returns (h: Limbs)
    requires n > 0 && Holds(f, x, a)
    ensures Holds(h, x, Shifted(a, n))
  {
    hide Holds, Shifted;
    h := SquarePow(f, x, a);
    PowerTwoBase(a);
    for i := 1 to n
      invariant Holds(h, x, Shifted(a, i))
    {
      h := SquarePow(h, x, Shifted(a, i));
      PowerTwoStep(a, i);
    }
  }

  lemma PowerTwoBase(a: nat)
    ensures Shifted(a, 1) == 2 * a
  {
  }

  lemma PowerTwoStep(a: nat, i: nat)
    ensures Shifted(a, i + 1) == 2 * Shifted(a, i)
  {
  }

  /** n ones in binary */
  ghost function Ones(n: nat): nat
  {
    Pow2(n) - 1
  }

  /** Shifting m ones up by n and filling in n ones. */
  method Extend(high: Limbs, n: nat, low: Limbs, ghost x: int, ghost m: nat) returns (h: Limbs)
    requires n > 0 && Holds(high, x, Ones(m)) && Holds(low, x, Ones(n))
    ensures Holds(h, x, Ones(m + n))
  {
    hide Holds, Ones, Shifted;
    h := SquareTimes(high, n, x, Ones(m));
    h := MulPow(h, low, x, Shifted(Ones(m), n), Ones(n));
    OnesJoin(m, n);
  }

  lemma OnesJoin(m: nat, n: nat)
    ensures Shifted(Ones(m), n) + Ones(n) == Ones(m + n)
  {
    hide Pow2;
    Pow2Add(m, n);
    assert (Pow2(m) - 1) * Pow2(n) == Pow2(m) * Pow2(n) - Pow2(n);
  }

  const EIGHTH: nat := 0xffffffffffffffffffffffffffffffffffffffffffffffffffffffffffffffd
  const QUARTER: nat := 0x1ffffffffffffffffffffffffffffffffffffffffffffffffffffffffffffffb
  const HALF: nat := 0x3ffffffffffffffffffffffffffffffffffffffffffffffffffffffffffffff6

  lemma Exponents()
    ensures EIGHTH == (P - 5) / 8 && QUARTER == (P - 1) / 4 && HALF == (P - 1) / 2
    ensures Ones(1) == 1 && Ones(5) == 31 && Shifted(Ones(250), 2) + 1 == EIGHTH
  {
    Pow2Values();
    assert Pow2(255) == 32 * Pow2(250);
    assert Pow2(1) == 2 && Pow2(2) == 4 && Pow2(5) == 32;
  }

  /** The first rows of the chain: x^31 on the way to x^(2^50 - 1). */
  method FirstRows(x: Limbs, ghost X: int) returns (t0: Limbs)
    requires Holds(x, X, 1)
    ensures Holds(t0, X, Ones(50))
  {
    Exponents();
    hide Holds, Pow2, Ones, Pow, Shifted;
    var t1;
    t0 := SquarePow(x, X, 1);
    t1 := SquarePow(t0, X, 2);
    t1 := SquarePow(t1, X, 4);
    t1 := MulPow(x, t1, X, 1, 8);
    t0 := MulPow(t0, t1, X, 2, 9);
    t0 := SquarePow(t0, X, 11);
    t0 := MulPow(t1, t0, X, 9, 22);
    t0 := Extend(t0, 5, t0, X, 5);
    t1 := Extend(t0, 10, t0, X, 10);
    t1 := Extend(t1, 20, t1, X, 20);
    t0 := Extend(t1, 10, t0, X, 40);
  }

  /** The squaring chain of invsqrt: x^((p - 5) / 8). */
  method EighthPower(x: Limbs) returns (t0: Limbs)
    requires F.Sized(x, 1)
    ensures Holds(t0, Fe(x), EIGHTH)
  {
    ghost var X := Fe(x);
    FirstPower(x);
    Exponents();
    hide Holds, Fe, Pow2, Ones, Pow, Shifted;
    t0 := FirstRows(x, X);
    var t1 := Extend(t0, 50, t0, X, 50);
    t1 := Extend(t1, 100, t1, X, 100);
    t0 := Extend(t1, 50, t0, X, 200);
    t0 := SquareTimes(t0, 2, X, Ones(250));
    t0 := MulPow(t0, x, X, Shifted(Ones(250), 2), 1);
  }

  lemma FirstPower(x: Limbs)
    requires F.Sized(x, 1)
    ensures Holds(x, Fe(x), 1)
  {
    assert Pow(Fe(x), 1) == Fe(x) * Pow(Fe(x), 0);
  }

  // ---------- the four cases ----------

  const SQRTM1: Limbs := [
    -32595792, -7943725, 9377950, 3500415, 12389472, -272473, -25146209, -2005654, 326686, 11406482]

  const I: int := 0x2b8324804fc1df0b2b4d00993dfbd7a72f431806ad2fe478c4ee1b274a0ea0b0

  lemma SqrtMinusOne()
    ensures F.Sized(SQRTM1, 1) && Fe(SQRTM1) == I
    ensures Cong(I * I, -1, P)
  {
    F.WrittenOut(SQRTM1);
    hide Value;
    Shift(I * I, -1, 0xecaa2e2f6a2302ccedb31ac05720688238ced2078f3eb0ec9f22e8f621972e5, P);
  }

  /** 1, -1, sqrt(-1) and -sqrt(-1) are four different residues. */
  lemma FourthRootsDiffer()
    ensures !Cong(1, -1, P) && !Cong(1, -I, P) && !Cong(I, -1, P) && !Cong(I, -I, P)
  {
  }

  /** What squaring t = x^((p-5)/8) gives, times x, and what squaring t * sqrt(-1) gives. */
  lemma PlainRoot(x: int, t: int, q: int, isr: int)
    requires Cong(q, t * t * x, P) && Cong(isr, t, P)
    ensures Cong(isr * isr * x, q, P)
  {
    hide Cong, Pow;
    Refl(x, P);
    Mul(isr, t, isr, t, P);
    Mul(isr * isr, t * t, x, x, P);
    Symmetric(q, t * t * x, P);
    Trans(isr * isr * x, t * t * x, q, P);
  }

  lemma FlippedRoot(x: int, t: int, q: int, isr: int, i: int)
    requires Cong(q, t * t * x, P) && Cong(isr, t * i, P) && Cong(i * i, -1, P)
    ensures Cong(isr * isr * x, -q, P)
  {
    hide Cong, Pow;
    var y := t * t * x;
    Refl(x, P);
    Refl(y, P);
    Refl(0, P);
    Mul(isr, t * i, isr, t * i, P);
    Mul(isr * isr, (t * i) * (t * i), x, x, P);
    Mul(y, y, i * i, -1, P);
    Regroup(t, i, x);
    Trans(isr * isr * x, y * (i * i), -y, P);
    Add(0, 0, q, y, P);
    Symmetric(-q, -y, P);
    Trans(isr * isr * x, -y, -q, P);
  }

  lemma Regroup(t: int, i: int, x: int)
    ensures (t * i) * (t * i) * x == (t * t * x) * (i * i)
  {
    assert (t * i) * (t * i) == (t * t) * (i * i) by {
      assert (t * i) * (t * i) == t * (i * (t * i)) == t * (t * (i * i));
    }
    assert (t * t) * (i * i) * x == (t * t * x) * (i * i);
  }

  /** quartic = x^((p-1)/4) from x^((p-5)/8) */
  lemma QuarticPower(x: int)
    ensures Pow(x, QUARTER) == Pow(x, EIGHTH) * Pow(x, EIGHTH) * x
  {
    PowAdd(x, EIGHTH, EIGHTH);
    PowAdd(x, 2 * EIGHTH, 1);
    assert Pow(x, 1) == x * Pow(x, 0);
  }

  /** Multiplies isr by the square root of -1 unless it is already right. */
  method ChooseRoot(t0: Limbs, m1: bool, ms: bool) returns (isr: Limbs)
    requires F.Sized(t0, 1)
    ensures F.Sized(isr, 1) && Cong(Fe(isr), if m1 || ms then Fe(t0) * I else Fe(t0), P)
  {
    hide Value;
    SqrtMinusOne();
    isr := F.Mul(t0, SQRTM1, 1, 1);
    F.SizedLength(t0, 1);
    F.SizedLength(isr, 1);
    isr := F.CCopy(isr, t0, if m1 || ms then 0 else 1);
  }

  /** invsqrt. With q = x^((p-1)/4): reports a square when x is 0 or q is 1 or -1, and then isr is the inverse
      square root; when q is sqrt(-1) or -sqrt(-1) the result squares to sqrt(-1) / x. */
  method InverseSqrt(x: Limbs) returns (isr: Limbs, is_square: bool)
    requires F.Sized(x, 1)
    ensures F.Sized(isr, 1)
    ensures var X, q, r := Fe(x), Pow(Fe(x), QUARTER), Fe(isr) * Fe(isr) * Fe(x);
            && (is_square <==> Cong(X, 0, P) || Cong(q, 1, P) || Cong(q, -1, P))
            && (Cong(q, 1, P) || Cong(q, -1, P) ==> Cong(r, 1, P))
            && (Cong(q, I, P) || Cong(q, -I, P) ==> Cong(r, I, P))
            && (Cong(X, 0, P) ==> Cong(Fe(isr), 0, P))
    ensures PrimeModulus(P) ==> InverseRoot(Fe(x), Fe(isr), is_square)
  {
    hide Fe, Pow, Cong, F.Sized, PrimeModulus, IsSquare;
    var t0 := EighthPower(x);
    ghost var X, e := Fe(x), Pow(Fe(x), EIGHTH);
    assert F.Sized(t0, 1) && Cong(Fe(t0), e, P) by { HoldsMeans(t0, X, EIGHTH); }
    var quartic := F.Square(t0, 1);
    ghost var square := Fe(quartic);
    quartic := F.Mul(quartic, x, 1, 1);
    QuarticMeans(X, Fe(t0), square, Fe(quartic));
    var check := F.Zero();
    var z0 := F.IsEqual(x, check);
    check := F.One();
    var p1 := F.IsEqual(quartic, check);
    check := F.Neg(check, 1);
    var m1 := F.IsEqual(quartic, check);
    SqrtMinusOne();
    check := F.Neg(SQRTM1, 1);
    var ms := F.IsEqual(quartic, check);
    isr := ChooseRoot(t0, m1, ms);
    is_square := p1 || m1 || z0;
    Conclude(X, Fe(t0), Fe(quartic), Pow(X, QUARTER), Fe(isr), m1, ms);
    if Cong(X, 0, P) {
      ZeroRoot(X, Fe(t0), Fe(isr), m1 || ms);
    }
    if Cong(X, 0, P) {
      ZeroIsSquare(X);
    } else if is_square {
      RootSquares(X, Fe(isr));
    } else if PrimeModulus(P) {
      FourRoots(X);
      NoSquare(X);
    }
  }

  // ---------- squares, when 2^255 - 19 is prime ----------

  ghost predicate Squares(y: int, x: int)
  {
    Cong(y * y, x, P)
  }

  ghost predicate IsSquare(x: int)
  {
    exists y :: Squares(y, x)
  }

  /** What invsqrt promises: the flag, an inverse square root, or one of sqrt(-1) / x, and 0 for 0. */
  ghost predicate InverseRoot(x: int, isr: int, is_square: bool)
  {
    && (is_square <==> IsSquare(x))
    && (is_square && !Cong(x, 0, P) ==> Cong(isr * isr * x, 1, P))
    && (!is_square ==> Cong(isr * isr * x, I, P))
    && (Cong(x, 0, P) ==> Cong(isr, 0, P))
  }

  /** A square of 1 or -1 has two roots. */
  lemma TwoRoots(a: int, r: int)
    requires PrimeModulus(P) && Cong(a * a, r * r, P)
    ensures Cong(a, r, P) || Cong(a, -r, P)
  {
    hide Cong;
    Refl(r * r, P);
    Add(a * a, r * r, r * r, r * r, P);
    assert (a - r) * (a + r) == a * a - r * r;
    assert SplitsAt(a - r, a + r, P);
    if Cong(a - r, 0, P) {
      Refl(r, P);
      Add(a - r, 0, r, r, P);
    } else {
      Refl(r, P);
      Add(a + r, 0, r, r, P);
    }
  }

  /** Euler's criterion. */
  lemma HalfPower(x: int)
    requires PrimeModulus(P) && !Cong(x, 0, P)
    ensures Cong(Pow(x, HALF), 1, P) || Cong(Pow(x, HALF), -1, P)
  {
    hide Cong, Pow;
    Exponents();
    FermatLittle(x, P);
    PowAdd(x, HALF, HALF);
    TwoRoots(Pow(x, HALF), 1);
  }

  lemma FourRoots(x: int)
    requires PrimeModulus(P) && !Cong(x, 0, P)
    ensures var q := Pow(x, QUARTER); Cong(q, 1, P) || Cong(q, -1, P) || Cong(q, I, P) || Cong(q, -I, P)
  {
    hide Cong, Pow;
    var q, h := Pow(x, QUARTER), Pow(x, HALF);
    HalfPower(x);
    PowAdd(x, QUARTER, QUARTER);
    assert q * q == h;
    if Cong(h, 1, P) {
      TwoRoots(q, 1);
    } else {
      SqrtMinusOne();
      Symmetric(I * I, -1, P);
      Trans(h, -1, I * I, P);
      TwoRoots(q, I);
    }
  }

  /** A square has quartic 1 or -1. */
  lemma SquareQuartic(x: int, y: int)
    requires PrimeModulus(P) && !Cong(x, 0, P) && Squares(y, x)
    ensures Cong(Pow(x, QUARTER), 1, P) || Cong(Pow(x, QUARTER), -1, P)
  {
    hide Cong, Pow;
    Exponents();
    if Cong(y, 0, P) {
      Mul(y, 0, y, 0, P);
      Symmetric(y * y, x, P);
      Trans(x, y * y, 0, P);
    }
    FermatLittle(y, P);
    PowOfSquare(y, HALF);
    PowCong(y * y, x, HALF, P);
    var q := Pow(x, QUARTER);
    PowAdd(x, QUARTER, QUARTER);
    Symmetric(Pow(y * y, HALF), Pow(x, HALF), P);
    Trans(Pow(x, HALF), Pow(y * y, HALF), 1, P);
    TwoRoots(q, 1);
  }

  /** And the other way round: x * isr is a square root of x. */
  lemma RootSquares(x: int, isr: int)
    requires Cong(isr * isr * x, 1, P)
    ensures IsSquare(x)
  {
    hide Cong;
    Refl(x, P);
    Mul(x, x, isr * isr * x, 1, P);
    assert x * (isr * isr * x) == (x * isr) * (x * isr);
    assert Squares(x * isr, x);
  }

  lemma NoSquare(x: int)
    requires PrimeModulus(P) && !Cong(x, 0, P) && !Cong(Pow(x, QUARTER), 1, P) && !Cong(Pow(x, QUARTER), -1, P)
    ensures !IsSquare(x)
  {
    hide Pow, Cong, PrimeModulus, Squares;
    forall y ensures !Squares(y, x) {
      if Squares(y, x) {
        SquareQuartic(x, y);
      }
    }
  }

  lemma ZeroIsSquare(x: int)
    requires Cong(x, 0, P)
    ensures IsSquare(x)
  {
    assert Squares(0, x);
  }

  lemma HoldsMeans(t: Limbs, x: int, e: nat)
    requires Holds(t, x, e)
    ensures F.Sized(t, 1) && Cong(Fe(t), Pow(x, e), P)
  {
  }

  lemma QuarticMeans(x: int, t: int, square: int, quartic: int)
    requires Cong(t, Pow(x, EIGHTH), P) && Cong(square, t * t, P) && Cong(quartic, square * x, P)
    ensures Cong(quartic, t * t * x, P) && Cong(quartic, Pow(x, QUARTER), P)
  {
    hide Cong, Pow;
    QuarticPower(x);
    Refl(x, P);
    Mul(square, t * t, x, x, P);
    Trans(quartic, square * x, t * t * x, P);
    Mul(t, Pow(x, EIGHTH), t, Pow(x, EIGHTH), P);
    Mul(t * t, Pow(x, EIGHTH) * Pow(x, EIGHTH), x, x, P);
    Trans(quartic, t * t * x, Pow(x, QUARTER), P);
  }

  lemma Conclude(x: int, t: int, quartic: int, q: int, isr: int, m1: bool, ms: bool)
    requires Cong(quartic, t * t * x, P) && Cong(quartic, q, P)
    requires m1 <==> Cong(quartic, -1, P)
    requires ms <==> Cong(quartic, -I, P)
    requires Cong(isr, if m1 || ms then t * I else t, P)
    ensures (Cong(q, 1, P) <==> Cong(quartic, 1, P)) && (Cong(q, -1, P) <==> Cong(quartic, -1, P))
    ensures Cong(q, 1, P) || Cong(q, -1, P) ==> Cong(isr * isr * x, 1, P)
    ensures Cong(q, I, P) || Cong(q, -I, P) ==> Cong(isr * isr * x, I, P)
  {
    hide Cong;
    FourthRootsDiffer();
    SameClass(quartic, q, 1, -1);
    SameClass(quartic, q, I, -I);
    SameClass(quartic, q, -1, -I);
    SameClass(quartic, q, 1, -I);
    SameClass(quartic, q, I, -1);
    if m1 || ms {
      SqrtMinusOne();
      FlippedRoot(x, t, quartic, isr, I);
      Negated(isr * isr * x, quartic, 1);
      Negated(isr * isr * x, quartic, I);
    } else {
      PlainRoot(x, t, quartic, isr);
      SameClass(isr * isr * x, quartic, 1, I);
    }
  }

  lemma SameClass(a: int, b: int, c: int, d: int)
    requires Cong(a, b, P)
    ensures (Cong(a, c, P) <==> Cong(b, c, P)) && (Cong(a, d, P) <==> Cong(b, d, P))
    ensures !Cong(c, d, P) ==> !(Cong(a, c, P) && Cong(a, d, P))
  {
  }

  lemma Negated(a: int, b: int, c: int)
    requires Cong(a, -b, P)
    ensures Cong(b, -c, P) ==> Cong(a, c, P)
  {
    hide Cong;
    if Cong(b, -c, P) {
      Refl(0, P);
      Add(0, 0, b, -c, P);
      Trans(a, -b, c, P);
    }
  }

  lemma ZeroRoot(x: int, t: int, isr: int, flip: bool)
    requires Cong(x, 0, P) && Cong(t, Pow(x, EIGHTH), P) && Cong(isr, if flip then t * I else t, P)
    ensures Cong(isr, 0, P)
  {
    PowCong(x, 0, EIGHTH, P);
    assert Pow(0, EIGHTH) == 0 * Pow(0, EIGHTH - 1);
    Refl(I, P);
    Mul(t, 0, I, I, P);
  }

  // ---------- inversion ----------

  /** fe_invert: out * x = 1 for every x that satisfies Euler's criterion, that is, p being prime, for every residue
      but 0; and 0 for x = 0. */
  method Invert(x: Limbs) returns (out: Limbs)
    requires F.Sized(x, 1)
    ensures F.Sized(out, 1)
    ensures var h := Pow(Fe(x), HALF);
            && (Cong(h, 1, P) || Cong(h, -1, P) ==> Cong(Fe(out) * Fe(x), 1, P))
            && (Cong(Fe(x), 0, P) ==> Cong(Fe(out), 0, P))
    ensures PrimeModulus(P) && !Cong(Fe(x), 0, P) ==> Cong(Fe(out) * Fe(x), 1, P)
  {
    hide Fe, Pow, Cong, F.Sized, PrimeModulus, IsSquare;
    ghost var X := Fe(x);
    if PrimeModulus(P) && !Cong(X, 0, P) {
      HalfPower(X);
    }
    var tmp := F.Square(x, 1);
    ghost var s := Fe(tmp);
    var unused;
    tmp, unused := InverseSqrt(tmp);
    ghost var isr := Fe(tmp);
    tmp := F.Square(tmp, 1);
    out := F.Mul(tmp, x, 1, 1);
    QuarterOfSquare(X, s);
    InverseFound(X, s, isr, Fe(tmp), Fe(out));
  }

  /** (x^2)^((p-1)/4) = x^((p-1)/2) */
  lemma QuarterOfSquare(x: int, s: int)
    requires Cong(s, x * x, P)
    ensures Cong(Pow(s, QUARTER), Pow(x, HALF), P)
    ensures Cong(Pow(x, HALF), 1, P) ==> Cong(Pow(s, QUARTER), 1, P)
    ensures Cong(Pow(x, HALF), -1, P) ==> Cong(Pow(s, QUARTER), -1, P)
  {
    hide Pow;
    PowCong(s, x * x, QUARTER, P);
    PowOfSquare(x, QUARTER);
  }

  lemma {:induction false} PowOfSquare(x: int, e: nat)
    ensures Pow(x * x, e) == Pow(x, 2 * e)
  {
    if e > 0 {
      PowOfSquare(x, e - 1);
      assert Pow(x, 2 * e) == x * (x * Pow(x, 2 * e - 2));
      assert x * (x * Pow(x, 2 * e - 2)) == (x * x) * Pow(x, 2 * e - 2);
    }
  }

  lemma InverseFound(x: int, s: int, isr: int, square: int, out: int)
    requires Cong(s, x * x, P) && Cong(square, isr * isr, P) && Cong(out, square * x, P)
    ensures Cong(isr * isr * s, 1, P) ==> Cong(out * x, 1, P)
    ensures Cong(x, 0, P) ==> Cong(out, 0, P)
  {
    hide Cong, Pow;
    Refl(x, P);
    Mul(out, square * x, x, x, P);
    Mul(square, isr * isr, s, x * x, P);
    assert square * x * x == square * (x * x);
    Refl(square, P);
    Mul(square, square, s, x * x, P);
    Refl(s, P);
    Mul(square, isr * isr, s, s, P);
    Symmetric(square * s, square * (x * x), P);
    Trans(out * x, square * (x * x), square * s, P);
    Trans(out * x, square * s, isr * isr * s, P);
    if Cong(isr * isr * s, 1, P) {
      Trans(out * x, isr * isr * s, 1, P);
    }
    if Cong(x, 0, P) {
      Mul(square, square, x, 0, P);
      Trans(out, square * x, 0, P);
    }
  }
}
