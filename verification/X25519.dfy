/** The Montgomery ladder of X25519 (monocypher.c, scalarmult and crypto_x25519). */
module X25519 {
  import opened ModArith
  import opened Sums
  import opened FieldElement
  import opened ScalarBits
  import opened Words
  import F = FieldOps
  import InvSqrt
  import opened Fermat
  import A = AbelianGroup
  type Limbs = F.Limbs

  /** A point by its x coordinate alone, x = X / Z. */
  datatype XZ = XZ(X: int, Z: int)

  // ---------- section 5 of RFC 7748, in the field of integers modulo P ----------

  function FieldAdd(a: int, b: int): int
  {
    (a + b) % P
  }

  function FieldSub(a: int, b: int): int
  {
    (a - b) % P
  }

  function FieldMul(a: int, b: int): int
  {
    (a * b) % P
  }

  /** Doubling, with a24 = 121665. */
  function Dbl(p: XZ): XZ
  {
    var A, B := FieldAdd(p.X, p.Z), FieldSub(p.X, p.Z);
    var AA, BB := FieldMul(A, A), FieldMul(B, B);
    var E := FieldSub(AA, BB);
    XZ(FieldMul(AA, BB), FieldMul(E, FieldAdd(AA, FieldMul(121665, E))))
  }

  /** Differential addition of two points whose difference has x coordinate x1. */
  function DiffAdd(x1: int, p: XZ, q: XZ): XZ
  {
    var DA, CB := FieldMul(FieldSub(q.X, q.Z), FieldAdd(p.X, p.Z)), FieldMul(FieldAdd(q.X, q.Z), FieldSub(p.X, p.Z));
    var S, D := FieldAdd(DA, CB), FieldSub(DA, CB);
    XZ(FieldMul(S, S), FieldMul(x1, FieldMul(D, D)))
  }

  /** The multiple m of the point x1 as k rounds of doubling and differential addition give it. */
  ghost function Multiple(x1: int, k: nat, m: nat): XZ
  {
    if k == 0 then (if m == 0 then XZ(1, 0) else XZ(x1, 1))
    else if m % 2 == 0 then Dbl(Multiple(x1, k - 1, m / 2))
    else DiffAdd(x1, Multiple(x1, k - 1, m / 2), Multiple(x1, k - 1, m / 2 + 1))
  }

  lemma DiffAddSymmetric(x1: int, p: XZ, q: XZ)
    ensures DiffAdd(x1, p, q) == DiffAdd(x1, q, p)
  {
    MulCommutes(FieldSub(q.X, q.Z), FieldAdd(p.X, p.Z));
    MulCommutes(FieldAdd(q.X, q.Z), FieldSub(p.X, p.Z));
    var DA, CB := FieldMul(FieldSub(q.X, q.Z), FieldAdd(p.X, p.Z)), FieldMul(FieldAdd(q.X, q.Z), FieldSub(p.X, p.Z));
    SquareOfDifference(DA, CB);
    AddCommutes(DA, CB);
    hide FieldAdd, FieldSub, FieldMul;
  }

  lemma MulCommutes(a: int, b: int)
    ensures FieldMul(a, b) == FieldMul(b, a)
  {
  }

  lemma AddCommutes(a: int, b: int)
    ensures FieldAdd(a, b) == FieldAdd(b, a)
  {
  }

  lemma SquareOfDifference(a: int, b: int)
    ensures FieldMul(FieldSub(a, b), FieldSub(a, b)) == FieldMul(FieldSub(b, a), FieldSub(b, a))
  {
    var u, v := FieldSub(a, b), FieldSub(b, a);
    assert Cong(u, -v, P);
    Mul(u, -v, u, -v, P);
    assert (-v) * (-v) == v * v;
  }

  /** E * (AA + 121665 * E) = E * (BB + 121666 * E). */
  lemma DoubleFactor(AA: int, BB: int, E: int)
    requires E == FieldSub(AA, BB)
    ensures FieldAdd(AA, FieldMul(121665, E)) == FieldAdd(BB, FieldMul(E, 121666))
  {
    AddInner(AA, 121665 * E, P);
    AddInner(BB, E * 121666, P);
    Shift(AA + 121665 * E, BB + E * 121666, (AA - BB) / P, P);
  }

  /** A rung of the ladder: doubling, and the sum of two neighbours. */
  lemma NextMultiple(x1: int, k: nat, m: nat)
    ensures Multiple(x1, k + 1, 2 * m) == Dbl(Multiple(x1, k, m))
    ensures Multiple(x1, k + 1, 2 * m + 1) == DiffAdd(x1, Multiple(x1, k, m), Multiple(x1, k, m + 1))
  {
    hide Dbl, DiffAdd;
    HalveTwice(m);
  }

  lemma HalveTwice(m: nat)
    ensures (2 * m) / 2 == m && (2 * m) % 2 == 0 && (2 * m + 1) / 2 == m && (2 * m + 1) % 2 == 1
  {
  }

  // ---------- multiples in a group ----------

  /** A group whose elements are known by coordinates: stands(p, Q) says that p gives the x coordinate of Q. */
  datatype Curve<!G> = Curve(group: A.Group<G>, stands: (XZ, G) -> bool)

  ghost predicate Doubles<G>(c: Curve<G>, p: XZ, Q: G)
  {
    c.stands(p, Q) ==> c.stands(Dbl(p), c.group.add(Q, Q))
  }

  ghost predicate Adds<G>(c: Curve<G>, x1: int, B: G, p: XZ, q: XZ, Q: G)
  {
    c.stands(p, Q) && c.stands(q, c.group.add(Q, B)) ==> c.stands(DiffAdd(x1, p, q), c.group.add(Q, c.group.add(Q, B)))
  }

  /** What the formulas are trusted for: doubling doubles, and differential addition adds two points that differ by B. */
  ghost predicate Montgomery<G(!new)>(c: Curve<G>, x1: int, B: G)
  {
    && A.Abelian(c.group) && c.stands(XZ(1, 0), c.group.zero) && c.stands(XZ(x1, 1), B)
    && (forall p, Q :: Doubles(c, p, Q))
    && (forall p, q, Q :: Adds(c, x1, B, p, q, Q))
  }

  /** Then the rounds of the ladder give the multiple in the group. */
  lemma {:induction false} MultipleStands<G(!new)>(c: Curve<G>, x1: int, B: G, k: nat, m: nat)
    requires Montgomery(c, x1, B) && m <= Pow2(k)
    ensures c.stands(Multiple(x1, k, m), A.Mul(c.group, m, B))
  {
    hide Dbl, DiffAdd, A.Abelian, A.Mul;
    var g := c.group;
    if k == 0 {
      A.MulZero(g, B);
      A.MulOne(g, B);
    } else {
      var h := m / 2;
      HalfBound(m, Pow2(k - 1));
      MultipleStands(c, x1, B, k - 1, h);
      var p, Q := Multiple(x1, k - 1, h), A.Mul(g, h, B);
      if m % 2 == 0 {
        assert Doubles(c, p, Q);
        A.MulAdd(g, h, h, B);
      } else {
        MultipleStands(c, x1, B, k - 1, h + 1);
        var q := Multiple(x1, k - 1, h + 1);
        A.MulNext(g, h, B);
        assert Adds(c, x1, B, p, q, Q);
        A.MulAdd(g, h, h + 1, B);
      }
    }
  }

  lemma HalfBound(m: nat, w: nat)
    requires m <= 2 * w
    ensures m / 2 <= w && (m % 2 == 1 ==> m / 2 + 1 <= w)
    ensures m == m / 2 + m / 2 + m % 2
  {
  }

  /** The ladder over all bits of a scalar ends at its multiple of the point. */
  lemma ScalarStands<G(!new)>(c: Curve<G>, x1: int, B: G, scalar: seq<u8>, n: nat)
    requires Montgomery(c, x1, B) && n <= 8 * |scalar|
    ensures c.stands(Multiple(x1, n, BitNum(scalar, n)), A.Mul(c.group, BitNum(scalar, n), B))
  {
    hide Montgomery, Multiple, BitNum, A.Mul;
    BitNumBound(scalar, n);
    MultipleStands(c, x1, B, n, BitNum(scalar, n));
  }

  // ---------- field elements as residues ----------

  ghost function Res(f: Limbs): int
  {
    Fe(f) % P
  }

  lemma ResAdd(f: Limbs, g: Limbs, h: Limbs)
    ensures Fe(h) == Fe(f) + Fe(g) ==> Res(h) == FieldAdd(Res(f), Res(g))
    ensures Fe(h) == Fe(f) - Fe(g) ==> Res(h) == FieldSub(Res(f), Res(g))
  {
    hide Fe;
    ModSum(Fe(f), Fe(g), P);
  }

  lemma ResMul(f: Limbs, g: Limbs, h: Limbs)
    requires Cong(Fe(h), Fe(f) * Fe(g), P)
    ensures Res(h) == FieldMul(Res(f), Res(g))
  {
    hide Fe;
    Residue(Fe(f));
    Residue(Fe(g));
    Mul(Fe(f), Res(f), Fe(g), Res(g), P);
  }

  lemma ResMulSmall(f: Limbs, c: int, h: Limbs)
    requires Cong(Fe(h), Fe(f) * c, P)
    ensures Res(h) == FieldMul(Res(f), c)
  {
    hide Fe;
    Residue(Fe(f));
    Refl(c, P);
    Mul(Fe(f), Res(f), c, c, P);
  }

  lemma Residue(x: int)
    ensures Cong(x, x % P, P)
  {
    Shift(x, x % P, x / P, P);
  }

  // ---------- the ladder ----------

  ghost function Point(x: Limbs, z: Limbs): XZ
  {
    XZ(Res(x), Res(z))
  }

  ghost predicate Small(x: Limbs, z: Limbs)
  {
    F.Sized(x, 1) && F.Sized(z, 1)
  }

  lemma SmallLength(x: Limbs, z: Limbs)
    requires Small(x, z)
    ensures |x| == |z| == 10
  {
  }

  /** One ladder step: every operand stays inside the multiplication bound, and (P2, P3) becomes (2 P2, P2 + P3). */
  method Step(x1: Limbs, x2in: Limbs, z2in: Limbs, x3in: Limbs, z3in: Limbs)
    returns (x2: Limbs, z2: Limbs, x3: Limbs, z3: Limbs)
    requires F.Sized(x1, 1) && Small(x2in, z2in) && Small(x3in, z3in)
    ensures Small(x2, z2) && Small(x3, z3)
    ensures Point(x2, z2) == Dbl(Point(x2in, z2in))
    ensures Point(x3, z3) == DiffAdd(Res(x1), Point(x2in, z2in), Point(x3in, z3in))
  {
    hide F.Sized, Fe, Cong, Res, FieldAdd, FieldSub, FieldMul;
    var t0 := F.Sub(x3in, z3in, 1, 1);
    ResAdd(x3in, z3in, t0);
    var t1 := F.Sub(x2in, z2in, 1, 1);
    ResAdd(x2in, z2in, t1);
    x2 := F.Add(x2in, z2in, 1, 1);
    ResAdd(x2in, z2in, x2);
    z2 := F.Add(x3in, z3in, 1, 1);
    ResAdd(x3in, z3in, z2);
    z3 := F.Mul(t0, x2, 2, 2);
    ResMul(t0, x2, z3);
    ghost var c := z2;
    z2 := F.Mul(z2, t1, 2, 2);
    ResMul(c, t1, z2);
    t0 := F.Square(t1, 2);
    ResMul(t1, t1, t0);
    t1 := F.Square(x2, 2);
    ResMul(x2, x2, t1);
    ghost var DA, CB, AA, BB := z3, z2, t1, t0;
    x3 := F.Add(z3, z2, 1, 1);
    ResAdd(DA, CB, x3);
    z2 := F.Sub(z3, z2, 1, 1);
    ResAdd(DA, CB, z2);
    ghost var S, D := x3, z2;
    x2 := F.Mul(t1, t0, 1, 1);
    ResMul(AA, BB, x2);
    t1 := F.Sub(t1, t0, 1, 1);
    ResAdd(AA, BB, t1);
    z2 := F.Square(z2, 2);
    ResMul(D, D, z2);
    ghost var DD := z2;
    z3 := F.MulSmall(t1, 121666, 2);
    ResMulSmall(t1, 121666, z3);
    x3 := F.Square(x3, 2);
    ResMul(S, S, x3);
    t0 := F.Add(t0, z3, 1, 1);
    ResAdd(BB, z3, t0);
    DoubleFactor(Res(AA), Res(BB), Res(t1));
    z3 := F.Mul(x1, z2, 1, 1);
    ResMul(x1, DD, z3);
    z2 := F.Mul(t1, t0, 2, 2);
    ResMul(t1, t0, z2);
  }

  /** The two running points stand for m and m + 1, swapped when the last bit was 1. */
  ghost predicate Holds(x1: int, k: nat, m: nat, swap: int, p2: XZ, p3: XZ)
  {
    && (swap == 0 ==> p2 == Multiple(x1, k, m) && p3 == Multiple(x1, k, m + 1))
    && (swap == 1 ==> p3 == Multiple(x1, k, m) && p2 == Multiple(x1, k, m + 1))
  }

  /** A step with the points in the order of bit b leads from m to 2m + b. */
  lemma Advance(x1: int, k: nat, m: nat, b: int, p2: XZ, p3: XZ)
    requires (b == 0 || b == 1) && Holds(x1, k, m, b, p2, p3)
    ensures Holds(x1, k + 1, 2 * m + b, b, Dbl(p2), DiffAdd(x1, p2, p3))
  {
    hide Dbl, DiffAdd, Multiple;
    DiffAddSymmetric(x1, p2, p3);
    NextMultiple(x1, k, m);
    NextMultiple(x1, k, m + 1);
    assert 2 * (m + 1) == 2 * m + b + 1 || b == 0;
  }

  /** Swapping once more reorders the points for the next bit. */
  lemma Reorder(x1: int, k: nat, m: nat, old_bit: int, b: int, p2: XZ, p3: XZ)
    requires 0 <= old_bit <= 1 && 0 <= b <= 1 && Holds(x1, k, m, old_bit, p2, p3)
    ensures old_bit != b ==> Holds(x1, k, m, b, p3, p2)
    ensures old_bit == b ==> Holds(x1, k, m, b, p2, p3)
  {
    hide Multiple;
  }

  /** The ladder loop. */
  method Ladder(x1: Limbs, scalar: seq<u8>, nb_bits: nat) returns (x2: Limbs, z2: Limbs)
    requires F.Sized(x1, 1) && nb_bits <= 8 * |scalar|
    ensures Small(x2, z2)
    ensures Point(x2, z2) == Multiple(Res(x1), nb_bits, BitNum(scalar, nb_bits))
  {
    hide F.Sized, Fe, Res, Multiple, BitNum, ScalarBit, Top, Dbl, DiffAdd;
    x2, z2 := F.One(), F.Zero();
    var x3, z3 := x1, F.One();
    var swap := 0;
    Constants(x2, z2);
    Start(Res(x1), scalar, nb_bits);
    var pos := nb_bits - 1;
    while pos >= 0
      invariant -1 <= pos < nb_bits && 0 <= swap <= 1
      invariant F.Sized(x1, 1) && Small(x2, z2) && Small(x3, z3)
      invariant Holds(Res(x1), nb_bits - 1 - pos, Top(scalar, pos + 1, nb_bits), swap, Point(x2, z2), Point(x3, z3))
    {
      var b := ScalarBit(scalar, pos);
      ghost var k, m := nb_bits - 1 - pos, Top(scalar, pos + 1, nb_bits);
      Reorder(Res(x1), k, m, swap, b, Point(x2, z2), Point(x3, z3));
      swap := if swap == b then 0 else 1;
      SmallLength(x2, z2);
      SmallLength(x3, z3);
      x2, x3 := F.CSwap(x2, x3, swap);
      z2, z3 := F.CSwap(z2, z3, swap);
      swap := b;
      Advance(Res(x1), k, m, b, Point(x2, z2), Point(x3, z3));
      x2, z2, x3, z3 := Step(x1, x2, z2, x3, z3);
      TopStep(scalar, pos, nb_bits);
      pos := pos - 1;
    }
    SmallLength(x2, z2);
    SmallLength(x3, z3);
    x2, x3 := F.CSwap(x2, x3, swap);
    z2, z3 := F.CSwap(z2, z3, swap);
    TopIsAll(scalar, nb_bits);
  }

  lemma Constants(one: Limbs, zero: Limbs)
    requires Fe(one) == 1 && Fe(zero) == 0
    ensures Res(one) == 1 && Res(zero) == 0
  {
    hide Fe;
  }

  lemma Start(x1: int, scalar: seq<u8>, n: nat)
    requires n <= 8 * |scalar|
    ensures Holds(x1, 0, Top(scalar, n, n), 0, XZ(1, 0), XZ(x1, 1))
  {
  }

  lemma TopStep(s: seq<u8>, i: nat, n: nat)
    requires i < n <= 8 * |s|
    ensures Top(s, i, n) == 2 * Top(s, i + 1, n) + ScalarBit(s, i)
  {
  }

  /** The x coordinate of a projective result: X / Z when Z is invertible, that is, P being prime, when it is not 0;
      and 0 at infinity. */
  ghost predicate Affine(q: int, r: XZ)
  {
    var h := Pow(r.Z, InvSqrt.HALF);
    && 0 <= q < P
    && (Cong(h, 1, P) || Cong(h, -1, P) || (PrimeModulus(P) && !Cong(r.Z, 0, P)) ==> Cong(q * r.Z, r.X, P))
    && (Cong(r.Z, 0, P) ==> q == 0)
  }

  lemma Normalised(x: int, z: int, r: XZ, inv: int, prod: int, q: int)
    requires r == XZ(x % P, z % P)
    requires var h := Pow(z, InvSqrt.HALF);
             (Cong(h, 1, P) || Cong(h, -1, P) || (PrimeModulus(P) && !Cong(z, 0, P)) ==> Cong(inv * z, 1, P))
             && (Cong(z, 0, P) ==> Cong(inv, 0, P))
    requires Cong(prod, x * inv, P) && q == prod % P
    ensures Affine(q, r)
  {
    hide Pow, PrimeModulus;
    Residue(x);
    Residue(z);
    PowCong(z, r.Z, InvSqrt.HALF, P);
    Remainder(prod);
    hide Cong;
    NormalisedUnit(x, z, r, inv, prod, q);
    NormalisedZero(x, inv, prod, q);
  }

  lemma Remainder(x: int)
    ensures Cong(x % P, x, P) && 0 <= x % P < P && (Cong(x, 0, P) ==> x % P == 0)
  {
    Shift(x % P, x, -(x / P), P);
  }

  lemma NormalisedUnit(x: int, z: int, r: XZ, inv: int, prod: int, q: int)
    requires Cong(x, r.X, P) && Cong(z, r.Z, P) && Cong(prod, x * inv, P) && Cong(q, prod, P)
    ensures Cong(inv * z, 1, P) ==> Cong(q * r.Z, r.X, P)
  {
    if Cong(inv * z, 1, P) {
      Trans(q, prod, x * inv, P);
      Mul(q, x * inv, r.Z, z, P);
      assert x * inv * z == x * (inv * z);
      Refl(x, P);
      Mul(x, x, inv * z, 1, P);
      Trans(q * r.Z, x * (inv * z), x, P);
      Trans(q * r.Z, x, r.X, P);
    }
  }

  lemma NormalisedZero(x: int, inv: int, prod: int, q: int)
    requires Cong(prod, x * inv, P)
    ensures Cong(inv, 0, P) ==> Cong(prod, 0, P)
  {
    if Cong(inv, 0, P) {
      Refl(x, P);
      Mul(x, x, inv, 0, P);
    }
  }

  const TOP: int := 0x8000000000000000000000000000000000000000000000000000000000000000

  /** scalarmult: the x coordinate of the scalar's multiple of the point, for any number of scalar bits.
      The point's top bit is ignored, as section 5 of RFC 7748 asks. */
  method Scalarmult(scalar: seq<u8>, p: seq<u8>, nb_bits: nat) returns (q: seq<u8>)
    requires |p| == 32 && nb_bits <= 8 * |scalar|
    ensures |q| == 32
    ensures Affine(Num(q, 256, 32), Multiple((Num(p, 256, 32) % TOP) % P, nb_bits, BitNum(scalar, nb_bits)))
  {
    hide F.Sized, Fe, Pow, Multiple, BitNum, Num, Affine, PrimeModulus;
    var x1 := F.FromBytes(p);
    var x2, z2 := Ladder(x1, scalar, nb_bits);
    ghost var x, z, point := Fe(x2), Fe(z2), Point(x2, z2);
    z2 := InvSqrt.Invert(z2);
    ghost var inv := Fe(z2);
    x2 := F.Mul(x2, z2, 1, 1);
    q := F.ToBytes(x2);
    Normalised(x, z, point, inv, Fe(x2), Num(q, 256, 32));
  }
}
