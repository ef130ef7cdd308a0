/** Integer multiples in an abelian group, the abstract stand-in for the curve group. */
module AbelianGroup {
  import M = ModArith

  datatype Group<!G> = Group(zero: G, add: (G, G) -> G, neg: G -> G)

  /** The group laws at three elements. */
  ghost predicate LawsAt<G>(g: Group<G>, x: G, y: G, z: G)
  {
    && g.add(g.add(x, y), z) == g.add(x, g.add(y, z))
    && g.add(x, y) == g.add(y, x)
    && g.add(x, g.zero) == x
    && g.add(x, g.neg(x)) == g.zero
  }

  ghost predicate Abelian<G(!new)>(g: Group<G>)
  {
    forall x, y, z :: LawsAt(g, x, y, z)
  }

  /** n * x for a natural number n */
  ghost function Times<G>(g: Group<G>, n: nat, x: G): G
  {
    if n == 0 then g.zero else g.add(Times(g, n - 1, x), x)
  }

  /** [n]x for any integer n */
  ghost function Mul<G>(g: Group<G>, n: int, x: G): G
  {
    if n >= 0 then Times(g, n, x) else g.neg(Times(g, -n, x))
  }

  lemma Assoc<G(!new)>(g: Group<G>, x: G, y: G, z: G)
    requires Abelian(g)
    ensures g.add(g.add(x, y), z) == g.add(x, g.add(y, z))
  {
    assert LawsAt(g, x, y, z);
  }

  lemma Comm<G(!new)>(g: Group<G>, x: G, y: G)
    requires Abelian(g)
    ensures g.add(x, y) == g.add(y, x)
  {
    assert LawsAt(g, x, y, x);
  }

  lemma Unit<G(!new)>(g: Group<G>, x: G)
    requires Abelian(g)
    ensures g.add(x, g.zero) == x && g.add(g.zero, x) == x
  {
    assert LawsAt(g, x, g.zero, x);
  }

  lemma Inverse<G(!new)>(g: Group<G>, x: G)
    requires Abelian(g)
    ensures g.add(x, g.neg(x)) == g.zero && g.add(g.neg(x), x) == g.zero
  {
    assert LawsAt(g, x, g.neg(x), x);
  }

  /** An element is determined by what it adds up to. */
  lemma Cancel<G(!new)>(g: Group<G>, x: G, y: G, z: G)
    requires Abelian(g) && g.add(x, z) == g.add(y, z)
    ensures x == y
  {
    Assoc(g, x, z, g.neg(z));
    Assoc(g, y, z, g.neg(z));
    Inverse(g, z);
    Unit(g, x);
    Unit(g, y);
  }

  lemma Swap<G(!new)>(g: Group<G>, a: G, b: G, c: G, d: G)
    requires Abelian(g)
    ensures g.add(g.add(a, b), g.add(c, d)) == g.add(g.add(a, c), g.add(b, d))
  {
    Assoc(g, a, b, g.add(c, d));
    Assoc(g, b, c, d);
    Comm(g, b, c);
    Assoc(g, c, b, d);
    Assoc(g, a, c, g.add(b, d));
  }

  lemma NegOf<G(!new)>(g: Group<G>, x: G, y: G)
    requires Abelian(g) && g.add(x, y) == g.zero
    ensures y == g.neg(x)
  {
    Comm(g, x, y);
    Inverse(g, x);
    Cancel(g, y, g.neg(x), x);
  }

  lemma NegNeg<G(!new)>(g: Group<G>, x: G)
    requires Abelian(g)
    ensures g.neg(g.neg(x)) == x
  {
    Inverse(g, x);
    NegOf(g, g.neg(x), x);
  }

  /** [n + 1]x = [n]x + x, also across zero. */
  lemma MulNext<G(!new)>(g: Group<G>, n: int, x: G)
    requires Abelian(g)
    ensures Mul(g, n + 1, x) == g.add(Mul(g, n, x), x)
  {
    if n < 0 {
      var t, u := Times(g, -n, x), Times(g, -n - 1, x);
      // [-n]x = u + x, so -[-n]x + x = -u
      Inverse(g, t);
      Comm(g, u, x);
      Assoc(g, g.neg(t), x, u);
      NegOf(g, u, g.add(g.neg(t), x)) by {
        Comm(g, u, g.add(g.neg(t), x));
      }
      if n == -1 {
        NegOf(g, g.zero, g.zero) by { Unit(g, g.zero); }
      }
    }
  }

  lemma {:induction false} MulAdd<G(!new)>(g: Group<G>, m: int, n: int, x: G)
    requires Abelian(g)
    ensures Mul(g, m + n, x) == g.add(Mul(g, m, x), Mul(g, n, x))
    decreases if n >= 0 then n else -n
  {
    hide *;
    if n == 0 {
      MulZero(g, x);
      Unit(g, Mul(g, m, x));
    } else if n > 0 {
      MulAdd(g, m, n - 1, x);
      MulNext(g, m + n - 1, x);
      MulNext(g, n - 1, x);
      Assoc(g, Mul(g, m, x), Mul(g, n - 1, x), x);
    } else {
      MulAdd(g, m, n + 1, x);
      MulNext(g, m + n, x);
      MulNext(g, n, x);
      Assoc(g, Mul(g, m, x), Mul(g, n, x), x);
      Cancel(g, Mul(g, m + n, x), g.add(Mul(g, m, x), Mul(g, n, x)), x);
    }
  }

  lemma MulZero<G(!new)>(g: Group<G>, x: G)
    ensures Mul(g, 0, x) == g.zero
  {
  }

  lemma MulOne<G(!new)>(g: Group<G>, x: G)
    requires Abelian(g)
    ensures Mul(g, 1, x) == x
  {
    MulNext(g, 0, x);
    MulZero(g, x);
    Unit(g, x);
  }

  lemma MulNeg<G(!new)>(g: Group<G>, n: int, x: G)
    requires Abelian(g)
    ensures Mul(g, -n, x) == g.neg(Mul(g, n, x))
  {
    hide *;
    MulAdd(g, n, -n, x);
    MulZero(g, x);
    NegOf(g, Mul(g, n, x), Mul(g, -n, x));
  }

  // ---------- two-base combinations ----------

  /** [a]A + [b]B */
  ghost function Lin<G>(g: Group<G>, a: int, A: G, b: int, B: G): G
  {
    g.add(Mul(g, a, A), Mul(g, b, B))
  }

  /** Adding combinations adds their coefficients. */
  lemma LinAdd<G(!new)>(g: Group<G>, a: int, b: int, c: int, d: int, A: G, B: G)
    requires Abelian(g)
    ensures g.add(Lin(g, a, A, b, B), Lin(g, c, A, d, B)) == Lin(g, a + c, A, b + d, B)
  {
    hide Abelian, Mul;
    Swap(g, Mul(g, a, A), Mul(g, b, B), Mul(g, c, A), Mul(g, d, B));
    MulAdd(g, a, c, A);
    MulAdd(g, b, d, B);
  }

  lemma LinAddFirst<G(!new)>(g: Group<G>, a: int, b: int, c: int, A: G, B: G)
    requires Abelian(g)
    ensures g.add(Lin(g, a, A, b, B), Mul(g, c, A)) == Lin(g, a + c, A, b, B)
  {
    hide Abelian, Mul;
    LinAdd(g, a, b, c, 0, A, B);
    MulZero(g, B);
    Unit(g, Mul(g, c, A));
  }

  lemma LinAddSecond<G(!new)>(g: Group<G>, a: int, b: int, d: int, A: G, B: G)
    requires Abelian(g)
    ensures g.add(Lin(g, a, A, b, B), Mul(g, d, B)) == Lin(g, a, A, b + d, B)
  {
    hide Abelian, Mul;
    LinAdd(g, a, b, 0, d, A, B);
    MulZero(g, A);
    Unit(g, Mul(g, d, B));
  }

  // ---------- multiples of sums, of multiples, and of elements of finite order ----------

  /** Multiples distribute over a sum. */
  lemma {:induction false} TimesSum<G(!new)>(g: Group<G>, n: nat, x: G, y: G)
    requires Abelian(g)
    ensures Mul(g, n, g.add(x, y)) == g.add(Mul(g, n, x), Mul(g, n, y))
  {
    if n == 0 {
      Unit(g, g.zero);
    } else {
      TimesSum(g, n - 1, x, y);
      Swap(g, Mul(g, n - 1, x), Mul(g, n - 1, y), x, y);
    }
  }

  lemma TimesNeg<G(!new)>(g: Group<G>, n: nat, x: G)
    requires Abelian(g)
    ensures Mul(g, n, g.neg(x)) == g.neg(Mul(g, n, x))
  {
    hide Abelian, Mul;
    TimesSum(g, n, x, g.neg(x));
    Inverse(g, x);
    TimesOfZero(g, n);
    NegOf(g, Mul(g, n, x), Mul(g, n, g.neg(x)));
  }

  lemma {:induction false} TimesOfZero<G(!new)>(g: Group<G>, n: nat)
    requires Abelian(g)
    ensures Mul(g, n, g.zero) == g.zero
  {
    if n > 0 {
      TimesOfZero(g, n - 1);
      Unit(g, g.zero);
    }
  }

  lemma {:induction false} MulOfOrder<G(!new)>(g: Group<G>, k: int, n: int, B: G)
    requires Abelian(g) && Mul(g, n, B) == g.zero
    ensures Mul(g, k * n, B) == g.zero
    decreases if k < 0 then 1 - k else k
  {
    hide *;
    if k == 0 {
      MulZero(g, B);
      assert k * n == 0;
    } else if k > 0 {
      MulOfOrder(g, k - 1, n, B);
      MulAdd(g, (k - 1) * n, n, B);
      Unit(g, g.zero);
      assert (k - 1) * n + n == k * n;
    } else {
      MulOfOrder(g, -k, n, B);
      MulNeg(g, (-k) * n, B);
      NegOf(g, g.zero, g.zero) by { Unit(g, g.zero); }
      assert -((-k) * n) == k * n;
    }
  }

  /** Congruent scalars give the same multiple of a point of that order. */
  lemma MulCong<G(!new)>(g: Group<G>, a: int, b: int, n: int, B: G)
    requires Abelian(g) && n > 0 && Mul(g, n, B) == g.zero && M.Cong(a, b, n)
    ensures Mul(g, a, B) == Mul(g, b, B)
  {
    hide Abelian, Mul, M.Cong;
    var k := M.Witness(a, b, n);
    MulOfOrder(g, k, n, B);
    MulAdd(g, b, k * n, B);
    Unit(g, Mul(g, b, B));
  }

  lemma {:induction false} MulMul<G(!new)>(g: Group<G>, m: nat, n: int, x: G)
    requires Abelian(g)
    ensures Mul(g, m, Mul(g, n, x)) == Mul(g, m * n, x)
  {
    hide *;
    if m == 0 {
      MulZero(g, x);
      MulZero(g, Mul(g, n, x));
    } else {
      MulMul(g, m - 1, n, x);
      MulNext(g, m - 1, Mul(g, n, x));
      MulAdd(g, (m - 1) * n, n, x);
      assert (m - 1) * n + n == m * n;
    }
  }
}
