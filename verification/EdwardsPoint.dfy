/** Points of the twisted Edwards curve in extended coordinates (monocypher.c, ge_cache to ge_double). */
module EdwardsPoint {
  import opened ModArith
  import opened FieldElement
  import F = FieldOps
  type Limbs = F.Limbs

  /** Extended coordinates: x = X / Z, y = Y / Z, x * y = T / Z. */
  datatype Ext = Ext(X: int, Y: int, Z: int, T: int)

  ghost predicate Same(p: Ext, q: Ext)
  {
    Cong(p.X, q.X, P) && Cong(p.Y, q.Y, P) && Cong(p.Z, q.Z, P) && Cong(p.T, q.T, P)
  }

  // ---------- section 5.1.4 of RFC 8032 ----------

  /** The final products of both formulas. */
  function Join(E: int, F: int, G: int, H: int): Ext
  {
    Ext(E * F, G * H, F * G, E * H)
  }

  /** Addition; d2 is twice the curve constant. */
  function RfcAdd(p: Ext, q: Ext, d2: int): Ext
  {
    var A, B := (p.Y - p.X) * (q.Y - q.X), (p.Y + p.X) * (q.Y + q.X);
    var C, D := p.T * (q.T * d2), 2 * p.Z * q.Z;
    Join(B - A, D - C, D + C, B + A)
  }

  /** Doubling. */
  function RfcDouble(p: Ext): Ext
  {
    var A, B, C := p.X * p.X, p.Y * p.Y, 2 * (p.Z * p.Z);
    var H := A + B;
    var E, G := H - (p.X + p.Y) * (p.X + p.Y), A - B;
    Join(E, C + G, G, H)
  }

  function Negated(p: Ext): Ext
  {
    Ext(-p.X, p.Y, p.Z, -p.T)
  }

  // ---------- what the formulas mean ----------

  /** The addition formula is the affine Edwards law cleared of denominators: with x = X / Z and so on,
      x3 = (x1 y2 + y1 x2) / (1 + d x1 x2 y1 y2), y3 = (y1 y2 + x1 x2) / (1 - d x1 x2 y1 y2), x3 y3 = T3 / Z3. */
  lemma AddIsEdwardsLaw(p: Ext, q: Ext, d2: int)
    ensures var r := RfcAdd(p, q, d2);
            && r.X * (2 * p.Z * q.Z + p.T * (q.T * d2)) == r.Z * (2 * (p.X * q.Y + p.Y * q.X))
            && r.Y * (2 * p.Z * q.Z - p.T * (q.T * d2)) == r.Z * (2 * (p.Y * q.Y + p.X * q.X))
            && r.X * r.Y == r.Z * r.T
  {
    CrossTerms(p.X, p.Y, q.X, q.Y);
    var A, B := (p.Y - p.X) * (q.Y - q.X), (p.Y + p.X) * (q.Y + q.X);
    JoinLaw(B - A, 2 * p.Z * q.Z - p.T * (q.T * d2), 2 * p.Z * q.Z + p.T * (q.T * d2), B + A);
  }

  lemma CrossTerms(x1: int, y1: int, x2: int, y2: int)
    ensures (y1 + x1) * (y2 + x2) - (y1 - x1) * (y2 - x2) == 2 * (x1 * y2 + y1 * x2)
    ensures (y1 + x1) * (y2 + x2) + (y1 - x1) * (y2 - x2) == 2 * (y1 * y2 + x1 * x2)
  {
    assert (y1 + x1) * (y2 + x2) == y1 * y2 + y1 * x2 + x1 * y2 + x1 * x2;
    assert (y1 - x1) * (y2 - x2) == y1 * y2 - y1 * x2 - x1 * y2 + x1 * x2;
  }

  lemma JoinLaw(E: int, F: int, G: int, H: int)
    ensures var r := Join(E, F, G, H);
            r.X * G == r.Z * E && r.Y * F == r.Z * H && r.X * r.Y == r.Z * r.T
  {
    assert (E * F) * G == (F * G) * E;
    assert (G * H) * F == (F * G) * H;
    assert (E * F) * (G * H) == (F * G) * (E * H) by {
      assert (E * F) * (G * H) == E * (F * (G * H));
      assert (F * G) * (E * H) == E * ((F * G) * H);
    }
  }

  /** On the curve, -X^2 + Y^2 = Z^2 + d T^2. */
  ghost predicate OnCurve(p: Ext, d2: int)
  {
    Cong(2 * (p.Y * p.Y - p.X * p.X), 2 * (p.Z * p.Z) + p.T * (p.T * d2), P)
  }

  function Rescaled(k: int, p: Ext): Ext
  {
    Ext(k * p.X, k * p.Y, k * p.Z, k * p.T)
  }

  /** Doubling agrees with adding a curve point to itself, up to the common factor -4. */
  lemma DoubleIsAdd(p: Ext, d2: int)
    requires OnCurve(p, d2)
    ensures Same(RfcAdd(p, p, d2), Rescaled(-4, RfcDouble(p)))
  {
    hide Cong;
    var A, B, C := p.X * p.X, p.Y * p.Y, p.Z * p.Z;
    CrossTerms(p.X, p.Y, p.X, p.Y);
    var t := p.T * (p.T * d2);
    var E, H, G, F := A + B - (p.X + p.Y) * (p.X + p.Y), A + B, A - B, 2 * C + (A - B);
    assert (p.X + p.Y) * (p.X + p.Y) == A + 2 * (p.X * p.Y) + B;
    assert E == -2 * (p.X * p.Y);
    assert 2 * p.Z * p.Z == 2 * C;
    // add: E' = -2 E, H' = 2 H, F' = 2 C - t, G' = 2 C + t
    var F', G' := 2 * C - t, 2 * C + t;
    Symmetric(2 * (B - A), G', P);
    Refl(4 * C, P);
    Add(4 * C, 4 * C, G', 2 * (B - A), P);
    JoinCong(-2 * E, F', G', 2 * H, -2 * E, 2 * F, -2 * G, 2 * H);
    JoinScales(E, F, G, H);
  }

  lemma JoinScales(E: int, F: int, G: int, H: int)
    ensures Join(-2 * E, 2 * F, -2 * G, 2 * H) == Rescaled(-4, Join(E, F, G, H))
  {
    assert (-2 * E) * (2 * F) == -4 * (E * F) && (-2 * G) * (2 * H) == -4 * (G * H);
    assert (2 * F) * (-2 * G) == -4 * (F * G) && (-2 * E) * (2 * H) == -4 * (E * H);
  }

  lemma JoinCong(E: int, F: int, G: int, H: int, e: int, f: int, g: int, h: int)
    requires Cong(F, f, P) && Cong(G, g, P) && Cong(E, e, P) && Cong(H, h, P)
    ensures Same(Join(E, F, G, H), Join(e, f, g, h))
  {
    Mul(E, e, F, f, P);
    Mul(G, g, H, h, P);
    Mul(F, f, G, g, P);
    Mul(E, e, H, h, P);
  }

  // ---------- points in limbs ----------

  /** 2 * -121665 / 121666 */
  const D2: Limbs := [
    -21827239, -5839606, -30745221, 13898782, 229458, 15978800, -12551817, -6495438, 29715968, 9444199]

  const TWICE_D: int := 0x2406d9dc56dffce7198e80f2eef3d13000e0149a8283b156ebd69b9426b2f159

  lemma CurveConstant()
    ensures F.Sized(D2, 1) && Fe(D2) == TWICE_D
    ensures Cong(TWICE_D * 121666, 2 * -121665, P)
  {
    F.WrittenOut(D2);
    hide Value, Cong;
    TwiceD();
  }

  lemma TwiceD()
    ensures Cong(TWICE_D * 121666, 2 * -121665, P)
  {
    hide Cong;
    Shift(TWICE_D * 121666, 2 * -121665, 34244, P);
  }

  /** ge_cached; ge_precomp leaves out Z, which is 1. */
  datatype Cached = Cached(Yp: Limbs, Ym: Limbs, Z: Limbs, T2: Limbs)

  ghost predicate Caches(c: Cached, q: Ext)
  {
    match |c.Yp|
    case 10 =>
      && F.Sized(c.Yp, 2) && F.Sized(c.Ym, 2) && F.Sized(c.Z, 1) && F.Sized(c.T2, 1)
      && Cong(Fe(c.Yp), q.Y + q.X, P) && Cong(Fe(c.Ym), q.Y - q.X, P) && Cong(Fe(c.Z), q.Z, P)
      && Cong(Fe(c.T2), q.T * TWICE_D, P)
    case _ => false
  }

  /** The sums and differences that both additions form before the last four products. */
  ghost predicate Parts(E: int, F: int, G: int, H: int, p: Ext, q: Ext)
  {
    Same(Join(E, F, G, H), RfcAdd(p, q, TWICE_D))
  }

  lemma AddMeans(p: Ext, q: Ext, yp: int, ym: int, t2: int, a: int, b: int, c: int, d: int)
    requires Cong(yp, q.Y + q.X, P) && Cong(ym, q.Y - q.X, P) && Cong(t2, q.T * TWICE_D, P)
    requires Cong(a, (p.Y + p.X) * yp, P) && Cong(b, (p.Y - p.X) * ym, P) && Cong(c, p.T * t2, P) && Cong(d, 2 * p.Z * q.Z, P)
    ensures Parts(a - b, d - c, d + c, a + b, p, q)
  {
    hide Cong;
    var A, B := (p.Y - p.X) * (q.Y - q.X), (p.Y + p.X) * (q.Y + q.X);
    Times(p.Y + p.X, yp, q.Y + q.X, a);
    Times(p.Y - p.X, ym, q.Y - q.X, b);
    Times(p.T, t2, q.T * TWICE_D, c);
    Add(a, B, b, A, P);
    Add(d, 2 * p.Z * q.Z, c, p.T * (q.T * TWICE_D), P);
    JoinCong(a - b, d - c, d + c, a + b, B - A, 2 * p.Z * q.Z - p.T * (q.T * TWICE_D), 2 * p.Z * q.Z + p.T * (q.T * TWICE_D), B + A);
  }

  lemma Times(x: int, y: int, z: int, r: int)
    requires Cong(y, z, P) && Cong(r, x * y, P)
    ensures Cong(r, x * z, P)
  {
    Refl(x, P);
    Mul(x, x, y, z, P);
  }

  lemma DoubleZ(z: int, zq: int, w: int, d: int)
    requires Cong(zq, w, P) && Cong(d, (z + z) * zq, P)
    ensures Cong(d, 2 * z * w, P)
  {
    Times(z + z, zq, w, d);
  }

  /** The product of two factor pairs, as a point. */
  ghost predicate Joined(X: Limbs, Y: Limbs, Z: Limbs, T: Limbs, E: int, F: int, G: int, H: int)
  {
    Same(Ext(Fe(X), Fe(Y), Fe(Z), Fe(T)), Join(E, F, G, H))
  }

  lemma SameTrans(p: Ext, q: Ext, r: Ext)
    requires Same(p, q) && Same(q, r)
    ensures Same(p, r)
  {
  }

  /** ge */
  class Ge {
    var X: Limbs
    var Y: Limbs
    var Z: Limbs
    var T: Limbs

    ghost predicate Valid()
      reads this
    {
      F.Sized(X, 1) && F.Sized(Y, 1) && F.Sized(Z, 1) && F.Sized(T, 1)
    }

    ghost function Coords(): Ext
      reads this
    {
      Ext(Fe(X), Fe(Y), Fe(Z), Fe(T))
    }

    /** ge_zero: the neutral element (0, 1). */
    constructor Zero()
      ensures Valid() && Coords() == Ext(0, 1, 1, 0)
    {
      hide F.Zero, F.One, F.Sized, Fe;
      X, Y, Z, T := F.Zero(), F.One(), F.One(), F.Zero();
    }

    /** ge_cache */
    method Cache() returns (c: Cached)
      requires Valid()
      ensures Caches(c, Coords())
    {
      hide F.Sized, Fe;
      CurveConstant();
      var yp := F.Add(Y, X, 1, 1);
      var ym := F.Sub(Y, X, 1, 1);
      var t2 := F.Mul(T, D2, 1, 1);
      c := Cached(yp, ym, Z, t2);
      CacheMeans(c, Coords());
    }

    /** ge_add: this becomes p + q; p may be this. */
    method Add(p: Ge, q: Cached, ghost Q: Ext)
      requires p.Valid() && Caches(q, Q)
      modifies this
      ensures Valid() && Same(Coords(), RfcAdd(old(p.Coords()), Q, TWICE_D))
    {
      hide F.Sized, Fe, Cong, Same, Caches, RfcAdd, Join;
      ghost var C := p.Coords();
      CachedParts(q, Q);
      var a := F.Add(p.Y, p.X, 1, 1);
      var b := F.Sub(p.Y, p.X, 1, 1);
      a := F.Mul(a, q.Yp, 2, 2);
      b := F.Mul(b, q.Ym, 2, 2);
      Y := F.Add(a, b, 1, 1);
      X := F.Sub(a, b, 1, 1);
      Z := F.Add(p.Z, p.Z, 1, 1);
      Z := F.Mul(Z, q.Z, 2, 1);
      T := F.Mul(p.T, q.T2, 1, 1);
      DoubleZ(C.Z, Fe(q.Z), Q.Z, Fe(Z));
      AddMeans(C, Q, Fe(q.Yp), Fe(q.Ym), Fe(q.T2), Fe(a), Fe(b), Fe(T), Fe(Z));
      a := F.Add(Z, T, 1, 1);
      b := F.Sub(Z, T, 1, 1);
      Finish(a, b, 2, RfcAdd(C, Q, TWICE_D));
    }

    /** The last four products; X and Y are still the differences and sums they are made from. */
    method Finish(a: Limbs, b: Limbs, ghost n: nat, ghost r: Ext)
      requires F.Sized(X, 2) && F.Sized(b, n) && F.Sized(a, n) && F.Sized(Y, 2) && n <= 3
      requires Same(Join(Fe(X), Fe(b), Fe(a), Fe(Y)), r)
      modifies this
      ensures Valid() && Same(Coords(), r)
    {
      hide F.Sized, Fe, Cong, Join;
      ghost var e, h := Fe(X), Fe(Y);
      T := F.Mul(X, Y, 2, 2);
      X := F.Mul(X, b, 2, n);
      Y := F.Mul(Y, a, 2, n);
      Z := F.Mul(a, b, n, n);
      JoinMeans(e, Fe(b), Fe(a), h, Coords(), r);
    }

    /** ge_madd: adding a precomputed point, whose Z is 1. */
    method Madd(p: Ge, q: Cached, ghost Q: Ext)
      requires p.Valid() && Caches(q, Q) && Q.Z == 1
      modifies this
      ensures Valid() && Same(Coords(), RfcAdd(old(p.Coords()), Q, TWICE_D))
    {
      hide F.Sized, Fe, Cong, Same, Caches, RfcAdd, Join;
      ghost var C := p.Coords();
      CachedParts(q, Q);
      var a := F.Add(p.Y, p.X, 1, 1);
      var b := F.Sub(p.Y, p.X, 1, 1);
      a := F.Mul(a, q.Yp, 2, 2);
      b := F.Mul(b, q.Ym, 2, 2);
      Y := F.Add(a, b, 1, 1);
      X := F.Sub(a, b, 1, 1);
      Z := F.Add(p.Z, p.Z, 1, 1);
      T := F.Mul(p.T, q.T2, 1, 1);
      Refl(Fe(Z), P);
      AddMeans(C, Q, Fe(q.Yp), Fe(q.Ym), Fe(q.T2), Fe(a), Fe(b), Fe(T), Fe(Z));
      a := F.Add(Z, T, 2, 1);
      b := F.Sub(Z, T, 2, 1);
      Finish(a, b, 3, RfcAdd(C, Q, TWICE_D));
    }

    /** ge_sub: p - q, by adding the cached negative. */
    method Sub(p: Ge, q: Cached, ghost Q: Ext)
      requires p.Valid() && Caches(q, Q)
      modifies this
      ensures Valid() && Same(Coords(), RfcAdd(old(p.Coords()), Negated(Q), TWICE_D))
    {
      var neg := NegateCached(q, Q);
      Add(p, neg, Negated(Q));
    }

    /** ge_msub */
    method Msub(p: Ge, q: Cached, ghost Q: Ext)
      requires p.Valid() && Caches(q, Q) && Q.Z == 1
      modifies this
      ensures Valid() && Same(Coords(), RfcAdd(old(p.Coords()), Negated(Q), TWICE_D))
    {
      var neg := NegateCached(q, Q);
      Madd(p, neg, Negated(Q));
    }

    /** ge_double: all four coordinates of the RFC's doubling with the opposite sign, the same point. */
    method Double(p: Ge)
      requires p.Valid()
      modifies this
      ensures Valid() && Same(Coords(), Rescaled(-1, RfcDouble(old(p.Coords()))))
    {
      hide F.Sized, Fe, Cong, Same, Join, RfcDouble;
      ghost var C := p.Coords();
      var qx := F.Square(p.X, 1);
      var qy := F.Square(p.Y, 1);
      var qz := F.Square(p.Z, 1);
      ghost var zz := Fe(qz);
      qz := F.MulSmall(qz, 2, 1);
      ghost var z2 := Fe(qz);
      var qt := F.Add(p.X, p.Y, 1, 1);
      T := F.Square(qt, 2);
      DoubleMeans(C, Fe(qx), Fe(qy), zz, z2, Fe(T));
      qt := F.Add(qy, qx, 1, 1);
      qy := F.Sub(qy, qx, 1, 1);
      qx := F.Sub(T, qt, 1, 2);
      qz := F.Sub(qz, qy, 1, 2);
      X := F.Mul(qx, qz, 3, 3);
      Y := F.Mul(qt, qy, 2, 2);
      Z := F.Mul(qy, qz, 2, 3);
      T := F.Mul(qx, qt, 3, 2);
      DoubleJoin(Fe(qx), Fe(qz), Fe(qy), Fe(qt), Coords(), RfcDouble(C));
    }
  }

  lemma CacheMeans(c: Cached, q: Ext)
    requires F.Sized(c.Yp, 2) && F.Sized(c.Ym, 2) && F.Sized(c.Z, 1) && F.Sized(c.T2, 1)
    requires Fe(c.Yp) == q.Y + q.X && Fe(c.Ym) == q.Y - q.X && Fe(c.Z) == q.Z && Cong(Fe(c.T2), q.T * TWICE_D, P)
    ensures Caches(c, q)
  {
    hide Fe;
  }

  lemma CachedParts(c: Cached, q: Ext)
    requires Caches(c, q)
    ensures F.Sized(c.Yp, 2) && F.Sized(c.Ym, 2) && F.Sized(c.Z, 1) && F.Sized(c.T2, 1) && |c.Ym| == 10
    ensures Cong(Fe(c.Yp), q.Y + q.X, P) && Cong(Fe(c.Ym), q.Y - q.X, P) && Cong(Fe(c.Z), q.Z, P)
    ensures Cong(Fe(c.T2), q.T * TWICE_D, P)
  {
  }

  /** Swapping Yp and Ym and negating T2 caches the negative point. */
  method NegateCached(q: Cached, ghost Q: Ext) returns (neg: Cached)
    requires Caches(q, Q)
    ensures Caches(neg, Negated(Q))
  {
    hide F.Sized, Fe, Caches;
    CachedParts(q, Q);
    var t2 := F.Neg(q.T2, 1);
    neg := Cached(q.Ym, q.Yp, q.Z, t2);
    NegatedParts(q, Q, neg);
  }

  lemma NegatedParts(q: Cached, Q: Ext, neg: Cached)
    requires Caches(q, Q) && F.Sized(neg.T2, 1) && Fe(neg.T2) == -Fe(q.T2)
    requires neg.Yp == q.Ym && neg.Ym == q.Yp && neg.Z == q.Z
    ensures Caches(neg, Negated(Q))
  {
    hide Fe, F.Sized, Cong;
    CachedParts(q, Q);
    Refl(0, P);
    Add(0, 0, Fe(q.T2), Q.T * TWICE_D, P);
    assert -(Q.T * TWICE_D) == (-Q.T) * TWICE_D;
  }

  lemma JoinMeans(e: int, f: int, g: int, h: int, c: Ext, r: Ext)
    requires Same(Join(e, f, g, h), r)
    requires Cong(c.T, e * h, P) && Cong(c.X, e * f, P) && Cong(c.Y, h * g, P) && Cong(c.Z, g * f, P)
    ensures Same(c, r)
  {
    assert h * g == g * h && g * f == f * g;
    SameTrans(c, Join(e, f, g, h), r);
  }

  /** The doubling's four factors are -E, F, -G and H of the RFC. */
  lemma DoubleMeans(p: Ext, xx: int, yy: int, zz: int, z2: int, sum: int)
    requires Cong(xx, p.X * p.X, P) && Cong(yy, p.Y * p.Y, P) && Cong(zz, p.Z * p.Z, P) && Cong(z2, zz * 2, P)
    requires Cong(sum, (p.X + p.Y) * (p.X + p.Y), P)
    ensures Same(Join(-(sum - (yy + xx)), z2 - (yy - xx), -(yy - xx), yy + xx), RfcDouble(p))
  {
    hide Cong, Same, Join;
    var A, B, S := p.X * p.X, p.Y * p.Y, (p.X + p.Y) * (p.X + p.Y);
    Times(2, zz, p.Z * p.Z, z2);
    Add(yy, B, xx, A, P);
    Add(yy + xx, B + A, sum, S, P);
    Add(z2, 2 * (p.Z * p.Z), yy - xx, B - A, P);
    Add(xx, A, yy, B, P);
    JoinCong(-(sum - (yy + xx)), z2 - (yy - xx), -(yy - xx), yy + xx, A + B - S, 2 * (p.Z * p.Z) + (A - B), A - B, A + B);
  }

  lemma DoubleJoin(qx: int, qz: int, qy: int, qt: int, c: Ext, d: Ext)
    requires Same(Join(-qx, qz, -qy, qt), d)
    requires Cong(c.X, qx * qz, P) && Cong(c.Y, qt * qy, P) && Cong(c.Z, qy * qz, P) && Cong(c.T, qx * qt, P)
    ensures Same(c, Rescaled(-1, d))
  {
    hide Cong;
    Flip(c.X, qx * qz, (-qx) * qz, d.X);
    Flip(c.Y, qt * qy, (-qy) * qt, d.Y);
    Flip(c.Z, qy * qz, qz * (-qy), d.Z);
    Flip(c.T, qx * qt, (-qx) * qt, d.T);
  }

  lemma Flip(a: int, b: int, minus_b: int, c: int)
    requires Cong(a, b, P) && minus_b == -b && Cong(minus_b, c, P)
    ensures Cong(a, -1 * c, P)
  {
    Refl(0, P);
    Add(0, 0, minus_b, c, P);
    Trans(a, b, -c, P);
  }
}
