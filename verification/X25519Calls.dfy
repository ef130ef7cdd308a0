/** X25519 and its inverse as they are called (monocypher.c, crypto_x25519 and crypto_x25519_inverse). */
module X25519Calls {
  import opened ModArith
  import opened Sums
  import opened Words
  import opened ScalarBits
  import opened X25519
  import opened ScalarInverse
  import opened Fermat
  import A = AbelianGroup
  import ScalarModL
  import FieldElement

  const L := ScalarModL.L
  const P := FieldElement.P

  /** The x coordinate in an encoded point. */
  ghost function XOf(p: seq<u8>): int
    requires |p| == 32
  {
    (Num(p, 256, 32) % TOP) % P
  }

  /** The scalar of a private key. */
  ghost function KeyScalar(key: seq<u8>): nat
    requires |key| == 32
  {
    BitNum(Trim(key), 256)
  }

  lemma KeyRange(key: seq<u8>)
    requires |key| == 32
    ensures KeyScalar(key) == Num(Trim(key), 256, 32) == BitNum(Trim(key), 255)
    ensures 0 < KeyScalar(key) < TOP && KeyScalar(key) % 8 == 0
  {
    var t := Trim(key);
    BitsSpellNumber(t, 32);
    LowByte(t);
    LowBits(key[0]);
    BitNumBound(t, 255);
    Pow2Values();
    NotZero(t);
    TopBit(t);
    hide BitNum, Num, Pow2, Pow;
  }

  lemma LowBits(x: u8)
    ensures (x / 8 * 8) % 8 == 0
  {
  }

  /** Trimming clears bit 255. */
  lemma TopBit(t: seq<u8>)
    requires |t| == 32 && t[31] < 128
    ensures BitNum(t, 256) == BitNum(t, 255)
  {
    Pow2Known(3, 4, 8, 16);
    assert ScalarBit(t, 255) == (t[31] / Pow2(7)) % 2;
  }

  /** And sets a bit of the top byte. */
  lemma NotZero(t: seq<u8>)
    requires |t| == 32 && t[31] > 0
    ensures Num(t, 256, 32) > 0
  {
    NumBound(t, 256, 31);
    PowPositive(256, 31);
    assert t[31] * Pow(256, 31) > 0;
  }

  /** No trimmed key is a multiple of L: 8 divides it, and 8L is more than 2^255. */
  lemma KeyInvertible(key: seq<u8>)
    requires |key| == 32
    ensures !Cong(KeyScalar(key), 0, L)
  {
    KeyRange(key);
    NoMultiple(KeyScalar(key));
  }

  lemma NoMultiple(k: nat)
    requires 0 < k < TOP && k % 8 == 0
    ensures !Cong(k, 0, L)
  {
    Zero(k, L);
  }

  /** crypto_x25519: the x coordinate of the trimmed key's multiple of the point. */
  method CryptoX25519(secret_key: seq<u8>, public_key: seq<u8>) returns (shared: seq<u8>)
    requires |secret_key| == |public_key| == 32
    ensures |shared| == 32 && Affine(Num(shared, 256, 32), Multiple(XOf(public_key), 255, KeyScalar(secret_key)))
  {
    hide Num, Affine, Multiple, KeyScalar, Trim, BitNum;
    KeyRange(secret_key);
    shared := Scalarmult(Trim(secret_key), public_key, 255);
  }

  /** crypto_x25519_inverse: the ladder over all 256 bits of the inverse scalar. */
  method CryptoX25519Inverse(private_key: seq<u8>, curve_point: seq<u8>) returns (blind_salt: seq<u8>, ghost s: nat)
    requires |private_key| == |curve_point| == 32
    ensures |blind_salt| == 32 && Affine(Num(blind_salt, 256, 32), Multiple(XOf(curve_point), 256, s))
    ensures s < Pow2(256) && s % L == FermatInverse(KeyScalar(private_key)) && s % 8 == 0
  {
    hide Num, Affine, Multiple, KeyScalar, Trim, BitNum, FermatInverse, Pow2;
    KeyRange(private_key);
    var scalar := X25519InverseScalar(private_key);
    s := BitNum(scalar, 256);
    BitsSpellNumber(scalar, 32);
    BitNumBound(scalar, 256);
    blind_salt := Scalarmult(scalar, curve_point, 256);
  }

  /** s * k = 1 modulo L, when L is prime. */
  lemma InverseScalar(k: int, s: int)
    requires PrimeModulus(L) && !Cong(k, 0, L) && s % L == FermatInverse(k)
    ensures Cong(s * k, 1, L)
  {
    hide Cong, PrimeModulus;
    FermatLittle(k, L);
    var p := Pow(k, L - 2);
    PowNext(k, L - 2);
    ResidueOf(s, p);
    Refl(k, L);
    Mul(s, p, k, k, L);
    Trans(s * k, p * k, 1, L);
  }

  lemma ResidueOf(s: int, p: int)
    requires s % L == p % L
    ensures Cong(s, p, L)
  {
  }

  /** The scalar undoes the key on points of order L, and removes any part of order 8. */
  lemma InverseCancels<G(!new)>(g: A.Group<G>, Q: G, T: G, k: nat, s: nat)
    requires A.Abelian(g) && A.Mul(g, L, Q) == g.zero && A.Mul(g, 8, T) == g.zero
    requires Cong(s * k, 1, L) && s % 8 == 0
    ensures A.Mul(g, s, g.add(A.Mul(g, k, Q), T)) == Q
  {
    hide A.Abelian, A.Mul, Cong;
    A.TimesSum(g, s, A.Mul(g, k, Q), T);
    A.MulMul(g, s, k, Q);
    A.MulCong(g, s * k, 1, L, Q);
    A.MulOne(g, Q);
    A.MulOfOrder(g, s / 8, 8, T);
    A.Unit(g, Q);
  }

  /** So crypto_x25519_inverse finds the point Q from [k]Q, whatever point of order 8 has been added to it. */
  lemma InverseStands<G(!new)>(c: Curve<G>, x1: int, Q: G, T: G, key: seq<u8>, s: nat)
    requires |key| == 32 && PrimeModulus(L)
    requires Montgomery(c, x1, c.group.add(A.Mul(c.group, KeyScalar(key), Q), T))
    requires A.Mul(c.group, L, Q) == c.group.zero && A.Mul(c.group, 8, T) == c.group.zero
    requires s < Pow2(256) && s % L == FermatInverse(KeyScalar(key)) && s % 8 == 0
    ensures c.stands(Multiple(x1, 256, s), Q)
  {
    var k := KeyScalar(key);
    KeyInvertible(key);
    assert A.Abelian(c.group);
    hide *;
    InverseScalar(k, s);
    InverseCancels(c.group, Q, T, k, s);
    MultipleStands(c, x1, c.group.add(A.Mul(c.group, k, Q), T), 256, s);
  }
}
