/** Fermat's little theorem, for any modulus without zero divisors. */
module Fermat {
  import opened ModArith

  /** A product is 0 only when a factor is. */
  ghost predicate SplitsAt(a: int, b: int, m: int)
    requires m > 0
  {
    Cong(a * b, 0, m) ==> Cong(a, 0, m) || Cong(b, 0, m)
  }

  /** What primality of the modulus gives. */
  ghost predicate PrimeModulus(m: int)
  {
    m > 1 && forall a, b :: SplitsAt(a, b, m)
  }

  ghost function Factorial(n: nat): nat
  {
    if n == 0 then 1 else n * Factorial(n - 1)
  }

  /** The product of those members of s that lie in 1..n. */
  ghost function Product(s: set<int>, n: nat): int
  {
    if n == 0 then 1 else (if n in s then n else 1) * Product(s, n - 1)
  }

  /** x, 2x, ..., kx as residues. */
  ghost function Images(x: int, k: nat, m: int): set<int>
    requires m > 0
  {
    if k == 0 then {} else Images(x, k - 1, m) + {(k * x) % m}
  }

  lemma Zero(a: int, m: int)
    requires m > 0
    ensures Cong(a, 0, m) <==> a % m == 0
  {
  }

  lemma SmallNotZero(a: int, m: int)
    requires 0 < a < m
    ensures !Cong(a, 0, m)
  {
    Quotient(a, 0, a, m);
    Zero(a, m);
  }

  lemma {:induction false} FactorialNotZero(n: nat, m: int)
    requires PrimeModulus(m) && n < m
    ensures !Cong(Factorial(n), 0, m)
  {
    if n == 0 {
      SmallNotZero(1, m);
    } else {
      FactorialNotZero(n - 1, m);
      SmallNotZero(n, m);
      assert SplitsAt(n, Factorial(n - 1), m);
    }
  }

  /** Multiples of x by different numbers are different residues. */
  lemma Different(x: int, i: nat, j: nat, m: int)
    requires PrimeModulus(m) && !Cong(x, 0, m) && i < j < m
    ensures (i * x) % m != (j * x) % m
  {
    if (i * x) % m == (j * x) % m {
      assert Cong(j * x, i * x, m);
      Refl(i * x, m);
      Add(j * x, i * x, i * x, i * x, m);
      assert j * x - i * x == (j - i) * x && i * x - i * x == 0;
      assert SplitsAt(j - i, x, m);
      SmallNotZero(j - i, m);
    }
  }

  lemma {:induction false} ImagesAre(x: int, k: nat, m: int, y: int)
    requires m > 0
    ensures y in Images(x, k, m) <==> exists i :: 1 <= i <= k && y == Image(x, i, m)
  {
    if k > 0 {
      ImagesAre(x, k - 1, m, y);
      assert Image(x, k, m) == (k * x) % m;
    }
  }

  ghost function Image(x: int, i: int, m: int): int
    requires m > 0
  {
    (i * x) % m
  }

  /** The next multiple is a new residue, and not 0. */
  lemma NextImage(x: int, k: nat, m: int)
    requires PrimeModulus(m) && !Cong(x, 0, m) && 1 <= k < m
    ensures 1 <= (k * x) % m < m && (k * x) % m !in Images(x, k - 1, m)
  {
    Different(x, 0, k, m);
    Quotient(0, 0, 0, m);
    var y := (k * x) % m;
    ImagesAre(x, k - 1, m, y);
    if y in Images(x, k - 1, m) {
      var i :| 1 <= i <= k - 1 && y == Image(x, i, m);
      Different(x, i, k, m);
    }
  }

  lemma {:induction false} ProductWith(s: set<int>, y: int, n: nat)
    requires y >= 1 && y !in s
    ensures Product(s + {y}, n) == if y <= n then y * Product(s, n) else Product(s, n)
  {
    if n > 0 {
      ProductWith(s, y, n - 1);
      var f := if n in s then n else 1;
      if n == y {
        assert Product(s, n) == 1 * Product(s, n - 1);
      } else if y < n {
        Exchange(f, y, Product(s, n - 1));
      }
    }
  }

  lemma Exchange(a: int, b: int, c: int)
    ensures a * (b * c) == b * (a * c)
  {
  }

  /** Multiplying the residues taken so far. */
  lemma {:induction false} ImagesMultiply(x: int, k: nat, m: int)
    requires PrimeModulus(m) && !Cong(x, 0, m) && k < m
    ensures Cong(Product(Images(x, k, m), m - 1), Pow(x, k) * Factorial(k), m)
    ensures |Images(x, k, m)| == k && forall y :: y in Images(x, k, m) ==> 1 <= y < m
  {
    if k == 0 {
      ProductOfNone(m - 1);
      Refl(1, m);
    } else {
      hide Product, Cong, PrimeModulus;
      ImagesMultiply(x, k - 1, m);
      NextImage(x, k, m);
      var s, y := Images(x, k - 1, m), (k * x) % m;
      ProductWith(s, y, m - 1);
      NextProduct(y, k, x, m, Product(s, m - 1), Pow(x, k - 1), Factorial(k - 1));
    }
  }

  lemma NextProduct(y: int, k: int, x: int, m: int, product: int, p: int, f: int)
    requires m > 0 && y == (k * x) % m && Cong(product, p * f, m)
    ensures Cong(y * product, (x * p) * (k * f), m)
  {
    hide Cong;
    Shift(y, k * x, -((k * x) / m), m);
    Mul(y, k * x, product, p * f, m);
    Gather(k, x, p, f);
  }

  lemma Gather(k: int, x: int, p: int, f: int)
    ensures (k * x) * (p * f) == (x * p) * (k * f)
  {
  }

  lemma {:induction false} ProductOfNone(n: nat)
    ensures Product({}, n) == 1
  {
    if n > 0 {
      ProductOfNone(n - 1);
    }
  }

  ghost function Range(n: nat): (r: set<int>)
    ensures |r| == n && forall y :: y in r <==> 1 <= y <= n
  {
    if n == 0 then {} else Range(n - 1) + {n}
  }

  lemma {:induction false} ProductOfAll(s: set<int>, n: nat)
    requires forall y :: 1 <= y <= n ==> y in s
    ensures Product(s, n) == Factorial(n)
  {
    if n > 0 {
      ProductOfAll(s, n - 1);
    }
  }

  lemma AllOfThem(s: set<int>, n: nat)
    requires |s| == n && forall y :: y in s ==> 1 <= y <= n
    ensures forall y :: 1 <= y <= n ==> y in s
  {
    var r := Range(n);
    assert s <= r;
    SameSize(s, r);
  }

  lemma SameSize(s: set<int>, r: set<int>)
    requires s <= r && |s| == |r|
    ensures s == r
  {
    var rest := r - s;
    assert r == s + rest;
    assert |r| == |s| + |rest|;
  }

  lemma FermatLittle(x: int, m: int)
    requires PrimeModulus(m) && !Cong(x, 0, m)
    ensures Cong(Pow(x, m - 1), 1, m)
  {
    hide Cong, Pow;
    var s, p, f := Images(x, m - 1, m), Pow(x, m - 1), Factorial(m - 1);
    ImagesMultiply(x, m - 1, m);
    AllOfThem(s, m - 1);
    ProductOfAll(s, m - 1);
    FactorialNotZero(m - 1, m);
    Cancel(p, 1, f, m);
  }

  /** A factor that is not 0 cancels. */
  lemma Cancel(a: int, b: int, f: int, m: int)
    requires PrimeModulus(m) && !Cong(f, 0, m) && Cong(b * f, a * f, m)
    ensures Cong(a, b, m)
  {
    Refl(b * f, m);
    Add(b * f, a * f, b * f, b * f, m);
    assert a * f - b * f == (a - b) * f && b * f - b * f == 0;
    assert SplitsAt(a - b, f, m);
    assert Cong((a - b) * f, 0, m);
    var k := Witness(a - b, 0, m);
    Shift(a, b, k, m);
  }
}
