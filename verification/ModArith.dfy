/** Congruence of integers modulo a positive number, and powers. */
module ModArith {

  ghost predicate Cong(a: int, b: int, m: int)
    requires m > 0
  {
    a % m == b % m
  }

  /** Two numbers that differ by a multiple of `m` are congruent. */
  lemma Shift(a: int, b: int, k: int, m: int)
    requires m > 0
    requires a == b + k * m
    ensures Cong(a, b, m)
  {
    var q := b / m;
    assert b == q * m + b % m;
    assert (q + k) * m == q * m + k * m;
    Quotient(a, q + k, b % m, m);
  }

  lemma Quotient(a: int, q: int, r: int, m: int)
    requires m > 0 && 0 <= r < m
    requires a == q * m + r
    ensures a / m == q && a % m == r
  {
    var d := a / m - q;
    assert a == (a / m) * m + a % m;
    assert d * m == (a / m) * m - q * m;
    assert d * m == r - a % m;
    Scale(d, m);
  }

  lemma Scale(d: int, m: int)
    requires m > 0
    ensures d >= 1 ==> d * m >= m
    ensures d <= -1 ==> d * m <= -m
  {
  }

  lemma Witness(a: int, b: int, m: int) returns (k: int)
    requires m > 0 && Cong(a, b, m)
    ensures a == b + k * m
  {
    k := a / m - b / m;
    assert a == (a / m) * m + a % m;
    assert b == (b / m) * m + b % m;
    assert k * m == (a / m) * m - (b / m) * m;
  }

  lemma Refl(a: int, m: int)
    requires m > 0
    ensures Cong(a, a, m)
  {
  }

  lemma Symmetric(a: int, b: int, m: int)
    requires m > 0 && Cong(a, b, m)
    ensures Cong(b, a, m)
  {
  }

  lemma Trans(a: int, b: int, c: int, m: int)
    requires m > 0 && Cong(a, b, m) && Cong(b, c, m)
    ensures Cong(a, c, m)
  {
  }

  lemma Add(a: int, b: int, c: int, d: int, m: int)
    requires m > 0 && Cong(a, b, m) && Cong(c, d, m)
    ensures Cong(a + c, b + d, m) && Cong(a - c, b - d, m)
  {
    var k := Witness(a, b, m);
    var l := Witness(c, d, m);
    assert (k + l) * m == k * m + l * m && (k - l) * m == k * m - l * m;
    Shift(a + c, b + d, k + l, m);
    Shift(a - c, b - d, k - l, m);
  }

  lemma Mul(a: int, b: int, c: int, d: int, m: int)
    requires m > 0 && Cong(a, b, m) && Cong(c, d, m)
    ensures Cong(a * c, b * d, m)
  {
    var k := Witness(a, b, m);
    var l := Witness(c, d, m);
    Expand(b, k, d, l, m);
    Shift(a * c, b * d, b * l + k * c, m);
  }

  lemma Expand(b: int, k: int, d: int, l: int, m: int)
    ensures (b + k * m) * (d + l * m) == b * d + (b * l + k * (d + l * m)) * m
  {
    var c := d + l * m;
    assert (b + k * m) * c == b * c + (k * m) * c;
    assert (k * m) * c == (k * c) * m;
    assert b * c == b * d + b * (l * m);
    assert b * (l * m) == (b * l) * m;
    assert (b * l) * m + (k * c) * m == (b * l + k * c) * m;
  }

  /** A congruence class has one member in [0, m). */
  lemma Unique(a: int, b: int, m: int)
    requires m > 0 && 0 <= a < m && 0 <= b < m && Cong(a, b, m)
    ensures a == b
  {
    Quotient(a, 0, a, m);
    Quotient(b, 0, b, m);
  }

  lemma AddMod(a: nat, b: nat, m: nat)
    requires m > 0
    ensures (a % m + b) % m == (a + b) % m
  {
    Shift(a % m + b, a + b, 0 - a / m, m);
  }

  lemma AddInner(a: int, b: int, m: int)
    requires m > 0
    ensures (a + b % m) % m == (a + b) % m
  {
    Shift(a + b % m, a + b, -(b / m), m);
  }

  lemma ModSum(a: int, b: int, m: int)
    requires m > 0
    ensures (a % m + b % m) % m == (a + b) % m && (a % m - b % m) % m == (a - b) % m
  {
    Shift(a % m, a, -(a / m), m);
    Shift(b % m, b, -(b / m), m);
    Add(a % m, a, b % m, b, m);
  }

  function Pow(b: int, e: nat): int
  {
    if e == 0 then 1 else b * Pow(b, e - 1)
  }

  lemma PowNext(b: int, e: nat)
    ensures Pow(b, e) * b == Pow(b, e + 1)
  {
  }

  lemma {:induction false} PowAdd(b: int, e: nat, f: nat)
    ensures Pow(b, e + f) == Pow(b, e) * Pow(b, f)
  {
    if e > 0 {
      PowAdd(b, e - 1, f);
      assert Pow(b, e + f) == b * Pow(b, e - 1 + f);
      assert b * (Pow(b, e - 1) * Pow(b, f)) == b * Pow(b, e - 1) * Pow(b, f);
    }
  }

  lemma {:induction false} PowPositive(b: int, e: nat)
    requires b > 0
    ensures Pow(b, e) > 0
  {
    if e > 0 {
      PowPositive(b, e - 1);
      assert b * Pow(b, e - 1) > 0;
    }
  }

  lemma {:induction false} PowCong(a: int, b: int, e: nat, m: int)
    requires m > 0 && Cong(a, b, m)
    ensures Cong(Pow(a, e), Pow(b, e), m)
  {
    if e > 0 {
      PowCong(a, b, e - 1, m);
      Mul(a, b, Pow(a, e - 1), Pow(b, e - 1), m);
    }
  }
}
