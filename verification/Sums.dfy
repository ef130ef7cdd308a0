/** Finite sums of integer functions, and powers of two. */
module Sums {
  import opened ModArith

  function Pow2(n: nat): (r: nat)
    ensures r > 0
  {
    if n == 0 then 1 else 2 * Pow2(n - 1)
  }

  lemma {:induction false} Pow2Add(a: nat, b: nat)
    ensures Pow2(a + b) == Pow2(a) * Pow2(b)
  {
    if a > 0 {
      Pow2Add(a - 1, b);
      assert Pow2(a + b) == 2 * Pow2(a - 1 + b);
      assert 2 * (Pow2(a - 1) * Pow2(b)) == 2 * Pow2(a - 1) * Pow2(b);
    }
  }

  lemma Pow2Known(a: nat, b: nat, x: int, y: int)
    requires Pow2(a) == x && Pow2(b) == y
    ensures Pow2(a + b) == x * y
  {
    Pow2Add(a, b);
  }

  lemma Pow2Next(n: nat)
    ensures Pow2(n + 1) == 2 * Pow2(n)
  {
  }

  lemma Pow2Byte()
    ensures Pow2(8) == 0x100
  {
    Pow2Next(0);
    Pow2Next(1);
    Pow2Next(3);
    hide Pow2;
    Pow2Known(2, 2, 4, 4);
    Pow2Known(4, 4, 16, 16);
  }

  lemma Pow2Values()
    ensures Pow2(8) == 0x100 && Pow2(16) == 0x1_0000 && Pow2(32) == 0x1_0000_0000
    ensures Pow2(64) == 0x1_0000_0000_0000_0000
    ensures Pow2(128) == 0x100000000000000000000000000000000
    ensures Pow2(255) == 0x8000000000000000000000000000000000000000000000000000000000000000
    ensures Pow2(256) == 0x10000000000000000000000000000000000000000000000000000000000000000
  {
    hide Pow2;
    Pow2Byte();
    Pow2Next(255);
    Pow2Known(8, 8, 0x100, 0x100);
    Pow2Known(16, 16, 0x1_0000, 0x1_0000);
    Pow2Known(32, 32, 0x1_0000_0000, 0x1_0000_0000);
    Pow2Known(64, 64, 0x1_0000_0000_0000_0000, 0x1_0000_0000_0000_0000);
    Pow2Known(128, 128, 0x100000000000000000000000000000000, 0x100000000000000000000000000000000);
  }

  /** f(0) + ... + f(n - 1) */
  ghost function Sum(f: int -> int, n: nat): int
  {
    if n == 0 then 0 else Sum(f, n - 1) + f(n - 1)
  }

  lemma {:induction false} SumEq(f: int -> int, g: int -> int, n: nat)
    requires forall k :: 0 <= k < n ==> f(k) == g(k)
    ensures Sum(f, n) == Sum(g, n)
  {
    if n > 0 {
      SumEq(f, g, n - 1);
    }
  }

  lemma {:induction false} SumCong(f: int -> int, g: int -> int, n: nat, m: int)
    requires m > 0
    requires forall k :: 0 <= k < n ==> Cong(f(k), g(k), m)
    ensures Cong(Sum(f, n), Sum(g, n), m)
  {
    if n > 0 {
      SumCong(f, g, n - 1, m);
      Add(Sum(f, n - 1), Sum(g, n - 1), f(n - 1), g(n - 1), m);
    }
  }

  lemma {:induction false} SumScale(c: int, f: int -> int, n: nat)
    ensures Sum(k => c * f(k), n) == c * Sum(f, n)
  {
    if n > 0 {
      SumScale(c, f, n - 1);
      assert c * (Sum(f, n - 1) + f(n - 1)) == c * Sum(f, n - 1) + c * f(n - 1);
    }
  }

  lemma {:induction false} SumPlus(f: int -> int, g: int -> int, n: nat)
    ensures Sum(k => f(k) + g(k), n) == Sum(f, n) + Sum(g, n)
  {
    if n > 0 {
      SumPlus(f, g, n - 1);
    }
  }

  lemma {:induction false} SumShift(f: int -> int, n: nat)
    ensures Sum(k => f(k + 1), n) == Sum(f, n) - f(0) + f(n)
  {
    if n > 0 {
      SumShift(f, n - 1);
    }
  }

  /** Rotating the index range leaves a sum unchanged. */
  lemma {:induction false} SumRotate(f: int -> int, n: nat, r: nat)
    requires r <= n
    ensures Sum(k => f(if k + r < n then k + r else k + r - n), n) == Sum(f, n)
  {
    hide Sum;
    if r == 0 {
      SumEq(k => f(if k + r < n then k + r else k + r - n), f, n);
    } else {
      SumRotate(f, n, r - 1);
      var h := k => f(if k + (r - 1) < n then k + (r - 1) else k + (r - 1) - n);
      var g := k => f(if k + r < n then k + r else k + r - n);
      SumShift(h, n);
      assert h(n) == h(0) && forall k :: 0 <= k < n ==> h(k + 1) == g(k);
      SumEq(k => h(k + 1), g, n);
    }
  }
}
