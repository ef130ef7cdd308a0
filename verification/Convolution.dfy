/** Multiplication in a ten-limb representation whose weights multiply up to a factor:
    if w(i) * w(j) is congruent to c(i, j) * w(i + j mod 10), then the ten wrapped
    convolution sums stand for the product. */
module Convolution {
  import opened ModArith
  import opened Sums

  function Wrap(i: int): int
  {
    if i < 10 then i else i - 10
  }

  /** The partner of limb i in sum k. */
  function Partner(k: int, i: int): int
  {
    if k >= i then k - i else k + 10 - i
  }

  /** c(0, k) * x(0) * y(k) + c(1, k - 1) * x(1) * y(k - 1) + ..., n products, indices mod 10. */
  ghost function ConvSum(c: (int, int) -> int, x: int -> int, y: int -> int, k: int, n: nat): int
  {
    if n == 0 then 0
    else ConvSum(c, x, y, k, n - 1) + c(n - 1, Partner(k, n - 1)) * (x(n - 1) * y(Partner(k, n - 1)))
  }

  ghost predicate WeightsMultiply(w: int -> int, c: (int, int) -> int, m: int)
    requires m > 0
  {
    forall i, j :: 0 <= i < 10 && 0 <= j < 10 ==> Cong(w(i) * w(j), c(i, j) * w(Wrap(i + j)), m)
  }

  ghost function Times(w: int -> int, x: int -> int): int -> int
  {
    k => w(k) * x(k)
  }

  ghost function Row(w: int -> int, c: (int, int) -> int, x: int -> int, y: int -> int, n: int): int -> int
  {
    j => w(Wrap(n + j)) * (c(n, j) * (x(n) * y(j)))
  }

  lemma Regroup(wi: int, wj: int, wk: int, c: int, x: int, y: int)
    ensures wi * wj * (x * y) == wi * x * (wj * y)
    ensures c * wk * (x * y) == wk * (c * (x * y))
  {
    calc {
      wi * wj * (x * y);
      wi * (wj * (x * y));
      { assert wj * (x * y) == x * (wj * y); }
      wi * (x * (wj * y));
      wi * x * (wj * y);
    }
    assert c * wk * (x * y) == wk * c * (x * y);
  }

  lemma TermCong(wi: int, wj: int, wk: int, c: int, x: int, y: int, m: int)
    requires m > 0 && Cong(wi * wj, c * wk, m)
    ensures Cong(wk * (c * (x * y)), wi * x * (wj * y), m)
  {
    Refl(x * y, m);
    hide Cong;
    Mul(wi * wj, c * wk, x * y, x * y, m);
    Regroup(wi, wj, wk, c, x, y);
  }

  lemma Distribute(w: int, a: int, b: int)
    ensures w * (a + b) == w * a + w * b
  {
  }

  lemma RowTermCong(w: int -> int, c: (int, int) -> int, x: int -> int, y: int -> int, n: int, j: int, m: int)
    requires m > 0 && 0 <= n < 10 && 0 <= j < 10 && WeightsMultiply(w, c, m)
    ensures Cong(Row(w, c, x, y, n)(j), w(n) * x(n) * Times(w, y)(j), m)
  {
    hide Cong, WeightsMultiply, Wrap;
    WeightsAt(w, c, n, j, m);
    var wi, wj, wk, cj, xn, yj := w(n), w(j), w(Wrap(n + j)), c(n, j), x(n), y(j);
    TermCong(wi, wj, wk, cj, xn, yj, m);
  }

  lemma WeightsAt(w: int -> int, c: (int, int) -> int, i: int, j: int, m: int)
    requires m > 0 && 0 <= i < 10 && 0 <= j < 10 && WeightsMultiply(w, c, m)
    ensures Cong(w(i) * w(j), c(i, j) * w(Wrap(i + j)), m)
  {
    hide Cong;
  }

  lemma RowValue(w: int -> int, c: (int, int) -> int, x: int -> int, y: int -> int, n: int, m: int)
    requires m > 0 && 0 <= n < 10 && WeightsMultiply(w, c, m)
    ensures Cong(Sum(Row(w, c, x, y, n), 10), w(n) * x(n) * Sum(Times(w, y), 10), m)
  {
    hide *;
    var scale := w(n) * x(n);
    forall j | 0 <= j < 10 ensures Cong(Row(w, c, x, y, n)(j), scale * Times(w, y)(j), m) {
      RowTermCong(w, c, x, y, n, j, m);
    }
    SumScaledCong(Row(w, c, x, y, n), Times(w, y), scale, m);
  }

  lemma SumScaledCong(row: int -> int, f: int -> int, scale: int, m: int)
    requires m > 0
    requires forall j :: 0 <= j < 10 ==> Cong(row(j), scale * f(j), m)
    ensures Cong(Sum(row, 10), scale * Sum(f, 10), m)
  {
    hide Sum;
    SumCong(row, k => scale * f(k), 10, m);
    SumScale(scale, f, 10);
  }

  ghost function Sums10(w: int -> int, c: (int, int) -> int, x: int -> int, y: int -> int, n: nat): int -> int
  {
    k => w(k) * ConvSum(c, x, y, k, n)
  }

  lemma RowStepAt(w: int -> int, c: (int, int) -> int, x: int -> int, y: int -> int, n: nat, k: int)
    requires 0 <= n < 10 && 0 <= k < 10
    ensures Sums10(w, c, x, y, n + 1)(k) == Sums10(w, c, x, y, n)(k) + Row(w, c, x, y, n)(Partner(k, n))
  {
    var j := Partner(k, n);
    Distribute(w(k), ConvSum(c, x, y, k, n), c(n, j) * (x(n) * y(j)));
  }

  lemma SumRotatedStep(before: int -> int, after: int -> int, row: int -> int, n: nat)
    requires n < 10
    requires forall k :: 0 <= k < 10 ==> after(k) == before(k) + row(Partner(k, n))
    ensures Sum(after, 10) == Sum(before, 10) + Sum(row, 10)
  {
    hide Sum;
    var r := 10 - n;
    var rotated := k => row(if k + r < 10 then k + r else k + r - 10);
    SumEq(after, k => before(k) + rotated(k), 10);
    SumPlus(before, rotated, 10);
    SumRotate(row, 10, r);
  }

  lemma RowStep(w: int -> int, c: (int, int) -> int, x: int -> int, y: int -> int, n: nat)
    requires n < 10
    ensures Sum(Sums10(w, c, x, y, n + 1), 10) == Sum(Sums10(w, c, x, y, n), 10) + Sum(Row(w, c, x, y, n), 10)
  {
    hide *;
    forall k | 0 <= k < 10
      ensures Sums10(w, c, x, y, n + 1)(k) == Sums10(w, c, x, y, n)(k) + Row(w, c, x, y, n)(Partner(k, n))
    {
      RowStepAt(w, c, x, y, n, k);
    }
    SumRotatedStep(Sums10(w, c, x, y, n), Sums10(w, c, x, y, n + 1), Row(w, c, x, y, n), n);
  }

  lemma ScaleStep(s: int, w: int, x: int, g: int)
    ensures (s + w * x) * g == s * g + w * (x * g)
  {
    assert (s + w * x) * g == s * g + (w * x) * g;
    assert (w * x) * g == w * (x * g);
  }

  lemma {:induction false} TimesScaled(w: int -> int, x: int -> int, y: int -> int, g: int, n: nat)
    requires forall k :: 0 <= k < n ==> y(k) == x(k) * g
    ensures Sum(Times(w, y), n) == Sum(Times(w, x), n) * g
  {
    if n > 0 {
      TimesScaled(w, x, y, g, n - 1);
      ScaleStep(Sum(Times(w, x), n - 1), w(n - 1), x(n - 1), g);
    }
  }

  lemma {:induction false} SumZero(f: int -> int, n: nat)
    requires forall k :: 0 <= k < n ==> f(k) == 0
    ensures Sum(f, n) == 0
  {
    if n > 0 {
      SumZero(f, n - 1);
    }
  }

  lemma AddProducts(t: int, r: int, s: int, c: int, g: int, m: int)
    requires m > 0 && Cong(t, s * g, m) && Cong(r, c * g, m)
    ensures Cong(t + r, (s + c) * g, m)
  {
    Add(t, s * g, r, c * g, m);
    Distribute(g, s, c);
  }

  lemma SumsStart(w: int -> int, c: (int, int) -> int, x: int -> int, y: int -> int, m: int)
    requires m > 0
    ensures Cong(Sum(Sums10(w, c, x, y, 0), 10), Sum(Times(w, x), 0) * Sum(Times(w, y), 10), m)
  {
    forall k | 0 <= k < 10 ensures Sums10(w, c, x, y, 0)(k) == 0 {
      assert ConvSum(c, x, y, k, 0) == 0;
    }
    SumZero(Sums10(w, c, x, y, 0), 10);
  }

  lemma SumStep(w: int -> int, x: int -> int, n: nat)
    ensures Sum(Times(w, x), n + 1) == Sum(Times(w, x), n) + w(n) * x(n)
  {
  }

  lemma {:induction false} PartialProduct(w: int -> int, c: (int, int) -> int, x: int -> int, y: int -> int, n: nat, m: int)
    requires m > 0 && n <= 10 && WeightsMultiply(w, c, m)
    ensures Cong(Sum(Sums10(w, c, x, y, n), 10), Sum(Times(w, x), n) * Sum(Times(w, y), 10), m)
  {
    hide *;
    if n == 0 {
      SumsStart(w, c, x, y, m);
    } else {
      PartialProduct(w, c, x, y, n - 1, m);
      RowStep(w, c, x, y, n - 1);
      RowValue(w, c, x, y, n - 1, m);
      AddProducts(Sum(Sums10(w, c, x, y, n - 1), 10), Sum(Row(w, c, x, y, n - 1), 10),
                  Sum(Times(w, x), n - 1), w(n - 1) * x(n - 1), Sum(Times(w, y), 10), m);
      SumStep(w, x, n - 1);
    }
  }
}
