/** Signed sliding windows, left to right (monocypher.c, slide_init and slide_step). */
module SlidingWindow {
  import opened ModArith
  import opened Sums
  import opened Words
  import opened ScalarBits
  import opened BitOps

  type i8 = x: int | -0x80 <= x < 0x80
  type i16 = x: int | -0x8000 <= x < 0x8000

  // ---------- the lowest set bit ----------

  /** Two's complement of v on n bits. */
  function Wrapped(v: int, n: nat): (r: nat)
    ensures r < Pow2(n)
  {
    v % Pow2(n)
  }

  lemma {:induction false} AndComplement(a: nat, n: nat)
    requires a < Pow2(n)
    ensures BitAnd(a, Pow2(n) - 1 - a) == 0
  {
    if n > 0 {
      var p := Pow2(n - 1);
      assert (Pow2(n) - 1 - a) / 2 == p - 1 - a / 2 && (Pow2(n) - 1 - a) % 2 == 1 - a % 2;
      AndComplement(a / 2, n - 1);
    }
  }

  lemma WrappedHalves(v: int, n: nat)
    requires n > 0
    ensures Wrapped(v, n) / 2 == Wrapped(v / 2, n - 1) && Wrapped(v, n) % 2 == v % 2
  {
    var p := Pow2(n - 1);
    var h, b := v / 2, v % 2;
    var q, r := h / p, h % p;
    assert h == q * p + r;
    assert v == q * (2 * p) + (2 * r + b);
    Quotient(v, q, 2 * r + b, 2 * p);
  }

  /** v & (~v + 1) isolates the lowest set bit. */
  lemma {:induction false} LowestBit(v: int, s: nat, odd: int, n: nat)
    requires s < n && v == odd * Pow2(s) && odd % 2 == 1
    ensures BitAnd(Wrapped(v, n), Wrapped(-v, n)) == Pow2(s)
    decreases n
  {
    hide *;
    WrappedHalves(v, n);
    WrappedHalves(-v, n);
    var a, b := Wrapped(v, n), Wrapped(-v, n);
    if s == 0 {
      assert Pow2(0) == 1 by { Pow2Base(); }
      assert v == odd;
      assert (-v) / 2 == -1 - v / 2;
      MinusOne(v / 2, n - 1);
      WrappedRange(v / 2, n - 1);
      AndComplement(Wrapped(v / 2, n - 1), n - 1);
      AndStep(a, b);
    } else {
      Halve(v, odd, s);
      LowestBit(v / 2, s - 1, odd, n - 1);
      AndStep(a, b);
    }
  }

  lemma Pow2Base()
    ensures Pow2(0) == 1
  {
  }

  lemma WrappedRange(v: int, n: nat)
    ensures Wrapped(v, n) < Pow2(n)
  {
  }

  lemma Halve(v: int, odd: int, s: nat)
    requires s > 0 && v == odd * Pow2(s)
    ensures v % 2 == 0 && v / 2 == odd * Pow2(s - 1) && (-v) / 2 == -(v / 2) && Pow2(s) == 2 * Pow2(s - 1)
  {
    assert v == 2 * (odd * Pow2(s - 1));
  }

  lemma AndStep(a: nat, b: nat)
    ensures BitAnd(a, b) == 2 * BitAnd(a / 2, b / 2) + (if a % 2 == 1 && b % 2 == 1 then 1 else 0)
  {
  }

  lemma MinusOne(h: int, n: nat)
    ensures Wrapped(-1 - h, n) == Pow2(n) - 1 - Wrapped(h, n)
  {
    var p := Pow2(n);
    var q, r := h / p, h % p;
    assert -1 - h == (-q - 1) * p + (p - 1 - r);
    Quotient(-1 - h, -q - 1, p - 1 - r, p);
  }

  /** log2 of a lowest bit below 2^8, by three masks. */
  function Log2(lsb: nat): (s: nat)
    ensures s < 8
  {
    (if BitAnd(lsb, 0xAA) != 0 then 1 else 0)
    + (if BitAnd(lsb, 0xCC) != 0 then 2 else 0)
    + (if BitAnd(lsb, 0xF0) != 0 then 4 else 0)
  }

  /** And-ing with a power of two selects one bit of the mask. */
  lemma {:induction false} AndPower(s: nat, m: nat)
    ensures BitAnd(Pow2(s), m) != 0 <==> (m / Pow2(s)) % 2 == 1
  {
    if s == 0 {
      AndStep(1, m);
    } else {
      AndPower(s - 1, m / 2);
      AndStep(Pow2(s), m);
      assert Pow2(s) / 2 == Pow2(s - 1) && Pow2(s) % 2 == 0;
      HalveDivision(m, Pow2(s - 1));
    }
  }

  lemma HalveDivision(m: nat, p: nat)
    requires p > 0
    ensures m / (2 * p) == (m / 2) / p
  {
    var q, r := (m / 2) / p, (m / 2) % p;
    assert m / 2 == q * p + r;
    assert m == q * (2 * p) + (2 * r + m % 2);
    Quotient(m, q, 2 * r + m % 2, 2 * p);
  }

  lemma Log2OfPower(s: nat)
    requires s < 8
    ensures Log2(Pow2(s)) == s
  {
    hide BitAnd, Pow2;
    AndPower(s, 0xAA);
    AndPower(s, 0xCC);
    AndPower(s, 0xF0);
    MaskDigits(s);
  }

  /** The three masks hold the binary digits of all logarithms below 8. */
  lemma MaskDigits(s: nat)
    requires s < 8
    ensures (0xAA / Pow2(s)) % 2 == s % 2 && (0xCC / Pow2(s)) % 2 == (s / 2) % 2 && (0xF0 / Pow2(s)) % 2 == s / 4
  {
    hide Pow2;
    SmallPowers();
    if s == 0 {} else if s == 1 {} else if s == 2 {} else if s == 3 {} else if s == 4 {} else if s == 5 {} else if s == 6 {} else {}
  }

  lemma SmallPowers()
    ensures Pow2(0) == 1 && Pow2(1) == 2 && Pow2(2) == 4 && Pow2(3) == 8
    ensures Pow2(4) == 16 && Pow2(5) == 32 && Pow2(6) == 64 && Pow2(7) == 128
  {
    assert Pow2(4) == 16;
  }

  /** Every non-zero number is a power of two times an odd number. */
  lemma {:induction false} Factor2(v: int, bound: nat) returns (s: nat, odd: int)
    requires v != 0 && 0 - Pow2(bound) <= v <= Pow2(bound)
    ensures s <= bound && v == odd * Pow2(s) && odd % 2 == 1
    decreases bound
  {
    if v % 2 == 1 || bound == 0 {
      s, odd := 0, v;
    } else {
      s, odd := Factor2(v / 2, bound - 1);
      s := s + 1;
      assert odd * Pow2(s) == 2 * (odd * Pow2(s - 1));
    }
  }

  // ---------- the value still to be recoded ----------

  /** Bits lo to lo + n - 1 of s, as a number. */
  ghost function Window(s: seq<u8>, lo: nat, n: nat): nat
    requires lo + n <= 8 * |s|
  {
    if n == 0 then 0 else Window(s, lo, n - 1) + ScalarBit(s, lo + n - 1) * Pow2(n - 1)
  }

  /** Bits c down to 0 of s as a two's complement number: what is left at check position c. */
  ghost function Signed(s: seq<u8>, c: int): int
    requires c < 8 * |s|
  {
    if c < 0 then 0 else BitNum(s, c) - ScalarBit(s, c) * Pow2(c)
  }

  lemma {:induction false} WindowJoins(s: seq<u8>, lo: nat, n: nat)
    requires lo + n <= 8 * |s|
    ensures BitNum(s, lo + n) == BitNum(s, lo) + Window(s, lo, n) * Pow2(lo)
    ensures Window(s, lo, n) < Pow2(n)
  {
    hide *;
    if n == 0 {
      WindowEmpty(s, lo);
    } else {
      WindowJoins(s, lo, n - 1);
      Pow2Add(lo, n - 1);
      BitNumStep(s, lo + n - 1);
      WindowStep(s, lo, n);
      SplitBit(Window(s, lo, n - 1), ScalarBit(s, lo + n - 1), Pow2(n - 1), Pow2(lo));
    }
  }

  lemma WindowEmpty(s: seq<u8>, lo: nat)
    requires lo <= 8 * |s|
    ensures Window(s, lo, 0) == 0 && Pow2(0) == 1
  {
  }

  lemma WindowStep(s: seq<u8>, lo: nat, n: nat)
    requires 0 < n && lo + n <= 8 * |s|
    ensures Window(s, lo, n) == Window(s, lo, n - 1) + ScalarBit(s, lo + n - 1) * Pow2(n - 1)
    ensures Pow2(n) == 2 * Pow2(n - 1)
    ensures ScalarBit(s, lo + n - 1) * Pow2(n - 1) <= Pow2(n - 1)
  {
  }

  /** Equal neighbours: position c says nothing new. */
  lemma SignedSame(s: seq<u8>, c: nat)
    requires c < 8 * |s| && ScalarBit(s, c) == ScalarBit(s, c - 1)
    ensures Signed(s, c) == Signed(s, c - 1)
  {
    hide ScalarBit, BitNum, Pow2;
    Borrowed(s, c);
  }

  lemma NegativeBit(s: seq<u8>)
    ensures ScalarBit(s, -1) == 0
  {
  }

  /** What slide_step computes for a window of width w whose top bit is at c. */
  ghost function WindowValue(s: seq<u8>, c: nat, w: nat): int
    requires c < 8 * |s| && 1 <= w <= c + 1
  {
    Window(s, c - (w - 1), w - 1) - ScalarBit(s, c) * Pow2(w - 1) + ScalarBit(s, c - w)
  }

  /** A window and the carry below it take their value out of what is left. */
  lemma SignedWindow(s: seq<u8>, c: nat, w: nat)
    requires c < 8 * |s| && 1 <= w <= c + 1
    ensures Signed(s, c) == WindowValue(s, c, w) * Pow2(c - (w - 1)) + Signed(s, c - w)
  {
    hide ScalarBit, BitNum, Pow2, Window;
    var lo := c - (w - 1);
    WindowJoins(s, lo, w - 1);
    Pow2Add(lo, w - 1);
    Borrowed(s, lo);
    WindowArith(Window(s, lo, w - 1), ScalarBit(s, c), Pow2(w - 1), ScalarBit(s, c - w), Pow2(lo));
  }

  /** The bit below lo, counted at lo. */
  lemma Borrowed(s: seq<u8>, lo: nat)
    requires lo < 8 * |s|
    ensures Signed(s, lo - 1) == BitNum(s, lo) - ScalarBit(s, lo - 1) * Pow2(lo)
  {
    hide ScalarBit, BitNum, Pow2;
    if lo > 0 {
      BitNumStep(s, lo - 1);
      Pow2Next(lo - 1);
      TwiceBit(ScalarBit(s, lo - 1), Pow2(lo - 1));
    } else {
      NegativeBit(s);
      NoBits(s);
    }
  }

  lemma TwiceBit(b: int, p: int)
    ensures b * (2 * p) == 2 * (b * p)
  {
  }

  lemma NoBits(s: seq<u8>)
    ensures BitNum(s, 0) == 0
  {
  }

  lemma WindowArith(x: int, b: int, p: int, carry: int, w: int)
    ensures (x - b * p + carry) * w == x * w - b * (w * p) + carry * w
  {
    assert (b * p) * w == b * (w * p);
    assert (x - b * p + carry) * w == x * w - (b * p) * w + carry * w;
  }

  /** A window opens where two bits differ, so its value is not zero, and it fits the width. */
  lemma WindowRange(s: seq<u8>, c: nat, w: nat)
    requires c < 8 * |s| && 1 <= w <= c + 1 && ScalarBit(s, c) != ScalarBit(s, c - 1)
    ensures WindowValue(s, c, w) != 0
    ensures 0 - Pow2(w - 1) <= WindowValue(s, c, w) <= Pow2(w - 1)
  {
    hide ScalarBit;
    var lo := c - (w - 1);
    WindowJoins(s, lo, w - 1);
    if w >= 2 {
      WindowJoins(s, lo, w - 2);
      WindowStep(s, lo, w - 1);
    }
  }

  // ---------- the recoder ----------

  /** The position that the u8 next_check stands for: 255 is -1 after wrapping. */
  ghost function Position(next_check: u8): int
  {
    if next_check == 255 then -1 else next_check
  }

  /** A digit that slide_step may return for a window width: 0, or odd and inside the table. */
  ghost predicate DigitFits(d: int, width: nat)
  {
    d == 0 || (d % 2 == 1 && 0 - Limit(width) <= d <= Limit(width))
  }

  /** 2^(width - 1) - 1 for the widths in use; a lone -1 remains possible at the last bit. */
  ghost function Limit(width: nat): nat
  {
    if width <= 1 then 1 else Pow2(width - 1) - 1
  }

  /** The digit computed but not yet returned, at its weight. */
  ghost function Pending(index: int, digit: int, i: int): int
  {
    if 0 <= index <= i then digit * Pow2(index) else 0
  }

  /** The digits returned so far, read as one number at the weight of the next index. */
  ghost function Done(acc: int, i: int): int
    requires i >= -1
  {
    acc * Pow2(i + 1)
  }

  /** The recoder's fields at index i: the digits returned so far read as `acc`, and together with the
      digit still pending and the bits below `check` they make up the scalar. */
  ghost predicate Recodes(s: seq<u8>, i: int, acc: int, width: nat, index: int, digit: int, check: int)
  {
    match |s|
    case 32 =>
      && -1 <= check <= i <= 253 && (index == -1 || check < index <= 253) && DigitFits(digit, width)
      && BitNum(s, 256) == Done(acc, i) + Pending(index, digit, i) + Signed(s, check)
    case _ => false
  }

  lemma SameBits(s: seq<u8>, i: int, acc: int, width: nat, index: int, digit: int)
    requires 0 <= i && Recodes(s, i, acc, width, index, digit, i) && ScalarBit(s, i) == ScalarBit(s, i - 1)
    ensures Recodes(s, i, acc, width, index, digit, i - 1)
  {
    hide ScalarBit, Signed, BitNum, Done, Pending, DigitFits;
    SignedSame(s, i);
  }

  lemma OpenWindow(s: seq<u8>, i: int, acc: int, width: nat, index: int, digit: int, w: nat, v: int, k: nat, d: int)
    requires 0 <= i && Recodes(s, i, acc, width, index, digit, i)
    requires 1 <= width <= 8 && w == (if width <= i + 1 then width else i + 1)
    requires v == WindowValue(s, i, w) && v == d * Pow2(k) && k < w && DigitFits(d, width)
    ensures Recodes(s, i, acc, width, i - (w - 1) + k, d, i - w)
  {
    hide ScalarBit, Signed, BitNum, Done, DigitFits, WindowValue;
    SignedWindow(s, i, w);
    Pow2Add(i - (w - 1), k);
    MoveWeight(d, Pow2(k), Pow2(i - (w - 1)));
  }

  lemma MoveWeight(d: int, p: int, w: int)
    ensures (d * p) * w == d * (w * p)
  {
  }

  /** Returning the pending digit, or 0, and moving on to index i - 1. */
  lemma ReturnDigit(s: seq<u8>, i: int, acc: int, width: nat, index: int, digit: int, check: int)
    requires 0 <= i && check < i && Recodes(s, i, acc, width, index, digit, check)
    ensures Recodes(s, i - 1, 2 * acc + (if i == index then digit else 0), width, index, digit, check)
  {
    hide ScalarBit, Signed, BitNum, DigitFits;
    Horner(acc, if i == index then digit else 0, Pow2(i));
  }

  /** Any digit but 0 is odd and within the limit, once the window's value is split. */
  lemma SplitFits(w: nat, width: nat, v: int, k: nat, d: int)
    requires 1 <= w <= width && v == d * Pow2(k) && d % 2 == 1
    requires 0 - Pow2(w - 1) <= v <= Pow2(w - 1)
    ensures DigitFits(d, width)
  {
    hide *;
    Magnitude(d, Pow2(k), Pow2(w - 1));
    OddFits(d, w, width);
  }

  lemma OddFits(d: int, w: nat, width: nat)
    requires 1 <= w <= width && d % 2 == 1 && 0 - Pow2(w - 1) <= d <= Pow2(w - 1)
    ensures DigitFits(d, width)
  {
    hide Pow2;
    Pow2Mono(w - 1, width - 1);
    Pow2Base();
    if w >= 2 {
      Pow2Next(w - 2);
      NotEven(d, Pow2(w - 2));
    } else if width >= 2 {
      Pow2Mono(1, width - 1);
      Pow2Next(0);
    }
  }

  lemma Pow2Next(n: nat)
    ensures Pow2(n + 1) == 2 * Pow2(n)
  {
  }

  lemma NotEven(d: int, x: int)
    requires d % 2 == 1
    ensures d != 2 * x && d != -2 * x
  {
  }

  lemma Magnitude(d: int, p: int, top: int)
    requires p >= 1 && 0 - top <= d * p <= top
    ensures 0 - top <= d <= top
  {
    if d > 0 {
      assert d * p >= d;
    } else if d < 0 {
      assert d * p <= d;
    }
  }

  lemma {:induction false} Pow2Mono(a: nat, b: nat)
    requires a <= b
    ensures Pow2(a) <= Pow2(b)
  {
    if a < b {
      Pow2Mono(a, b - 1);
    }
  }

  /** Highest set bit of the scalar, or 0: bits 253 and up are known to be zero. */
  method HighestBit(s: seq<u8>) returns (i: int)
    requires |s| == 32 && BitNum(s, 256) < Pow2(253)
    ensures 0 <= i <= 252 && BitNum(s, i + 1) == BitNum(s, 256) && ScalarBit(s, i + 1) == 0
  {
    hide ScalarBit, BitNum, Pow2;
    i := 252;
    TopBitsClear(s);
    while i > 0 && ScalarBit(s, i) == 0
      invariant 0 <= i <= 252 && BitNum(s, i + 1) == BitNum(s, 256) && ScalarBit(s, i + 1) == 0
    {
      BitNumStep(s, i);
      i := i - 1;
    }
  }

  lemma TopBitsClear(s: seq<u8>)
    requires |s| == 32 && BitNum(s, 256) < Pow2(253)
    ensures BitNum(s, 253) == BitNum(s, 256) && ScalarBit(s, 253) == 0
  {
    hide ScalarBit, BitNum, Pow2;
    TopIsZero(s, 253, 256);
    TopSplits(s, 253, 256);
    assert Top(s, 253, 256) == 2 * Top(s, 254, 256) + ScalarBit(s, 253);
  }

  class SlideCtx {
    var next_index: i16
    var next_digit: i8
    var next_check: u8

    ghost predicate State(s: seq<u8>, i: int, acc: int, width: nat)
      reads this
    {
      Recodes(s, i, acc, width, next_index, next_digit, Position(next_check))
    }

    /** slide_init */
    constructor (s: seq<u8>, ghost width: nat)
      requires |s| == 32 && BitNum(s, 256) < Pow2(253) && 1 <= width <= 8
      ensures 1 <= next_check <= 253
      ensures forall i :: next_check as int <= i <= 253 ==> State(s, i, 0, width)
    {
      var i := HighestBit(s);
      next_check := i + 1;
      next_index := -1;
      next_digit := -1;
      new;
      forall j | next_check as int <= j <= 253 ensures State(s, j, 0, width) {
        InitialState(s, i + 1, j, width);
      }
    }

    /** slide_step: the signed digit at index i. Digits are 0 or odd and within the window, none is
        overwritten before its index is reached, and the state keeps accounting for the whole scalar. */
    method Step(width: nat, i: nat, s: seq<u8>, ghost acc: int) returns (d: int)
      requires 1 <= width <= 8 && State(s, i, acc, width)
      modifies this
      ensures State(s, i - 1, 2 * acc + d, width)
      ensures DigitFits(d, width)
    {
      hide ScalarBit, Signed, BitNum, Done, Pending, DigitFits, WindowValue;
      FitsZero(width);
      if i == next_check {
        if ScalarBit(s, i) == ScalarBit(s, i - 1) {
          SameBits(s, i, acc, width, next_index, next_digit);
          next_check := (next_check - 1) % 0x100;
        } else {
          var w := if width <= i + 1 then width else i + 1;
          next_index, next_digit := NextWindow(s, i, w, width, next_index, next_digit, acc);
          next_check := (next_check - w) % 0x100;
        }
      }
      ReturnDigit(s, i, acc, width, next_index, next_digit, Position(next_check));
      d := if i == next_index then next_digit else 0;
    }
  }

  /** Position and digit of the window whose top bit is at i. */
  method NextWindow(s: seq<u8>, i: nat, w: nat, width: nat, ghost index: int, ghost digit: int, ghost acc: int)
    returns (new_index: i16, new_digit: i8)
    requires 1 <= width <= 8 && w == (if width <= i + 1 then width else i + 1)
    requires Recodes(s, i, acc, width, index, digit, i) && ScalarBit(s, i) != ScalarBit(s, i - 1)
    ensures Recodes(s, i, acc, width, new_index, new_digit, i - w)
  {
    hide ScalarBit, Signed, BitNum, Done, Pending, DigitFits, WindowValue, BitAnd, Wrapped, Log2;
    var v := ComputeWindow(s, i, w);
    var lsb := BitAnd(Wrapped(v, 32), Wrapped(-v, 32));
    var k := Log2(lsb);
    var d := v / Pow2(k);
    SplitWindow(s, i, w, width, v, k, d);
    OpenWindow(s, i, acc, width, index, digit, w, v, k, d);
    new_index, new_digit := i - (w - 1) + k, d;
  }

  lemma FitsZero(width: nat)
    ensures DigitFits(0, width)
  {
  }

  lemma InitialState(s: seq<u8>, check: int, i: int, width: nat)
    requires |s| == 32 && 1 <= check <= i <= 253 && 1 <= width <= 8
    requires BitNum(s, check) == BitNum(s, 256) && ScalarBit(s, check) == 0
    ensures Recodes(s, i, 0, width, -1, -1, check)
  {
    hide BitNum, ScalarBit;
    Pow2Mono(1, if width >= 2 then width - 1 else 1);
  }

  /** The loop of slide_step: the top bit counts negatively, and the bit below the window is a carry. */
  method ComputeWindow(s: seq<u8>, i: nat, w: nat) returns (v: int)
    requires |s| == 32 && i < 256 && 1 <= w <= i + 1
    ensures v == WindowValue(s, i, w)
  {
    hide ScalarBit, Pow2;
    v := -(ScalarBit(s, i) * Pow2(w - 1));
    ghost var start := v;
    for j := 0 to w - 1
      invariant v == start + Window(s, i - (w - 1), j)
    {
      v := v + ScalarBit(s, i - (w - 1) + j) * Pow2(j);
    }
    v := v + ScalarBit(s, i - w);
  }

  lemma SplitWindow(s: seq<u8>, i: nat, w: nat, width: nat, v: int, k: nat, digit: int)
    requires |s| == 32 && i < 256 && 1 <= w <= width <= 8 && w <= i + 1 && ScalarBit(s, i) != ScalarBit(s, i - 1)
    requires v == WindowValue(s, i, w)
    requires k == Log2(BitAnd(Wrapped(v, 32), Wrapped(-v, 32))) && digit == v / Pow2(k)
    ensures v == digit * Pow2(k) && k < w && DigitFits(digit, width) && -128 <= digit < 128
  {
    hide ScalarBit, WindowValue, BitAnd, Wrapped, Log2, DigitFits, Pow2;
    WindowRange(s, i, w);
    var e, odd := Factor2(v, w - 1);
    LowestBit(v, e, odd, 32);
    Log2OfPower(e);
    Quotient(v, odd, 0, Pow2(e));
    SplitFits(w, width, v, e, odd);
    FitsI8(odd, width);
  }

  lemma FitsI8(d: int, width: nat)
    requires DigitFits(d, width) && width <= 8
    ensures -128 <= d < 128
  {
    assert Pow2(7) == 128;
    Pow2Mono(if width >= 1 then width - 1 else 0, 7);
  }

  /** Once index 0 is done, the digits read exactly as the scalar. */
  lemma RecodedFully(s: seq<u8>, acc: int, width: nat, index: int, digit: int, check: int)
    requires Recodes(s, -1, acc, width, index, digit, check)
    ensures acc == BitNum(s, 256)
  {
    hide BitNum;
  }

  /** Half a non-zero digit's magnitude indexes a table of 2^(width - 2) odd multiples. */
  lemma DigitIndexesTable(d: int, width: nat)
    requires DigitFits(d, width) && width >= 2
    ensures d > 0 ==> d / 2 < Pow2(width - 2) && d == 2 * (d / 2) + 1
    ensures d < 0 ==> (-d) / 2 < Pow2(width - 2) && -d == 2 * ((-d) / 2) + 1
  {
    Pow2Next(width - 2);
  }
}
