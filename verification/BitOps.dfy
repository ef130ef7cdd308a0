/** Bitwise operations of two's complement numbers of any width, as integers. */
module BitOps {

  /** Exclusive or. */
  function BitXor(a: int, b: int): (r: int)
    decreases (if a < 0 then -a else a) + (if b < 0 then -b else b)
  {
    if a == 0 then b else if a == -1 then -1 - b
    else if b == 0 then a else if b == -1 then -1 - a
    else 2 * BitXor(a / 2, b / 2) + (a + b) % 2
  }

  /** And. */
  function BitAnd(a: int, b: int): (r: int)
    ensures a >= 0 || b >= 0 ==> r >= 0
    decreases (if a < 0 then -a else a) + (if b < 0 then -b else b)
  {
    if a == 0 || b == 0 then 0 else if a == -1 then b else if b == -1 then a
    else 2 * BitAnd(a / 2, b / 2) + (if a % 2 == 1 && b % 2 == 1 then 1 else 0)
  }

  /** Bit by bit, without the special cases. */
  lemma XorBits(a: int, b: int)
    ensures BitXor(a, b) / 2 == BitXor(a / 2, b / 2) && BitXor(a, b) % 2 == (a + b) % 2
  {
  }

  lemma XorOfZeros()
    ensures BitXor(0, 0) == 0
  {
  }

  /** What an exclusive or changes, another one changes back. */
  lemma {:induction false} XorCancels(a: int, b: int)
    ensures BitXor(a, BitXor(a, b)) == b
    decreases (if a < 0 then -a else a) + (if b < 0 then -b else b)
  {
    var r := BitXor(a, b);
    if (a == 0 || a == -1) && (b == 0 || b == -1) {
    } else {
      XorBits(a, b);
      XorBits(a, r);
      XorCancels(a / 2, b / 2);
      hide BitXor;
      Parity(a, b, r);
    }
  }

  lemma Parity(a: int, b: int, r: int)
    requires r % 2 == (a + b) % 2
    ensures (a + r) % 2 == b % 2
  {
  }

  lemma {:induction false} XorCommutes(a: int, b: int)
    ensures BitXor(a, b) == BitXor(b, a)
    decreases (if a < 0 then -a else a) + (if b < 0 then -b else b)
  {
    if a != 0 && a != -1 && b != 0 && b != -1 {
      XorCommutes(a / 2, b / 2);
    }
  }

  /** The masked exclusive or of two words moves the first to the second when the mask is all ones, and nowhere when
      it is 0; and the second to the first likewise. */
  lemma MaskedXor(f: int, g: int, mask: int)
    requires mask == 0 || mask == -1
    ensures var x := BitAnd(BitXor(f, g), mask);
            BitXor(f, x) == (if mask == 0 then f else g) && BitXor(g, x) == (if mask == 0 then g else f)
  {
    XorCancels(f, g);
    XorCommutes(f, g);
    XorCancels(g, f);
  }
}
