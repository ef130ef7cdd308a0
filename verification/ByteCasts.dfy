/** Bytes as bit vectors and as numbers below 256, bit by bit. */
module ByteCasts {

  type Octet = x: int | 0 <= x < 0x100

  /** A byte from its bits, lowest first. */
  function FromBits(b0: bool, b1: bool, b2: bool, b3: bool, b4: bool, b5: bool, b6: bool, b7: bool): bv8
  {
    (if b0 then 0x01 else 0) | (if b1 then 0x02 else 0) | (if b2 then 0x04 else 0) | (if b3 then 0x08 else 0)
    | (if b4 then 0x10 else 0) | (if b5 then 0x20 else 0) | (if b6 then 0x40 else 0) | (if b7 then 0x80 else 0)
  }

  function Digit(b: bool, w: int): int
  {
    if b then w else 0
  }

  function ToByte(x: Octet): bv8
  {
    FromBits(x % 2 == 1, x / 2 % 2 == 1, x / 4 % 2 == 1, x / 8 % 2 == 1,
             x / 16 % 2 == 1, x / 32 % 2 == 1, x / 64 % 2 == 1, x / 128 % 2 == 1)
  }

  function FromByte(b: bv8): (x: Octet)
  {
    Digit(b & 0x01 != 0, 1) + Digit(b & 0x02 != 0, 2) + Digit(b & 0x04 != 0, 4) + Digit(b & 0x08 != 0, 8)
    + Digit(b & 0x10 != 0, 16) + Digit(b & 0x20 != 0, 32) + Digit(b & 0x40 != 0, 64) + Digit(b & 0x80 != 0, 128)
  }

  lemma BitsBack(b0: bool, b1: bool, b2: bool, b3: bool, b4: bool, b5: bool, b6: bool, b7: bool)
    ensures var b := FromBits(b0, b1, b2, b3, b4, b5, b6, b7);
            (b & 0x01 != 0) == b0 && (b & 0x02 != 0) == b1 && (b & 0x04 != 0) == b2 && (b & 0x08 != 0) == b3
            && (b & 0x10 != 0) == b4 && (b & 0x20 != 0) == b5 && (b & 0x40 != 0) == b6 && (b & 0x80 != 0) == b7
  {
  }

  lemma ByteRoundTrip(x: Octet)
    ensures FromByte(ToByte(x)) == x
  {
    hide FromBits;
    BitsBack(x % 2 == 1, x / 2 % 2 == 1, x / 4 % 2 == 1, x / 8 % 2 == 1,
             x / 16 % 2 == 1, x / 32 % 2 == 1, x / 64 % 2 == 1, x / 128 % 2 == 1);
    BitSum(x);
  }

  lemma Halve(x: nat, y: nat, b: bool, w: nat)
    requires y == x / 2 && b == (x % 2 == 1)
    ensures w * x == 2 * w * y + Digit(b, w)
  {
    assert x == 2 * y + x % 2;
    assert w * x == w * (2 * y) + w * (x % 2);
  }

  lemma Eighths(x: Octet)
    ensures x / 4 == x / 2 / 2 && x / 8 == x / 4 / 2 && x / 16 == x / 8 / 2
    ensures x / 32 == x / 16 / 2 && x / 64 == x / 32 / 2 && x / 128 == x / 64 / 2
    ensures x / 128 < 2
  {
  }

  /** A byte is the sum of its digits, halving it seven times. */
  lemma DigitSum(x0: nat, x1: nat, x2: nat, x3: nat, x4: nat, x5: nat, x6: nat, x7: nat)
    requires x1 == x0 / 2 && x2 == x1 / 2 && x3 == x2 / 2 && x4 == x3 / 2
    requires x5 == x4 / 2 && x6 == x5 / 2 && x7 == x6 / 2 && x7 < 2
    ensures x0 == Digit(x0 % 2 == 1, 1) + Digit(x1 % 2 == 1, 2) + Digit(x2 % 2 == 1, 4) + Digit(x3 % 2 == 1, 8)
                  + Digit(x4 % 2 == 1, 16) + Digit(x5 % 2 == 1, 32) + Digit(x6 % 2 == 1, 64) + Digit(x7 % 2 == 1, 128)
  {
    hide Digit;
    Halve(x0, x1, x0 % 2 == 1, 1);
    Halve(x1, x2, x1 % 2 == 1, 2);
    Halve(x2, x3, x2 % 2 == 1, 4);
    Halve(x3, x4, x3 % 2 == 1, 8);
    Halve(x4, x5, x4 % 2 == 1, 16);
    Halve(x5, x6, x5 % 2 == 1, 32);
    Halve(x6, x7, x6 % 2 == 1, 64);
    Halve(x7, 0, x7 % 2 == 1, 128);
  }

  lemma BitSum(x: Octet)
    ensures x == Digit(x % 2 == 1, 1) + Digit(x / 2 % 2 == 1, 2) + Digit(x / 4 % 2 == 1, 4) + Digit(x / 8 % 2 == 1, 8)
                 + Digit(x / 16 % 2 == 1, 16) + Digit(x / 32 % 2 == 1, 32) + Digit(x / 64 % 2 == 1, 64) + Digit(x / 128 % 2 == 1, 128)
  {
    hide Digit;
    Eighths(x);
    DigitSum(x, x / 2, x / 4, x / 8, x / 16, x / 32, x / 64, x / 128);
  }
}
