/** Sixteen 64-bit words filled from bytes: the input buffers of SHA-512 (big-endian) and BLAKE2b (little-endian). */
module WordBuffer {

  /** Byte i of word w of a buffer, 0 past its end. */
  function At(buf: seq<bv8>, w: nat, i: nat): bv64
  {
    if 8 * w + i < |buf| then buf[8 * w + i] as bv64 else 0
  }

  /** How far byte number i of a word is shifted. */
  function Place(i: nat, big: bool): (n: bv8)
    requires i < 8
    ensures n <= 56
  {
    var k := if big then 7 - i else i;
    if k == 0 then 0 else if k == 1 then 8 else if k == 2 then 16 else if k == 3 then 24
    else if k == 4 then 32 else if k == 5 then 40 else if k == 6 then 48 else 56
  }

  /** word |= byte << s */
  function OrAt(word: bv64, byte: bv64, s: bv8): bv64
    requires s <= 56
  {
    word | (byte << s)
  }

  /** The first n bytes of word w, or-ed into place. */
  function PackUpTo(buf: seq<bv8>, w: nat, big: bool, n: nat): bv64
    requires n <= 8
  {
    if n == 0 then 0 else OrAt(PackUpTo(buf, w, big, n - 1), At(buf, w, n - 1), Place(n - 1, big))
  }

  /** Word w of a buffer as load64_be or load64_le reads it, with zeros past the end. */
  function Pack(buf: seq<bv8>, w: nat, big: bool): bv64
  {
    PackUpTo(buf, w, big, 8)
  }

  lemma OrZero(x: bv64, s: bv8)
    requires s <= 56
    ensures OrAt(x, 0, s) == x
  {
  }

  /** Bytes past the end add nothing. */
  lemma {:induction false} PackShort(buf: seq<bv8>, w: nat, big: bool, i: nat, n: nat)
    requires i <= n <= 8 && |buf| <= 8 * w + i
    ensures PackUpTo(buf, w, big, n) == PackUpTo(buf, w, big, i)
  {
    hide Place, OrAt;
    if i < n {
      PackShort(buf, w, big, i, n - 1);
      OrZero(PackUpTo(buf, w, big, n - 1), Place(n - 1, big));
    }
  }

  /** Only the word's own bytes matter. */
  lemma {:induction false} PackSame(a: seq<bv8>, b: seq<bv8>, v: nat, w: nat, big: bool, n: nat)
    requires n <= 8 && forall i :: 0 <= i < n ==> At(a, v, i) == At(b, w, i)
    ensures PackUpTo(a, v, big, n) == PackUpTo(b, w, big, n)
  {
    hide Place, At, OrAt;
    if n > 0 {
      PackSame(a, b, v, w, big, n - 1);
    }
  }

  /** Or-ing a byte into the next free place appends it. */
  lemma PushByte(buf: seq<bv8>, x: bv8, w: nat, i: nat, big: bool)
    requires i < 8 && |buf| == 8 * w + i
    ensures Pack(buf + [x], w, big) == OrAt(Pack(buf, w, big), x as bv64, Place(i, big))
  {
    hide Place, OrAt;
    var b := buf + [x];
    PackShort(b, w, big, i + 1, 8);
    PackShort(buf, w, big, i, 8);
    PackSame(b, buf, w, w, big, i);
  }

  /** The sixteen words hold the bytes of buf, and zeros after them. */
  ghost predicate Holds(input: seq<bv64>, buf: seq<bv8>, big: bool)
  {
    |input| == 16 && |buf| <= 128 && forall w :: 0 <= w < 16 ==> input[w] == Pack(buf, w, big)
  }

  /** Appends one byte: input[idx >> 3] |= byte << place. */
  method Push(input: array<bv64>, idx: nat, x: bv8, big: bool, ghost buf: seq<bv8>)
    requires Holds(input[..], buf, big) && idx == |buf| < 128
    modifies input
    ensures Holds(input[..], buf + [x], big)
  {
    hide Pack, Place, OrAt;
    var word, byte := idx / 8, idx % 8;
    PushByte(buf, x, word, byte, big);
    input[word] := OrAt(input[word], x as bv64, Place(byte, big));
    forall w | 0 <= w < 16 && w != word ensures Pack(buf + [x], w, big) == Pack(buf, w, big) {
      Untouched(buf, x, w, big);
    }
  }

  lemma Untouched(buf: seq<bv8>, x: bv8, w: nat, big: bool)
    requires w != |buf| / 8
    ensures Pack(buf + [x], w, big) == Pack(buf, w, big)
  {
    PackSame(buf + [x], buf, w, w, big, 8);
  }

  method PushAll(input: array<bv64>, idx: nat, bytes: seq<bv8>, big: bool, ghost buf: seq<bv8>)
    requires Holds(input[..], buf, big) && idx == |buf| && idx + |bytes| <= 128
    modifies input
    ensures Holds(input[..], buf + bytes, big)
  {
    hide Pack, Place, OrAt;
    assert buf + bytes[..0] == buf;
    for i := 0 to |bytes|
      invariant Holds(input[..], buf + bytes[..i], big)
    {
      Push(input, idx + i, bytes[i], big, buf + bytes[..i]);
      assert buf + bytes[..i] + [bytes[i]] == buf + bytes[..i + 1];
    }
    assert bytes[..|bytes|] == bytes;
  }

  /** Appends whole words at a word boundary, overwriting the zeros there. */
  method PushWords(input: array<bv64>, idx: nat, bytes: seq<bv8>, big: bool, ghost buf: seq<bv8>)
    requires Holds(input[..], buf, big) && idx == |buf| && (|bytes| > 0 ==> idx % 8 == 0) && |bytes| % 8 == 0 && idx + |bytes| <= 128
    modifies input
    ensures Holds(input[..], buf + bytes, big)
  {
    hide Pack;
    var first, nb_words := idx / 8, |bytes| / 8;
    for k := 0 to nb_words
      invariant forall w :: 0 <= w < 16 ==> input[w] == if first <= w < first + k then Pack(bytes, w - first, big) else Pack(buf, w, big)
    {
      input[first + k] := Pack(bytes, k, big);
    }
    if nb_words == 0 {
      assert buf + bytes == buf;
      return;
    }
    forall w | 0 <= w < 16 ensures input[w] == Pack(buf + bytes, w, big) {
      WordOf(buf, bytes, w, big);
    }
  }

  lemma WordOf(buf: seq<bv8>, bytes: seq<bv8>, w: nat, big: bool)
    requires |buf| % 8 == 0 && |bytes| % 8 == 0
    ensures Pack(buf + bytes, w, big) == if |buf| / 8 <= w < |buf| / 8 + |bytes| / 8 then Pack(bytes, w - |buf| / 8, big) else Pack(buf, w, big)
  {
    if |buf| / 8 <= w < |buf| / 8 + |bytes| / 8 {
      PackSame(buf + bytes, bytes, w, w - |buf| / 8, big, 8);
    } else {
      PackSame(buf + bytes, buf, w, w, big, 8);
    }
  }

  /** Sets all sixteen words to zero. */
  method Clear(input: array<bv64>, big: bool)
    requires input.Length == 16
    modifies input
    ensures Holds(input[..], [], big)
  {
    for i := 0 to 16
      invariant forall w :: 0 <= w < i ==> input[w] == 0
    {
      input[i] := 0;
    }
    forall w | 0 <= w < 16 ensures Pack([], w, big) == 0 {
      PackShort([], w, big, 0, 8);
    }
  }

  /** The words of a full buffer. */
  ghost function Words(buf: seq<bv8>, big: bool): (w: seq<bv64>)
    ensures |w| == 16
  {
    seq(16, i requires 0 <= i < 16 => Pack(buf, i, big))
  }

  lemma HoldsWords(input: seq<bv64>, buf: seq<bv8>, big: bool)
    requires Holds(input, buf, big)
    ensures input == Words(buf, big)
  {
    hide Pack;
  }

  /** A block loaded over whatever was there. */
  method LoadBlock(input: array<bv64>, bytes: seq<bv8>, big: bool)
    requires input.Length == 16 && |bytes| == 128
    modifies input
    ensures Holds(input[..], bytes, big)
  {
    hide Pack;
    for i := 0 to 16
      invariant forall w :: 0 <= w < i ==> input[w] == Pack(bytes, w, big)
    {
      input[i] := Pack(bytes, i, big);
    }
  }

  // ---------- words back to bytes ----------

  function ByteAt(x: bv64, s: bv8): bv8
    requires s <= 56
  {
    ((x >> s) & 0xff) as bv8
  }

  /** store64_be or store64_le: a word as eight bytes. */
  function Unpack(x: bv64, big: bool): (s: seq<bv8>)
    ensures |s| == 8
  {
    if big then
      [ByteAt(x, 56), ByteAt(x, 48), ByteAt(x, 40), ByteAt(x, 32), ByteAt(x, 24), ByteAt(x, 16), ByteAt(x, 8), ByteAt(x, 0)]
    else
      [ByteAt(x, 0), ByteAt(x, 8), ByteAt(x, 16), ByteAt(x, 24), ByteAt(x, 32), ByteAt(x, 40), ByteAt(x, 48), ByteAt(x, 56)]
  }

  /** Four bytes or-ed into a word. */
  function Join4(start: bv64, a: bv8, b: bv8, c: bv8, d: bv8, sa: bv8, sb: bv8, sc: bv8, sd: bv8): bv64
    requires sa <= 56 && sb <= 56 && sc <= 56 && sd <= 56
  {
    OrAt(OrAt(OrAt(OrAt(start, a as bv64, sa), b as bv64, sb), c as bv64, sc), d as bv64, sd)
  }

  lemma JoinBytes(x: bv64)
    ensures Join4(Join4(0, ByteAt(x, 56), ByteAt(x, 48), ByteAt(x, 40), ByteAt(x, 32), 56, 48, 40, 32),
                  ByteAt(x, 24), ByteAt(x, 16), ByteAt(x, 8), ByteAt(x, 0), 24, 16, 8, 0) == x
    ensures Join4(Join4(0, ByteAt(x, 0), ByteAt(x, 8), ByteAt(x, 16), ByteAt(x, 24), 0, 8, 16, 24),
                  ByteAt(x, 32), ByteAt(x, 40), ByteAt(x, 48), ByteAt(x, 56), 32, 40, 48, 56) == x
  {
  }

  /** Loading a stored word gives it back. */
  lemma PackUnpack(x: bv64, big: bool)
    ensures Pack(Unpack(x, big), 0, big) == x
  {
    hide OrAt, ByteAt, PackUpTo, Join4;
    JoinBytes(x);
    PackFour(Unpack(x, big), big);
  }

  lemma PackFour(b: seq<bv8>, big: bool)
    requires |b| == 8
    ensures PackUpTo(b, 0, big, 4) == Join4(0, b[0], b[1], b[2], b[3], Place(0, big), Place(1, big), Place(2, big), Place(3, big))
    ensures PackUpTo(b, 0, big, 8) == Join4(PackUpTo(b, 0, big, 4), b[4], b[5], b[6], b[7], Place(4, big), Place(5, big), Place(6, big), Place(7, big))
  {
    hide OrAt, PackUpTo, Place;
    PackStep(b, big, 0);
    PackStep(b, big, 1);
    PackStep(b, big, 2);
    PackStep(b, big, 3);
    PackStep(b, big, 4);
    PackStep(b, big, 5);
    PackStep(b, big, 6);
    PackStep(b, big, 7);
  }

  lemma PackStep(b: seq<bv8>, big: bool, n: nat)
    requires n < 8 <= |b|
    ensures PackUpTo(b, 0, big, n + 1) == OrAt(PackUpTo(b, 0, big, n), b[n] as bv64, Place(n, big)) && PackUpTo(b, 0, big, 0) == 0
  {
    hide OrAt, Place;
  }
}
