/** BLAKE2b (monocypher.c, blake2b_compress and crypto_blake2b_keyed_init, _update, _final) against RFC 7693. */
module Blake2b {
  import M = ModArith
  import opened Numbers = Words
  import opened Buffers
  import opened WordBuffer
  import B = Blake2

  // ---------- section 3.1 and 3.2 of RFC 7693 ----------

  /** rotr64 */
  function Rotr(x: bv64, y: bv8): bv64
    requires y <= 64
  {
    (x >> y) ^ (x << (64 - y))
  }

  function Plus(a: bv64, b: bv64): bv64
  {
    a + b
  }

  function Xor(a: bv64, b: bv64): bv64
  {
    a ^ b
  }

  const IV: seq<bv64> := [
    0x6a09e667f3bcc908, 0xbb67ae8584caa73b, 0x3c6ef372fe94f82b, 0xa54ff53a5f1d36f1,
    0x510e527fade682d1, 0x9b05688c2b3e6c1f, 0x1f83d9abfb41bd6b, 0x5be0cd19137e2179]

  /** The twelve rows of the code's table. */
  const SIGMA: seq<seq<nat>> := [
    [0, 1, 2, 3, 4, 5, 6, 7, 8, 9, 10, 11, 12, 13, 14, 15],
    [14, 10, 4, 8, 9, 15, 13, 6, 1, 12, 0, 2, 11, 7, 5, 3],
    [11, 8, 12, 0, 5, 2, 15, 13, 10, 14, 3, 6, 7, 1, 9, 4],
    [7, 9, 3, 1, 13, 12, 11, 14, 2, 6, 5, 10, 4, 0, 15, 8],
    [9, 0, 5, 7, 2, 4, 10, 15, 14, 1, 11, 12, 6, 8, 3, 13],
    [2, 12, 6, 10, 0, 11, 8, 3, 4, 13, 7, 5, 15, 14, 1, 9],
    [12, 5, 1, 15, 14, 13, 4, 10, 0, 7, 6, 3, 9, 2, 8, 11],
    [13, 11, 7, 14, 12, 1, 3, 9, 5, 0, 15, 4, 8, 6, 2, 10],
    [6, 15, 14, 9, 11, 3, 0, 8, 12, 2, 13, 7, 1, 4, 10, 5],
    [10, 2, 8, 4, 7, 6, 1, 5, 15, 11, 9, 14, 3, 12, 13, 0],
    [0, 1, 2, 3, 4, 5, 6, 7, 8, 9, 10, 11, 12, 13, 14, 15],
    [14, 10, 4, 8, 9, 15, 13, 6, 1, 12, 0, 2, 11, 7, 5, 3]
  ]

  type Vector = v: seq<bv64> | |v| == 16 witness seq(16, _ => 0)
  type State8 = h: seq<bv64> | |h| == 8 witness seq(8, _ => 0)

  /** The mixing function on four different words of the vector. */
  function Mix(v: Vector, a: nat, b: nat, c: nat, d: nat, x: bv64, y: bv64): Vector
    requires a < 16 && b < 16 && c < 16 && d < 16
  {
    var a1 := Plus(Plus(v[a], v[b]), x);
    var d1 := Rotr(Xor(v[d], a1), 32);
    var c1 := Plus(v[c], d1);
    var b1 := Rotr(Xor(v[b], c1), 24);
    var a2 := Plus(Plus(a1, b1), y);
    var d2 := Rotr(Xor(d1, a2), 16);
    var c2 := Plus(c1, d2);
    v[a := a2][d := d2][c := c2][b := Rotr(Xor(b1, c2), 63)]
  }

  type Row = s: seq<nat> | |s| == 16 && forall i :: 0 <= i < 16 ==> s[i] < 16 witness seq(16, _ => 0)

  /** Half a round: the four columns. */
  function Columns(v: Vector, m: Vector, s: Row): Vector
  {
    Mix(Mix(Mix(Mix(v, 0, 4, 8, 12, m[s[0]], m[s[1]]), 1, 5, 9, 13, m[s[2]], m[s[3]]),
            2, 6, 10, 14, m[s[4]], m[s[5]]), 3, 7, 11, 15, m[s[6]], m[s[7]])
  }

  /** The other half: the four diagonals. */
  function Diagonals(v: Vector, m: Vector, s: Row): Vector
  {
    Mix(Mix(Mix(Mix(v, 0, 5, 10, 15, m[s[8]], m[s[9]]), 1, 6, 11, 12, m[s[10]], m[s[11]]),
            2, 7, 8, 13, m[s[12]], m[s[13]]), 3, 4, 9, 14, m[s[14]], m[s[15]])
  }

  /** Row i of the table is row i modulo 10 of the RFC's ten-row schedule. */
  lemma RowsRepeat(i: nat)
    requires i < 12
    ensures |SIGMA| == 12 && |SIGMA[i]| == 16 && forall k :: 0 <= k < 16 ==> SIGMA[i][k] < 16
    ensures SIGMA[i] == SIGMA[i % 10]
  {
  }

  /** The message schedule of a round. */
  function RoundRow(i: nat): Row
    requires i < 12
  {
    RowsRepeat(i % 10);
    SIGMA[i % 10]
  }

  function Rounds(v: Vector, m: Vector, n: nat): Vector
    requires n <= 12
  {
    if n == 0 then v
    else Diagonals(Columns(Rounds(v, m, n - 1), m, RoundRow(n - 1)), m, RoundRow(n - 1))
  }

  function ToWord(x: u64): bv64
  {
    x as bv64
  }

  /** The initial work vector: state, constants, byte count and the flag of the last block. */
  function Start(h: State8, t0: u64, t1: u64, last: bool): Vector
  {
    h + [IV[0], IV[1], IV[2], IV[3], Xor(IV[4], ToWord(t0)), Xor(IV[5], ToWord(t1)), Xor(IV[6], Flag(last)), IV[7]]
  }

  /** All ones for the last block. */
  function Flag(last: bool): bv64
  {
    if last then 0xffff_ffff_ffff_ffff else 0
  }

  function Feed(h: State8, v: Vector): State8
  {
    seq(8, i requires 0 <= i < 8 => Xor(h[i], Xor(v[i], v[i + 8])))
  }

  /** The compression function F on sixteen words and a two-word byte count. */
  function Compressed(h: State8, m: Vector, t0: u64, t1: u64, last: bool): State8
  {
    Feed(h, Rounds(Start(h, t0, t1, last), m, 12))
  }

  const W64: int := 0x1_0000_0000_0000_0000

  function LowWord(t: nat): (w: u64)
  {
    t % W64
  }

  function HighWord(t: nat): (w: u64)
  {
    t / W64 % W64
  }

  /** F on bytes, with the byte count as one number; only its low 128 bits are used. */
  ghost function F(h: State8, block: seq<bv8>, t: nat, last: bool): State8
  {
    Compressed(h, WordBuffer.Words(block, false), LowWord(t), HighWord(t), last)
  }

  ghost function Blake2bVariant(): (v: B.Variant<State8>)
    ensures v.Valid()
  {
    B.Variant(128, F)
  }

  // ---------- blake2b_compress ----------

  /** BLAKE2_G, in place. */
  method G(v: array<bv64>, a: nat, b: nat, c: nat, d: nat, x: bv64, y: bv64)
    requires v.Length == 16 && a < 16 && b < 16 && c < 16 && d < 16
    requires a != b && a != c && a != d && b != c && b != d && c != d
    modifies v
    ensures v[..] == Mix(old(v[..]), a, b, c, d, x, y)
  {
    hide Rotr, Plus, Xor;
    ghost var was := v[..];
    v[a] := Plus(Plus(v[a], v[b]), x);
    v[d] := Rotr(Xor(v[d], v[a]), 32);
    v[c] := Plus(v[c], v[d]);
    v[b] := Rotr(Xor(v[b], v[c]), 24);
    v[a] := Plus(Plus(v[a], v[b]), y);
    v[d] := Rotr(Xor(v[d], v[a]), 16);
    v[c] := Plus(v[c], v[d]);
    v[b] := Rotr(Xor(v[b], v[c]), 63);
    B.FourSet(was, v[..], a, d, c, b);
  }

  /** BLAKE2_ROUND(i), in place. */
  method Round(v: array<bv64>, m: Vector, i: nat)
    requires v.Length == 16 && i < 12
    modifies v
    ensures v[..] == Diagonals(Columns(old(v[..]), m, RoundRow(i)), m, RoundRow(i))
  {
    hide Mix, SIGMA;
    RowsRepeat(i);
    var s: Row := SIGMA[i];
    G(v, 0, 4, 8, 12, m[s[0]], m[s[1]]);
    G(v, 1, 5, 9, 13, m[s[2]], m[s[3]]);
    G(v, 2, 6, 10, 14, m[s[4]], m[s[5]]);
    G(v, 3, 7, 11, 15, m[s[6]], m[s[7]]);
    assert v[..] == Columns(old(v[..]), m, s);
    G(v, 0, 5, 10, 15, m[s[8]], m[s[9]]);
    G(v, 1, 6, 11, 12, m[s[10]], m[s[11]]);
    G(v, 2, 7, 8, 13, m[s[12]], m[s[13]]);
    G(v, 3, 4, 9, 14, m[s[14]], m[s[15]]);
  }

  /** The vector part of blake2b_compress. */
  method Compress(h: State8, m: Vector, t0: u64, t1: u64, last: bool) returns (r: State8)
    ensures r == Compressed(h, m, t0, t1, last)
  {
    hide Diagonals, Columns, Xor, ToWord, RoundRow, Flag;
    var start := Start(h, t0, t1, last);
    var v := new bv64[16](i requires 0 <= i < 16 => start[i]);
    assert v[..] == start;
    for i := 0 to 12
      invariant v[..] == Rounds(start, m, i)
    {
      Round(v, m, i);
    }
    r := Feed(h, v[..]);
  }

  // ---------- the streaming interface ----------

  const W128: int := 0x100000000000000000000000000000000

  ghost function Count(t0: u64, t1: u64): int
  {
    var high: int := t1;
    t0 + high * W64
  }

  /** input_offset += input_idx, on two words. */
  method Advance(t0: u64, t1: u64, y: u64) returns (low: u64, high: u64)
    ensures Count(low, high) == (Count(t0, t1) + y) % W128
  {
    low, high := (t0 + y) % W64, t1;
    if low < y {
      high := (t1 + 1) % W64;
    }
  }

  lemma CountWords(t0: u64, t1: u64, n: nat)
    requires Count(t0, t1) == n % W128
    ensures t0 == LowWord(n) && t1 == HighWord(n)
  {
    var k := n / W128;
    var high: int := t1;
    M.Quotient(n, k * W64 + high, t0, W64);
    M.Quotient(k * W64 + high, k, high, W64);
  }

  /** The state and the byte count of the compressed blocks. */
  ghost predicate Absorbed(h: State8, h0: State8, t0: u64, t1: u64, full: seq<bv8>)
  {
    match |h|
    case 8 => |full| % 128 == 0 && h == B.Chain(Blake2bVariant(), h0, full) && Count(t0, t1) == |full| % W128
    case _ => false
  }

  lemma AbsorbedNext(h: State8, h0: State8, t0: u64, t1: u64, full: seq<bv8>, block: seq<bv8>, h': State8, t0': u64, t1': u64)
    requires Absorbed(h, h0, t0, t1, full) && |block| == 128
    requires Count(t0', t1') == (Count(t0, t1) + 128) % W128
    requires h' == Compressed(h, WordBuffer.Words(block, false), t0', t1', false)
    ensures Absorbed(h', h0, t0', t1', full + block)
  {
    hide Compressed, Count, WordBuffer.Words, LowWord, HighWord;
    M.AddMod(|full|, 128, W128);
    CountWords(t0', t1', |full| + 128);
    B.ChainNext(Blake2bVariant(), h0, full, block);
  }

  /** The last block, flagged and counted, gives the digest of everything. */
  lemma LastBlock(h: State8, h0: State8, t0: u64, t1: u64, full: seq<bv8>, buf: seq<bv8>, t0': u64, t1': u64)
    requires Absorbed(h, h0, t0, t1, full) && B.Lazy(Blake2bVariant(), full, buf)
    requires Count(t0', t1') == (Count(t0, t1) + |buf|) % W128
    ensures Compressed(h, WordBuffer.Words(B.Pad(buf, 128), false), t0', t1', true) == Digest(h0, full + buf)
  {
    hide Compressed, Count, B.Digest, WordBuffer.Words, LowWord, HighWord;
    M.AddMod(|full|, |buf|, W128);
    CountWords(t0', t1', |full| + |buf|);
    B.LazyIsLast(Blake2bVariant(), h0, full, buf);
  }

  /** Input words past the buffered bytes are zero, so the words are those of the padded block. */
  lemma PaddedWords(input: seq<bv64>, buf: seq<bv8>)
    requires Holds(input, buf, false)
    ensures input == WordBuffer.Words(B.Pad(buf, 128), false)
  {
    hide PackUpTo;
    forall w | 0 <= w < 16 ensures input[w] == Pack(B.Pad(buf, 128), w, false) {
      PackSame(buf, B.Pad(buf, 128), w, w, false, 8);
    }
  }

  /** The first word of the parameter block: digest length, key length, fanout 1, depth 1. */
  function ParamWord(keylen: u64, outlen: u64): bv64
  {
    0x01010000 ^ (ToWord(keylen) << 8) ^ ToWord(outlen)
  }

  function Initial(keylen: u64, outlen: u64): State8
  {
    IV[0 := Xor(IV[0], ParamWord(keylen, outlen))]
  }

  /** A key as the first block, or nothing. */
  function KeyBlock(key: seq<bv8>): seq<bv8>
    requires |key| <= 128
  {
    if |key| == 0 then [] else B.Pad(key, 128)
  }

  /** The first n bytes of the state, words least significant byte first. */
  function Output(h: State8, n: nat): seq<bv8>
    requires n <= 64
  {
    seq(n, i requires 0 <= i < n => Unpack(h[i / 8], false)[i % 8])
  }

  /** The state after a whole message. */
  ghost function Digest(h0: State8, m: seq<bv8>): State8
  {
    B.Digest(Blake2bVariant(), h0, m)
  }

  /** The first bytes of the digest, at most 64. */
  ghost function DigestBytes(h0: State8, m: seq<bv8>, size: u64): seq<bv8>
  {
    hide Output, Digest;
    Output(Digest(h0, m), Min(size, 64))
  }

  class Blake2bCtx {
    var hash: State8
    var t0: u64
    var t1: u64
    const input: array<bv64>
    var input_idx: nat
    var hash_size: u64

    /** Blocks `full` are compressed and the bytes of `buf` wait in the input words. */
    ghost predicate State(h0: State8, full: seq<bv8>, buf: seq<bv8>)
      reads this, input
    {
      && input_idx == |buf| && Holds(input[..], buf, false)
      && B.Lazy(Blake2bVariant(), full, buf) && Absorbed(hash, h0, t0, t1, full)
    }

    /** The state after the bytes m, the key block included. */
    ghost predicate After(h0: State8, m: seq<bv8>)
      reads this, input
    {
      State(h0, m[..B.BeforeLast(|m|, 128)], m[B.BeforeLast(|m|, 128)..])
    }

    /** crypto_blake2b_keyed_init */
    constructor KeyedInit(hash_size: u64, key: seq<bv8>)
      requires |key| <= 64
      ensures After(Initial(|key|, hash_size), KeyBlock(key)) && this.hash_size == hash_size && fresh(input)
    {
      hide Absorbed, ParamWord, Xor, Pack;
      hash := Initial(|key|, hash_size);
      t0, t1, input_idx := 0, 0, 0;
      this.hash_size := hash_size;
      input := new bv64[16](_ => 0);
      new;
      Clear(input, false);
      NothingAbsorbed(hash);
      KeyCut(key);
      if |key| > 0 {
        LoadBlock(input, B.Pad(key, 128), false);
        input_idx := 128;
      }
    }

    /** blake2b_compress on a buffer that is not the last: the offset counts it first. */
    method Flush(ghost h0: State8, ghost full: seq<bv8>, ghost buf: seq<bv8>)
      requires State(h0, full, buf) && |buf| == 128
      modifies this`hash, this`t0, this`t1
      ensures Absorbed(hash, h0, t0, t1, full + buf)
    {
      hide Pack, Compressed, WordBuffer.Words, Absorbed, Count, Holds;
      ghost var h, s0, s1 := hash, t0, t1;
      t0, t1 := Advance(t0, t1, input_idx);
      HoldsWords(input[..], buf, false);
      hash := Compress(hash, input[..], t0, t1, false);
      AbsorbedNext(h, h0, s0, s1, full, buf, hash, t0, t1);
    }

    /** Bytes up to a word boundary. */
    method AlignWord(message: seq<bv8>, ghost h0: State8, ghost full: seq<bv8>, ghost buf: seq<bv8>) returns (used: nat)
      requires State(h0, full, buf)
      modifies this`input_idx, input
      ensures used <= |message| && |buf| + used <= 128 && State(h0, full, buf + message[..used])
      ensures used == |message| || (|buf| + used) % 8 == 0
    {
      hide Holds, Absorbed;
      used := 0;
      assert buf + message[..0] == buf;
      if input_idx % 8 != 0 {
        used := Min(Gap(input_idx, 8), |message|);
        PushAll(input, input_idx, message[..used], false, buf);
        input_idx := input_idx + used;
      }
    }

    /** Words up to a block boundary. */
    method AlignBlock(message: seq<bv8>, ghost h0: State8, ghost full: seq<bv8>, ghost buf: seq<bv8>) returns (used: nat)
      requires State(h0, full, buf) && (|message| == 0 || |buf| % 8 == 0)
      modifies this`input_idx, input
      ensures used <= |message| && |buf| + used <= 128 && State(h0, full, buf + message[..used])
      ensures (|message| - used < 8 || (|buf| + used) % 128 == 0) && (|message| > 0 ==> (|buf| + used) % 8 == 0)
    {
      hide Holds, Absorbed, WordsToGap;
      used := 0;
      assert buf + message[..0] == buf;
      if input_idx % 128 != 0 {
        used := WordsToGap(input_idx, |message|);
        PushWords(input, input_idx, message[..used], false, buf);
        input_idx := input_idx + used;
      }
    }

    /** One whole block of the message: the block before it is compressed only now. */
    method PutBlock(block: seq<bv8>, ghost h0: State8, ghost full: seq<bv8>, ghost buf: seq<bv8>)
      requires State(h0, full, buf) && |block| == 128 && |buf| % 128 == 0
      modifies this`hash, this`t0, this`t1, this`input_idx, input
      ensures State(h0, full + buf, block)
    {
      hide Holds, Absorbed, Pack;
      assert |buf| == 0 ==> full + buf == full;
      LazyNext(full, buf, block);
      HoldsLength(input[..], buf);
      if input_idx == 128 {
        Flush(h0, full, buf);
      }
      LoadBlock(input, block, false);
      input_idx := 128;
    }

    /** The words and bytes after the last full block. */
    method Rest(message: seq<bv8>, ghost h0: State8, ghost full0: seq<bv8>, ghost buf0: seq<bv8>)
      returns (ghost full: seq<bv8>, ghost buf: seq<bv8>)
      requires State(h0, full0, buf0) && 0 < |message| < 128
      requires |buf0| % 128 == 0 || (|message| < 8 && |buf0| + |message| < 128)
      modifies this`hash, this`t0, this`t1, this`input_idx, input
      ensures State(h0, full, buf) && full + buf == full0 + buf0 + message
    {
      hide Holds, Absorbed;
      full, buf := full0, buf0;
      if input_idx == 128 {
        Flush(h0, full, buf);
        full, buf := full + buf, [];
        input_idx := 0;
        LazyNext(full0, buf0, message);
      }
      if input_idx == 0 {
        HoldsLength(input[..], buf0);
        Clear(input, false);
      }
      var nb_words := |message| / 8;
      PushWords(input, input_idx, message[..8 * nb_words], false, buf);
      input_idx := input_idx + 8 * nb_words;
      buf := buf + message[..8 * nb_words];
      PushAll(input, input_idx, message[8 * nb_words..], false, buf);
      input_idx := input_idx + |message[8 * nb_words..]|;
      Appended(full0, buf0, full, buf, message, 8 * nb_words);
      buf := buf + message[8 * nb_words..];
    }

    /** The message block by block. */
    method PutBlocks(message: seq<bv8>, ghost h0: State8, ghost full0: seq<bv8>, ghost buf0: seq<bv8>)
      returns (ghost full: seq<bv8>, ghost buf: seq<bv8>)
      requires State(h0, full0, buf0) && |message| % 128 == 0 && (|message| > 0 ==> |buf0| % 128 == 0)
      modifies this`hash, this`t0, this`t1, this`input_idx, input
      ensures State(h0, full, buf) && full + buf == full0 + buf0 + message
      ensures |message| > 0 ==> |buf| == 128
      ensures |message| == 0 ==> full == full0 && buf == buf0
    {
      hide Holds, Absorbed;
      full, buf := full0, buf0;
      assert full0 + buf0 + message[..0] == full0 + buf0;
      for i := 0 to |message| / 128
        invariant State(h0, full, buf) && full + buf == full0 + buf0 + message[..128 * i]
        invariant i == 0 ==> full == full0 && buf == buf0
        invariant i > 0 ==> |buf| == 128
      {
        var block := message[128 * i..128 * i + 128];
        PutBlock(block, h0, full, buf);
        assert full0 + buf0 + message[..128 * i] + block == full0 + buf0 + message[..128 * (i + 1)];
        full, buf := full + buf, block;
      }
      assert message[..128 * (|message| / 128)] == message;
    }

    /** The alignment paths of an update. */
    method AlignAll(message: seq<bv8>, ghost h0: State8, ghost full: seq<bv8>, ghost buf0: seq<bv8>)
      returns (rest: seq<bv8>, ghost buf: seq<bv8>)
      requires State(h0, full, buf0)
      modifies this`input_idx, input
      ensures State(h0, full, buf) && full + buf + rest == full + buf0 + message
      ensures |buf| % 128 == 0 || |rest| == 0 || (|rest| < 8 && |buf| + |rest| < 128)
    {
      hide Holds, Absorbed;
      rest := message;
      var used := AlignWord(rest, h0, full, buf0);
      Move(full, buf0, rest, used);
      buf, rest := buf0 + rest[..used], rest[used..];
      used := AlignBlock(rest, h0, full, buf);
      Move(full, buf, rest, used);
      buf, rest := buf + rest[..used], rest[used..];
    }

    /** crypto_blake2b_update: any chunk of any length continues the message. */
    method Update(message: seq<bv8>, ghost h0: State8, ghost m: seq<bv8>)
      requires After(h0, m)
      modifies this`hash, this`t0, this`t1, this`input_idx, input
      ensures After(h0, m + message)
    {
      hide Holds, Absorbed;
      if |message| == 0 {
        assert m + message == m;
        return;
      }
      ghost var full, buf := m[..B.BeforeLast(|m|, 128)], m[B.BeforeLast(|m|, 128)..];
      assert full + buf == m;
      var rest;
      rest, buf := AlignAll(message, h0, full, buf);
      var nb_blocks := |rest| / 128;
      ghost var full0, buf0 := full, buf;
      full, buf := PutBlocks(rest[..128 * nb_blocks], h0, full, buf);
      Moved(full0, buf0, full, buf, rest, 128 * nb_blocks);
      rest := rest[128 * nb_blocks..];
      if |rest| != 0 {
        full, buf := Rest(rest, h0, full, buf);
      } else {
        assert full + buf + rest == full + buf;
      }
      assert full + buf == m + message;
      Recut(full, buf, m + message);
    }

    /** crypto_blake2b_final: the first bytes of the digest, at most 64. */
    method Final(ghost h0: State8, ghost m: seq<bv8>) returns (out: seq<bv8>)
      requires After(h0, m)
      modifies this`hash, this`t0, this`t1
      ensures out == DigestBytes(h0, m, hash_size)
    {
      hide Holds, Absorbed, Compressed, Count, Digest, Unpack, WordBuffer.Words;
      ghost var full, buf := m[..B.BeforeLast(|m|, 128)], m[B.BeforeLast(|m|, 128)..];
      assert full + buf == m;
      ghost var s0, s1, h := t0, t1, hash;
      t0, t1 := Advance(t0, t1, input_idx);
      HoldsLength(input[..], buf);
      PaddedWords(input[..], buf);
      LastBlock(h, h0, s0, s1, full, buf, t0, t1);
      hash := Compress(hash, input[..], t0, t1, true);
      var size := Min(hash_size, 64);
      var nb_words := size / 8;
      out := [];
      for i := 0 to nb_words
        invariant |out| == 8 * i && forall k :: 0 <= k < 8 * i ==> out[k] == Unpack(hash[k / 8], false)[k % 8]
      {
        out := out + Unpack(hash[i], false);
      }
      for i := 8 * nb_words to size
        invariant |out| == i && forall k :: 0 <= k < i ==> out[k] == Unpack(hash[k / 8], false)[k % 8]
      {
        out := out + [Unpack(hash[i / 8], false)[i % 8]];
      }
    }
  }

  lemma Move(full: seq<bv8>, buf: seq<bv8>, rest: seq<bv8>, n: nat)
    requires n <= |rest|
    ensures full + (buf + rest[..n]) + rest[n..] == full + buf + rest
  {
  }

  lemma Moved(full0: seq<bv8>, buf0: seq<bv8>, full: seq<bv8>, buf: seq<bv8>, rest: seq<bv8>, n: nat)
    requires n <= |rest| && full + buf == full0 + buf0 + rest[..n]
    ensures full + buf + rest[n..] == full0 + buf0 + rest
    ensures n == 0 ==> rest[n..] == rest
  {
    assert rest == rest[..n] + rest[n..];
  }

  lemma Recut(full: seq<bv8>, buf: seq<bv8>, m: seq<bv8>)
    requires B.Lazy(Blake2bVariant(), full, buf) && full + buf == m
    ensures m[..B.BeforeLast(|m|, 128)] == full && m[B.BeforeLast(|m|, 128)..] == buf
  {
    B.SameCut(|full|, |m|, 128);
  }

  lemma Appended(full0: seq<bv8>, buf0: seq<bv8>, full: seq<bv8>, buf: seq<bv8>, message: seq<bv8>, n: nat)
    requires n <= |message| && full + buf == full0 + buf0 + message[..n]
    ensures full + (buf + message[n..]) == full0 + buf0 + message
  {
    assert message == message[..n] + message[n..];
    assert full + (buf + message[n..]) == (full + buf) + message[n..];
  }

  lemma NothingAbsorbed(h0: State8)
    ensures Absorbed(h0, h0, 0, 0, [])
  {
  }

  lemma KeyCut(key: seq<bv8>)
    requires |key| <= 64
    ensures B.BeforeLast(|KeyBlock(key)|, 128) == 0 && |KeyBlock(key)| == if |key| == 0 then 0 else 128
  {
    B.SameCut(0, 128, 128);
  }

  lemma LazyNext(full: seq<bv8>, buf: seq<bv8>, block: seq<bv8>)
    requires B.Lazy(Blake2bVariant(), full, buf) && |buf| % 128 == 0 && 0 < |block| <= 128
    ensures B.Lazy(Blake2bVariant(), full + buf, block)
  {
  }

  lemma HoldsLength(input: seq<bv64>, buf: seq<bv8>)
    requires Holds(input, buf, false)
    ensures |input| == 16
  {
  }

  /** BLAKE2b of a message with an optional key. */
  ghost function Hash(size: u64, key: seq<bv8>, m: seq<bv8>): seq<bv8>
    requires |key| <= 64
  {
    DigestBytes(Initial(|key|, size), KeyBlock(key) + m, size)
  }

  /** crypto_blake2b_keyed */
  method Keyed(hash_size: u64, key: seq<bv8>, message: seq<bv8>) returns (out: seq<bv8>)
    requires |key| <= 64
    ensures out == Hash(hash_size, key, message)
  {
    hide Initial, KeyBlock, DigestBytes, Holds, Absorbed, Hash;
    var ctx := new Blake2bCtx.KeyedInit(hash_size, key);
    ghost var h0 := Initial(|key|, hash_size);
    ctx.Update(message, h0, KeyBlock(key));
    out := ctx.Final(h0, KeyBlock(key) + message);
    HashMeans(hash_size, key, message);
  }

  lemma HashMeans(size: u64, key: seq<bv8>, m: seq<bv8>)
    requires |key| <= 64
    ensures Hash(size, key, m) == DigestBytes(Initial(|key|, size), KeyBlock(key) + m, size)
  {
    hide DigestBytes, Initial, KeyBlock;
  }
}
