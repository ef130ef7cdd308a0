/** SHA-512 (monocypher-ed25519.c) against sections 5.1.2, 5.2.2 and 6.4 of FIPS 180-4. */
module Sha512 {
  import M = ModArith
  import opened Numbers = Words
  import opened WordBuffer
  import opened Buffers

  // ---------- section 4.1.3: the functions ----------

  /** ROTR */
  function Rot(x: bv64, c: nat): bv64
    requires 0 < c < 64
  {
    (x >> c) | (x << (64 - c))
  }

  function Ch(x: bv64, y: bv64, z: bv64): bv64
  {
    (x & y) ^ (!x & z)
  }

  function Maj(x: bv64, y: bv64, z: bv64): bv64
  {
    (x & y) ^ (x & z) ^ (y & z)
  }

  function BigSigma0(x: bv64): bv64
  {
    Rot(x, 28) ^ Rot(x, 34) ^ Rot(x, 39)
  }

  function BigSigma1(x: bv64): bv64
  {
    Rot(x, 14) ^ Rot(x, 18) ^ Rot(x, 41)
  }

  function LitSigma0(x: bv64): bv64
  {
    Rot(x, 1) ^ Rot(x, 8) ^ (x >> 7)
  }

  function LitSigma1(x: bv64): bv64
  {
    Rot(x, 19) ^ Rot(x, 61) ^ (x >> 6)
  }

  const K: seq<bv64> := [
    0x428a2f98d728ae22, 0x7137449123ef65cd, 0xb5c0fbcfec4d3b2f, 0xe9b5dba58189dbbc,
    0x3956c25bf348b538, 0x59f111f1b605d019, 0x923f82a4af194f9b, 0xab1c5ed5da6d8118,
    0xd807aa98a3030242, 0x12835b0145706fbe, 0x243185be4ee4b28c, 0x550c7dc3d5ffb4e2,
    0x72be5d74f27b896f, 0x80deb1fe3b1696b1, 0x9bdc06a725c71235, 0xc19bf174cf692694,
    0xe49b69c19ef14ad2, 0xefbe4786384f25e3, 0x0fc19dc68b8cd5b5, 0x240ca1cc77ac9c65,
    0x2de92c6f592b0275, 0x4a7484aa6ea6e483, 0x5cb0a9dcbd41fbd4, 0x76f988da831153b5,
    0x983e5152ee66dfab, 0xa831c66d2db43210, 0xb00327c898fb213f, 0xbf597fc7beef0ee4,
    0xc6e00bf33da88fc2, 0xd5a79147930aa725, 0x06ca6351e003826f, 0x142929670a0e6e70,
    0x27b70a8546d22ffc, 0x2e1b21385c26c926, 0x4d2c6dfc5ac42aed, 0x53380d139d95b3df,
    0x650a73548baf63de, 0x766a0abb3c77b2a8, 0x81c2c92e47edaee6, 0x92722c851482353b,
    0xa2bfe8a14cf10364, 0xa81a664bbc423001, 0xc24b8b70d0f89791, 0xc76c51a30654be30,
    0xd192e819d6ef5218, 0xd69906245565a910, 0xf40e35855771202a, 0x106aa07032bbd1b8,
    0x19a4c116b8d2d0c8, 0x1e376c085141ab53, 0x2748774cdf8eeb99, 0x34b0bcb5e19b48a8,
    0x391c0cb3c5c95a63, 0x4ed8aa4ae3418acb, 0x5b9cca4f7763e373, 0x682e6ff3d6b2b8a3,
    0x748f82ee5defb2fc, 0x78a5636f43172f60, 0x84c87814a1f0ab72, 0x8cc702081a6439ec,
    0x90befffa23631e28, 0xa4506cebde82bde9, 0xbef9a3f7b2c67915, 0xc67178f2e372532b,
    0xca273eceea26619c, 0xd186b8c721c0c207, 0xeada7dd6cde0eb1e, 0xf57d4f7fee6ed178,
    0x06f067aa72176fba, 0x0a637dc5a2c898a6, 0x113f9804bef90dae, 0x1b710b35131c471b,
    0x28db77f523047d84, 0x32caab7b40c72493, 0x3c9ebe0a15c9bebc, 0x431d67c49c100d4c,
    0x4cc5d4becb3e42b6, 0x597f299cfc657e2a, 0x5fcb6fab3ad6faec, 0x6c44198c4a475817
  ]

  const IV: seq<bv64> := [
    0x6a09e667f3bcc908, 0xbb67ae8584caa73b, 0x3c6ef372fe94f82b, 0xa54ff53a5f1d36f1,
    0x510e527fade682d1, 0x9b05688c2b3e6c1f, 0x1f83d9abfb41bd6b, 0x5be0cd19137e2179
  ]

  // ---------- section 6.4.2: one block ----------

  type Block = b: seq<bv64> | |b| == 16 witness seq(16, _ => 0)

  /** The eighty-word message schedule. */
  function Schedule(m: Block, t: nat): bv64
  {
    if t < 16 then m[t]
    else Plus(Plus(Plus(Schedule(m, t - 16), LitSigma1(Schedule(m, t - 2))), LitSigma0(Schedule(m, t - 15))), Schedule(m, t - 7))
  }

  /** Addition modulo 2^64. Sums of several terms are written in the order the code adds them. */
  function Plus(a: bv64, b: bv64): bv64
  {
    a + b
  }

  datatype Registers = Registers(a: bv64, b: bv64, c: bv64, d: bv64, e: bv64, f: bv64, g: bv64, h: bv64)

  /** One round. */
  function Round(r: Registers, k: bv64, w: bv64): Registers
  {
    var t1 := Plus(Plus(Plus(BigSigma1(r.e), Ch(r.e, r.f, r.g)), r.h), Plus(k, w));
    var t2 := Plus(BigSigma0(r.a), Maj(r.a, r.b, r.c));
    Registers(Plus(t1, t2), r.a, r.b, r.c, Plus(r.d, t1), r.e, r.f, r.g)
  }

  type Hash = h: seq<bv64> | |h| == 8 witness seq(8, _ => 0)

  function Load(h: Hash): Registers
  {
    Registers(h[0], h[1], h[2], h[3], h[4], h[5], h[6], h[7])
  }

  /** The working variables after t rounds. */
  function Rounds(h: Hash, m: Block, t: nat): Registers
    requires t <= 80
  {
    if t == 0 then Load(h) else Round(Rounds(h, m, t - 1), K[t - 1], Schedule(m, t - 1))
  }

  function AddRegisters(h: Hash, r: Registers): Hash
  {
    [Plus(h[0], r.a), Plus(h[1], r.b), Plus(h[2], r.c), Plus(h[3], r.d), Plus(h[4], r.e), Plus(h[5], r.f), Plus(h[6], r.g), Plus(h[7], r.h)]
  }

  /** The intermediate hash value after one more block. */
  function CompressBlock(h: Hash, m: Block): Hash
  {
    AddRegisters(h, Rounds(h, m, 80))
  }

  // ---------- sections 5.1.2 and 6.4.2: a whole message ----------

  /** The hash value after full 128-byte blocks. */
  ghost function Chain(m: seq<bv8>): Hash
    requires |m| % 128 == 0
  {
    if |m| == 0 then IV else CompressBlock(Chain(m[..|m| - 128]), WordBuffer.Words(m[|m| - 128..], true))
  }

  function ToWord(x: u64): bv64
  {
    x as bv64
  }

  /** One word of the 128-bit length in bits. */
  function HighWord(bits: nat): bv64
  {
    ToWord(bits / 0x1_0000_0000_0000_0000 % 0x1_0000_0000_0000_0000)
  }

  function LowWord(bits: nat): bv64
  {
    ToWord(bits % 0x1_0000_0000_0000_0000)
  }

  /** The length of n bytes in bits, as sixteen bytes. */
  function Length(n: nat): (s: seq<bv8>)
    ensures |s| == 16
  {
    Unpack(HighWord(8 * n), true) + Unpack(LowWord(8 * n), true)
  }

  /** The number of zero bytes between the 0x80 byte and the length. */
  function ZeroBytes(n: nat): (k: nat)
    ensures k < 128 && (n + 1 + k + 16) % 128 == 0
  {
    (239 - n % 128) % 128
  }

  /** The padded message: a 1 bit, zeros, and the length in bits as a 128-bit number. */
  ghost function Padded(m: seq<bv8>): (p: seq<bv8>)
    ensures |p| % 128 == 0
  {
    m + [0x80] + Zeros(ZeroBytes(|m|)) + Length(|m|)
  }

  /** The first n hash words as bytes. */
  function Output(h: Hash, n: nat): seq<bv8>
    requires n <= 8
  {
    if n == 0 then [] else Output(h, n - 1) + Unpack(h[n - 1], true)
  }

  /** SHA-512 of a message. */
  ghost function Digest(m: seq<bv8>): seq<bv8>
  {
    Output(Chain(Padded(m)), 8)
  }

  // ---------- sha512_compress ----------

  /** One round as the code adds it up. */
  method RoundStep(r: Registers, k: bv64, w: bv64) returns (n: Registers)
    ensures n == Round(r, k, w)
  {
    hide BigSigma0, BigSigma1, Ch, Maj, Plus;
    var in_ := Plus(k, w);
    var t1 := Plus(Plus(Plus(BigSigma1(r.e), Ch(r.e, r.f, r.g)), r.h), in_);
    var t2 := Plus(BigSigma0(r.a), Maj(r.a, r.b, r.c));
    n := Registers(Plus(t1, t2), r.a, r.b, r.c, Plus(r.d, t1), r.e, r.f, r.g);
  }

  /** The sixteen-word window of the schedule just before word t is made: position k holds the newest word
      whose number is k modulo 16. */
  ghost predicate Window(w: seq<bv64>, m: Block, t: nat)
    requires t >= 16
  {
    |w| == 16 && forall k :: 0 <= k < 16 ==> w[k] == Schedule(m, Newest(k, t))
  }

  /** The largest number below t that is k modulo 16. */
  function Newest(k: nat, t: nat): (n: nat)
    requires k < 16 <= t
    ensures n < t && t - n <= 16 && n % 16 == k
  {
    t - 1 - (t - 1 - k) % 16
  }

  lemma NewestAt(w: seq<bv64>, m: Block, t: nat, back: nat, k: int)
    requires 1 <= back <= 16 <= t && k == (t - back) % 16 && Window(w, m, t)
    ensures 0 <= k < 16 && w[k] == Schedule(m, t - back)
  {
    hide Schedule;
    assert Newest(k, t) == t - back;
  }

  lemma NewestMoves(k: nat, t: nat)
    requires k < 16 <= t
    ensures Newest(k, t + 1) == if k == t % 16 then t else Newest(k, t)
  {
  }

  lemma ScheduleStep(m: Block, t: nat)
    requires t >= 16
    ensures Schedule(m, t) == Plus(Plus(Plus(Schedule(m, t - 16), LitSigma1(Schedule(m, t - 2))), LitSigma0(Schedule(m, t - 15))), Schedule(m, t - 7))
  {
    hide LitSigma0, LitSigma1, Plus;
  }

  lemma WindowMoves(w: seq<bv64>, m: Block, t: nat)
    requires t >= 16 && Window(w, m, t)
    ensures Window(w[t % 16 := Schedule(m, t)], m, t + 1)
  {
    hide Schedule, Newest;
    var v := w[t % 16 := Schedule(m, t)];
    forall k | 0 <= k < 16 ensures v[k] == Schedule(m, Newest(k, t + 1)) {
      NewestMoves(k, t);
    }
  }

  /** Extends the schedule by one word, in place. */
  method NextWord(input: array<bv64>, j: nat, ghost m: Block, ghost t: nat)
    requires t >= 16 && j == t % 16 && Window(input[..], m, t)
    modifies input
    ensures Window(input[..], m, t + 1) && input[j] == Schedule(m, t)
  {
    hide LitSigma0, LitSigma1, Plus, Schedule, Newest;
    ghost var w := input[..];
    NewestAt(w, m, t, 16, j);
    NewestAt(w, m, t, 2, (j - 2) % 16);
    NewestAt(w, m, t, 15, (j - 15) % 16);
    NewestAt(w, m, t, 7, (j - 7) % 16);
    ScheduleStep(m, t);
    WindowMoves(w, m, t);
    var x := input[j];
    x := Plus(x, LitSigma1(input[(j - 2) % 16]));
    x := Plus(x, LitSigma0(input[(j - 15) % 16]));
    x := Plus(x, input[(j - 7) % 16]);
    input[j] := x;
    assert input[..] == w[j := x];
  }

  lemma RoundsStep(h: Hash, m: Block, t: nat)
    requires t < 80
    ensures Rounds(h, m, t + 1) == Round(Rounds(h, m, t), K[t], Schedule(m, t))
    ensures Rounds(h, m, 0) == Load(h)
  {
    hide Schedule, Round, K;
  }

  /** Rounds 16 i to 16 i + 15, for i > 0. */
  method SixteenRounds(hash: Hash, input: array<bv64>, i: nat, r0: Registers, ghost m: Block) returns (r: Registers)
    requires 1 <= i < 5 && Window(input[..], m, 16 * i) && r0 == Rounds(hash, m, 16 * i)
    modifies input
    ensures Window(input[..], m, 16 * i + 16) && r == Rounds(hash, m, 16 * i + 16)
  {
    hide Schedule, Round, Newest, Rounds, K;
    r := r0;
    KLength();
    for j := 0 to 16
      invariant Window(input[..], m, 16 * i + j) && r == Rounds(hash, m, 16 * i + j)
    {
      RoundsStep(hash, m, 16 * i + j);
      NextWord(input, j, m, 16 * i + j);
      r := RoundStep(r, K[16 * i + j], input[j]);
    }
  }

  lemma KLength()
    ensures |K| == 80
  {
  }

  /** sha512_compress: the in-place sixteen-word schedule gives the rounds the eighty words of the standard. */
  method Compress(hash: Hash, input: array<bv64>) returns (h: Hash)
    requires input.Length == 16
    modifies input
    ensures h == CompressBlock(hash, old(input[..]))
  {
    hide Schedule, Round, Newest, Window, AddRegisters, Rounds, K, Load;
    ghost var m: Block := input[..];
    var r := Load(hash);
    FirstWords(m);
    KLength();
    RoundsStep(hash, m, 0);
    for j := 0 to 16
      invariant input[..] == m && r == Rounds(hash, m, j)
    {
      RoundsStep(hash, m, j);
      r := RoundStep(r, K[j], input[j]);
    }
    for i := 1 to 5
      invariant Window(input[..], m, 16 * i) && r == Rounds(hash, m, 16 * i)
    {
      r := SixteenRounds(hash, input, i, r, m);
    }
    h := AddRegisters(hash, r);
  }

  lemma FirstWords(m: Block)
    ensures Window(m, m, 16) && forall j :: 0 <= j < 16 ==> Schedule(m, j) == m[j]
  {
    forall k | 0 <= k < 16 ensures m[k] == Schedule(m, Newest(k, 16)) {
      assert Newest(k, 16) == k;
    }
  }

  // ---------- the streaming interface ----------

  /** sha512_incr: adds to a 128-bit number kept in two words, most significant first. */
  method Incr(hi: u64, lo: u64, y: u64) returns (hi': u64, lo': u64)
    ensures Size(hi', lo') == (Size(hi, lo) + y) % 0x100000000000000000000000000000000
  {
    hi', lo' := hi, (lo + y) % 0x1_0000_0000_0000_0000;
    if lo' < y {
      hi' := (hi + 1) % 0x1_0000_0000_0000_0000;
    }
  }

  ghost function Size(hi: u64, lo: u64): int
  {
    var h: int := hi;
    h * 0x1_0000_0000_0000_0000 + lo
  }

  /** The hash and the size in bits of full blocks. */
  ghost predicate Hashed(hash: Hash, hi: u64, lo: u64, full: seq<bv8>)
  {
    match |hash|
    case 8 => |full| % 128 == 0 && hash == Chain(full) && Size(hi, lo) == (8 * |full|) % 0x100000000000000000000000000000000
    case _ => false
  }

  lemma HashedNext(hash: Hash, hi: u64, lo: u64, full: seq<bv8>, buf: seq<bv8>, hash': Hash, hi': u64, lo': u64)
    requires Hashed(hash, hi, lo, full) && |buf| == 128 && hash' == CompressBlock(hash, WordBuffer.Words(buf, true))
    requires Size(hi', lo') == (Size(hi, lo) + 1024) % 0x100000000000000000000000000000000
    ensures Hashed(hash', hi', lo', full + buf)
  {
    hide Chain, CompressBlock, WordBuffer.Words, Size;
    ChainNext(full, buf);
    M.AddMod(8 * |full|, 1024, 0x100000000000000000000000000000000);
  }

  class Sha512Ctx {
    var hash: Hash
    const input: array<bv64>
    var size_hi: u64
    var size_lo: u64
    var input_idx: nat

    /** The full blocks are hashed; the bytes of `buf` wait in the input words, with zeros after them. */
    ghost predicate State(full: seq<bv8>, buf: seq<bv8>)
      reads this, input
    {
      input_idx == |buf| && Hashed(hash, size_hi, size_lo, full) && Holds(input[..], buf, true)
    }

    /** The state after the message `msg`. */
    ghost predicate After(msg: seq<bv8>)
      reads this, input
    {
      State(msg[..|msg| - |msg| % 128], msg[|msg| - |msg| % 128..])
    }

    /** crypto_sha512_init */
    constructor Init()
      ensures After([]) && fresh(input)
    {
      hide Pack;
      hash := IV;
      size_hi, size_lo, input_idx := 0, 0, 0;
      input := new bv64[16](_ => 0);
      new;
      Clear(input, true);
    }

    /** Compresses a full buffer and starts an empty one. */
    method Flush(ghost full: seq<bv8>, ghost buf: seq<bv8>)
      requires Hashed(hash, size_hi, size_lo, full) && Holds(input[..], buf, true) && |buf| == 128
      modifies this, input
      ensures State(full + buf, [])
    {
      hide Pack, CompressBlock, WordBuffer.Words, Hashed, Size, Holds;
      ghost var h, hi, lo := hash, size_hi, size_lo;
      size_hi, size_lo := Incr(size_hi, size_lo, 1024);
      HoldsWords(input[..], buf, true);
      hash := Compress(hash, input);
      HashedNext(h, hi, lo, full, buf, hash, size_hi, size_lo);
      input_idx := 0;
      Clear(input, true);
    }

    /** Bytes up to a word boundary. */
    method AlignWord(message: seq<bv8>, ghost full: seq<bv8>, ghost buf: seq<bv8>) returns (used: nat)
      requires State(full, buf) && |buf| < 128
      modifies this`input_idx, input
      ensures used <= |message| && |buf| + used <= 128 && State(full, buf + message[..used])
      ensures used == |message| || (|buf| + used) % 8 == 0
    {
      hide Holds, Hashed;
      used := 0;
      assert buf + message[..0] == buf;
      if input_idx % 8 != 0 {
        used := Min(Gap(input_idx, 8), |message|);
        PushAll(input, input_idx, message[..used], true, buf);
        input_idx := input_idx + used;
      }
    }

    /** Words up to a block boundary. */
    method AlignBlock(message: seq<bv8>, ghost full: seq<bv8>, ghost buf: seq<bv8>) returns (used: nat)
      requires State(full, buf) && |buf| <= 128 && (|message| == 0 || |buf| % 8 == 0)
      modifies this`input_idx, input
      ensures used <= |message| && |buf| + used <= 128 && State(full, buf + message[..used])
      ensures (|message| - used < 8 || (|buf| + used) % 128 == 0) && (|message| > 0 ==> (|buf| + used) % 8 == 0)
    {
      hide Holds, Hashed, WordsToGap;
      used := 0;
      assert buf + message[..0] == buf;
      if input_idx % 128 != 0 {
        used := WordsToGap(input_idx, |message|);
        PushWords(input, input_idx, message[..used], true, buf);
        input_idx := input_idx + used;
      }
    }

    /** The message block by block. */
    method FullBlocks(message: seq<bv8>, ghost full: seq<bv8>)
      requires State(full, []) && |message| % 128 == 0
      modifies this, input
      ensures State(full + message, [])
    {
      hide Holds, Hashed;
      assert full + message[..0] == full;
      for i := 0 to |message| / 128
        invariant State(full + message[..128 * i], [])
      {
        var block := message[128 * i..128 * i + 128];
        HoldsLength(input[..], []);
        LoadBlock(input, block, true);
        Flush(full + message[..128 * i], block);
        assert full + message[..128 * i] + block == full + message[..128 * (i + 1)];
      }
      assert message[..128 * (|message| / 128)] == message;
    }

    /** The words and bytes after the last full block. */
    method Rest(message: seq<bv8>, ghost full: seq<bv8>, ghost buf: seq<bv8>)
      requires State(full, buf) && |buf| + |message| <= 128 && (|message| >= 8 ==> |buf| == 0)
      modifies this`input_idx, input
      ensures State(full, buf + message)
    {
      hide Holds, Hashed;
      var nb_words := |message| / 8;
      PushWords(input, input_idx, message[..8 * nb_words], true, buf);
      input_idx := input_idx + 8 * nb_words;
      PushAll(input, input_idx, message[8 * nb_words..], true, buf + message[..8 * nb_words]);
      input_idx := input_idx + |message[8 * nb_words..]|;
      assert buf + message[..8 * nb_words] + message[8 * nb_words..] == buf + message;
    }

    /** The alignment paths of an update, up to an empty buffer or the end of the message. */
    method AlignAll(message: seq<bv8>, ghost full0: seq<bv8>, ghost buf0: seq<bv8>)
      returns (rest: seq<bv8>, ghost full: seq<bv8>, ghost buf: seq<bv8>)
      requires State(full0, buf0) && |buf0| < 128
      modifies this, input
      ensures State(full, buf) && full + buf + rest == full0 + buf0 + message
      ensures (|buf| == 0 || (|rest| < 8 && |buf| + |rest| < 128)) && |full| % 128 == 0
    {
      hide Holds, Hashed;
      assert |full0| % 128 == 0 by { HashedLength(hash, size_hi, size_lo, full0); }
      full, rest := full0, message;
      var used := AlignWord(rest, full, buf0);
      Move(full, buf0, rest, used);
      buf, rest := buf0 + rest[..used], rest[used..];
      used := AlignBlock(rest, full, buf);
      Move(full, buf, rest, used);
      buf, rest := buf + rest[..used], rest[used..];
      if input_idx == 128 {
        Flush(full, buf);
        full, buf := full + buf, [];
      }
    }

    /** crypto_sha512_update: any chunk of any length continues the message. */
    method Update(message: seq<bv8>, ghost msg: seq<bv8>)
      requires After(msg)
      modifies this, input
      ensures After(msg + message)
    {
      hide Holds, Hashed;
      if |message| == 0 {
        assert msg + message == msg;
        return;
      }
      var rest;
      ghost var full, buf;
      rest, full, buf := AlignAll(message, msg[..|msg| - |msg| % 128], msg[|msg| - |msg| % 128..]);
      var nb_blocks := |rest| / 128;
      if nb_blocks > 0 {
        FullBlocks(rest[..128 * nb_blocks], full);
      }
      MoveBlocks(full, buf, rest, 128 * nb_blocks);
      full, rest := full + rest[..128 * nb_blocks], rest[128 * nb_blocks..];
      if |rest| != 0 {
        Rest(rest, full, buf);
      }
      SplitAt(full, buf + rest, msg + message);
    }

    /** The padding and the last one or two blocks. */
    method Pad(ghost full: seq<bv8>, ghost buf: seq<bv8>)
      requires State(full, buf) && |buf| < 128
      modifies this, input
      ensures hash == Chain(Padded(full + buf))
    {
      hide Hashed, Chain, CompressBlock, WordBuffer.Words, Padded, Size, HighWord, LowWord, ToWord, Pack, LastBlock;
      HashedParts(hash, size_hi, size_lo, full);
      if input_idx == 0 {
        Clear(input, true);
      }
      Push(input, input_idx, 0x80, true, buf);
      size_hi, size_lo := Incr(size_hi, size_lo, 8 * input_idx);
      LengthWords(|full|, |buf|, size_hi, size_lo);
      ghost var tail := buf + [0x80];
      if input_idx > 111 {
        LongPadding(full, buf);
        hash := Penultimate(hash, input, buf);
        tail := [];
      } else {
        ShortPadding(full, buf);
      }
      ghost var n, h, words := |full| + |buf|, hash, input[..];
      assert Chain(Padded(full + buf)) == CompressBlock(h, WordBuffer.Words(LastBlock(tail, n), true));
      LastWords(tail, n, words);
      input[14] := ToWord(size_hi);
      input[15] := ToWord(size_lo);
      assert input[..] == words[14 := HighWord(8 * n)][15 := LowWord(8 * n)];
      hash := Compress(hash, input);
    }

    /** crypto_sha512_final: the digest of the whole message, however it was cut. */
    method Final(ghost msg: seq<bv8>) returns (out: seq<bv8>)
      requires After(msg)
      modifies this, input
      ensures out == Digest(msg)
    {
      hide Chain, Padded;
      ghost var full, buf := msg[..|msg| - |msg| % 128], msg[|msg| - |msg| % 128..];
      assert full + buf == msg;
      Pad(full, buf);
      out := [];
      for i := 0 to 8
        invariant out == Output(hash, i) && hash == Chain(Padded(msg))
      {
        out := out + Unpack(hash[i], true);
      }
    }
  }

  // ---------- padding ----------

  /** The last block: what is left of the message, zeros, and the length. */
  ghost function LastBlock(tail: seq<bv8>, n: nat): (b: seq<bv8>)
    requires |tail| <= 112
    ensures |b| == 128
  {
    tail + Zeros(112 - |tail|) + Length(n)
  }

  /** A tail too long to hold the length too, filled up with zeros. */
  ghost function FullTail(buf: seq<bv8>): (b: seq<bv8>)
    requires 111 < |buf| < 128
    ensures |b| == 128
  {
    buf + [0x80] + Zeros(127 - |buf|)
  }

  lemma HashedParts(hash: Hash, hi: u64, lo: u64, full: seq<bv8>)
    requires Hashed(hash, hi, lo, full)
    ensures |full| % 128 == 0 && hash == Chain(full) && Size(hi, lo) == (8 * |full|) % 0x100000000000000000000000000000000
  {
  }

  /** The two size words are the two halves of the bit count modulo 2^128. */
  lemma LengthWords(full: nat, buf: nat, hi: u64, lo: u64)
    requires buf < 128
    requires Size(hi, lo) == ((8 * full) % 0x100000000000000000000000000000000 + 8 * buf) % 0x100000000000000000000000000000000
    ensures ToWord(hi) == HighWord(8 * (full + buf)) && ToWord(lo) == LowWord(8 * (full + buf))
  {
    M.AddMod(8 * full, 8 * buf, 0x100000000000000000000000000000000);
    Halves(8 * (full + buf), hi, lo);
  }

  lemma Halves(bits: nat, hi: u64, lo: u64)
    requires Size(hi, lo) == bits % 0x100000000000000000000000000000000
    ensures hi == bits / 0x1_0000_0000_0000_0000 % 0x1_0000_0000_0000_0000 && lo == bits % 0x1_0000_0000_0000_0000
  {
    var k := bits / 0x100000000000000000000000000000000;
    var h: int := hi;
    M.Quotient(bits, k * 0x1_0000_0000_0000_0000 + h, lo, 0x1_0000_0000_0000_0000);
    M.Quotient(k * 0x1_0000_0000_0000_0000 + h, k, h, 0x1_0000_0000_0000_0000);
  }

  lemma ZeroCount(full: nat, buf: nat)
    requires full % 128 == 0 && buf < 128
    ensures ZeroBytes(full + buf) == if buf <= 111 then 111 - buf else 239 - buf
  {
    M.Quotient(full + buf, full / 128, buf, 128);
  }

  lemma PaddedParts(m: seq<bv8>, k: nat)
    requires k == ZeroBytes(|m|)
    ensures Padded(m) == m + [0x80] + Zeros(k) + Length(|m|)
  {
  }

  lemma LastParts(buf: seq<bv8>, n: nat)
    requires |buf| <= 111
    ensures LastBlock(buf + [0x80], n) == (buf + [0x80]) + Zeros(111 - |buf|) + Length(n)
  {
    hide Zeros, Length;
  }

  lemma SplitZeros(a: nat, b: nat)
    ensures Zeros(a + b) == Zeros(a) + Zeros(b)
  {
  }

  lemma Regroup(full: seq<bv8>, buf: seq<bv8>, x: seq<bv8>, y: seq<bv8>, z: seq<bv8>, l: seq<bv8>)
    ensures full + buf + x + y + l == full + ((buf + x) + y + l)
    ensures full + buf + x + (y + z) + l == (full + (buf + x + y)) + ([] + z + l)
  {
  }

  /** The padded message: one more block when the tail leaves room for the length. */
  lemma ShortPadding(full: seq<bv8>, buf: seq<bv8>)
    requires |full| % 128 == 0 && |buf| <= 111
    ensures Chain(Padded(full + buf)) == CompressBlock(Chain(full), WordBuffer.Words(LastBlock(buf + [0x80], |full| + |buf|), true))
  {
    hide CompressBlock, WordBuffer.Words, Length, Chain, ZeroBytes, Zeros, Padded, LastBlock;
    var n := |full| + |buf|;
    ZeroCount(|full|, |buf|);
    PaddedParts(full + buf, 111 - |buf|);
    LastParts(buf, n);
    Regroup(full, buf, [0x80], Zeros(111 - |buf|), [], Length(n));
    ChainNext(full, LastBlock(buf + [0x80], n));
  }

  /** Two more blocks when it does not. */
  lemma LongPadding(full: seq<bv8>, buf: seq<bv8>)
    requires |full| % 128 == 0 && 111 < |buf| < 128
    ensures Chain(Padded(full + buf))
            == CompressBlock(CompressBlock(Chain(full), WordBuffer.Words(FullTail(buf), true)),
                             WordBuffer.Words(LastBlock([], |full| + |buf|), true))
  {
    hide CompressBlock, WordBuffer.Words, Length, Chain, ZeroBytes, Zeros;
    var n := |full| + |buf|;
    ZeroCount(|full|, |buf|);
    SplitZeros(127 - |buf|, 112);
    Regroup(full, buf, [0x80], Zeros(127 - |buf|), Zeros(112), Length(n));
    ChainNext(full, FullTail(buf));
    ChainNext(full + FullTail(buf), LastBlock([], n));
  }

  lemma ChainNext(full: seq<bv8>, block: seq<bv8>)
    requires |full| % 128 == 0 && |block| == 128
    ensures |full + block| % 128 == 0 && Chain(full + block) == CompressBlock(Chain(full), WordBuffer.Words(block, true))
  {
    hide CompressBlock, WordBuffer.Words;
    assert (full + block)[..|full|] == full && (full + block)[|full|..] == block;
  }

  lemma FirstOfTwo(buf: seq<bv8>, input: seq<bv64>)
    requires 111 < |buf| < 128 && Holds(input, buf + [0x80], true)
    ensures input == WordBuffer.Words(FullTail(buf), true)
  {
    hide PackUpTo;
    forall w | 0 <= w < 16 ensures input[w] == Pack(FullTail(buf), w, true) {
      PackSame(buf + [0x80], FullTail(buf), w, w, true, 8);
    }
  }

  /** Compresses a block that has no room for the length, and clears the words before it. */
  method Penultimate(hash: Hash, input: array<bv64>, ghost buf: seq<bv8>) returns (h: Hash)
    requires 111 < |buf| < 128 && Holds(input[..], buf + [0x80], true)
    modifies input
    ensures h == CompressBlock(hash, WordBuffer.Words(FullTail(buf), true))
    ensures forall w :: 0 <= w < 14 ==> input[w] == Pack([], w, true)
  {
    hide Pack, CompressBlock, WordBuffer.Words;
    FirstOfTwo(buf, input[..]);
    h := Compress(hash, input);
    for i := 0 to 14
      invariant forall w :: 0 <= w < i ==> input[w] == 0
    {
      input[i] := 0;
    }
    EmptyWords();
  }

  lemma EmptyWords()
    ensures forall w :: 0 <= w < 14 ==> Pack([], w, true) == 0
  {
    forall w | 0 <= w < 14 ensures Pack([], w, true) == 0 {
      PackShort([], w, true, 0, 8);
    }
  }

  /** With the tail in the first fourteen words, the length completes the last block. */
  lemma LastWords(tail: seq<bv8>, n: nat, input: seq<bv64>)
    requires |tail| <= 112 && |input| == 16 && forall w :: 0 <= w < 14 ==> input[w] == Pack(tail, w, true)
    ensures input[14 := HighWord(8 * n)][15 := LowWord(8 * n)] == WordBuffer.Words(LastBlock(tail, n), true)
  {
    hide PackUpTo, HighWord, LowWord, Unpack;
    var b, out := LastBlock(tail, n), input[14 := HighWord(8 * n)][15 := LowWord(8 * n)];
    forall w | 0 <= w < 14 ensures out[w] == Pack(b, w, true) {
      PackSame(tail, b, w, w, true, 8);
    }
    PackUnpack(HighWord(8 * n), true);
    PackSame(Unpack(HighWord(8 * n), true), b, 0, 14, true, 8);
    PackUnpack(LowWord(8 * n), true);
    PackSame(Unpack(LowWord(8 * n), true), b, 0, 15, true, 8);
  }

  lemma HoldsLength(input: seq<bv64>, buf: seq<bv8>)
    requires Holds(input, buf, true)
    ensures |input| == 16
  {
  }

  lemma HashedLength(hash: Hash, hi: u64, lo: u64, full: seq<bv8>)
    requires Hashed(hash, hi, lo, full)
    ensures |full| % 128 == 0
  {
  }

  lemma Move(full: seq<bv8>, buf: seq<bv8>, rest: seq<bv8>, n: nat)
    requires n <= |rest|
    ensures full + (buf + rest[..n]) + rest[n..] == full + buf + rest
  {
  }

  lemma MoveBlocks(full: seq<bv8>, buf: seq<bv8>, rest: seq<bv8>, n: nat)
    requires n <= |rest| && (n > 0 ==> buf == [])
    ensures (full + rest[..n]) + (buf + rest[n..]) == full + buf + rest
    ensures n == 0 ==> full + rest[..n] == full && rest[n..] == rest
    ensures |rest[n..]| == 0 ==> buf + rest[n..] == buf
  {
    assert rest == rest[..n] + rest[n..];
  }

  lemma SplitAt(full: seq<bv8>, buf: seq<bv8>, msg: seq<bv8>)
    requires |full| % 128 == 0 && |buf| < 128 && full + buf == msg
    ensures |msg| % 128 == |buf| && msg[..|msg| - |msg| % 128] == full && msg[|msg| - |msg| % 128..] == buf
  {
  }

  /** crypto_sha512 */
  method Sha512(message: seq<bv8>) returns (out: seq<bv8>)
    ensures out == Digest(message)
  {
    hide Digest;
    var ctx := new Sha512Ctx.Init();
    ctx.Update(message, []);
    assert [] + message == message;
    out := ctx.Final(message);
  }
}
