/** BLAKE2s (blake2s.c) against RFC 7693, and the device identity computed with it (fw/tk1/main.c, compute_cdi). */
module Blake2s {
  import M = ModArith
  import opened Numbers = Words
  import opened Buffers
  import opened Blake2

  // ---------- section 3.1 and 3.2 of RFC 7693 ----------

  /** Cyclic right rotation. */
  function Rotr(x: bv32, y: bv8): bv32
    requires y <= 32
  {
    (x >> y) ^ (x << (32 - y))
  }

  function Plus(a: bv32, b: bv32): bv32
  {
    a + b
  }

  function Xor(a: bv32, b: bv32): bv32
  {
    a ^ b
  }

  const IV: seq<bv32> := [
    0x6a09e667, 0xbb67ae85, 0x3c6ef372, 0xa54ff53a, 0x510e527f, 0x9b05688c, 0x1f83d9ab, 0x5be0cd19]

  const SIGMA: seq<seq<nat>> := [
    [0, 1, 2, 3, 4, 5, 6, 7, 8, 9, 10, 11, 12, 13, 14, 15],
    [14, 10, 4, 8, 9, 15, 13, 6, 1, 12, 0, 2, 11, 7, 5, 3],
    [11, 8, 12, 0, 5, 2, 15, 13, 10, 14, 3, 6, 7, 1, 9, 4],
    [7, 9, 3, 1, 13, 12, 11, 14, 2, 6, 5, 10, 4, 0, 15, 8],
    [9, 0, 5, 7, 2, 4, 10, 15, 14, 1, 11, 12, 6, 8, 3, 13],
    [2, 12, 6, 10, 0, 11, 8, 3, 4, 13, 7, 5, 15, 14, 1, 9],
    [12, 5, 1, 15, 14, 13, 4, 10, 0, 7, 6, 3, 9, 2, 8, 11],
    [13, 11, 7, 14, 12, 1, 3, 9, 5, 0, 15, 4, 8, 6, 2, 10],
    [6, 15, 14, 9, 11, 3, 0, 8, 12, 2, 13, 7, 1, 4, 10, 5],
    [10, 2, 8, 4, 7, 6, 1, 5, 15, 11, 9, 14, 3, 12, 13, 0]
  ]

  type Vector = v: seq<bv32> | |v| == 16 witness seq(16, _ => 0)
  type State8 = h: seq<bv32> | |h| == 8 witness seq(8, _ => 0)

  /** The mixing function on four different words of the vector. */
  function Mix(v: Vector, a: nat, b: nat, c: nat, d: nat, x: bv32, y: bv32): Vector
    requires a < 16 && b < 16 && c < 16 && d < 16
  {
    var a1 := Plus(Plus(v[a], v[b]), x);
    var d1 := Rotr(Xor(v[d], a1), 16);
    var c1 := Plus(v[c], d1);
    var b1 := Rotr(Xor(v[b], c1), 12);
    var a2 := Plus(Plus(a1, b1), y);
    var d2 := Rotr(Xor(d1, a2), 8);
    var c2 := Plus(c1, d2);
    v[a := a2][d := d2][c := c2][b := Rotr(Xor(b1, c2), 7)]
  }

  type Row = s: seq<nat> | |s| == 16 && forall i :: 0 <= i < 16 ==> s[i] < 16 witness seq(16, _ => 0)

  /** Half a round: the four columns. */
  function Columns(v: Vector, m: Vector, s: Row): Vector
  {
    Mix(Mix(Mix(Mix(v, 0, 4, 8, 12, m[s[0]], m[s[1]]), 1, 5, 9, 13, m[s[2]], m[s[3]]),
            2, 6, 10, 14, m[s[4]], m[s[5]]), 3, 7, 11, 15, m[s[6]], m[s[7]])
  }

  /** The other half: the four diagonals. */
  function Diagonals(v: Vector, m: Vector, s: Row): Vector
  {
    Mix(Mix(Mix(Mix(v, 0, 5, 10, 15, m[s[8]], m[s[9]]), 1, 6, 11, 12, m[s[10]], m[s[11]]),
            2, 7, 8, 13, m[s[12]], m[s[13]]), 3, 4, 9, 14, m[s[14]], m[s[15]])
  }

  lemma Rows(i: nat)
    requires i < 10
    ensures |SIGMA| == 10 && |SIGMA[i]| == 16 && forall k :: 0 <= k < 16 ==> SIGMA[i][k] < 16
  {
  }

  function RoundRow(i: nat): Row
    requires i < 10
  {
    Rows(i);
    SIGMA[i]
  }

  function Rounds(v: Vector, m: Vector, n: nat): Vector
    requires n <= 10
  {
    if n == 0 then v
    else Diagonals(Columns(Rounds(v, m, n - 1), m, RoundRow(n - 1)), m, RoundRow(n - 1))
  }

  /** A little-endian 32-bit word of the block. */
  function Get32(block: seq<bv8>, i: nat): bv32
    requires 4 * i + 4 <= |block|
  {
    (block[4 * i] as bv32) ^ ((block[4 * i + 1] as bv32) << 8) ^ ((block[4 * i + 2] as bv32) << 16) ^ ((block[4 * i + 3] as bv32) << 24)
  }

  function BlockWords(block: seq<bv8>): Vector
    requires |block| == 64
  {
    seq(16, i requires 0 <= i < 16 => Get32(block, i))
  }

  function ToWord(x: u32): bv32
  {
    x as bv32
  }

  /** The initial work vector: state, constants, byte count and the flag of the last block. */
  function Start(h: State8, t0: u32, t1: u32, last: bool): Vector
  {
    h + [IV[0], IV[1], IV[2], IV[3], Xor(IV[4], ToWord(t0)), Xor(IV[5], ToWord(t1)), if last then !IV[6] else IV[6], IV[7]]
  }

  function Feed(h: State8, v: Vector): State8
  {
    seq(8, i requires 0 <= i < 8 => Xor(h[i], Xor(v[i], v[i + 8])))
  }

  /** The compression function F on a block and a two-word byte count. */
  function Compressed(h: State8, block: seq<bv8>, t0: u32, t1: u32, last: bool): State8
    requires |block| == 64
  {
    Feed(h, Rounds(Start(h, t0, t1, last), BlockWords(block), 10))
  }

  /** F with the byte count as one number; only its low 64 bits are used. */
  function F(h: State8, block: seq<bv8>, t: nat, last: bool): State8
  {
    if |block| != 64 then h else Compressed(h, block, t % 0x1_0000_0000, t / 0x1_0000_0000 % 0x1_0000_0000, last)
  }

  function Blake2sVariant(): (v: Variant<State8>)
    ensures v.Valid()
  {
    Variant(64, F)
  }

  // ---------- the code: G and blake2s_compress ----------

  /** G, in place. */
  method G(v: array<bv32>, a: nat, b: nat, c: nat, d: nat, x: bv32, y: bv32)
    requires v.Length == 16 && a < 16 && b < 16 && c < 16 && d < 16
    requires a != b && a != c && a != d && b != c && b != d && c != d
    modifies v
    ensures v[..] == Mix(old(v[..]), a, b, c, d, x, y)
  {
    hide Rotr, Plus, Xor;
    ghost var was := v[..];
    v[a] := Plus(Plus(v[a], v[b]), x);
    v[d] := Rotr(Xor(v[d], v[a]), 16);
    v[c] := Plus(v[c], v[d]);
    v[b] := Rotr(Xor(v[b], v[c]), 12);
    v[a] := Plus(Plus(v[a], v[b]), y);
    v[d] := Rotr(Xor(v[d], v[a]), 8);
    v[c] := Plus(v[c], v[d]);
    v[b] := Rotr(Xor(v[b], v[c]), 7);
    FourSet(was, v[..], a, d, c, b);
  }

  /** One of the ten rounds, in place. */
  method Round(v: array<bv32>, m: Vector, i: nat)
    requires v.Length == 16 && i < 10
    modifies v
    ensures v[..] == Diagonals(Columns(old(v[..]), m, RoundRow(i)), m, RoundRow(i))
  {
    hide Mix, SIGMA;
    var s := RoundRow(i);
    G(v, 0, 4, 8, 12, m[s[0]], m[s[1]]);
    G(v, 1, 5, 9, 13, m[s[2]], m[s[3]]);
    G(v, 2, 6, 10, 14, m[s[4]], m[s[5]]);
    G(v, 3, 7, 11, 15, m[s[6]], m[s[7]]);
    assert v[..] == Columns(old(v[..]), m, s);
    G(v, 0, 5, 10, 15, m[s[8]], m[s[9]]);
    G(v, 1, 6, 11, 12, m[s[10]], m[s[11]]);
    G(v, 2, 7, 8, 13, m[s[12]], m[s[13]]);
    G(v, 3, 4, 9, 14, m[s[14]], m[s[15]]);
  }

  /** blake2s_compress */
  method Compress(h: State8, b: seq<bv8>, t0: u32, t1: u32, last: bool) returns (r: State8)
    requires |b| == 64
    ensures r == Compressed(h, b, t0, t1, last)
  {
    hide Diagonals, Columns, Get32, Xor, ToWord, RoundRow;
    var v := new bv32[16];
    for i := 0 to 8
      invariant forall k :: 0 <= k < i ==> v[k] == h[k] && v[k + 8] == IV[k]
    {
      v[i] := h[i];
      v[i + 8] := IV[i];
    }
    v[12] := Xor(v[12], ToWord(t0));
    v[13] := Xor(v[13], ToWord(t1));
    if last {
      v[14] := !v[14];
    }
    assert v[..] == Start(h, t0, t1, last);
    var m := BlockWords(b);
    for i := 0 to 10
      invariant v[..] == Rounds(Start(h, t0, t1, last), m, i)
    {
      Round(v, m, i);
    }
    r := Feed(h, v[..]);
  }

  // ---------- the streaming interface ----------

  /** The first word of the parameter block: digest length, key length, fanout 1, depth 1. */
  function ParamWord(keylen: u32, outlen: u32): bv32
  {
    0x01010000 ^ (ToWord(keylen) << 8) ^ ToWord(outlen)
  }

  /** The initial state of section 3.3. */
  function Initial(keylen: u32, outlen: u32): State8
  {
    IV[0 := Xor(IV[0], ParamWord(keylen, outlen))]
  }

  /** A key as the first block, or nothing. */
  function KeyBlock(key: seq<bv8>): seq<bv8>
    requires |key| <= 64
  {
    if |key| == 0 then [] else Pad(key, 64)
  }

  function ByteOf(x: bv32, k: nat): bv8
  {
    if k == 0 then (x & 0xff) as bv8
    else if k == 1 then ((x >> 8) & 0xff) as bv8
    else if k == 2 then ((x >> 16) & 0xff) as bv8
    else ((x >> 24) & 0xff) as bv8
  }

  /** The first n bytes of the state, words least significant byte first. */
  function Output(h: State8, n: nat): seq<bv8>
    requires n <= 32
  {
    seq(n, i requires 0 <= i < n => ByteOf(h[i / 4], i % 4))
  }

  /** BLAKE2s of a message with an optional key. */
  ghost function Hash(outlen: nat, key: seq<bv8>, m: seq<bv8>): seq<bv8>
    requires outlen <= 32 && |key| <= 32
  {
    Output(Digest(Blake2sVariant(), Initial(|key|, outlen), KeyBlock(key) + m), outlen)
  }

  lemma HashMeans(key: seq<bv8>, m: seq<bv8>)
    requires |key| <= 32
    ensures Hash(32, key, m) == Output(Digest(Blake2sVariant(), Initial(|key|, 32), KeyBlock(key) + m), 32)
  {
  }

  /** The state and the byte count of the compressed blocks. */
  ghost predicate Absorbed(h: State8, h0: State8, t0: u32, t1: u32, full: seq<bv8>)
  {
    match |h|
    case 8 => |full| % 64 == 0 && h == Chain(Blake2sVariant(), h0, full) && Count(t0, t1) == |full| % 0x1_0000_0000_0000_0000
    case _ => false
  }

  ghost function Count(t0: u32, t1: u32): int
  {
    var high: int := t1;
    t0 + high * 0x1_0000_0000
  }

  /** t += c on the two-word byte count. */
  method Advance(t0: u32, t1: u32, c: u32) returns (low: u32, high: u32)
    ensures Count(low, high) == (Count(t0, t1) + c) % 0x1_0000_0000_0000_0000
  {
    low, high := (t0 + c) % 0x1_0000_0000, t1;
    if low < c {
      high := (t1 + 1) % 0x1_0000_0000;
    }
  }

  lemma CountWords(t0: u32, t1: u32, n: nat)
    requires Count(t0, t1) == n % 0x1_0000_0000_0000_0000
    ensures t0 == n % 0x1_0000_0000 && t1 == n / 0x1_0000_0000 % 0x1_0000_0000
  {
    var k := n / 0x1_0000_0000_0000_0000;
    var high: int := t1;
    M.Quotient(n, k * 0x1_0000_0000 + high, t0, 0x1_0000_0000);
    M.Quotient(k * 0x1_0000_0000 + high, k, high, 0x1_0000_0000);
  }

  /** Compressing a full buffer after counting it. */
  lemma AbsorbedNext(h: State8, h0: State8, t0: u32, t1: u32, full: seq<bv8>, block: seq<bv8>, h': State8, t0': u32, t1': u32)
    requires Absorbed(h, h0, t0, t1, full) && |block| == 64
    requires Count(t0', t1') == (Count(t0, t1) + 64) % 0x1_0000_0000_0000_0000
    requires h' == Compressed(h, block, t0', t1', false)
    ensures Absorbed(h', h0, t0', t1', full + block)
  {
    hide Compressed, Count;
    M.AddMod(|full|, 64, 0x1_0000_0000_0000_0000);
    CountWords(t0', t1', |full| + 64);
    ChainNext(Blake2sVariant(), h0, full, block);
  }

  /** The last block, flagged and counted, gives the digest of everything. */
  lemma LastBlock(h: State8, h0: State8, t0: u32, t1: u32, full: seq<bv8>, buf: seq<bv8>, t0': u32, t1': u32)
    requires Absorbed(h, h0, t0, t1, full) && Lazy(Blake2sVariant(), full, buf)
    requires Count(t0', t1') == (Count(t0, t1) + |buf|) % 0x1_0000_0000_0000_0000
    ensures Compressed(h, Pad(buf, 64), t0', t1', true) == Digest(Blake2sVariant(), h0, full + buf)
  {
    hide Compressed, Count, Digest;
    M.AddMod(|full|, |buf|, 0x1_0000_0000_0000_0000);
    CountWords(t0', t1', |full| + |buf|);
    LazyIsLast(Blake2sVariant(), h0, full, buf);
  }

  class Blake2sCtx {
    const b: array<bv8>
    var h: State8
    var t0: u32
    var t1: u32
    var c: nat
    var outlen: nat

    /** Blocks `full` are compressed and `buf` waits in b. */
    ghost predicate State(h0: State8, full: seq<bv8>, buf: seq<bv8>)
      reads this, b
    {
      && b.Length == 64 && c == |buf| <= 64 && b[..c] == buf && outlen <= 32
      && Lazy(Blake2sVariant(), full, buf) && Absorbed(h, h0, t0, t1, full)
    }

    /** The state after the bytes m, the key block included. */
    ghost predicate After(h0: State8, m: seq<bv8>)
      reads this, b
    {
      State(h0, m[..BeforeLast(|m|, 64)], m[BeforeLast(|m|, 64)..])
    }

    /** An uninitialised context. */
    constructor ()
      ensures b.Length == 64 && fresh(b)
    {
      b := new bv8[64];
      h := seq(8, _ => 0);
    }

    /** blake2s_init: -1 and no change for lengths out of range. */
    method Init(outlen': nat, key: seq<bv8>) returns (r: int)
      requires b.Length == 64
      modifies this, b
      ensures r == if outlen' == 0 || outlen' > 32 || |key| > 32 then -1 else 0
      ensures r == -1 ==> h == old(h) && t0 == old(t0) && t1 == old(t1) && c == old(c) && outlen == old(outlen) && b[..] == old(b[..])
      ensures r == 0 ==> outlen == outlen' && After(Initial(|key|, outlen'), KeyBlock(key))
    {
      hide Absorbed, ParamWord, Xor;
      if outlen' == 0 || outlen' > 32 || |key| > 32 {
        return -1;
      }
      h := Initial(|key|, outlen');
      t0, t1, c, outlen := 0, 0, 0, outlen';
      for i := |key| to 64
        invariant forall k :: |key| <= k < i ==> b[k] == 0
        invariant h == Initial(|key|, outlen') && t0 == t1 == 0 && c == 0 && outlen == outlen'
      {
        b[i] := 0;
      }
      NothingAbsorbed(h);
      if |key| > 0 {
        Update(key, Initial(|key|, outlen'), []);
        KeyFits(key);
        c := 64;
        assert b[..64] == Pad(key, 64);
      }
      r := 0;
    }

    /** blake2s_update: any chunk continues the message; a full buffer is compressed only when another byte comes. */
    method Update(input: seq<bv8>, ghost h0: State8, ghost m: seq<bv8>)
      requires After(h0, m)
      modifies this`h, this`t0, this`t1, this`c, b
      ensures After(h0, m + input)
      ensures |m| + |input| <= 64 ==> forall i :: |m| + |input| <= i < 64 ==> b[i] == old(b[i])
    {
      hide Absorbed;
      assert m + input[..0] == m;
      for i := 0 to |input|
        invariant After(h0, m + input[..i])
        invariant |m| + |input| <= 64 ==> forall k :: |m| + i <= k < 64 ==> b[k] == old(b[k])
      {
        PutByte(input[i], h0, m + input[..i]);
        assert m + input[..i] + [input[i]] == m + input[..i + 1];
      }
      assert input[..|input|] == input;
    }

    /** Compresses a full buffer. */
    method MakeRoom(ghost h0: State8, ghost full: seq<bv8>, ghost buf: seq<bv8>)
      requires State(h0, full, buf)
      modifies this`h, this`t0, this`t1, this`c
      ensures c == if |buf| == 64 then 0 else |buf|
      ensures Absorbed(h, h0, t0, t1, if |buf| == 64 then full + buf else full)
    {
      hide Absorbed, Compressed, Count;
      if c == 64 {
        ghost var h1, s0, s1 := h, t0, t1;
        t0, t1 := Advance(t0, t1, c);
        assert b[..] == b[..c];
        h := Compress(h, b[..], t0, t1, false);
        AbsorbedNext(h1, h0, s0, s1, full, buf, h, t0, t1);
        c := 0;
      }
    }

    /** One byte of blake2s_update. */
    method PutByte(x: bv8, ghost h0: State8, ghost m: seq<bv8>)
      requires After(h0, m)
      modifies this`h, this`t0, this`t1, this`c, b
      ensures After(h0, m + [x])
      ensures |m| < 64 ==> forall k :: |m| < k < 64 ==> b[k] == old(b[k])
    {
      hide Absorbed, BeforeLast;
      ghost var full, buf := m[..BeforeLast(|m|, 64)], m[BeforeLast(|m|, 64)..];
      assert full + buf == m;
      MakeRoom(h0, full, buf);
      if |buf| == 64 {
        full, buf := full + buf, [];
      }
      b[c] := x;
      c := c + 1;
      assert b[..c] == buf + [x];
      assert full + (buf + [x]) == m + [x];
      SameCut(|full|, |m| + 1, 64);
    }

    /** blake2s_final: the first outlen bytes of the digest. */
    method Final(ghost h0: State8, ghost m: seq<bv8>) returns (out: seq<bv8>)
      requires After(h0, m)
      modifies this`h, this`t0, this`t1, this`c, b
      ensures out == Output(Digest(Blake2sVariant(), h0, m), outlen)
    {
      hide Absorbed, Compressed, Count, Digest, ByteOf;
      ghost var full, buf := m[..BeforeLast(|m|, 64)], m[BeforeLast(|m|, 64)..];
      assert full + buf == m;
      ghost var s0, s1, h1 := t0, t1, h;
      t0, t1 := Advance(t0, t1, c);
      LastBlock(h, h0, s0, s1, full, buf, t0, t1);
      while c < 64
        invariant |buf| <= c <= 64 && b[..|buf|] == buf && forall k :: |buf| <= k < c ==> b[k] == 0
        invariant h == h1 && Compressed(h, Pad(buf, 64), t0, t1, true) == Digest(Blake2sVariant(), h0, full + buf)
      {
        b[c] := 0;
        c := c + 1;
      }
      assert b[..] == Pad(buf, 64);
      h := Compress(h, b[..], t0, t1, true);
      out := [];
      for i := 0 to outlen
        invariant |out| == i && forall k :: 0 <= k < i ==> out[k] == ByteOf(h[k / 4], k % 4)
        invariant h == Digest(Blake2sVariant(), h0, m)
      {
        out := out + [ByteOf(h[i / 4], i % 4)];
      }
    }
  }

  lemma NothingAbsorbed(h0: State8)
    ensures Absorbed(h0, h0, 0, 0, [])
  {
  }

  lemma KeyFits(key: seq<bv8>)
    requires 0 < |key| <= 64
    ensures BeforeLast(|key|, 64) == 0 && BeforeLast(64, 64) == 0 && |KeyBlock(key)| == 64
  {
    SameCut(0, |key|, 64);
    SameCut(0, 64, 64);
  }

  /** blake2s: the one-call form. */
  method Blake2sOneCall(outlen: nat, key: seq<bv8>, input: seq<bv8>) returns (r: int, out: seq<bv8>)
    ensures r == if outlen == 0 || outlen > 32 || |key| > 32 then -1 else 0
    ensures r == 0 ==> out == Hash(outlen, key, input)
  {
    hide Digest;
    var ctx := new Blake2sCtx();
    r := ctx.Init(outlen, key);
    out := [];
    if r != 0 {
      return;
    }
    ghost var h0 := Initial(|key|, outlen);
    ctx.Update(input, h0, KeyBlock(key));
    out := ctx.Final(h0, KeyBlock(key) + input);
  }

  /** compute_cdi: the identity is BLAKE2s, keyed with the device secret, of domain, digest and, when used, the
      user-supplied secret. */
  method ComputeCdi(uds: seq<bv8>, domain: bv8, digest: seq<bv8>, use_uss: bool, uss: seq<bv8>) returns (cdi: seq<bv8>)
    requires |uds| == |digest| == |uss| == 32
    ensures cdi == Hash(32, uds, [domain] + digest + (if use_uss then uss else []))
  {
    hide Digest, Absorbed, Initial, KeyBlock, Hash, Blake2sCtx.After;
    var ctx := new Blake2sCtx();
    var blake2err := ctx.Init(32, uds);
    ghost var h0, m := Initial(32, 32), KeyBlock(uds);
    ctx.Update([domain], h0, m);
    m := m + [domain];
    ctx.Update(digest, h0, m);
    m := m + digest;
    if use_uss {
      ctx.Update(uss, h0, m);
      m := m + uss;
    }
    ghost var extra: seq<bv8> := if use_uss then uss else [];
    assert use_uss || m == m + extra;
    Assoc(KeyBlock(uds), [domain], digest);
    Assoc(KeyBlock(uds), [domain] + digest, extra);
    HashMeans(uds, [domain] + digest + extra);
    cdi := ctx.Final(h0, m);
  }
}
