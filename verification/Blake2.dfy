/** The BLAKE2 mode of operation, section 3.3 of RFC 7693, over any compression function. */
module Blake2 {
  import opened Buffers

  /** Block size in bytes and the compression function F(h, block, byte count, last). */
  datatype Variant<!H> = Variant(bb: nat, F: (H, seq<bv8>, nat, bool) -> H)
  {
    predicate Valid() { bb > 0 }
  }

  /** A block filled up with zeros. */
  function Pad(block: seq<bv8>, bb: nat): (b: seq<bv8>)
    requires |block| <= bb
    ensures |b| == bb
  {
    block + Zeros(bb - |block|)
  }

  /** The state after full blocks none of which is the last. */
  ghost function Chain<H>(v: Variant<H>, h0: H, m: seq<bv8>): H
    requires v.Valid() && |m| % v.bb == 0
    decreases |m|
  {
    if |m| == 0 then h0
    else
      FullBlocks(|m|, v.bb);
      v.F(Chain(v, h0, m[..|m| - v.bb]), m[|m| - v.bb..], |m|, false)
  }

  lemma FullBlocks(n: nat, bb: nat)
    requires 0 < bb && n % bb == 0 && n > 0
    ensures n >= bb && (n - bb) % bb == 0
  {
    var q := n / bb;
    assert n == q * bb;
    if q >= 1 {
      assert q * bb - bb == (q - 1) * bb;
      Multiple(q - 1, bb);
    }
  }

  lemma Multiple(q: nat, bb: nat)
    requires bb > 0
    ensures (q * bb) % bb == 0 && q * bb >= 0
  {
    if q > 0 {
      Multiple(q - 1, bb);
      assert q * bb == (q - 1) * bb + bb;
      StepMod((q - 1) * bb, bb);
    }
  }

  lemma StepMod(n: nat, bb: nat)
    requires bb > 0
    ensures (n + bb) % bb == n % bb
  {
    var q, r := n / bb, n % bb;
    assert n + bb == (q + 1) * bb + r;
    var q', r' := (n + bb) / bb, (n + bb) % bb;
    var d := q' - (q + 1);
    assert d * bb == q' * bb - (q + 1) * bb;
    assert d * bb == r - r';
    Small(d, bb);
  }

  lemma Small(d: int, bb: nat)
    requires bb > 0
    ensures d >= 1 ==> d * bb >= bb
    ensures d <= -1 ==> d * bb <= 0 - bb
  {
  }

  /** How many bytes come before the last block: a full block at the end is the last one. */
  function BeforeLast(n: nat, bb: nat): (k: nat)
    requires bb > 0
    ensures k <= n && n - k <= bb && k % bb == 0 && (n > 0 ==> k < n)
  {
    if n == 0 then 0
    else
      var q := (n - 1) / bb;
      Multiple(q, bb);
      assert n - 1 == q * bb + (n - 1) % bb;
      q * bb
  }

  /** The state after a whole message (the padded key block, if any, is its first block). */
  ghost function Digest<H>(v: Variant<H>, h0: H, m: seq<bv8>): H
    requires v.Valid()
  {
    var k := BeforeLast(|m|, v.bb);
    v.F(Chain(v, h0, m[..k]), Pad(m[k..], v.bb), |m|, true)
  }

  // ---------- lazy compression ----------

  /** A message cut into compressed blocks and a buffer. The buffer is compressed only once more input follows,
      so it is empty only at the very start. */
  ghost predicate Lazy<H>(v: Variant<H>, full: seq<bv8>, buf: seq<bv8>)
  {
    v.Valid() && |full| % v.bb == 0 && |buf| <= v.bb && (|buf| == 0 ==> |full| == 0)
  }

  /** That cut is the one the last block is defined by. */
  lemma LazyIsLast<H>(v: Variant<H>, h0: H, full: seq<bv8>, buf: seq<bv8>)
    requires Lazy(v, full, buf)
    ensures Digest(v, h0, full + buf) == v.F(Chain(v, h0, full), Pad(buf, v.bb), |full| + |buf|, true)
  {
    var m := full + buf;
    SameCut(|full|, |m|, v.bb);
    assert m[..|full|] == full && m[|full|..] == buf;
  }

  lemma SameCut(k: nat, n: nat, bb: nat)
    requires bb > 0 && k % bb == 0 && k <= n && n - k <= bb && (n > 0 ==> k < n)
    ensures BeforeLast(n, bb) == k
  {
    if n > 0 {
      var j := BeforeLast(n, bb);
      var q, p := j / bb, k / bb;
      assert j == q * bb && k == p * bb;
      assert (q - p) * bb == j - k;
      Small(q - p, bb);
    }
  }

  /** A vector that differs in four places only. */
  lemma FourSet<T>(v: seq<T>, w: seq<T>, a: nat, b: nat, c: nat, d: nat)
    requires |v| == |w| == 16 && a < 16 && b < 16 && c < 16 && d < 16
    requires forall k :: 0 <= k < 16 && k != a && k != b && k != c && k != d ==> w[k] == v[k]
    ensures w == v[a := w[a]][b := w[b]][c := w[c]][d := w[d]]
  {
  }

  lemma ChainNext<H>(v: Variant<H>, h0: H, full: seq<bv8>, block: seq<bv8>)
    requires v.Valid() && |full| % v.bb == 0 && |block| == v.bb
    ensures |full + block| % v.bb == 0
    ensures Chain(v, h0, full + block) == v.F(Chain(v, h0, full), block, |full| + v.bb, false)
  {
    StepMod(|full|, v.bb);
    assert (full + block)[..|full|] == full && (full + block)[|full|..] == block;
  }
}
