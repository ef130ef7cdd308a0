/** Field operations on limb vectors (monocypher.c, fe_0 to fe_ccopy, fe_isequal), each with the residue it stands for. */
module FieldOps {
  import opened ModArith
  import opened FieldElement
  import FieldBytes
  import opened Words
  import opened BitOps

  type Limbs = seq<i32>

  /** A sum or difference of at most n carried elements. */
  predicate Sized(f: Limbs, n: nat)
  {
    Bounded(f, n * 36909875, n * 18454937)
  }

  lemma SizedIsLoose(f: Limbs, n: nat)
    requires Sized(f, n) && n <= 3
    ensures Loose(f)
  {
  }

  lemma WrittenOut(f: Limbs)
    requires |f| == 10
    ensures Fe(f) == Value10(Ints(f))
  {
    ValueWrittenOut(Ints(f));
  }

  /** fe_0 */
  function Zero(): (f: Limbs)
    ensures Sized(f, 1) && Fe(f) == 0
  {
    var f := [0, 0, 0, 0, 0, 0, 0, 0, 0, 0];
    WrittenOut(f);
    hide Value;
    f
  }

  /** fe_1 */
  function One(): (f: Limbs)
    ensures Sized(f, 1) && Fe(f) == 1
  {
    var f := [1, 0, 0, 0, 0, 0, 0, 0, 0, 0];
    WrittenOut(f);
    hide Value;
    f
  }

  /** fe_add: the value is the exact sum. */
  method Add(f: Limbs, g: Limbs, ghost m: nat, ghost n: nat) returns (h: Limbs)
    requires Sized(f, m) && Sized(g, n) && m + n <= 3
    ensures Sized(h, m + n) && Fe(h) == Fe(f) + Fe(g)
  {
    hide Value;
    h := [];
    for i := 0 to 10
      invariant |h| == i && forall k :: 0 <= k < i ==> h[k] as int == f[k] as int + g[k] as int
    {
      h := h + [f[i] + g[i]];
    }
    WrittenOut(f);
    WrittenOut(g);
    WrittenOut(h);
  }

  /** fe_sub: the value is the exact difference. */
  method Sub(f: Limbs, g: Limbs, ghost m: nat, ghost n: nat) returns (h: Limbs)
    requires Sized(f, m) && Sized(g, n) && m + n <= 3
    ensures Sized(h, m + n) && Fe(h) == Fe(f) - Fe(g)
  {
    hide Value;
    h := [];
    for i := 0 to 10
      invariant |h| == i && forall k :: 0 <= k < i ==> h[k] as int == f[k] as int - g[k] as int
    {
      h := h + [f[i] - g[i]];
    }
    WrittenOut(f);
    WrittenOut(g);
    WrittenOut(h);
  }

  /** fe_neg */
  method Neg(f: Limbs, ghost n: nat) returns (h: Limbs)
    requires Sized(f, n) && n <= 3
    ensures Sized(h, n) && Fe(h) == -Fe(f)
  {
    hide Value;
    h := [];
    for i := 0 to 10
      invariant |h| == i && forall k :: 0 <= k < i ==> h[k] as int == -(f[k] as int)
    {
      h := h + [-f[i]];
    }
    WrittenOut(f);
    WrittenOut(h);
  }

  method ToArray(f: Limbs) returns (a: array<i32>)
    requires |f| == 10
    ensures fresh(a) && a.Length == 10 && a[..] == f
  {
    a := new i32[10](i requires 0 <= i < 10 => f[i]);
  }

  // ---------- masked moves ----------

  /** fe_cswap: the masked exclusive ors swap every limb when b is 1 and none when it is 0. */
  method FeCSwap(f: array<i32>, g: array<i32>, b: int)
    requires f.Length == g.Length == 10 && (b == 0 || b == 1)
    modifies f, g
    ensures f[..] == (if b == 1 then old(g[..]) else old(f[..]))
    ensures g[..] == (if b == 1 then old(f[..]) else old(g[..]))
  {
    hide BitXor, BitAnd;
    var mask := -b;
    for i := 0 to 10
      invariant forall k :: 0 <= k < i ==> f[k] == (if b == 1 then old(g[k]) else old(f[k])) && g[k] == (if b == 1 then old(f[k]) else old(g[k]))
      invariant forall k :: i <= k < 10 ==> f[k] == old(f[k]) && g[k] == old(g[k])
    {
      MaskedXor(f[i] as int, g[i] as int, mask);
      var x := BitAnd(BitXor(f[i] as int, g[i] as int), mask);
      f[i], g[i] := BitXor(f[i] as int, x) as i32, BitXor(g[i] as int, x) as i32;
    }
  }

  /** fe_ccopy: the masked exclusive ors copy every limb when b is 1 and none when it is 0. */
  method FeCCopy(f: array<i32>, g: array<i32>, b: int)
    requires f.Length == g.Length == 10 && (b == 0 || b == 1)
    modifies f
    ensures f[..] == (if b == 1 then old(g[..]) else old(f[..]))
  {
    hide BitXor, BitAnd;
    var mask := -b;
    for i := 0 to 10
      invariant forall k :: 0 <= k < i ==> f[k] == (if b == 1 then old(g[k]) else old(f[k]))
      invariant forall k :: i <= k < 10 ==> f[k] == old(f[k])
      invariant f != g ==> g[..] == old(g[..])
    {
      MaskedXor(f[i] as int, g[i] as int, mask);
      var x := BitAnd(BitXor(f[i] as int, g[i] as int), mask);
      f[i] := BitXor(f[i] as int, x) as i32;
    }
  }

  /** fe_cswap on limb vectors. */
  method CSwap(f: Limbs, g: Limbs, b: int) returns (f': Limbs, g': Limbs)
    requires |f| == |g| == 10 && (b == 0 || b == 1)
    ensures (f', g') == if b == 1 then (g, f) else (f, g)
  {
    var F := ToArray(f);
    var G := ToArray(g);
    FeCSwap(F, G, b);
    f', g' := F[..], G[..];
  }

  /** fe_ccopy on limb vectors. */
  method CCopy(f: Limbs, g: Limbs, b: int) returns (f': Limbs)
    requires |f| == |g| == 10 && (b == 0 || b == 1)
    ensures f' == if b == 1 then g else f
  {
    var F := ToArray(f);
    var G := ToArray(g);
    FeCCopy(F, G, b);
    f' := F[..];
  }

  lemma SizedLength(f: Limbs, n: nat)
    requires Sized(f, n)
    ensures |f| == 10
  {
  }

  /** fe_mul on sums of carried elements. */
  method Mul(f: Limbs, g: Limbs, ghost m: nat, ghost n: nat) returns (h: Limbs)
    requires Sized(f, m) && Sized(g, n) && m <= 3 && n <= 3
    ensures Sized(h, 1) && Cong(Fe(h), Fe(f) * Fe(g), P)
  {
    SizedIsLoose(f, m);
    SizedIsLoose(g, n);
    hide Value, Cong;
    var a := ToArray(f);
    var b := ToArray(g);
    FeMul(a, a, b);
    h := a[..];
  }

  /** fe_sq */
  method Square(f: Limbs, ghost n: nat) returns (h: Limbs)
    requires Sized(f, n) && n <= 3
    ensures Sized(h, 1) && Cong(Fe(h), Fe(f) * Fe(f), P)
  {
    SizedIsLoose(f, n);
    hide Value, Cong;
    var a := ToArray(f);
    FeSq(a, a);
    h := a[..];
  }

  /** fe_mul_small */
  method MulSmall(f: Limbs, g: i32, ghost n: nat) returns (h: Limbs)
    requires Sized(f, n) && n <= 3
    ensures Sized(h, 1) && Cong(Fe(h), Fe(f) * g as int, P)
  {
    SizedIsLoose(f, n);
    hide Value, Cong;
    var a := ToArray(f);
    FeMulSmall(a, a, g);
    h := a[..];
  }

  /** fe_tobytes */
  method ToBytes(f: Limbs) returns (s: seq<u8>)
    requires Sized(f, 1)
    ensures |s| == 32 && Num(s, 256, 32) == Fe(f) % P
  {
    hide Value, Num;
    var a := ToArray(f);
    var buffer := new u8[32];
    FieldBytes.FeToBytes(buffer, a);
    s := buffer[..];
  }

  /** fe_frombytes, which drops the top bit. */
  method FromBytes(s: seq<u8>) returns (f: Limbs)
    requires |s| == 32
    ensures Sized(f, 1)
    ensures Cong(Fe(f), Num(s, 256, 32) % 0x8000000000000000000000000000000000000000000000000000000000000000, P)
  {
    hide Value, Num, Cong;
    var a := new i32[10];
    FieldBytes.FeFromBytes(a, s);
    f := a[..];
  }

  /** fe_isequal: equal modulo P, by comparing the canonical encodings. */
  method IsEqual(f: Limbs, g: Limbs) returns (b: bool)
    requires Sized(f, 1) && Sized(g, 1)
    ensures b <==> Cong(Fe(f), Fe(g), P)
  {
    hide Value, Num;
    var fs := ToBytes(f);
    var gs := ToBytes(g);
    b := fs == gs;
    SameBytes(fs, gs);
  }

  /** fe_tobytes after fe_frombytes: the bytes themselves exactly when they encode a number below P. */
  method Canonical(s: seq<u8>) returns (out: seq<u8>)
    requires |s| == 32
    ensures |out| == 32 && Num(out, 256, 32) == (Num(s, 256, 32) % 0x8000000000000000000000000000000000000000000000000000000000000000) % P
    ensures out == s <==> Num(s, 256, 32) < P
  {
    hide Value, Num, Cong;
    var f := FromBytes(s);
    out := ToBytes(f);
    FieldBytes.RoundTrip(s, out, Fe(f));
  }

  lemma SameBytes(s: seq<u8>, t: seq<u8>)
    requires |s| == |t| == 32
    ensures s == t <==> Num(s, 256, 32) == Num(t, 256, 32)
  {
    if Num(s, 256, 32) == Num(t, 256, 32) {
      NumUnique(s, t, 256, 32);
    }
  }
}
