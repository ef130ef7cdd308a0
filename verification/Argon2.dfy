/** Argon2's block indexing and the order of its segments (monocypher.c, crypto_argon2), section 3.4 of RFC 9106.
    The compression function and the address generator are parameters. */
module Argon2 {
  import opened ModArith
  import opened Words

  datatype Algorithm = Argon2D | Argon2I | Argon2ID

  datatype Config = Config(algorithm: Algorithm, nb_blocks: u32, nb_passes: u32, nb_lanes: u32)

  /** Blocks in a segment: a quarter of a lane. */
  type Segment = s: int | 2 <= s < 0x4000_0000 witness 2

  /** What the caller guarantees: at least 8 blocks per lane. */
  predicate Supported(c: Config)
  {
    c.nb_lanes >= 1 && c.nb_blocks >= 8 * c.nb_lanes
  }

  function SegmentSize(c: Config): (s: Segment)
    requires Supported(c)
    ensures 4 * s * c.nb_lanes <= c.nb_blocks
  {
    var per_lane := c.nb_blocks / c.nb_lanes;
    SegmentBound(c.nb_blocks, c.nb_lanes, per_lane, per_lane / 4);
    per_lane / 4
  }

  lemma SegmentBound(n: nat, lanes: nat, per_lane: nat, s: nat)
    requires lanes >= 1 && 0x1_0000_0000 > n >= 8 * lanes && per_lane == n / lanes && s == per_lane / 4
    ensures 2 <= s < 0x4000_0000 && 4 * s * lanes <= n
  {
    assert n == per_lane * lanes + n % lanes;
    TooFew(per_lane, lanes);
    MulMono(4 * s, per_lane, lanes);
    MulMono(1, lanes, 4 * s);
  }

  lemma TooFew(k: nat, lanes: nat)
    ensures k <= 7 ==> k * lanes + lanes <= 8 * lanes
  {
  }

  lemma MulMono(a: nat, b: nat, n: nat)
    requires a <= b
    ensures a * n <= b * n
  {
  }

  /** Unsigned 32-bit wrap-around. */
  function Wrap(x: int): (r: u32)
  {
    x % 0x1_0000_0000
  }

  // ---------- the block being filled ----------

  /** Where in the run a block is filled: pass, slice, and position in its segment. */
  datatype Step = Step(pass: u32, slice: nat, block: u32)

  predicate InRange(s: Segment, t: Step)
  {
    t.slice < 4 && FirstBlock(t.pass, t.slice) <= t.block < s
  }

  /** Blocks 0 and 1 of each lane are filled before the first slice. */
  function FirstBlock(pass: u32, slice: nat): (b: u32)
  {
    if pass == 0 && slice == 0 then 2 else 0
  }

  /** Where slice k of a lane starts. */
  function SliceOffset(s: Segment, k: nat): (p: u32)
    requires k < 4
    ensures p == if k == 0 then 0 else if k == 1 then s else if k == 2 then 2 * s else 3 * s
  {
    FourCases(k, s);
    k * s
  }

  lemma FourCases(k: nat, s: int)
    requires k < 4
    ensures k * s == if k == 0 then 0 else if k == 1 then s else if k == 2 then 2 * s else 3 * s
  {
    if k == 0 {} else if k == 1 {} else if k == 2 {} else {}
  }

  /** Position in its lane of the current block. */
  function Current(s: Segment, t: Step): (p: u32)
    requires InRange(s, t)
    ensures p < 4 * s
  {
    SliceOffset(s, t.slice) + t.block
  }

  /** Position of the previous block, around the end of the lane. */
  function Previous(s: Segment, t: Step): (p: u32)
    requires InRange(s, t)
    ensures p < 4 * s
  {
    var slice_offset := SliceOffset(s, t.slice);
    if t.block == 0 && slice_offset == 0 then slice_offset + s * 4 - 1 else slice_offset + t.block - 1
  }

  // ---------- the reference block, as computed ----------

  function WindowStart(s: Segment, t: Step): (p: u32)
    requires InRange(s, t)
  {
    if t.pass == 0 then 0 else SliceOffset(s, (t.slice + 1) % 4)
  }

  /** The size of the reference set, with its unsigned wrap-around. */
  function WindowSize(s: Segment, t: Step, same_lane: bool): (w: u32)
    requires InRange(s, t)
  {
    var nb_segments := if t.pass == 0 then t.slice else 3;
    Wrap(SliceOffset(s, nb_segments)
         + (if same_lane then Wrap(t.block - 1) else if t.block == 0 then Wrap(-1) else 0))
  }

  function ReferenceLane(t: Step, segment: u32, seed: u64, nb_lanes: u32): (l: u32)
    requires nb_lanes > 0
    ensures segment < nb_lanes ==> l < nb_lanes
    ensures t.pass == 0 && t.slice == 0 ==> l == segment
  {
    if t.pass == 0 && t.slice == 0 then segment else (seed / 0x1_0000_0000) % nb_lanes
  }

  /** How far into the window the seed points. */
  function WindowOffset(w: u32, seed: u64): (z: u64)
    requires w > 0
    ensures z < w
  {
    var j1: u64 := seed % 0x1_0000_0000;
    SquareFits(j1, w);
    var x: u64 := (j1 * j1) / 0x1_0000_0000;
    var y: u64 := (w * x) / 0x1_0000_0000;
    (w - 1) - y
  }

  lemma SquareFits(j: nat, w: nat)
    requires j < 0x1_0000_0000 && 0 < w < 0x1_0000_0000
    ensures j * j < 0x1_0000_0000_0000_0000
    ensures w * (j * j / 0x1_0000_0000) < 0x1_0000_0000_0000_0000
    ensures (w * (j * j / 0x1_0000_0000)) / 0x1_0000_0000 < w
  {
    MulMono(j, 0xffff_ffff, j);
    MulMono(j, 0xffff_ffff, 0xffff_ffff);
    var x := j * j / 0x1_0000_0000;
    assert x <= 0xffff_ffff;
    MulMono(x, 0xffff_ffff, w);
    assert w * x == x * w <= 0xffff_ffff * w;
  }

  function ReferencePosition(s: Segment, t: Step, same_lane: bool, seed: u64): (p: u32)
    requires InRange(s, t) && (t.pass == 0 && t.slice == 0 ==> same_lane)
    ensures InReferenceSet(s, t, same_lane, p)
  {
    WindowArith(s, t, same_lane);
    var p := (WindowStart(s, t) + WindowOffset(WindowSize(s, t, same_lane), seed)) % (s * 4);
    assert AtOffset(s, t, WindowOffset(WindowSize(s, t, same_lane), seed), p);
    WindowIsReferenceSet(s, t, same_lane, p);
    p
  }

  // ---------- the reference set of section 3.4.1.1 ----------

  /** Blocks of the lane that are complete: the last three segments finished, and for the current lane the blocks
      already made in this segment, but not the previous block. At the first block of a segment the last block
      finished is left out in every lane. */
  predicate InReferenceSet(s: Segment, t: Step, same_lane: bool, p: nat)
    requires InRange(s, t)
  {
    var offset := SliceOffset(s, t.slice);
    && p < 4 * s
    && (if t.pass == 0 then p < offset || (same_lane && p < offset + t.block)
        else !(offset <= p < offset + s) || (same_lane && p < offset + t.block))
    && ((same_lane || t.block == 0) ==> p != Previous(s, t))
  }

  /** Position p is number z of the window. */
  predicate AtOffset(s: Segment, t: Step, z: nat, p: nat)
    requires InRange(s, t)
  {
    p == (WindowStart(s, t) + z) % (s * 4)
  }

  /** The window covers the reference set exactly and without repetition, so it is never empty and its size is
      that of the set. */
  lemma WindowIsReferenceSet(s: Segment, t: Step, same_lane: bool, p: nat)
    requires InRange(s, t) && (t.pass == 0 && t.slice == 0 ==> same_lane)
    ensures 0 < WindowSize(s, t, same_lane) < 4 * s
    ensures InReferenceSet(s, t, same_lane, p) <==> exists z: nat :: z < WindowSize(s, t, same_lane) && AtOffset(s, t, z, p)
    ensures forall z: nat, y: nat ::
              (z < WindowSize(s, t, same_lane) && y < WindowSize(s, t, same_lane)
               && AtOffset(s, t, z, p) && AtOffset(s, t, y, p)) ==> z == y
  {
    hide WindowSize, WindowStart, InReferenceSet;
    WindowArith(s, t, same_lane);
    var w := WindowSize(s, t, same_lane);
    if InReferenceSet(s, t, same_lane, p) {
      var z := OffsetOf(s, t, same_lane, p);
      assert z < w && AtOffset(s, t, z, p);
    }
    forall z: nat | z < w && AtOffset(s, t, z, p) ensures InReferenceSet(s, t, same_lane, p) {
      Reached(s, t, same_lane, z, p);
    }
    forall z: nat, y: nat | z < w && y < w && AtOffset(s, t, z, p) && AtOffset(s, t, y, p) ensures z == y {
      StartBound(s, t);
      Wraps(WindowStart(s, t) + z, s * 4);
      Wraps(WindowStart(s, t) + y, s * 4);
    }
  }

  lemma StartBound(s: Segment, t: Step)
    requires InRange(s, t)
    ensures WindowStart(s, t) < 4 * s
  {
  }

  lemma OffsetOf(s: Segment, t: Step, same_lane: bool, p: nat) returns (z: nat)
    requires InRange(s, t) && (t.pass == 0 && t.slice == 0 ==> same_lane) && InReferenceSet(s, t, same_lane, p)
    ensures z < WindowSize(s, t, same_lane) && AtOffset(s, t, z, p)
  {
    hide WindowSize;
    WindowArith(s, t, same_lane);
    var start := WindowStart(s, t);
    z := if p >= start then p - start else p - start + 4 * s;
    Wraps(start + z, s * 4);
  }

  lemma Reached(s: Segment, t: Step, same_lane: bool, z: nat, p: nat)
    requires InRange(s, t) && (t.pass == 0 && t.slice == 0 ==> same_lane)
    requires z < WindowSize(s, t, same_lane) && AtOffset(s, t, z, p)
    ensures InReferenceSet(s, t, same_lane, p)
  {
    hide WindowSize;
    WindowArith(s, t, same_lane);
    Wraps(WindowStart(s, t) + z, s * 4);
  }

  lemma Wraps(x: nat, n: nat)
    requires 0 < n && x < 2 * n
    ensures x % n == if x < n then x else x - n
  {
    Quotient(x, if x < n then 0 else 1, if x < n then x else x - n, n);
  }

  lemma WindowArith(s: Segment, t: Step, same_lane: bool)
    requires InRange(s, t) && (t.pass == 0 && t.slice == 0 ==> same_lane)
    ensures 0 < WindowSize(s, t, same_lane) < 4 * s
    ensures WindowSize(s, t, same_lane) == SliceOffset(s, if t.pass == 0 then t.slice else 3)
              + (if same_lane then t.block - 1 else if t.block == 0 then -1 else 0)
  {
  }

  // ---------- filling the memory ----------

  type Words128 = w: seq<u64> | |w| == 128 witness seq(128, _ => 0)

  /** The parts of Argon2 below indexing: the new contents of a block from the previous block, the reference
      block, the old contents and whether they are kept (later passes), the first word of a block, and the address block
      for a pass, segment, slice and counter. */
  datatype Ops<!B> = Ops(
    mix: (B, B, B, bool) -> B, word0: B -> u64, address: (u32, u32, nat, nat) -> Words128)

  /** Constant-time indexing: always for Argon2i, and for Argon2id in the first two slices of the first pass. */
  predicate ConstantTime(a: Algorithm, pass: u32, slice: nat)
  {
    a == Argon2I || (a == Argon2ID && pass == 0 && slice < 2)
  }

  /** What stays fixed over a run. */
  datatype Job<!B> = Job(ops: Ops<B>, algorithm: Algorithm, s: Segment, nb_lanes: u32)

  /** The work area: nb_lanes lanes of 4 * s blocks. */
  ghost predicate Fits<B>(j: Job<B>, m: seq<B>)
  {
    j.nb_lanes >= 1 && |m| == Cell(j.s, j.nb_lanes, 0)
  }

  /** Index of position p of a lane. */
  function Cell(s: Segment, lane: u32, p: nat): (i: nat)
  {
    lane * (s * 4) + p
  }

  lemma CellInside(s: Segment, lane: u32, p: nat, nb_lanes: u32)
    requires lane < nb_lanes && p < 4 * s
    ensures Cell(s, lane, p) < Cell(s, nb_lanes, 0)
  {
    MulMono(lane + 1, nb_lanes, s * 4);
    assert (lane + 1) * (s * 4) == lane * (s * 4) + s * 4;
  }

  lemma CellUnique(s: Segment, lane: u32, p: nat, lane': u32, p': nat)
    requires p < 4 * s && p' < 4 * s && Cell(s, lane, p) == Cell(s, lane', p')
    ensures lane == lane' && p == p'
  {
    Quotient(Cell(s, lane, p), lane, p, s * 4);
    Quotient(Cell(s, lane', p'), lane', p', s * 4);
  }

  lemma EveryCell(s: Segment, nb_lanes: u32, i: nat) returns (lane: u32, p: nat)
    requires i < Cell(s, nb_lanes, 0)
    ensures lane < nb_lanes && p < 4 * s && i == Cell(s, lane, p)
  {
    var l, n := i / (s * 4), s * 4;
    p := i % n;
    assert i == l * n + p;
    if l >= nb_lanes {
      MulMono(nb_lanes, l, n);
      assert false;
    }
    lane := l;
  }

  /** The pseudo-random value that selects the reference of a block. */
  function Seed<B>(j: Job<B>, m: seq<B>, segment: u32, t: Step): u64
    requires InRange(j.s, t) && Cell(j.s, segment, Previous(j.s, t)) < |m|
  {
    if ConstantTime(j.algorithm, t.pass, t.slice) then j.ops.address(t.pass, segment, t.slice, t.block / 128 + 1)[t.block % 128]
    else j.ops.word0(m[Cell(j.s, segment, Previous(j.s, t))])
  }

  /** Filling one block. */
  function FillBlock<B>(j: Job<B>, m: seq<B>, segment: u32, t: Step, seed: u64): (r: seq<B>)
    requires Fits(j, m) && segment < j.nb_lanes && InRange(j.s, t)
    ensures |r| == |m|
  {
    var lane := ReferenceLane(t, segment, seed, j.nb_lanes);
    var p := ReferencePosition(j.s, t, lane == segment, seed);
    CellInside(j.s, lane, p, j.nb_lanes);
    CellInside(j.s, segment, Current(j.s, t), j.nb_lanes);
    CellInside(j.s, segment, Previous(j.s, t), j.nb_lanes);
    var current := Cell(j.s, segment, Current(j.s, t));
    m[current := j.ops.mix(m[Cell(j.s, segment, Previous(j.s, t))], m[Cell(j.s, lane, p)], m[current], t.pass > 0)]
  }

  /** Blocks of a segment, in order, up to block n. */
  function FillUpTo<B>(j: Job<B>, m: seq<B>, segment: u32, pass: u32, slice: nat, n: u32): (r: seq<B>)
    requires Fits(j, m) && segment < j.nb_lanes && slice < 4 && FirstBlock(pass, slice) <= n <= j.s
    ensures |r| == |m|
    decreases n
  {
    if n == FirstBlock(pass, slice) then m
    else
      var t := Step(pass, slice, n - 1);
      var before := FillUpTo(j, m, segment, pass, slice, n - 1);
      CellInside(j.s, segment, Previous(j.s, t), j.nb_lanes);
      FillBlock(j, before, segment, t, Seed(j, before, segment, t))
  }

  function FillSegment<B>(j: Job<B>, m: seq<B>, segment: u32, pass: u32, slice: nat): (r: seq<B>)
    requires Fits(j, m) && segment < j.nb_lanes && slice < 4
    ensures |r| == |m|
  {
    FillUpTo(j, m, segment, pass, slice, j.s)
  }

  // ---------- segments of a slice do not see each other ----------

  predicate InSlice(s: Segment, slice: nat, p: nat)
    requires slice < 4
  {
    SliceOffset(s, slice) <= p < SliceOffset(s, slice) + s
  }

  /** The memories agree everywhere except in the current slice of other lanes. */
  ghost predicate Agree<B>(j: Job<B>, a: seq<B>, b: seq<B>, segment: u32, slice: nat)
    requires slice < 4
  {
    && Fits(j, a) && Fits(j, b)
    && forall lane: u32, p: nat ::
         lane < j.nb_lanes && p < 4 * j.s && (lane == segment || !InSlice(j.s, slice, p)) ==> SameAt(j, a, b, lane, p)
  }

  ghost predicate SameAt<B>(j: Job<B>, a: seq<B>, b: seq<B>, lane: u32, p: nat)
  {
    Cell(j.s, lane, p) < |a| && Cell(j.s, lane, p) < |b| && a[Cell(j.s, lane, p)] == b[Cell(j.s, lane, p)]
  }

  /** A block is computed from blocks that no other segment of the slice writes. */
  lemma BlockAgrees<B>(j: Job<B>, a: seq<B>, b: seq<B>, segment: u32, t: Step)
    requires InRange(j.s, t) && segment < j.nb_lanes && Agree(j, a, b, segment, t.slice)
    requires Cell(j.s, segment, Previous(j.s, t)) < |a|
    ensures Seed(j, a, segment, t) == Seed(j, b, segment, t)
    ensures Agree(j, FillBlock(j, a, segment, t, Seed(j, a, segment, t)), FillBlock(j, b, segment, t, Seed(j, b, segment, t)), segment, t.slice)
  {
    hide Cell;
    assert SameAt(j, a, b, segment, Previous(j.s, t));
    assert SameAt(j, a, b, segment, Current(j.s, t));
    var seed := Seed(j, a, segment, t);
    var lane := ReferenceLane(t, segment, seed, j.nb_lanes);
    var p := ReferencePosition(j.s, t, lane == segment, seed);
    assert SameAt(j, a, b, lane, p);
    var a', b' := FillBlock(j, a, segment, t, seed), FillBlock(j, b, segment, t, seed);
    forall l: u32, q: nat | l < j.nb_lanes && q < 4 * j.s && (l == segment || !InSlice(j.s, t.slice, q)) ensures SameAt(j, a', b', l, q) {
      assert SameAt(j, a, b, l, q);
    }
  }

  /** A block fill writes one cell of its own segment. */
  lemma BlockFrame<B>(j: Job<B>, m: seq<B>, segment: u32, t: Step, seed: u64, lane: u32, p: nat)
    requires Fits(j, m) && InRange(j.s, t) && segment < j.nb_lanes && lane < j.nb_lanes && p < 4 * j.s
    requires lane != segment || !InSlice(j.s, t.slice, p)
    ensures SameAt(j, m, FillBlock(j, m, segment, t, seed), lane, p)
  {
    CellInside(j.s, lane, p, j.nb_lanes);
    if Cell(j.s, lane, p) == Cell(j.s, segment, Current(j.s, t)) {
      CellUnique(j.s, lane, p, segment, Current(j.s, t));
    }
  }

  lemma {:induction false} SegmentAgrees<B>(j: Job<B>, a: seq<B>, b: seq<B>, segment: u32, pass: u32, slice: nat, n: u32)
    requires slice < 4 && segment < j.nb_lanes && Agree(j, a, b, segment, slice) && FirstBlock(pass, slice) <= n <= j.s
    ensures Agree(j, FillUpTo(j, a, segment, pass, slice, n), FillUpTo(j, b, segment, pass, slice, n), segment, slice)
    decreases n
  {
    hide Cell, FillBlock, Seed;
    if n > FirstBlock(pass, slice) {
      SegmentAgrees(j, a, b, segment, pass, slice, n - 1);
      CellInside(j.s, segment, Previous(j.s, Step(pass, slice, n - 1)), j.nb_lanes);
      BlockAgrees(j, FillUpTo(j, a, segment, pass, slice, n - 1), FillUpTo(j, b, segment, pass, slice, n - 1), segment, Step(pass, slice, n - 1));
    }
  }

  lemma {:induction false} SegmentFrame<B>(j: Job<B>, m: seq<B>, segment: u32, pass: u32, slice: nat, n: u32, lane: u32, p: nat)
    requires Fits(j, m) && slice < 4 && segment < j.nb_lanes && lane < j.nb_lanes && p < 4 * j.s && FirstBlock(pass, slice) <= n <= j.s
    requires lane != segment || !InSlice(j.s, slice, p)
    ensures SameAt(j, m, FillUpTo(j, m, segment, pass, slice, n), lane, p)
    decreases n
  {
    hide Cell, FillBlock, Seed;
    if n > FirstBlock(pass, slice) {
      SegmentFrame(j, m, segment, pass, slice, n - 1, lane, p);
      var t, before := Step(pass, slice, n - 1), FillUpTo(j, m, segment, pass, slice, n - 1);
      CellInside(j.s, segment, Previous(j.s, t), j.nb_lanes);
      BlockFrame(j, before, segment, t, Seed(j, before, segment, t), lane, p);
    } else {
      CellInside(j.s, lane, p, j.nb_lanes);
    }
  }

  /** Segments of one slice, one after the other, in the order given. */
  function RunSegments<B>(j: Job<B>, m: seq<B>, pass: u32, slice: nat, order: seq<u32>): (r: seq<B>)
    requires Fits(j, m) && slice < 4 && forall k :: 0 <= k < |order| ==> order[k] < j.nb_lanes
    ensures |r| == |m|
  {
    if |order| == 0 then m
    else FillSegment(j, RunSegments(j, m, pass, slice, order[..|order| - 1]), order[|order| - 1], pass, slice)
  }

  predicate Distinct(order: seq<u32>)
  {
    forall i, k :: 0 <= i < k < |order| ==> order[i] != order[k]
  }

  /** Each segment run contributes what it would compute from the slice's starting memory. */
  lemma {:induction false} EachAlone<B>(j: Job<B>, m: seq<B>, pass: u32, slice: nat, order: seq<u32>, lane: u32, p: nat)
    requires Fits(j, m) && slice < 4 && Distinct(order) && forall k :: 0 <= k < |order| ==> order[k] < j.nb_lanes
    requires lane < j.nb_lanes && p < 4 * j.s
    ensures SameAt(j, RunSegments(j, m, pass, slice, order),
                   if lane in order && InSlice(j.s, slice, p) then FillSegment(j, m, lane, pass, slice) else m, lane, p)
    decreases |order|
  {
    hide Cell, FillUpTo;
    if |order| == 0 {
      CellInside(j.s, lane, p, j.nb_lanes);
    } else {
      var last, rest := order[|order| - 1], order[..|order| - 1];
      var before := RunSegments(j, m, pass, slice, rest);
      if lane == last && InSlice(j.s, slice, p) {
        forall l: u32, q: nat | l < j.nb_lanes && q < 4 * j.s && (l == last || !InSlice(j.s, slice, q)) ensures SameAt(j, before, m, l, q) {
          EachAlone(j, m, pass, slice, rest, l, q);
        }
        SegmentAgrees(j, before, m, last, pass, slice, j.s);
        assert SameAt(j, FillSegment(j, before, last, pass, slice), FillSegment(j, m, last, pass, slice), lane, p);
      } else {
        EachAlone(j, m, pass, slice, rest, lane, p);
        SegmentFrame(j, before, last, pass, slice, j.s, lane, p);
        assert lane in order && InSlice(j.s, slice, p) <==> lane in rest && InSlice(j.s, slice, p);
      }
    }
  }

  /** The segments of a slice may be processed in any order. */
  lemma OrderIrrelevant<B>(j: Job<B>, m: seq<B>, pass: u32, slice: nat, order: seq<u32>, order': seq<u32>)
    requires Fits(j, m) && slice < 4 && Distinct(order) && Distinct(order')
    requires forall k :: 0 <= k < |order| ==> order[k] < j.nb_lanes
    requires forall lane :: lane in order <==> lane in order'
    ensures forall k :: 0 <= k < |order'| ==> order'[k] < j.nb_lanes
    ensures RunSegments(j, m, pass, slice, order) == RunSegments(j, m, pass, slice, order')
  {
    hide Cell, FillUpTo, RunSegments;
    forall k | 0 <= k < |order'| ensures order'[k] < j.nb_lanes {
      assert order'[k] in order;
    }
    forall i | 0 <= i < |m| ensures RunSegments(j, m, pass, slice, order)[i] == RunSegments(j, m, pass, slice, order')[i] {
      var lane, p := EveryCell(j.s, j.nb_lanes, i);
      EachAlone(j, m, pass, slice, order, lane, p);
      EachAlone(j, m, pass, slice, order', lane, p);
    }
  }

  // ---------- the loops of crypto_argon2 ----------

  /** All segments of a slice, lane by lane. */
  function Lanes(n: u32): (order: seq<u32>)
    ensures |order| == n && forall k :: 0 <= k < n ==> order[k] == k
  {
    seq(n, k requires 0 <= k < n => k)
  }

  function Slices<B>(j: Job<B>, m: seq<B>, pass: u32, n: nat): (r: seq<B>)
    requires Fits(j, m) && n <= 4
    ensures |r| == |m|
  {
    if n == 0 then m else RunSegments(j, Slices(j, m, pass, n - 1), pass, n - 1, Lanes(j.nb_lanes))
  }

  function Passes<B>(j: Job<B>, m: seq<B>, n: u32): (r: seq<B>)
    requires Fits(j, m)
    ensures |r| == |m|
  {
    if n == 0 then m else Slices(j, Passes(j, m, n - 1), n - 1, 4)
  }

  /** One block, in place. */
  method FillBlockInPlace<B>(j: Job<B>, mem: array<B>, segment: u32, t: Step, seed: u64)
    requires Fits(j, mem[..]) && segment < j.nb_lanes && InRange(j.s, t)
    modifies mem
    ensures mem[..] == FillBlock(j, old(mem[..]), segment, t, seed)
  {
    hide Cell, ReferencePosition;
    CellInside(j.s, segment, Previous(j.s, t), j.nb_lanes);
    CellInside(j.s, segment, Current(j.s, t), j.nb_lanes);
    var current, previous := Cell(j.s, segment, Current(j.s, t)), Cell(j.s, segment, Previous(j.s, t));
    var lane := ReferenceLane(t, segment, seed, j.nb_lanes);
    var ref := ReferencePosition(j.s, t, lane == segment, seed);
    CellInside(j.s, lane, ref, j.nb_lanes);
    mem[current] := j.ops.mix(mem[previous], mem[Cell(j.s, lane, ref)], mem[current], t.pass > 0);
  }

  /** The address block and the counter for the next one, as they stand before a block is filled. */
  ghost predicate Addresses<B>(j: Job<B>, segment: u32, t: Step, index_ctr: nat, index_block: Words128)
  {
    if t.block == FirstBlock(t.pass, t.slice) then index_ctr == 1
    else t.block > 0 && index_ctr == (t.block - 1) / 128 + 2
         && index_block == j.ops.address(t.pass, segment, t.slice, (t.block - 1) / 128 + 1)
  }

  /** The seed of a block; the address block is refreshed exactly when the counter it depends on changes. */
  method IndexSeed<B>(j: Job<B>, m: seq<B>, segment: u32, t: Step, index_ctr: nat, index_block: Words128, constant_time: bool)
    returns (index_seed: u64, ctr: nat, fresh_block: Words128)
    requires Fits(j, m) && segment < j.nb_lanes && InRange(j.s, t) && constant_time == ConstantTime(j.algorithm, t.pass, t.slice)
    requires constant_time ==> Addresses(j, segment, t, index_ctr, index_block)
    ensures Cell(j.s, segment, Previous(j.s, t)) < |m| && index_seed == Seed(j, m, segment, t)
    ensures constant_time ==> Addresses(j, segment, t.(block := t.block + 1), ctr, fresh_block)
  {
    hide Cell, Previous;
    CellInside(j.s, segment, Previous(j.s, t), j.nb_lanes);
    ctr, fresh_block := index_ctr, index_block;
    if constant_time {
      if t.block == FirstBlock(t.pass, t.slice) || t.block % 128 == 0 {
        fresh_block := j.ops.address(t.pass, segment, t.slice, ctr);
        ctr := ctr + 1;
      }
      index_seed := fresh_block[t.block % 128];
    } else {
      index_seed := j.ops.word0(m[Cell(j.s, segment, Previous(j.s, t))]);
    }
  }

  /** One segment, in place. */
  method FillSegmentInPlace<B>(j: Job<B>, mem: array<B>, pass: u32, slice: nat, segment: u32, constant_time: bool)
    requires Fits(j, mem[..]) && slice < 4 && segment < j.nb_lanes && constant_time == ConstantTime(j.algorithm, pass, slice)
    modifies mem
    ensures mem[..] == FillSegment(j, old(mem[..]), segment, pass, slice)
  {
    hide Cell, FillBlock, Seed, Addresses;
    var pass_offset := FirstBlock(pass, slice);
    var index_block: Words128 := seq(128, _ => 0);
    var index_ctr := 1;
    FirstAddress(j, segment, Step(pass, slice, pass_offset), index_block);
    for block: u32 := pass_offset to j.s
      invariant mem[..] == FillUpTo(j, old(mem[..]), segment, pass, slice, block)
      invariant constant_time ==> Addresses(j, segment, Step(pass, slice, block), index_ctr, index_block)
    {
      var index_seed;
      index_seed, index_ctr, index_block := IndexSeed(j, mem[..], segment, Step(pass, slice, block), index_ctr, index_block, constant_time);
      FillBlockInPlace(j, mem, segment, Step(pass, slice, block), index_seed);
    }
  }

  lemma FirstAddress<B>(j: Job<B>, segment: u32, t: Step, index_block: Words128)
    requires t.block == FirstBlock(t.pass, t.slice)
    ensures Addresses(j, segment, t, 1, index_block)
  {
  }

  /** Fills the whole work area: every pass, slice by slice, with indexing switched off constant time at the right slice. */
  method FillMemory<B>(j: Job<B>, mem: array<B>, nb_passes: u32)
    requires Fits(j, mem[..])
    modifies mem
    ensures mem[..] == Passes(j, old(mem[..]), nb_passes)
  {
    hide Cell, FillSegment;
    ghost var start := mem[..];
    var constant_time := j.algorithm != Argon2D;
    for pass: u32 := 0 to nb_passes
      invariant mem[..] == Passes(j, start, pass)
      invariant constant_time == (j.algorithm == Argon2I || (j.algorithm == Argon2ID && pass == 0))
    {
      ghost var before := mem[..];
      for slice := 0 to 4
        invariant mem[..] == Slices(j, before, pass, slice)
        invariant constant_time == (j.algorithm == Argon2I || (j.algorithm == Argon2ID && pass == 0 && slice <= 2))
      {
        if slice == 2 && j.algorithm == Argon2ID {
          constant_time := false;
        }
        ghost var at_slice := mem[..];
        for segment: u32 := 0 to j.nb_lanes
          invariant mem[..] == RunSegments(j, at_slice, pass, slice, Lanes(j.nb_lanes)[..segment])
        {
          FillSegmentInPlace(j, mem, pass, slice, segment, constant_time);
          assert Lanes(j.nb_lanes)[..segment + 1][..segment] == Lanes(j.nb_lanes)[..segment];
        }
        assert Lanes(j.nb_lanes)[..j.nb_lanes] == Lanes(j.nb_lanes);
      }
    }
  }
}
