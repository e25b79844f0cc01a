/**
  The integer helpers of the second traversal in SVO.h: `count_bits`,
  `ordered_octant`, the first-octant flags, `calc_octant_intervals` and the
  child-rank and mask expressions of `traverse_svo_node`.

  SVO.h numbers octants differently from utils/voxel_octree.h: bit 0 of an
  octant is the x half, bit 1 the y half, bit 2 the z half, and the valid bit
  of octant `oct` in a node mask is bit `oct` itself. The two numberings are
  kept apart: nothing here uses the Geometry or PackedWord modules.

  Octant numbers and loop indices are non-negative `int`s, as in the source;
  their bitwise operations are written on the binary digits (`Xor`, `HasBit`).
  Interval arithmetic is over `real`: no rounding is modelled.
 */
module Svo {

  // ---------------------------------------------------------------------------
  // Bits of small non-negative integers
  // ---------------------------------------------------------------------------

  /** `x & b != 0` for `b` one of 1, 2, 4: the binary digit of weight `b`. */
  predicate HasBit(x: nat, b: nat)
    requires b == 1 || b == 2 || b == 4
  {
    (x / b) % 2 == 1
  }

  /** `a ^ b` on non-negative integers, one binary digit at a time. */
  function Xor(a: nat, b: nat): nat
    decreases a + b
  {
    if a == 0 && b == 0 then 0
    else (if a % 2 == b % 2 then 0 else 1) + 2 * Xor(a / 2, b / 2)
  }

  /** Xor with the same value twice is the identity. */
  lemma {:induction false} XorTwice(a: nat, b: nat)
    ensures Xor(Xor(a, b), b) == a
    decreases a + b
  {
    if a != 0 || b != 0 {
      XorTwice(a / 2, b / 2);
      var c := Xor(a / 2, b / 2);
      var x := Xor(a, b);
      assert x / 2 == c && x % 2 == (if a % 2 == b % 2 then 0 else 1);
    }
  }

  /** Xor with 0 changes nothing. */
  lemma {:induction false} XorZero(a: nat)
    ensures Xor(0, a) == a
    decreases a
  {
    if a != 0 {
      XorZero(a / 2);
    }
  }

  /** Xor of two values below 2^k stays below 2^k, for k = 3. */
  lemma {:induction false} XorBelow(a: nat, b: nat, bound: nat)
    requires bound == 1 || bound == 2 || bound == 4 || bound == 8
    requires a < bound && b < bound
    ensures Xor(a, b) < bound
    decreases bound
  {
    if bound > 1 {
      XorBelow(a / 2, b / 2, bound / 2);
    } else {
      assert a == 0 && b == 0;
    }
  }

  // ---------------------------------------------------------------------------
  // ordered_octant and the first octant
  // ---------------------------------------------------------------------------

  /** `ordered_octant(order, first)`: the octant visited at step `order`. */
  function OrderedOctant(order: nat, first: nat): nat {
    Xor(first, order)
  }

  /**
    For a fixed `first` in 0..7 the eight steps visit each octant exactly
    once: every step lands in 0..7, and each octant `o` is reached at exactly
    one step, namely `o ^ first`.
   */
  lemma OrderedOctantPermutes(first: nat)
    requires first < 8
    ensures forall order :: 0 <= order < 8 ==> OrderedOctant(order, first) < 8
    ensures forall o :: 0 <= o < 8 ==>
              Xor(o, first) < 8 && OrderedOctant(Xor(o, first), first) == o
    ensures forall i, j :: 0 <= i < 8 && 0 <= j < 8 && OrderedOctant(i, first) == OrderedOctant(j, first) ==> i == j
  {
    forall order | 0 <= order < 8
      ensures OrderedOctant(order, first) < 8
    {
      XorBelow(first, order, 8);
    }
    forall o | 0 <= o < 8
      ensures Xor(o, first) < 8 && OrderedOctant(Xor(o, first), first) == o
    {
      XorBelow(o, first, 8);
      XorSwap(o, first);
    }
    forall i, j | 0 <= i < 8 && 0 <= j < 8 && OrderedOctant(i, first) == OrderedOctant(j, first)
      ensures i == j
    {
      XorCommutes(first, i);
      XorCommutes(first, j);
      XorTwice(i, first);
      XorTwice(j, first);
    }
  }

  /** `first ^ (o ^ first) == o`. */
  lemma XorSwap(o: nat, first: nat)
    ensures Xor(first, Xor(o, first)) == o
  {
    XorCommutes(first, Xor(o, first));
    XorTwice(o, first);
  }

  lemma {:induction false} XorCommutes(a: nat, b: nat)
    ensures Xor(a, b) == Xor(b, a)
    decreases a + b
  {
    if a != 0 || b != 0 {
      XorCommutes(a / 2, b / 2);
    }
  }

  /** The ray parameters at which the ray crosses the three mid-planes of the node. */
  datatype Mid = Mid(x: real, y: real, z: real)

  /**
    The entry octant of `traverse_svo_node`: the x, y and z flags are set when
    the ray crosses that mid-plane before `t0`. The three flags are different
    bits, so their `|` is their sum.
   */
  function FirstOctant(tm: Mid, t0: real): nat {
    (if tm.x < t0 then 1 else 0) + (if tm.y < t0 then 2 else 0) + (if tm.z < t0 then 4 else 0)
  }

  /** The entry octant is an octant, its bits are the three flags, and the loop starts there. */
  lemma FirstOctantBits(tm: Mid, t0: real)
    ensures FirstOctant(tm, t0) < 8
    ensures HasBit(FirstOctant(tm, t0), 1) <==> tm.x < t0
    ensures HasBit(FirstOctant(tm, t0), 2) <==> tm.y < t0
    ensures HasBit(FirstOctant(tm, t0), 4) <==> tm.z < t0
    ensures OrderedOctant(0, FirstOctant(tm, t0)) == FirstOctant(tm, t0)
  {
    var first := FirstOctant(tm, t0);
    XorZero(first);
    XorCommutes(first, 0);
  }

  // ---------------------------------------------------------------------------
  // calc_octant_intervals
  // ---------------------------------------------------------------------------

  function Max(a: real, b: real): real { if a >= b then a else b }
  function Min(a: real, b: real): real { if a <= b then a else b }

  /**
    The interval of octant `i`: each axis whose bit is set raises the entry
    time to that mid-plane crossing, each axis whose bit is clear lowers the
    exit time to it.
   */
  function OctantInterval(i: nat, t0: real, t1: real, tm: Mid): (real, real) {
    var (te, tx) := (t0, t1);
    var (te, tx) := if HasBit(i, 1) then (Max(te, tm.x), tx) else (te, Min(tx, tm.x));
    var (te, tx) := if HasBit(i, 2) then (Max(te, tm.y), tx) else (te, Min(tx, tm.y));
    var (te, tx) := if HasBit(i, 4) then (Max(te, tm.z), tx) else (te, Min(tx, tm.z));
    (te, tx)
  }

  /** `calc_octant_intervals`: `tEnter` and `tExit` for the eight octants. `first` is not used. */
  function CalcOctantIntervals(first: int, t0: real, t1: real, tm: Mid): (r: (seq<real>, seq<real>))
    ensures |r.0| == 8 && |r.1| == 8
  {
    (seq(8, i requires 0 <= i < 8 => OctantInterval(i, t0, t1, tm).0),
     seq(8, i requires 0 <= i < 8 => OctantInterval(i, t0, t1, tm).1))
  }

  /**
    The octant interval is exactly the set of ray parameters inside the
    parent interval and on the octant's side of each mid-plane: after the
    crossing for a set bit, before it for a clear bit.
   */
  lemma IntervalMeaning(i: nat, t0: real, t1: real, tm: Mid, t: real)
    ensures var (te, tx) := OctantInterval(i, t0, t1, tm);
      (te <= t <= tx) <==>
        && t0 <= t <= t1
        && (if HasBit(i, 1) then tm.x <= t else t <= tm.x)
        && (if HasBit(i, 2) then tm.y <= t else t <= tm.y)
        && (if HasBit(i, 4) then tm.z <= t else t <= tm.z)
  {
  }

  /** The intervals never widen the parent interval, whatever `first` is. */
  lemma IntervalsNarrow(first: int, t0: real, t1: real, tm: Mid)
    ensures var (tEnter, tExit) := CalcOctantIntervals(first, t0, t1, tm);
      forall i :: 0 <= i < 8 ==> t0 <= tEnter[i] && tExit[i] <= t1
  {
  }

  /** `first` has no influence on the intervals. */
  lemma IntervalsIgnoreFirst(first1: int, first2: int, t0: real, t1: real, tm: Mid)
    ensures CalcOctantIntervals(first1, t0, t1, tm) == CalcOctantIntervals(first2, t0, t1, tm)
  {
  }

  /**
    The octant the ray is in at parameter `t`: the bit of an axis is set once
    the ray has reached that mid-plane.
   */
  function OctantAt(tm: Mid, t: real): nat {
    (if tm.x <= t then 1 else 0) + (if tm.y <= t then 2 else 0) + (if tm.z <= t then 4 else 0)
  }

  lemma OctantAtBits(tm: Mid, t: real)
    ensures OctantAt(tm, t) < 8
    ensures HasBit(OctantAt(tm, t), 1) <==> tm.x <= t
    ensures HasBit(OctantAt(tm, t), 2) <==> tm.y <= t
    ensures HasBit(OctantAt(tm, t), 4) <==> tm.z <= t
  {
  }

  /**
    The intervals cover the parent interval: every parameter in [t0, t1] lies
    in the interval of the octant the ray is in at that parameter.
   */
  lemma IntervalsCover(t0: real, t1: real, tm: Mid, t: real)
    ensures t0 <= t <= t1 ==>
      OctantAt(tm, t) < 8 &&
      OctantInterval(OctantAt(tm, t), t0, t1, tm).0 <= t <= OctantInterval(OctantAt(tm, t), t0, t1, tm).1
  {
    OctantAtBits(tm, t);
    IntervalMeaning(OctantAt(tm, t), t0, t1, tm, t);
  }

  /** Two octants agree on all three bits only when they are the same octant. */
  lemma OctantBitsDetermine(i: nat, j: nat)
    requires i < 8 && j < 8
    requires HasBit(i, 1) == HasBit(j, 1) && HasBit(i, 2) == HasBit(j, 2) && HasBit(i, 4) == HasBit(j, 4)
    ensures i == j
  {
  }

  /**
    The open intervals of two different octants are disjoint: at any one
    parameter strictly inside both, the octants are on the same side of every
    mid-plane.
   */
  lemma IntervalsInteriorsDisjoint(i: nat, j: nat, t0: real, t1: real, tm: Mid, t: real)
    requires i < 8 && j < 8
    ensures (&& OctantInterval(i, t0, t1, tm).0 < t < OctantInterval(i, t0, t1, tm).1
             && OctantInterval(j, t0, t1, tm).0 < t < OctantInterval(j, t0, t1, tm).1) ==> i == j
  {
    if OctantInterval(i, t0, t1, tm).0 < t < OctantInterval(i, t0, t1, tm).1 &&
       OctantInterval(j, t0, t1, tm).0 < t < OctantInterval(j, t0, t1, tm).1 {
      OctantBitsDetermine(i, j);
    }
  }

  /** The entry octant is entered at `t0`: its entry time is not raised. */
  lemma FirstEnteredAtStart(t0: real, t1: real, tm: Mid)
    ensures OctantInterval(FirstOctant(tm, t0), t0, t1, tm).0 == t0
  {
    FirstOctantBits(tm, t0);
  }

  // ---------------------------------------------------------------------------
  // count_bits, the child rank and the node mask
  // ---------------------------------------------------------------------------

  /** `CHILD_POINTER_MASK` of SVO.h. */
  const CHILD_POINTER_MASK: bv32 := 0xfffe_0000

  /** 1 when `w` is not zero. */
  function One(w: bv32): nat { if w == 0 then 0 else 1 }

  /** `count_bits(x)`, `__builtin_popcount`: the number of set bits, a byte at a time. */
  function CountBits(x: bv32): nat {
    ByteBits(x & 0xff) + ByteBits((x >> 8) & 0xff) + ByteBits((x >> 16) & 0xff) + ByteBits(x >> 24)
  }

  /** The number of set bits among the eight lowest bits of `b`. */
  function ByteBits(b: bv32): nat {
    One(b & 0x1) + One(b & 0x2) + One(b & 0x4) + One(b & 0x8)
    + One(b & 0x10) + One(b & 0x20) + One(b & 0x40) + One(b & 0x80)
  }

  /** `1 << oct`: the valid bit of octant `oct` in an SVO node mask. */
  function OctBit(oct: int): bv32
    requires 0 <= oct < 8
  {
    if oct == 0 then 0x1 else if oct == 1 then 0x2 else if oct == 2 then 0x4 else if oct == 3 then 0x8
    else if oct == 4 then 0x10 else if oct == 5 then 0x20 else if oct == 6 then 0x40 else 0x80
  }

  /** `count_bits(node.mask & ((1 << oct) - 1))`: the rank of child `oct`. */
  function ChildRank(mask: bv32, oct: int): nat
    requires 0 <= oct < 8
  {
    CountBits(mask & (OctBit(oct) - 1))
  }

  /** Reference: how many of the octants before `o` have their valid bit set. */
  function ValidBefore(mask: bv32, o: int): nat
    requires 0 <= o <= 8
  {
    if o == 0 then 0 else ValidBefore(mask, o - 1) + One(mask & OctBit(o - 1))
  }

  /** A word below 256 counts only its low byte. */
  lemma LowByte(y: bv32)
    requires y < 0x100
    ensures CountBits(y) == ByteBits(y)
  {
    assert y & 0xff == y && (y >> 8) & 0xff == 0 && (y >> 16) & 0xff == 0 && y >> 24 == 0;
  }

  /** The reference count, one octant at a time. */
  lemma ValidBeforeSteps(mask: bv32)
    ensures ValidBefore(mask, 1) == One(mask & 0x1)
    ensures ValidBefore(mask, 2) == ValidBefore(mask, 1) + One(mask & 0x2)
    ensures ValidBefore(mask, 3) == ValidBefore(mask, 2) + One(mask & 0x4)
    ensures ValidBefore(mask, 4) == ValidBefore(mask, 3) + One(mask & 0x8)
    ensures ValidBefore(mask, 5) == ValidBefore(mask, 4) + One(mask & 0x10)
    ensures ValidBefore(mask, 6) == ValidBefore(mask, 5) + One(mask & 0x20)
    ensures ValidBefore(mask, 7) == ValidBefore(mask, 6) + One(mask & 0x40)
    ensures ValidBefore(mask, 8) == ValidBefore(mask, 7) + One(mask & 0x80)
  {
  }

  /** Masking with `c` keeps bit `b` of `mask` when `c` has it. */
  lemma KeptBit(mask: bv32, c: bv32, b: bv32)
    requires c & b == b
    ensures (mask & c) & b == mask & b
  {
  }

  /** Masking with `c` clears bit `b` when `c` does not have it. */
  lemma DroppedBit(mask: bv32, c: bv32, b: bv32)
    requires c & b == 0
    ensures (mask & c) & b == 0
  {
  }

  /**
    The rank of octant `oct` for each octant. `OctBit(oct) - 1` keeps the
    valid bits of the octants before `oct` and drops the others, so its
    popcount is the reference count.
   */
  lemma RankAt0(mask: bv32)
    ensures ChildRank(mask, 0) == ValidBefore(mask, 0)
  {
    assert mask & (OctBit(0) - 1) == 0;
  }

  lemma RankAt1(mask: bv32)
    ensures ChildRank(mask, 1) == ValidBefore(mask, 1)
  {
    assert OctBit(1) - 1 == 0x1;
    LowByte(mask & 0x1);
    KeptBit(mask, 0x1, 0x1);
    DroppedBit(mask, 0x1, 0x2); DroppedBit(mask, 0x1, 0x4); DroppedBit(mask, 0x1, 0x8);
    DroppedBit(mask, 0x1, 0x10); DroppedBit(mask, 0x1, 0x20); DroppedBit(mask, 0x1, 0x40);
    DroppedBit(mask, 0x1, 0x80);
  }

  lemma RankAt2(mask: bv32)
    ensures ChildRank(mask, 2) == ValidBefore(mask, 2)
  {
    assert OctBit(2) - 1 == 0x3;
    ValidBeforeSteps(mask);
    LowByte(mask & 0x3);
    KeptBit(mask, 0x3, 0x1); KeptBit(mask, 0x3, 0x2);
    DroppedBit(mask, 0x3, 0x4); DroppedBit(mask, 0x3, 0x8);
    DroppedBit(mask, 0x3, 0x10); DroppedBit(mask, 0x3, 0x20); DroppedBit(mask, 0x3, 0x40);
    DroppedBit(mask, 0x3, 0x80);
  }

  lemma RankAt3(mask: bv32)
    ensures ChildRank(mask, 3) == ValidBefore(mask, 3)
  {
    assert OctBit(3) - 1 == 0x7;
    ValidBeforeSteps(mask);
    LowByte(mask & 0x7);
    KeptBit(mask, 0x7, 0x1); KeptBit(mask, 0x7, 0x2); KeptBit(mask, 0x7, 0x4);
    DroppedBit(mask, 0x7, 0x8);
    DroppedBit(mask, 0x7, 0x10); DroppedBit(mask, 0x7, 0x20); DroppedBit(mask, 0x7, 0x40);
    DroppedBit(mask, 0x7, 0x80);
  }

  lemma RankAt4(mask: bv32)
    ensures ChildRank(mask, 4) == ValidBefore(mask, 4)
  {
    assert OctBit(4) - 1 == 0xf;
    ValidBeforeSteps(mask);
    LowByte(mask & 0xf);
    KeptBit(mask, 0xf, 0x1); KeptBit(mask, 0xf, 0x2); KeptBit(mask, 0xf, 0x4);
    KeptBit(mask, 0xf, 0x8);
    DroppedBit(mask, 0xf, 0x10); DroppedBit(mask, 0xf, 0x20); DroppedBit(mask, 0xf, 0x40);
    DroppedBit(mask, 0xf, 0x80);
  }

  lemma RankAt5(mask: bv32)
    ensures ChildRank(mask, 5) == ValidBefore(mask, 5)
  {
    assert OctBit(5) - 1 == 0x1f;
    ValidBeforeSteps(mask);
    LowByte(mask & 0x1f);
    KeptBit(mask, 0x1f, 0x1); KeptBit(mask, 0x1f, 0x2); KeptBit(mask, 0x1f, 0x4);
    KeptBit(mask, 0x1f, 0x8);
    KeptBit(mask, 0x1f, 0x10); DroppedBit(mask, 0x1f, 0x20); DroppedBit(mask, 0x1f, 0x40);
    DroppedBit(mask, 0x1f, 0x80);
  }

  lemma RankAt6(mask: bv32)
    ensures ChildRank(mask, 6) == ValidBefore(mask, 6)
  {
    assert OctBit(6) - 1 == 0x3f;
    ValidBeforeSteps(mask);
    LowByte(mask & 0x3f);
    KeptBit(mask, 0x3f, 0x1); KeptBit(mask, 0x3f, 0x2); KeptBit(mask, 0x3f, 0x4);
    KeptBit(mask, 0x3f, 0x8);
    KeptBit(mask, 0x3f, 0x10); KeptBit(mask, 0x3f, 0x20); DroppedBit(mask, 0x3f, 0x40);
    DroppedBit(mask, 0x3f, 0x80);
  }

  lemma RankAt7(mask: bv32)
    ensures ChildRank(mask, 7) == ValidBefore(mask, 7)
  {
    assert OctBit(7) - 1 == 0x7f;
    ValidBeforeSteps(mask);
    LowByte(mask & 0x7f);
    KeptBit(mask, 0x7f, 0x1); KeptBit(mask, 0x7f, 0x2); KeptBit(mask, 0x7f, 0x4);
    KeptBit(mask, 0x7f, 0x8);
    KeptBit(mask, 0x7f, 0x10); KeptBit(mask, 0x7f, 0x20); KeptBit(mask, 0x7f, 0x40);
    DroppedBit(mask, 0x7f, 0x80);
  }

  /** The rank of child `oct` counts the valid octants before it. */
  lemma RankCountsValid(mask: bv32, oct: int)
    requires 0 <= oct < 8
    ensures ChildRank(mask, oct) == ValidBefore(mask, oct)
  {
    match oct
    case 0 => RankAt0(mask);
    case 1 => RankAt1(mask);
    case 2 => RankAt2(mask);
    case 3 => RankAt3(mask);
    case 4 => RankAt4(mask);
    case 5 => RankAt5(mask);
    case 6 => RankAt6(mask);
    case 7 => RankAt7(mask);
  }

  /** `count_bits(mask & 0xff)` counts every valid octant. */
  lemma AllValid(mask: bv32)
    ensures CountBits(mask & 0xff) == ValidBefore(mask, 8)
  {
    LowByte(mask & 0xff);
    ValidBeforeSteps(mask);
    KeptBit(mask, 0xff, 0x1); KeptBit(mask, 0xff, 0x2); KeptBit(mask, 0xff, 0x4);
    KeptBit(mask, 0xff, 0x8);
    KeptBit(mask, 0xff, 0x10); KeptBit(mask, 0xff, 0x20); KeptBit(mask, 0xff, 0x40);
    KeptBit(mask, 0xff, 0x80);
  }

  /** Later octants never have a smaller count. */
  lemma {:induction false} ValidBeforeGrows(mask: bv32, a: int, b: int)
    requires 0 <= a <= b <= 8
    ensures ValidBefore(mask, a) <= ValidBefore(mask, b)
    decreases b - a
  {
    if a < b {
      ValidBeforeGrows(mask, a, b - 1);
    }
  }

  /**
    Distinct valid children get distinct slots in child order: the rank of a
    valid octant is below the rank of every later octant and below the number
    of valid octants.
   */
  lemma RankOrdered(mask: bv32, oct: int, later: int)
    requires 0 <= oct < later < 8 && mask & OctBit(oct) != 0
    ensures ChildRank(mask, oct) < ChildRank(mask, later)
    ensures ChildRank(mask, oct) < CountBits(mask & 0xff)
  {
    RankCountsValid(mask, oct);
    RankCountsValid(mask, later);
    AllValid(mask);
    ValidOrdered(mask, oct, later);
  }

  /** `RankOrdered` for the reference count. */
  lemma ValidOrdered(mask: bv32, oct: int, later: int)
    requires 0 <= oct < later < 8 && mask & OctBit(oct) != 0
    ensures ValidBefore(mask, oct) < ValidBefore(mask, later)
    ensures ValidBefore(mask, oct) < ValidBefore(mask, 8)
  {
    assert ValidBefore(mask, oct + 1) == ValidBefore(mask, oct) + 1;
    ValidBeforeGrows(mask, oct + 1, later);
    ValidBeforeGrows(mask, oct + 1, 8);
  }

  // ---------------------------------------------------------------------------
  // The mask expressions of traverse_svo_node
  // ---------------------------------------------------------------------------

  /**
    The leaf test `node.mask & CHILD_POINTER_MASK == 0` as C++ parses it:
    `==` binds tighter than `&`, so it is `node.mask & (CHILD_POINTER_MASK == 0)`,
    and the comparison is the integer 0.
   */
  predicate LeafTestAsParsed(mask: bv32) {
    mask & (if CHILD_POINTER_MASK == 0 then 1 else 0) != 0
  }

  /** The leaf test as parsed never fires, not even for a mask without a child pointer. */
  lemma LeafTestNeverFires(mask: bv32)
    ensures !LeafTestAsParsed(mask)
  {
  }

  /** The leaf test as evidently intended: the child-pointer field is zero. */
  predicate LeafTest(mask: bv32) {
    (mask & CHILD_POINTER_MASK) == 0
  }

  /** The intended test fires exactly for masks below bit 17, the zero mask among them. */
  lemma LeafTestMeaning(mask: bv32)
    ensures LeafTest(mask) <==> mask < 0x2_0000
    ensures LeafTest(0) && !LeafTestAsParsed(0)
  {
  }

  /**
    The pointer term `node.mask & CHILD_POINTER_MASK >> 9` as C++ parses it:
    `>>` binds tighter than `&`, so the mask is shifted, not the masked word.
   */
  function PointerAsParsed(mask: bv32): bv32 {
    mask & (CHILD_POINTER_MASK >> 9)
  }

  /** As parsed, the term keeps bits 8..22 of the mask itself, valid byte excluded. */
  lemma PointerAsParsedBits(mask: bv32)
    ensures PointerAsParsed(mask) == mask & 0x7f_ff00
  {
  }

  /** The pointer term as evidently intended: the child-pointer field, shifted down by 9. */
  function Pointer(mask: bv32): bv32 {
    (mask & CHILD_POINTER_MASK) >> 9
  }

  /** The intended pointer depends on the child-pointer field only. */
  lemma PointerReadsField(m1: bv32, m2: bv32)
    requires m1 & CHILD_POINTER_MASK == m2 & CHILD_POINTER_MASK
    ensures Pointer(m1) == Pointer(m2)
  {
  }

  /**
    As parsed, the pointer depends on bits outside the field: masks 0x100 and 0
    have the same (zero) child-pointer field but different pointer terms, and
    a pointer field of 1 (mask 0x2_0000) yields 0x2_0000 instead of 0x100.
   */
  lemma PointerAsParsedWrong()
    ensures 0x100 & CHILD_POINTER_MASK == 0 & CHILD_POINTER_MASK
    ensures PointerAsParsed(0x100) != PointerAsParsed(0)
    ensures PointerAsParsed(0x2_0000) == 0x2_0000 && Pointer(0x2_0000) == 0x100
  {
  }

  /**
    `childId` of `traverse_svo_node` with the pointer term as evidently
    intended: the node's pointer plus the rank of the octant.
   */
  function ChildId(mask: bv32, oct: int): int
    requires 0 <= oct < 8
  {
    Pointer(mask) as int + ChildRank(mask, oct)
  }

  /**
    The children of a node occupy consecutive ids from its pointer on: each
    valid octant's id is at least the pointer, below the pointer plus the
    number of valid octants, and below the id of every later octant.
   */
  lemma ChildIdsInBlock(mask: bv32, oct: int, later: int)
    requires 0 <= oct < later < 8 && HasChild(mask, oct)
    ensures Pointer(mask) as int <= ChildId(mask, oct) < Pointer(mask) as int + CountBits(mask & 0xff)
    ensures ChildId(mask, oct) < ChildId(mask, later)
  {
    RankOrdered(mask, oct, later);
  }

  /** The test `node.mask & (1 << oct)`: octant `oct` has a child. */
  predicate HasChild(mask: bv32, oct: int)
    requires 0 <= oct < 8
  {
    mask & OctBit(oct) != 0
  }
}
