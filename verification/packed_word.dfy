/**
  The 32-bit node word of utils/voxel_octree.h and its fields:

    bits 17..31  child offset, or far-table index when the far flag is set
    bit  16      far flag
    bits 8..15   valid bits: octant j uses bit 15 - j
    bits 0..7    leaf bits: octant j uses bit 7 - j

  A word whose child field and far flag are both clear is a leaf: its value is
  the block id itself. Also here: the conversion of a C `int` to an `unsigned
  int`.
 */
module PackedWord {
  import opened BuildTree

  const CHILD_MASK: bv32 := 0xfffe_0000
  const FAR_MASK: bv32 := 0x0001_0000
  const VALID_MASK: bv32 := 0x0000_ff00
  const LEAF_MASK: bv32 := 0x0000_00ff

  /** Offsets at or above this value do not fit the 15-bit child field. */
  const FAR_LIMIT: int := 32768

  /** The bits above the low half-word, where the offset and the far flag live. */
  const HIGH_HALF: bv32 := 0xffff_0000

  // ---------------------------------------------------------------------------
  // int <-> unsigned int, one hexadecimal digit at a time
  //
  // The conversions go through sixteen explicit digits rather than `as bv32`
  // and `as int`: the solver treats a cast between an integer and a
  // bit-vector as an opaque function and cannot relate it to the masks and
  // shifts below, while a finite table of digits it can case-split on.
  // ---------------------------------------------------------------------------

  /** The digit d (0..15) as a word. */
  function HexWord(d: int): bv32 {
    if d == 0 then 0x0 else if d == 1 then 0x1 else if d == 2 then 0x2 else if d == 3 then 0x3
    else if d == 4 then 0x4 else if d == 5 then 0x5 else if d == 6 then 0x6 else if d == 7 then 0x7
    else if d == 8 then 0x8 else if d == 9 then 0x9 else if d == 10 then 0xa else if d == 11 then 0xb
    else if d == 12 then 0xc else if d == 13 then 0xd else if d == 14 then 0xe else 0xf
  }

  /** The value of a word below 16. */
  function HexValue(n: bv32): int {
    if n == 0x0 then 0 else if n == 0x1 then 1 else if n == 0x2 then 2 else if n == 0x3 then 3
    else if n == 0x4 then 4 else if n == 0x5 then 5 else if n == 0x6 then 6 else if n == 0x7 then 7
    else if n == 0x8 then 8 else if n == 0x9 then 9 else if n == 0xa then 10 else if n == 0xb then 11
    else if n == 0xc then 12 else if n == 0xd then 13 else if n == 0xe then 14 else 15
  }

  lemma HexDigit(d: int)
    requires 0 <= d < 0x10
    ensures HexWord(d) < 0x10 && HexValue(HexWord(d)) == d
  {
  }

  lemma HexBounds(n: bv32)
    requires n < 0x10
    ensures 0 <= HexValue(n) < 0x10
    ensures n == 0 <==> HexValue(n) == 0
    ensures n < 0x8 <==> HexValue(n) < 0x8
  {
  }

  /** Hexadecimal digit k of a word, 0 being the least significant. */
  function Hex7(w: bv32): bv32 { w >> 28 }
  function Hex6(w: bv32): bv32 { (w >> 24) & 0xf }
  function Hex5(w: bv32): bv32 { (w >> 20) & 0xf }
  function Hex4(w: bv32): bv32 { (w >> 16) & 0xf }
  function Hex3(w: bv32): bv32 { (w >> 12) & 0xf }
  function Hex2(w: bv32): bv32 { (w >> 8) & 0xf }
  function Hex1(w: bv32): bv32 { (w >> 4) & 0xf }
  function Hex0(w: bv32): bv32 { w & 0xf }

  /** The value of a word read as an `unsigned int`. */
  function ToNat(w: bv32): nat {
    var v := HexValue(Hex7(w)) * 0x10 + HexValue(Hex6(w));
    var v := (v * 0x10 + HexValue(Hex5(w))) * 0x10 + HexValue(Hex4(w));
    var v := (v * 0x10 + HexValue(Hex3(w))) * 0x10 + HexValue(Hex2(w));
    var v := (v * 0x10 + HexValue(Hex1(w))) * 0x10 + HexValue(Hex0(w));
    if v < 0 then 0 else v
  }

  /** The word whose digits are n7 (most significant) down to n0. */
  function Compose(n7: bv32, n6: bv32, n5: bv32, n4: bv32, n3: bv32, n2: bv32, n1: bv32, n0: bv32): bv32 {
    (n7 << 28) | (n6 << 24) | (n5 << 20) | (n4 << 16) | (n3 << 12) | (n2 << 8) | (n1 << 4) | n0
  }

  lemma ComposeDigits(n7: bv32, n6: bv32, n5: bv32, n4: bv32, n3: bv32, n2: bv32, n1: bv32, n0: bv32)
    requires n7 < 0x10 && n6 < 0x10 && n5 < 0x10 && n4 < 0x10
    requires n3 < 0x10 && n2 < 0x10 && n1 < 0x10 && n0 < 0x10
    ensures var w := Compose(n7, n6, n5, n4, n3, n2, n1, n0);
            Hex7(w) == n7 && Hex6(w) == n6 && Hex5(w) == n5 && Hex4(w) == n4
            && Hex3(w) == n3 && Hex2(w) == n2 && Hex1(w) == n1 && Hex0(w) == n0
  {
  }

  /**
    C's conversion of an `int` to an `unsigned int`: the eight lowest
    hexadecimal digits of `x`. Dafny's division by 16 rounds down, so for a
    negative `x` these are the digits of `x` modulo 2^32, as in C.
   */
  function ToU32(x: int): bv32 {
    var y0 := x;
    var y1 := y0 / 0x10;
    var y2 := y1 / 0x10;
    var y3 := y2 / 0x10;
    var y4 := y3 / 0x10;
    var y5 := y4 / 0x10;
    var y6 := y5 / 0x10;
    var y7 := y6 / 0x10;
    Compose(HexWord(y7 % 0x10), HexWord(y6 % 0x10), HexWord(y5 % 0x10), HexWord(y4 % 0x10),
            HexWord(y3 % 0x10), HexWord(y2 % 0x10), HexWord(y1 % 0x10), HexWord(y0 % 0x10))
  }

  /** Base-16 digits of y, least significant first. */
  lemma Digits(y0: int, y1: int, y2: int, y3: int, y4: int, y5: int, y6: int, y7: int)
    requires 0 <= y0 < 0x1_0000_0000
    requires y1 == y0 / 0x10 && y2 == y1 / 0x10 && y3 == y2 / 0x10 && y4 == y3 / 0x10
    requires y5 == y4 / 0x10 && y6 == y5 / 0x10 && y7 == y6 / 0x10
    ensures y7 < 0x10
    ensures ((((((y7 % 0x10 * 0x10 + y6 % 0x10) * 0x10 + y5 % 0x10) * 0x10 + y4 % 0x10) * 0x10
              + y3 % 0x10) * 0x10 + y2 % 0x10) * 0x10 + y1 % 0x10) * 0x10 + y0 % 0x10 == y0
  {
  }

  /** Values that fit in 32 bits convert exactly and read back unchanged. */
  lemma ToU32Exact(x: int)
    requires 0 <= x < 0x1_0000_0000
    ensures ToNat(ToU32(x)) == x
  {
    var y1 := x / 0x10;
    var y2 := y1 / 0x10;
    var y3 := y2 / 0x10;
    var y4 := y3 / 0x10;
    var y5 := y4 / 0x10;
    var y6 := y5 / 0x10;
    var y7 := y6 / 0x10;
    Digits(x, y1, y2, y3, y4, y5, y6, y7);
    HexDigit(y7 % 0x10);
    HexDigit(y6 % 0x10);
    HexDigit(y5 % 0x10);
    HexDigit(y4 % 0x10);
    HexDigit(y3 % 0x10);
    HexDigit(y2 % 0x10);
    HexDigit(y1 % 0x10);
    HexDigit(x % 0x10);
    ComposeDigits(HexWord(y7 % 0x10), HexWord(y6 % 0x10), HexWord(y5 % 0x10), HexWord(y4 % 0x10),
                  HexWord(y3 % 0x10), HexWord(y2 % 0x10), HexWord(y1 % 0x10), HexWord(x % 0x10));
  }

  lemma DigitsBelow(w: bv32)
    ensures Hex7(w) < 0x10 && Hex6(w) < 0x10 && Hex5(w) < 0x10 && Hex4(w) < 0x10
    ensures Hex3(w) < 0x10 && Hex2(w) < 0x10 && Hex1(w) < 0x10 && Hex0(w) < 0x10
  {
  }

  lemma ZeroDigits(w: bv32)
    ensures w == 0 <==> Hex7(w) == 0 && Hex6(w) == 0 && Hex5(w) == 0 && Hex4(w) == 0
                        && Hex3(w) == 0 && Hex2(w) == 0 && Hex1(w) == 0 && Hex0(w) == 0
  {
  }

  lemma Below15Digits(w: bv32)
    ensures w < 0x8000 <==> Hex7(w) == 0 && Hex6(w) == 0 && Hex5(w) == 0 && Hex4(w) == 0 && Hex3(w) < 0x8
  {
  }

  lemma Below16Digits(w: bv32)
    ensures w < 0x1_0000 <==> Hex7(w) == 0 && Hex6(w) == 0 && Hex5(w) == 0 && Hex4(w) == 0
  {
  }

  /** Comparisons with small constants agree between a word and its value. */
  lemma SmallWord(w: bv32)
    ensures w == 0 <==> ToNat(w) == 0
    ensures w < 0x8000 <==> ToNat(w) < 0x8000
    ensures w < 0x1_0000 <==> ToNat(w) < 0x1_0000
  {
    DigitsBelow(w);
    ZeroDigits(w);
    Below15Digits(w);
    Below16Digits(w);
    HexBounds(Hex7(w));
    HexBounds(Hex6(w));
    HexBounds(Hex5(w));
    HexBounds(Hex4(w));
    HexBounds(Hex3(w));
    HexBounds(Hex2(w));
    HexBounds(Hex1(w));
    HexBounds(Hex0(w));
  }

  // ---------------------------------------------------------------------------
  // Fields
  // ---------------------------------------------------------------------------

  /** `(1 << 15) >> j`: the valid bit of octant j. */
  function ValidBit(j: int): bv32
    requires 0 <= j < 8
  {
    if j == 0 then 0x8000 else if j == 1 then 0x4000 else if j == 2 then 0x2000 else if j == 3 then 0x1000
    else if j == 4 then 0x800 else if j == 5 then 0x400 else if j == 6 then 0x200 else 0x100
  }

  /** `(1 << 7) >> j`: the leaf bit of octant j. */
  function LeafBit(j: int): bv32
    requires 0 <= j < 8
  {
    if j == 0 then 0x80 else if j == 1 then 0x40 else if j == 2 then 0x20 else if j == 3 then 0x10
    else if j == 4 then 0x8 else if j == 5 then 0x4 else if j == 6 then 0x2 else 0x1
  }

  /** The tables above are the source's shift expressions. */
  lemma ValidBitShift(j: int)
    requires 0 <= j < 8
    ensures ValidBit(j) == (1 << 15) >> (j as bv8)
  {
  }

  lemma LeafBitShift(j: int)
    requires 0 <= j < 8
    ensures LeafBit(j) == (1 << 7) >> (j as bv8)
  {
  }

  /** The 15-bit child field. */
  function ChildField(w: bv32): bv32 {
    (w & CHILD_MASK) >> 17
  }

  predicate IsFar(w: bv32) {
    w & FAR_MASK != 0
  }

  /** The leaf test of `traverse_octree`: no child field and no far flag. */
  predicate IsLeafWord(w: bv32) {
    (w & CHILD_MASK) == 0 && (w & FAR_MASK) == 0
  }

  /** `w |= (v << 17)`: store a direct child offset. */
  function SetOffset(w: bv32, v: bv32): bv32 {
    w | (v << 17)
  }

  /** `w |= FAR_MASK; w |= (v << 17)`: mark the word far and store a far-table index. */
  function SetFar(w: bv32, v: bv32): bv32 {
    (w | FAR_MASK) | (v << 17)
  }

  /** Values below 2^15 convert to words below 2^15 that read back unchanged. */
  lemma FieldValue(x: int)
    requires 0 <= x < FAR_LIMIT
    ensures ToU32(x) < 0x8000
    ensures ToNat(ToU32(x)) == x
    ensures ToU32(x) == 0 <==> x == 0
  {
    ToU32Exact(x);
    SmallWord(ToU32(x));
  }

  /** A block id below 2^16, stored as a word, is a leaf word that reads back unchanged. */
  lemma LeafWordRoundTrip(id: int)
    requires 0 <= id < 0x1_0000
    ensures IsLeafWord(ToU32(id))
    ensures ToNat(ToU32(id)) == id
  {
    ToU32Exact(id);
    SmallWord(ToU32(id));
    LeafWordBits(ToU32(id));
  }

  lemma LeafWordBits(w: bv32)
    requires w < 0x1_0000
    ensures IsLeafWord(w)
  {
  }

  // Each bit-level fact below is a lemma of its own: the solver handles one
  // goal over words quickly and a conjunction of them slowly.

  lemma DirectField(w: bv32, v: bv32)
    requires w & HIGH_HALF == 0 && v < 0x8000
    ensures ChildField(SetOffset(w, v)) == v
  {
  }

  lemma DirectNotFar(w: bv32, v: bv32)
    requires w & HIGH_HALF == 0 && v < 0x8000
    ensures !IsFar(SetOffset(w, v))
  {
  }

  lemma DirectLowHalf(w: bv32, v: bv32)
    requires w & HIGH_HALF == 0 && v < 0x8000
    ensures SetOffset(w, v) & 0xffff == w & 0xffff
  {
  }

  lemma DirectNotLeaf(w: bv32, v: bv32)
    requires w & HIGH_HALF == 0 && v < 0x8000 && v != 0
    ensures !IsLeafWord(SetOffset(w, v))
  {
  }

  lemma DirectZero(w: bv32)
    ensures SetOffset(w, 0) == w
  {
  }

  /**
    Storing a direct offset into a word whose high half is clear: the child
    field reads back the offset, the far flag stays clear, the low half is
    untouched, and the word stops being a leaf unless the offset is 0.
   */
  lemma DirectFieldBits(w: bv32, v: bv32)
    requires w & HIGH_HALF == 0 && v < 0x8000
    ensures ChildField(SetOffset(w, v)) == v
    ensures !IsFar(SetOffset(w, v))
    ensures SetOffset(w, v) & 0xffff == w & 0xffff
    ensures v != 0 ==> !IsLeafWord(SetOffset(w, v))
    ensures v == 0 ==> SetOffset(w, v) == w
  {
    DirectField(w, v);
    DirectNotFar(w, v);
    DirectLowHalf(w, v);
    if v != 0 {
      DirectNotLeaf(w, v);
    } else {
      DirectZero(w);
    }
  }

  lemma FarField(w: bv32, v: bv32)
    requires w & HIGH_HALF == 0 && v < 0x8000
    ensures ChildField(SetFar(w, v)) == v
  {
  }

  lemma FarFlag(w: bv32, v: bv32)
    ensures IsFar(SetFar(w, v))
  {
  }

  lemma FarNotLeaf(w: bv32, v: bv32)
    ensures !IsLeafWord(SetFar(w, v))
  {
  }

  lemma FarLowHalf(w: bv32, v: bv32)
    requires w & HIGH_HALF == 0 && v < 0x8000
    ensures SetFar(w, v) & 0xffff == w & 0xffff
  {
  }

  /**
    Marking a word far and storing a far-table index, on a word whose high half
    is clear: the far flag is set, the child field reads back the index, and
    the low half is untouched.
   */
  lemma FarFieldBits(w: bv32, v: bv32)
    requires w & HIGH_HALF == 0 && v < 0x8000
    ensures ChildField(SetFar(w, v)) == v
    ensures IsFar(SetFar(w, v))
    ensures !IsLeafWord(SetFar(w, v))
    ensures SetFar(w, v) & 0xffff == w & 0xffff
  {
    FarField(w, v);
    FarFlag(w, v);
    FarNotLeaf(w, v);
    FarLowHalf(w, v);
  }

  /** The offset round trip of `build_real_octree` and `traverse_octree` for offsets below 2^15. */
  lemma DirectOffsetRoundTrip(w: bv32, offset: int)
    requires w & HIGH_HALF == 0
    requires 0 <= offset < FAR_LIMIT
    ensures ToNat(ChildField(SetOffset(w, ToU32(offset)))) == offset
    ensures !IsFar(SetOffset(w, ToU32(offset)))
    ensures offset != 0 ==> !IsLeafWord(SetOffset(w, ToU32(offset)))
    ensures offset == 0 ==> SetOffset(w, ToU32(offset)) == w
  {
    FieldValue(offset);
    DirectFieldBits(w, ToU32(offset));
  }

  /** The far-index round trip of `build_real_octree` and `traverse_octree`. */
  lemma FarIndexRoundTrip(w: bv32, index: int)
    requires w & HIGH_HALF == 0
    requires 0 <= index < FAR_LIMIT
    ensures ToNat(ChildField(SetFar(w, ToU32(index)))) == index
    ensures IsFar(SetFar(w, ToU32(index)))
    ensures !IsLeafWord(SetFar(w, ToU32(index)))
  {
    FieldValue(index);
    FarFieldBits(w, ToU32(index));
  }

  /** The root word of `build_SO`: the header with the child offset 1. */
  lemma OffsetOne(h: bv32)
    ensures (1 << 17) | h == SetOffset(h, ToU32(1))
  {
    assert ToU32(1) == 1;
  }

  /** The eight valid bits survive when the child field and far flag are filled in. */
  lemma ValidByteKept(w: bv32, h: bv32)
    requires w & 0xffff == h & 0xffff
    requires h & VALID_MASK == VALID_MASK
    ensures w & VALID_MASK == VALID_MASK
  {
  }

  /**
    A header word patched with a non-zero direct offset: the offset reads
    back, the far flag is clear, the word is no leaf and keeps its valid and
    leaf bits.
   */
  lemma NearWord(h: bv32, offset: int)
    requires h & HIGH_HALF == 0 && h & VALID_MASK == VALID_MASK
    requires 0 < offset < FAR_LIMIT
    ensures var w := SetOffset(h, ToU32(offset));
            ToNat(ChildField(w)) == offset && !IsFar(w) && !IsLeafWord(w) && w & VALID_MASK == VALID_MASK
    ensures SetOffset(h, ToU32(offset)) & 0xffff == h & 0xffff
  {
    FieldValue(offset);
    DirectFieldBits(h, ToU32(offset));
    ValidByteKept(SetOffset(h, ToU32(offset)), h);
  }

  /**
    A header word patched with far-table index `index`: the index reads back,
    the far flag is set, the word is no leaf and keeps its valid and leaf bits.
   */
  lemma FarWord(h: bv32, index: int)
    requires h & HIGH_HALF == 0 && h & VALID_MASK == VALID_MASK
    requires 0 <= index < FAR_LIMIT
    ensures var w := SetFar(h, ToU32(index));
            ToNat(ChildField(w)) == index && IsFar(w) && !IsLeafWord(w) && w & VALID_MASK == VALID_MASK
    ensures SetFar(h, ToU32(index)) & 0xffff == h & 0xffff
  {
    FieldValue(index);
    FarFieldBits(h, ToU32(index));
    ValidByteKept(SetFar(h, ToU32(index)), h);
  }

  /** The leaf-bit contribution of one child: `b` when the child is uniform. */
  function LeafFlag(child: Node, b: bv32): bv32 {
    if child.id != MIXED then b else 0
  }

  /**
    The header word the loops of `build_real_octree` and `build_SO` compute for
    a mixed node, their eight iterations written out: every child is present,
    so every valid bit is set, and a leaf bit is set for each uniform child.
   */
  function NodeHeader(kids: seq<Node>): bv32
    requires |kids| == 8
  {
    0x8000 | 0x4000 | 0x2000 | 0x1000 | 0x800 | 0x400 | 0x200 | 0x100
    | LeafFlag(kids[0], 0x80) | LeafFlag(kids[1], 0x40) | LeafFlag(kids[2], 0x20) | LeafFlag(kids[3], 0x10)
    | LeafFlag(kids[4], 0x8) | LeafFlag(kids[5], 0x4) | LeafFlag(kids[6], 0x2) | LeafFlag(kids[7], 0x1)
  }

  lemma HeaderValidByte(kids: seq<Node>)
    requires |kids| == 8
    ensures NodeHeader(kids) & VALID_MASK == VALID_MASK
  {
  }

  lemma FullValidByte(w: bv32, i: int)
    requires 0 <= i < 8
    requires w & VALID_MASK == VALID_MASK
    ensures w & ValidBit(i) != 0
  {
  }

  /** Every octant of a mixed node is marked valid. */
  lemma HeaderValid(kids: seq<Node>, i: int)
    requires |kids| == 8 && 0 <= i < 8
    ensures NodeHeader(kids) & ValidBit(i) != 0
  {
    HeaderValidByte(kids);
    FullValidByte(NodeHeader(kids), i);
  }

  /** A leaf bit is set exactly for the uniform children. */
  lemma HeaderLeaf(kids: seq<Node>, i: int)
    requires |kids| == 8 && 0 <= i < 8
    ensures NodeHeader(kids) & LeafBit(i) != 0 <==> kids[i].id != MIXED
  {
  }

  /** The header leaves the child field and the far flag clear. */
  lemma HeaderHigh(kids: seq<Node>)
    requires |kids| == 8
    ensures NodeHeader(kids) & HIGH_HALF == 0
  {
  }

  /** Leaf bit j of `w` is set exactly when child j of `kids` is uniform, as in a node header. */
  predicate LeafBits(w: bv32, kids: seq<Node>)
    requires |kids| == 8
  {
    forall j :: 0 <= j < 8 ==> (w & LeafBit(j) != 0 <==> kids[j].id != MIXED)
  }

  /** The eight leaf bits of `w`, octant 0 first. */
  function LeafMask(w: bv32): (m: seq<bool>)
    ensures |m| == 8
  {
    ByteMask(w & 0xff)
  }

  /** The bits of a low byte `b`, most significant first. */
  function ByteMask(b: bv32): (m: seq<bool>)
    ensures |m| == 8
  {
    seq(8, j requires 0 <= j < 8 => b & LeafBit(j) != 0)
  }

  /** Which of the eight children are uniform, octant 0 first. */
  function UniformMask(kids: seq<Node>): (m: seq<bool>)
    requires |kids| == 8
    ensures |m| == 8
  {
    seq(8, j requires 0 <= j < 8 => kids[j].id != MIXED)
  }

  /** Entry j of the leaf mask is leaf bit j. */
  lemma LeafMaskAt(w: bv32, j: int)
    requires 0 <= j < 8
    ensures LeafMask(w)[j] == (w & LeafBit(j) != 0)
  {
    assert LeafMask(w)[j] == ((w & 0xff) & LeafBit(j) != 0);
    LeafBitOfByte(w, j);
  }

  /** A leaf bit lies in the low byte. */
  lemma LeafBitOfByte(w: bv32, j: int)
    requires 0 <= j < 8
    ensures (w & 0xff) & LeafBit(j) == w & LeafBit(j)
  {
  }

  /** Leaf bits that mark the uniform children give the mask of the uniform children. */
  lemma MaskFromBits(w: bv32, kids: seq<Node>)
    requires |kids| == 8 && LeafBits(w, kids)
    ensures LeafMask(w) == UniformMask(kids)
  {
    forall j | 0 <= j < 8
      ensures LeafMask(w)[j] == UniformMask(kids)[j]
    {
      LeafMaskAt(w, j);
    }
  }

  /** A word whose leaf mask is that of the uniform children has the leaf bits of `kids`. */
  lemma BitsFromMask(w: bv32, kids: seq<Node>)
    requires |kids| == 8 && LeafMask(w) == UniformMask(kids)
    ensures LeafBits(w, kids)
  {
    forall j | 0 <= j < 8
      ensures w & LeafBit(j) != 0 <==> kids[j].id != MIXED
    {
      LeafMaskAt(w, j);
      assert UniformMask(kids)[j] == (kids[j].id != MIXED);
    }
  }

  /** Filling in the high half of a word keeps its leaf mask. */
  lemma LeafMaskKept(w: bv32, h: bv32)
    requires w & 0xffff == h & 0xffff
    ensures LeafMask(w) == LeafMask(h)
  {
    LowByteKept(w, h);
  }

  /** Words that agree on the low half agree on the leaf byte. */
  lemma LowByteKept(w: bv32, h: bv32)
    requires w & 0xffff == h & 0xffff
    ensures w & 0xff == h & 0xff
  {
  }
}
