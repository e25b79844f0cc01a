/**
  What the packer produces, stated as the traversal reads it: the word at `k`
  packs the node `n` when a uniform node's word is a leaf word holding its id,
  and a mixed node's word is a non-leaf word with every valid bit set, the
  leaf bit of each uniform child set and of each mixed child clear, whose
  decoded child base `b` lies after `k`, with the eight children packed at
  `b`..`b+7`. The packer establishes this for every node of the tree, and on a
  packed tree the traversal of the array agrees with the traversal of the tree.
 */
module Layout {
  import opened Wrappers
  import opened Geometry
  import opened BuildTree
  import opened PackedWord
  import opened Packer
  import opened Traversal

  ghost predicate Packed(o: seq<bv32>, f: seq<bv32>, k: int, n: Node)
    decreases n
  {
    && WellFormed(n)
    && 0 <= k < |o|
    && if n.id != MIXED then IsLeafWord(o[k]) && ToNat(o[k]) == n.id
       else
         && !IsLeafWord(o[k])
         && o[k] & VALID_MASK == VALID_MASK
         && LeafMask(o[k]) == UniformMask(n.children)
         && ChildBase(o, f, k).Success?
         && k < ChildBase(o, f, k).value
         && ChildBase(o, f, k).value + 8 <= |o|
         && forall i :: 0 <= i < 8 ==> Packed(o, f, ChildBase(o, f, k).value + i, n.children[i])
  }

  /** The word of a packed mixed node has leaf bit j set exactly when child j is uniform. */
  lemma PackedLeafBits(o: seq<bv32>, f: seq<bv32>, k: int, n: Node)
    requires Packed(o, f, k, n) && n.id == MIXED
    ensures forall j :: 0 <= j < 8 ==> (o[k] & LeafBit(j) != 0 <==> n.children[j].id != MIXED)
  {
    BitsFromMask(o[k], n.children);
  }

  /** `Packed`, and a mixed node's block starts at `lo` or later. */
  ghost predicate PackedAbove(o: seq<bv32>, f: seq<bv32>, k: int, n: Node, lo: int) {
    Packed(o, f, k, n) && (n.id == MIXED ==> lo <= ChildBase(o, f, k).value)
  }

  /** The eight children of `n` are packed at `start`..`start+7`, their blocks after them. */
  ghost predicate BlockPacked(o: seq<bv32>, f: seq<bv32>, start: int, n: Node)
    requires |n.children| == 8
  {
    forall i :: 0 <= i < 8 ==> PackedAbove(o, f, start + i, n.children[i], start + 8)
  }

  /**
    A packed subtree stays packed when its own word is kept, no word from `lo`
    on changes (its whole block lies there), the array only grows and the far
    table is only appended to.
   */
  lemma {:induction false} PackedFrame(o1: seq<bv32>, f1: seq<bv32>, o2: seq<bv32>, f2: seq<bv32>,
                                       k: int, n: Node, lo: int)
    requires PackedAbove(o1, f1, k, n, lo)
    requires |o1| <= |o2| && |f1| <= |f2| && f2[..|f1|] == f1
    requires k < |o2| && o2[k] == o1[k]
    requires 0 <= lo && forall j :: lo <= j < |o1| ==> o2[j] == o1[j]
    ensures PackedAbove(o2, f2, k, n, lo)
    ensures n.id == MIXED ==> ChildBase(o2, f2, k) == ChildBase(o1, f1, k)
    decreases n
  {
    if n.id == MIXED {
      if IsFar(o1[k]) {
        var x := ToNat(ChildField(o1[k]));
        assert f2[x] == f2[..|f1|][x];
      }
      var b := ChildBase(o1, f1, k).value;
      forall i | 0 <= i < 8
        ensures Packed(o2, f2, b + i, n.children[i])
      {
        PackedFrame(o1, f1, o2, f2, b + i, n.children[i], lo);
      }
    }
  }

  /** A uniform node's word is the leaf word holding its id. */
  lemma LeafAt(o: seq<bv32>, f: seq<bv32>, k: int, n: Node)
    requires WellFormed(n) && n.id != MIXED
    requires 0 <= k < |o| && o[k] == ToU32(n.id)
    ensures Packed(o, f, k, n)
  {
    LeafWordRoundTrip(n.id);
  }

  /** The decoding of a direct child field. */
  lemma NearBase(o: seq<bv32>, f: seq<bv32>, k: int, offset: int)
    requires 0 <= k < |o| && !IsFar(o[k]) && ToNat(ChildField(o[k])) == offset
    ensures ChildBase(o, f, k) == Success(k + offset)
  {
  }

  /** The decoding of a far child field. */
  lemma FarBase(o: seq<bv32>, f: seq<bv32>, k: int, x: int, offset: int)
    requires 0 <= k < |o| && IsFar(o[k]) && ToNat(ChildField(o[k])) == x
    requires 0 <= x < |f| && ToNat(f[x]) == offset
    ensures ChildBase(o, f, k) == Success(k + offset)
  {
  }

  /** A mixed node is packed at `k` once its word decodes to a block of packed children. */
  lemma MixedAt(o: seq<bv32>, f: seq<bv32>, k: int, n: Node, b: int)
    requires WellFormed(n) && n.id == MIXED
    requires 0 <= k < b && b + 8 <= |o|
    requires !IsLeafWord(o[k]) && o[k] & VALID_MASK == VALID_MASK && LeafMask(o[k]) == UniformMask(n.children)
    requires ChildBase(o, f, k) == Success(b)
    requires forall c :: 0 <= c < 8 ==> Packed(o, f, b + c, n.children[c])
    ensures Packed(o, f, k, n)
  {
  }

  /**
    Overwriting the word at `k` with a word that decodes to the block at `L`
    packs `child` there, as long as the block lies at or after `L`.
   */
  lemma PatchMixed(st: PackState, k: int, w: bv32, f2: seq<bv32>, child: Node, L: int)
    requires WellFormed(child) && child.id == MIXED
    requires 0 <= k < L && L + 8 <= |st.octree|
    requires |st.far| <= |f2| && f2[..|st.far|] == st.far
    requires !IsLeafWord(w) && w & VALID_MASK == VALID_MASK && LeafMask(w) == UniformMask(child.children)
    requires ChildBase(st.octree[k := w], f2, k) == Success(L)
    requires forall c :: 0 <= c < 8 ==> PackedAbove(st.octree, st.far, L + c, child.children[c], L + 8)
    ensures PackedAbove(st.octree[k := w], f2, k, child, L)
  {
    var o2 := st.octree[k := w];
    forall c | 0 <= c < 8
      ensures Packed(o2, f2, L + c, child.children[c])
    {
      PackedFrame(st.octree, st.far, o2, f2, L + c, child.children[c], L + 8);
    }
    MixedAt(o2, f2, k, child, L);
  }

  /**
    Patching a child word with a direct offset to its block at `L`: the word
    decodes to `L` and the packed grandchildren stay packed.
   */
  lemma AttachNear(st: PackState, k: int, offset: int, child: Node, L: int)
    requires Counted(st) && WellFormed(child) && child.id == MIXED
    requires 0 <= k < L && L + 8 <= |st.octree| && offset == L - k && offset < FAR_LIMIT
    requires st.octree[k] & HIGH_HALF == 0 && st.octree[k] & VALID_MASK == VALID_MASK
    requires LeafMask(st.octree[k]) == UniformMask(child.children)
    requires forall c :: 0 <= c < 8 ==> PackedAbove(st.octree, st.far, L + c, child.children[c], L + 8)
    ensures PackedAbove(Attach(st, k, offset).octree, Attach(st, k, offset).far, k, child, L)
  {
    NearWord(st.octree[k], offset);
    LeafMaskKept(SetOffset(st.octree[k], ToU32(offset)), st.octree[k]);
    NearPatch(st, k, SetOffset(st.octree[k], ToU32(offset)), child, L);
  }

  /** The sequence half of `AttachNear`, for any word that decodes right. */
  lemma NearPatch(st: PackState, k: int, w: bv32, child: Node, L: int)
    requires WellFormed(child) && child.id == MIXED
    requires 0 <= k < L && L + 8 <= |st.octree|
    requires ToNat(ChildField(w)) == L - k && !IsFar(w)
    requires !IsLeafWord(w) && w & VALID_MASK == VALID_MASK && LeafMask(w) == UniformMask(child.children)
    requires forall c :: 0 <= c < 8 ==> PackedAbove(st.octree, st.far, L + c, child.children[c], L + 8)
    ensures PackedAbove(st.octree[k := w], st.far, k, child, L)
  {
    NearBase(st.octree[k := w], st.far, k, L - k);
    PatchMixed(st, k, w, st.far, child, L);
  }

  /**
    Patching a child word with a far reference: the distance to the block at
    `L` goes to the end of the far table and the word holds its index.
   */
  lemma AttachFar(st: PackState, k: int, offset: int, child: Node, L: int)
    requires Counted(st) && WellFormed(child) && child.id == MIXED
    requires 0 <= k < L && L + 8 <= |st.octree| && offset == L - k
    requires FAR_LIMIT <= offset < 0x1_0000_0000 && st.farLen < FAR_LIMIT
    requires st.octree[k] & HIGH_HALF == 0 && st.octree[k] & VALID_MASK == VALID_MASK
    requires LeafMask(st.octree[k]) == UniformMask(child.children)
    requires forall c :: 0 <= c < 8 ==> PackedAbove(st.octree, st.far, L + c, child.children[c], L + 8)
    ensures PackedAbove(Attach(st, k, offset).octree, Attach(st, k, offset).far, k, child, L)
  {
    FarWord(st.octree[k], st.farLen);
    LeafMaskKept(SetFar(st.octree[k], ToU32(st.farLen)), st.octree[k]);
    ToU32Exact(offset);
    FarPatch(st, k, SetFar(st.octree[k], ToU32(st.farLen)), ToU32(offset), child, L);
  }

  /** The sequence half of `AttachFar`, for any word and far entry that decode right. */
  lemma FarPatch(st: PackState, k: int, w: bv32, v: bv32, child: Node, L: int)
    requires Counted(st) && WellFormed(child) && child.id == MIXED
    requires 0 <= k < L && L + 8 <= |st.octree| && ToNat(v) == L - k
    requires ToNat(ChildField(w)) == st.farLen && IsFar(w)
    requires !IsLeafWord(w) && w & VALID_MASK == VALID_MASK && LeafMask(w) == UniformMask(child.children)
    requires forall c :: 0 <= c < 8 ==> PackedAbove(st.octree, st.far, L + c, child.children[c], L + 8)
    ensures PackedAbove(st.octree[k := w], st.far + [v], k, child, L)
  {
    var f2 := st.far + [v];
    assert f2[st.farLen] == v;
    FarBase(st.octree[k := w], f2, k, st.farLen, L - k);
    assert f2[..|st.far|] == st.far;
    PatchMixed(st, k, w, f2, child, L);
  }

  /** A uniform child's offset is 0, and storing it leaves the state as it was. */
  lemma AttachZero(st: PackState, k: int)
    requires 0 <= k < |st.octree|
    ensures Attach(st, k, 0) == st
  {
    FieldValue(0);
    DirectZero(st.octree[k]);
    assert st.octree[k := st.octree[k]] == st.octree;
  }
  /**
    `build_real_octree` on a mixed node: each child word it pushed at
    `|st.octree| + i` packs child i, with all blocks after the eight child
    words. Holds when the final far table fits the 15-bit index field and the
    final array fits 32-bit offsets.
   */
  lemma {:induction false} BuildRealLayout(n: Node, cur: int, st: PackState)
    requires WellFormed(n) && n.id == MIXED && Counted(st)
    requires |BuildReal(n, cur, st).1.far| <= FAR_LIMIT
    requires |BuildReal(n, cur, st).1.octree| < 0x1_0000_0000
    ensures BlockPacked(BuildReal(n, cur, st).1.octree, BuildReal(n, cur, st).1.far, |st.octree|, n)
    decreases n, 1
  {
    var st1 := st.(octree := st.octree + ChildWords(n.children), len := st.len + 8);
    var start := |st.octree|;
    assert BuildReal(n, cur, st).1 == PackChildren(n, 0, start, st1);
    PushedWords(n, st);
    PackChildrenLayout(n, 0, start, st1);
  }

  /** After the first loop no child is packed yet and every child word is as pushed. */
  lemma PushedWords(n: Node, st: PackState)
    requires WellFormed(n) && n.id == MIXED && Counted(st)
    ensures LoopInv(n, 0, |st.octree|, st.(octree := st.octree + ChildWords(n.children), len := st.len + 8))
  {
    var o := st.octree + ChildWords(n.children);
    forall j | 0 <= j < 8
      ensures o[|st.octree| + j] == ChildWord(n.children[j])
    {
    }
  }

  /**
    What holds before iteration `i` of the second loop: the words of children
    `i`..7 are still as the first loop pushed them, and children 0..i-1 are
    packed with their blocks after the eight child words.
   */
  ghost predicate LoopInv(n: Node, i: int, start: int, st: PackState) {
    && WellFormed(n) && n.id == MIXED && 0 <= i <= 8
    && Counted(st) && 0 <= start && start + 8 <= |st.octree|
    && (forall j :: i <= j < 8 ==> st.octree[start + j] == ChildWord(n.children[j]))
    && (forall j :: 0 <= j < i ==> PackedAbove(st.octree, st.far, start + j, n.children[j], start + 8))
  }

  /** The second loop of `build_real_octree`, octant `i` on. */
  lemma {:induction false} PackChildrenLayout(n: Node, i: int, start: int, st: PackState)
    requires LoopInv(n, i, start, st)
    requires |PackChildren(n, i, start, st).far| <= FAR_LIMIT
    requires |PackChildren(n, i, start, st).octree| < 0x1_0000_0000
    ensures BlockPacked(PackChildren(n, i, start, st).octree, PackChildren(n, i, start, st).far, start, n)
    decreases n, 0, 8 - i, 2
  {
    if i < 8 {
      var st2 := AttachChild(n.children[i], start + i, st);
      assert PackChildren(n, i, start, st) == PackChildren(n, i + 1, start, st2);
      LoopStep(n, i, start, st);
      PackChildrenLayout(n, i + 1, start, st2);
    }
  }

  /** One turn of the second loop keeps `LoopInv`, one octant further. */
  lemma LoopStep(n: Node, i: int, start: int, st: PackState)
    requires LoopInv(n, i, start, st) && i < 8
    requires |AttachChild(n.children[i], start + i, st).far| <= FAR_LIMIT
    requires |AttachChild(n.children[i], start + i, st).octree| < 0x1_0000_0000
    ensures LoopInv(n, i + 1, start, AttachChild(n.children[i], start + i, st))
    decreases n, 0, 8 - i, 1
  {
    AttachChildFrame(n.children[i], start + i, st);
    StepPacked(n, i, start, st);
  }

  /** The packed part of `LoopStep`: children 0..i are packed after the turn. */
  lemma StepPacked(n: Node, i: int, start: int, st: PackState)
    requires WellFormed(n) && n.id == MIXED && 0 <= i < 8
    requires Counted(st) && 0 <= start && start + 8 <= |st.octree|
    requires st.octree[start + i] == ChildWord(n.children[i])
    requires forall j :: 0 <= j < i ==> PackedAbove(st.octree, st.far, start + j, n.children[j], start + 8)
    requires |AttachChild(n.children[i], start + i, st).far| <= FAR_LIMIT
    requires |AttachChild(n.children[i], start + i, st).octree| < 0x1_0000_0000
    ensures var st2 := AttachChild(n.children[i], start + i, st);
      forall j :: 0 <= j <= i ==> PackedAbove(st2.octree, st2.far, start + j, n.children[j], start + 8)
    decreases n, 0, 8 - i, 0
  {
    var st2 := AttachChild(n.children[i], start + i, st);
    ChildLayout(n.children[i], start + i, start + 8, st);
    EarlierKept(n, i, start, st);
    PackedUpTo(st2.octree, st2.far, start, n, i);
  }

  /** Children 0..i-1 packed and child i packed make children 0..i packed. */
  lemma PackedUpTo(o: seq<bv32>, f: seq<bv32>, start: int, n: Node, i: int)
    requires |n.children| == 8 && 0 <= i < 8
    requires forall j :: 0 <= j < i ==> PackedAbove(o, f, start + j, n.children[j], start + 8)
    requires PackedAbove(o, f, start + i, n.children[i], start + 8)
    ensures forall j :: 0 <= j <= i ==> PackedAbove(o, f, start + j, n.children[j], start + 8)
  {
  }

  /** Packing child i keeps children 0..i-1 packed. */
  lemma EarlierKept(n: Node, i: int, start: int, st: PackState)
    requires WellFormed(n) && n.id == MIXED && 0 <= i < 8
    requires Counted(st) && 0 <= start && start + 8 <= |st.octree|
    requires forall j :: 0 <= j < i ==> PackedAbove(st.octree, st.far, start + j, n.children[j], start + 8)
    ensures var st2 := AttachChild(n.children[i], start + i, st);
      forall j :: 0 <= j < i ==> PackedAbove(st2.octree, st2.far, start + j, n.children[j], start + 8)
  {
    var st2 := AttachChild(n.children[i], start + i, st);
    AttachChildFrame(n.children[i], start + i, st);
    EarlierFrame(n, i, start, start + i, st.octree, st.far, st2.octree, st2.far);
  }

  /**
    One turn of the second loop changes no word of the array before the
    appended block except the child's own, and only appends to the far table.
   */
  lemma AttachChildFrame(child: Node, k: int, st: PackState)
    requires WellFormed(child) && Counted(st) && 0 <= k < |st.octree|
    ensures var r := AttachChild(child, k, st);
      && |r.octree| == |st.octree| + PackedSize(child)
      && (forall j :: 0 <= j < |st.octree| && j != k ==> r.octree[j] == st.octree[j])
      && r.far[..|st.far|] == st.far
  {
    var offset := BuildReal(child, k, st).0;
    var st1 := BuildReal(child, k, st).1;
    BuildRealAppends(child, k, st);
    AttachFrame(st1, k, offset);
    PrefixPointwise(st.octree, st1.octree);
    var st2 := Attach(st1, k, offset);
    assert st2.far[..|st.far|] == st2.far[..|st1.far|][..|st.far|];
  }

  lemma PrefixPointwise(a: seq<bv32>, b: seq<bv32>)
    requires |a| <= |b| && b[..|a|] == a
    ensures forall j :: 0 <= j < |a| ==> b[j] == a[j]
  {
    forall j | 0 <= j < |a|
      ensures b[j] == a[j]
    {
      assert b[j] == b[..|a|][j];
    }
  }

  /**
    Children 0..i-1 stay packed when no word changes except, possibly, the
    one at `skip`, which is none of theirs and lies before the blocks.
   */
  lemma EarlierFrame(n: Node, i: int, start: int, skip: int,
                     o1: seq<bv32>, f1: seq<bv32>, o2: seq<bv32>, f2: seq<bv32>)
    requires WellFormed(n) && n.id == MIXED && 0 <= i <= 8 && 0 <= start
    requires forall j :: 0 <= j < i ==> PackedAbove(o1, f1, start + j, n.children[j], start + 8)
    requires |o1| <= |o2| && |f1| <= |f2| && f2[..|f1|] == f1
    requires skip < start + 8 && !(start <= skip < start + i)
    requires forall j :: 0 <= j < |o1| && j != skip ==> o2[j] == o1[j]
    ensures forall j :: 0 <= j < i ==> PackedAbove(o2, f2, start + j, n.children[j], start + 8)
  {
    forall j | 0 <= j < i
      ensures PackedAbove(o2, f2, start + j, n.children[j], start + 8)
    {
      PackedFrame(o1, f1, o2, f2, start + j, n.children[j], start + 8);
    }
  }

  /**
    One iteration of the second loop: packing `child`, whose word is at `k`,
    and patching that word leaves it packed with its block at `lo` or later.
   */
  lemma {:induction false} ChildLayout(child: Node, k: int, lo: int, st: PackState)
    requires WellFormed(child) && Counted(st) && 0 <= k < lo <= |st.octree|
    requires st.octree[k] == ChildWord(child)
    requires |AttachChild(child, k, st).far| <= FAR_LIMIT
    requires |AttachChild(child, k, st).octree| < 0x1_0000_0000
    ensures PackedAbove(AttachChild(child, k, st).octree, AttachChild(child, k, st).far, k, child, lo)
    decreases child, 3
  {
    if child.id != MIXED {
      LeafChildLayout(child, k, lo, st);
    } else {
      MixedChildLayout(child, k, lo, st);
    }
  }

  /** `ChildLayout` for a uniform child: its word is left as the leaf word pushed for it. */
  lemma LeafChildLayout(child: Node, k: int, lo: int, st: PackState)
    requires WellFormed(child) && child.id != MIXED && Counted(st) && 0 <= k < |st.octree|
    requires st.octree[k] == ChildWord(child)
    ensures PackedAbove(AttachChild(child, k, st).octree, AttachChild(child, k, st).far, k, child, lo)
  {
    BuildRealAppends(child, k, st);
    AttachZero(st, k);
    LeafAt(st.octree, st.far, k, child);
  }

  /** `ChildLayout` for a mixed child: its word is patched to reach the block just appended. */
  lemma {:induction false} MixedChildLayout(child: Node, k: int, lo: int, st: PackState)
    requires WellFormed(child) && child.id == MIXED && Counted(st) && 0 <= k < lo <= |st.octree|
    requires st.octree[k] == ChildWord(child)
    requires |AttachChild(child, k, st).far| <= FAR_LIMIT
    requires |AttachChild(child, k, st).octree| < 0x1_0000_0000
    ensures PackedAbove(AttachChild(child, k, st).octree, AttachChild(child, k, st).far, k, child, lo)
    decreases child, 2
  {
    MixedChildWord(child, k, st);
    BuildRealLayout(child, k, st);
    AttachLayout(BuildReal(child, k, st).1, k, BuildReal(child, k, st).0, child, |st.octree|);
  }

  /**
    Before its word is patched, a mixed child's block follows the old array
    and its word still holds the header pushed for it.
   */
  lemma MixedChildWord(child: Node, k: int, st: PackState)
    requires WellFormed(child) && child.id == MIXED && Counted(st) && 0 <= k < |st.octree|
    requires st.octree[k] == ChildWord(child)
    requires |AttachChild(child, k, st).far| <= FAR_LIMIT
    requires |AttachChild(child, k, st).octree| < 0x1_0000_0000
    ensures var r := BuildReal(child, k, st);
      && Counted(r.1) && r.0 == |st.octree| - k && |st.octree| + 8 <= |r.1.octree| && |r.1.octree| < 0x1_0000_0000
      && |r.1.far| <= |Attach(r.1, k, r.0).far| <= FAR_LIMIT
      && r.1.octree[k] & HIGH_HALF == 0 && r.1.octree[k] & VALID_MASK == VALID_MASK
      && LeafMask(r.1.octree[k]) == UniformMask(child.children)
  {
    var offset := BuildReal(child, k, st).0;
    var st1 := BuildReal(child, k, st).1;
    BuildRealAppends(child, k, st);
    assert st1.octree[k] == st1.octree[..|st.octree|][k];
    AttachFrame(st1, k, offset);
    HeaderWord(child.children);
  }

  /** Patching a child word to reach its block at `L`, by either kind of reference. */
  lemma AttachLayout(st: PackState, k: int, offset: int, child: Node, L: int)
    requires Counted(st) && WellFormed(child) && child.id == MIXED
    requires 0 <= k < L && L + 8 <= |st.octree| && offset == L - k && offset < 0x1_0000_0000
    requires |Attach(st, k, offset).far| <= FAR_LIMIT
    requires st.octree[k] & HIGH_HALF == 0 && st.octree[k] & VALID_MASK == VALID_MASK
    requires LeafMask(st.octree[k]) == UniformMask(child.children)
    requires forall c :: 0 <= c < 8 ==> PackedAbove(st.octree, st.far, L + c, child.children[c], L + 8)
    ensures PackedAbove(Attach(st, k, offset).octree, Attach(st, k, offset).far, k, child, L)
  {
    if offset >= FAR_LIMIT {
      AttachFar(st, k, offset, child, L);
    } else {
      AttachNear(st, k, offset, child, L);
    }
  }

  // ---------------------------------------------------------------------------
  // Depth-first order of the blocks
  // ---------------------------------------------------------------------------

  /**
    `build_real_octree` on a mixed node places the blocks depth first: the
    block of a mixed child i starts right after the eight child words and the
    blocks of children 0..i-1, and the block of child 7 ends the array.
   */
  lemma {:induction false} DepthFirstLayout(n: Node, cur: int, st: PackState)
    requires WellFormed(n) && n.id == MIXED && Counted(st)
    requires |BuildReal(n, cur, st).1.far| <= FAR_LIMIT
    requires |BuildReal(n, cur, st).1.octree| < 0x1_0000_0000
    ensures BasesAt(n, 8, |st.octree|, BuildReal(n, cur, st).1)
    ensures |BuildReal(n, cur, st).1.octree| == |st.octree| + 8 + BlocksBefore(n, 8)
  {
    var st1 := st.(octree := st.octree + ChildWords(n.children), len := st.len + 8);
    var start := |st.octree|;
    assert BuildReal(n, cur, st).1 == PackChildren(n, 0, start, st1);
    PushedWords(n, st);
    PackChildrenBases(n, 0, start, st1);
  }

  /**
    The mixed children before octant `i` decode to the blocks that follow the
    eight child words, each after the blocks of its earlier siblings.
   */
  ghost predicate BasesAt(n: Node, i: int, start: int, st: PackState)
    requires |n.children| == 8 && 0 <= i <= 8
  {
    forall j {:trigger ChildBlock(n, start, j)} :: 0 <= j < i && n.children[j].id == MIXED ==>
      0 <= start + j < |st.octree| && ChildBase(st.octree, st.far, start + j) == Success(ChildBlock(n, start, j))
  }

  /**
    Where `build_real_octree` puts the block of child `j` of a node whose
    eight child words start at `start`: after those words and the blocks of
    children 0..j-1.
   */
  function ChildBlock(n: Node, start: int, j: int): int
    requires 0 <= j <= |n.children|
  {
    start + 8 + BlocksBefore(n, j)
  }

  /** The second loop, octant `i` on, with the array ending after the blocks of children 0..i-1. */
  lemma {:induction false} PackChildrenBases(n: Node, i: int, start: int, st: PackState)
    requires LoopInv(n, i, start, st)
    requires |st.octree| == start + 8 + BlocksBefore(n, i)
    requires BasesAt(n, i, start, st)
    requires |PackChildren(n, i, start, st).far| <= FAR_LIMIT
    requires |PackChildren(n, i, start, st).octree| < 0x1_0000_0000
    ensures BasesAt(n, 8, start, PackChildren(n, i, start, st))
    ensures |PackChildren(n, i, start, st).octree| == start + 8 + BlocksBefore(n, 8)
    decreases 8 - i
  {
    if i < 8 {
      var st2 := AttachChild(n.children[i], start + i, st);
      assert PackChildren(n, i, start, st) == PackChildren(n, i + 1, start, st2);
      LoopStep(n, i, start, st);
      BasesStep(n, i, start, st);
      PackChildrenBases(n, i + 1, start, st2);
    }
  }

  /** One turn of the second loop places the block of child i where the array ended. */
  lemma {:induction false} BasesStep(n: Node, i: int, start: int, st: PackState)
    requires WellFormed(n) && n.id == MIXED && 0 <= i < 8
    requires Counted(st) && 0 <= start && start + 8 <= |st.octree|
    requires st.octree[start + i] == ChildWord(n.children[i])
    requires |st.octree| == start + 8 + BlocksBefore(n, i)
    requires BasesAt(n, i, start, st)
    requires |AttachChild(n.children[i], start + i, st).far| <= FAR_LIMIT
    requires |AttachChild(n.children[i], start + i, st).octree| < 0x1_0000_0000
    ensures |AttachChild(n.children[i], start + i, st).octree| == start + 8 + BlocksBefore(n, i + 1)
    ensures BasesAt(n, i + 1, start, AttachChild(n.children[i], start + i, st))
  {
    TurnFacts(n, i, start, st);
    BasesExtend(n, i, start, st, AttachChild(n.children[i], start + i, st));
  }

  /**
    One turn of the second loop as the decoded bases see it: the words before
    the appended block are kept except child i's own, the far table is only
    appended to, and a mixed child i decodes to where the array ended.
   */
  ghost predicate TurnKeeps(n: Node, i: int, start: int, st: PackState, st2: PackState)
    requires |n.children| == 8 && 0 <= i < 8
  {
    && |st.octree| <= |st2.octree| && |st.far| <= |st2.far| && st2.far[..|st.far|] == st.far
    && (forall j :: 0 <= j < |st.octree| && j != start + i ==> st2.octree[j] == st.octree[j])
    && (n.children[i].id == MIXED ==>
          0 <= start + i < |st2.octree| && ChildBase(st2.octree, st2.far, start + i) == Success(|st.octree|))
  }

  /** Packing child i and patching its word is such a turn, and appends the child's block. */
  lemma {:induction false} TurnFacts(n: Node, i: int, start: int, st: PackState)
    requires WellFormed(n) && n.id == MIXED && 0 <= i < 8
    requires Counted(st) && 0 <= start && start + 8 <= |st.octree|
    requires st.octree[start + i] == ChildWord(n.children[i])
    requires |AttachChild(n.children[i], start + i, st).far| <= FAR_LIMIT
    requires |AttachChild(n.children[i], start + i, st).octree| < 0x1_0000_0000
    ensures TurnKeeps(n, i, start, st, AttachChild(n.children[i], start + i, st))
    ensures |AttachChild(n.children[i], start + i, st).octree| == |st.octree| + PackedSize(n.children[i])
  {
    var st2 := AttachChild(n.children[i], start + i, st);
    AttachChildFrame(n.children[i], start + i, st);
    if n.children[i].id == MIXED {
      MixedChildBase(n.children[i], start + i, st, st2);
    }
  }

  /** `BasesAt` grows by one octant over such a turn. */
  lemma {:induction false} BasesExtend(n: Node, i: int, start: int, st: PackState, st2: PackState)
    requires |n.children| == 8 && 0 <= i < 8 && 0 <= start && BasesAt(n, i, start, st)
    requires |st.octree| == start + 8 + BlocksBefore(n, i)
    requires TurnKeeps(n, i, start, st, st2)
    ensures BasesAt(n, i + 1, start, st2)
  {
    BasesKept(n, i, start, start + i, st, st2);
    BasesAdded(n, i, start, st2, |st.octree|);
  }

  /**
    `BasesAt` carries over to a state that keeps the words of the first `i`
    children and only appends to the far table.
   */
  lemma {:induction false} BasesKept(n: Node, i: int, start: int, skip: int, st: PackState, st2: PackState)
    requires |n.children| == 8 && 0 <= i <= 8 && 0 <= start && BasesAt(n, i, start, st)
    requires |st.octree| <= |st2.octree| && |st.far| <= |st2.far| && st2.far[..|st.far|] == st.far
    requires start + i <= skip
    requires forall j :: 0 <= j < |st.octree| && j != skip ==> st2.octree[j] == st.octree[j]
    ensures BasesAt(n, i, start, st2)
  {
    forall j | 0 <= j < i && n.children[j].id == MIXED
      ensures 0 <= start + j < |st2.octree|
      ensures ChildBase(st2.octree, st2.far, start + j) == Success(ChildBlock(n, start, j))
    {
      var b := ChildBlock(n, start, j);
      assert ChildBase(st.octree, st.far, start + j) == Success(b);
      BaseFrame(st.octree, st.far, st2.octree, st2.far, start + j);
    }
  }

  /** A decoded base stays put when its word is kept and the far table only grows. */
  lemma BaseFrame(o1: seq<bv32>, f1: seq<bv32>, o2: seq<bv32>, f2: seq<bv32>, k: int)
    requires 0 <= k < |o1| <= |o2| && o2[k] == o1[k]
    requires |f1| <= |f2| && f2[..|f1|] == f1
    requires ChildBase(o1, f1, k).Success?
    ensures ChildBase(o2, f2, k) == ChildBase(o1, f1, k)
  {
    if IsFar(o1[k]) {
      var x := ToNat(ChildField(o1[k]));
      assert f2[x] == f2[..|f1|][x];
    }
  }

  /** `BasesAt` for one more octant once child i decodes to the end of the earlier blocks. */
  lemma {:induction false} BasesAdded(n: Node, i: int, start: int, st: PackState, end: int)
    requires |n.children| == 8 && 0 <= i < 8 && 0 <= start && BasesAt(n, i, start, st)
    requires end == start + 8 + BlocksBefore(n, i)
    requires n.children[i].id == MIXED ==>
      start + i < |st.octree| && ChildBase(st.octree, st.far, start + i) == Success(end)
    ensures BasesAt(n, i + 1, start, st)
  {
    forall j | 0 <= j < i + 1 && n.children[j].id == MIXED
      ensures 0 <= start + j < |st.octree|
      ensures ChildBase(st.octree, st.far, start + j) == Success(ChildBlock(n, start, j))
    {
      if j < i {
        var b := ChildBlock(n, start, j);
        assert ChildBase(st.octree, st.far, start + j) == Success(b);
      } else {
        assert ChildBlock(n, start, j) == end;
      }
    }
  }

  /**
    Packing a mixed child whose word is at `k` and patching that word makes
    the word decode to the first word appended, where the array ended.
   */
  lemma {:induction false} MixedChildBase(child: Node, k: int, st: PackState, st2: PackState)
    requires WellFormed(child) && child.id == MIXED && Counted(st) && 0 <= k < |st.octree|
    requires st.octree[k] == ChildWord(child)
    requires st2 == AttachChild(child, k, st)
    requires |st2.far| <= FAR_LIMIT && |st2.octree| < 0x1_0000_0000
    ensures k < |st2.octree| && ChildBase(st2.octree, st2.far, k) == Success(|st.octree|)
  {
    MixedChildSetup(child, k, st);
    var offset := BuildReal(child, k, st).0;
    var st1 := BuildReal(child, k, st).1;
    if offset >= FAR_LIMIT {
      assert |st2.far| == |st1.far| + 1;
      FarChildBase(st1, k, offset, st2);
    } else {
      NearChildBase(st1, k, offset, st2);
    }
  }

  /**
    Packing a mixed child whose word is at `k` leaves that word a header with
    every valid bit set and an empty child field, and returns the distance
    from `k` to the end of the array before the call.
   */
  lemma {:induction false} MixedChildSetup(child: Node, k: int, st: PackState)
    requires WellFormed(child) && child.id == MIXED && Counted(st) && 0 <= k < |st.octree|
    requires st.octree[k] == ChildWord(child)
    ensures k < |BuildReal(child, k, st).1.octree|
    ensures BuildReal(child, k, st).1.octree[k] & HIGH_HALF == 0
    ensures BuildReal(child, k, st).1.octree[k] & VALID_MASK == VALID_MASK
    ensures k + BuildReal(child, k, st).0 == |st.octree| && BuildReal(child, k, st).0 >= 1
    ensures AttachChild(child, k, st) == Attach(BuildReal(child, k, st).1, k, BuildReal(child, k, st).0)
  {
    var st1 := BuildReal(child, k, st).1;
    BuildRealAppends(child, k, st);
    assert st1.octree[k] == st1.octree[..|st.octree|][k];
    HeaderHigh(child.children);
    HeaderValidByte(child.children);
  }

  /** A direct offset patched into a child word decodes to the word at that distance. */
  lemma NearChildBase(st: PackState, k: int, offset: int, st2: PackState)
    requires Counted(st) && 0 <= k < |st.octree| && 0 < offset < FAR_LIMIT
    requires st.octree[k] & HIGH_HALF == 0 && st.octree[k] & VALID_MASK == VALID_MASK
    requires st2 == Attach(st, k, offset)
    ensures k < |st2.octree| && ChildBase(st2.octree, st2.far, k) == Success(k + offset)
  {
    NearWord(st.octree[k], offset);
    NearBase(st2.octree, st2.far, k, offset);
  }

  /** A far reference patched into a child word decodes to the word at the stored distance. */
  lemma FarChildBase(st: PackState, k: int, offset: int, st2: PackState)
    requires Counted(st) && 0 <= k < |st.octree| && st.farLen < FAR_LIMIT
    requires FAR_LIMIT <= offset < 0x1_0000_0000
    requires st.octree[k] & HIGH_HALF == 0 && st.octree[k] & VALID_MASK == VALID_MASK
    requires st2 == Attach(st, k, offset)
    ensures k < |st2.octree| && ChildBase(st2.octree, st2.far, k) == Success(k + offset)
  {
    FarWord(st.octree[k], st.farLen);
    ToU32Exact(offset);
    assert st2.far[st.farLen] == ToU32(offset);
    FarBase(st2.octree, st2.far, k, st.farLen, offset);
  }

  // ---------------------------------------------------------------------------
  // build_SO
  // ---------------------------------------------------------------------------

  /**
    After `build_SO` the word at index 0 packs the whole tree: a uniform root
    is the single leaf word, a mixed root's word reaches its children at
    index 1. Holds when the far table fits the 15-bit index field and the
    array fits 32-bit offsets.
   */
  lemma PackRootLayout(root: Node)
    requires WellFormed(root)
    requires |PackRoot(root).far| <= FAR_LIMIT && |PackRoot(root).octree| < 0x1_0000_0000
    ensures Packed(PackRoot(root).octree, PackRoot(root).far, 0, root)
  {
    if root.id != MIXED {
      LeafAt([ToU32(root.id)], [], 0, root);
    } else {
      var st0 := PackState([RootWord(root)], 1, [], 0);
      var r := BuildReal(root, 0, st0).1;
      BuildRealAppends(root, 0, st0);
      assert r.octree[0] == r.octree[..1][0];
      BuildRealLayout(root, 0, st0);
      RootWordDecodes(root);
      NearBase(r.octree, r.far, 0, 1);
      MixedAt(r.octree, r.far, 0, root, 1);
    }
  }

  /**
    The root word of a mixed root: not a leaf, every valid bit set, a leaf
    bit for each uniform child, children at offset 1.
   */
  lemma RootWordDecodes(root: Node)
    requires WellFormed(root) && root.id == MIXED
    ensures var w := RootWord(root);
      ToNat(ChildField(w)) == 1 && !IsFar(w) && !IsLeafWord(w) && w & VALID_MASK == VALID_MASK
    ensures LeafMask(RootWord(root)) == UniformMask(root.children)
  {
    var h := NodeHeader(root.children);
    HeaderWord(root.children);
    OffsetOne(h);
    NearWord(h, 1);
    LeafMaskKept(SetOffset(h, ToU32(1)), h);
  }

  // ---------------------------------------------------------------------------
  // traverse_octree on a packed tree
  // ---------------------------------------------------------------------------

  /**
    On a packed subtree, `traverse_octree` reads only words and far entries
    that exist and returns what the same search returns on the build tree.
   */
  lemma {:induction false} TraverseMatches(o: seq<bv32>, f: seq<bv32>, k: int, n: Node, size: int, pos: Vec3,
                                           hit: (Vec3, int) -> bool, enter: (Vec3, int) -> real)
    requires Packed(o, f, k, n)
    ensures Traverse(o, f, k, size, pos, hit, enter) == Success(TraverseTree(n, size, pos, hit, enter))
    decreases n, 1
  {
    if size >= 1 && hit(pos, size) && n.id == MIXED {
      var b := ChildBase(o, f, k).value;
      SelectMatches(o, f, k, b, n, size, pos, 0, None, hit, enter);
    }
  }

  /**
    The child loop on a packed node: with every valid bit set, octant i is
    read at slot i of the block, and the loop selects as `Nearest` does on the
    children's results.
   */
  lemma {:induction false} SelectMatches(o: seq<bv32>, f: seq<bv32>, k: int, b: int, n: Node, size: int, pos: Vec3,
                                         i: int, best: Option<Probe>,
                                         hit: (Vec3, int) -> bool, enter: (Vec3, int) -> real)
    requires WellFormed(n) && n.id == MIXED && 0 <= k < |o| && size >= 1 && 0 <= i <= 8
    requires o[k] & VALID_MASK == VALID_MASK
    requires forall c :: 0 <= c < 8 ==> Packed(o, f, b + c, n.children[c])
    ensures SelectChildren(o, f, k, b, size, pos, i, i, best, hit, enter)
            == Success(Nearest(Candidates(n, size, pos, hit, enter), i, best))
    decreases n, 0, 8 - i
  {
    if i < 8 {
      FullValidByte(o[k], i);
      var child := ChildPos(pos, size / 2, i);
      TraverseMatches(o, f, b + i, n.children[i], size / 2, child, hit, enter);
      var c := TraverseTree(n.children[i], size / 2, child, hit, enter);
      assert Candidates(n, size, pos, hit, enter)[i] == c;
      SelectMatches(o, f, k, b, n, size, pos, i + 1, Nearer(best, c), hit, enter);
    }
  }

  /**
    `build_SO` followed by `traverse_octree` from the root word, with the
    root cube of `build_SO`, finds what the search on the build tree finds.
   */
  lemma BuildSOTraversal(worldSize: int, hit: (Vec3, int) -> bool, enter: (Vec3, int) -> real)
    requires worldSize >= 1
    requires |BuildSO(worldSize).far| <= FAR_LIMIT && |BuildSO(worldSize).octree| < 0x1_0000_0000
    ensures var pos := Vec3(-(worldSize / 2), -(worldSize / 2), -(worldSize / 2));
      Traverse(BuildSO(worldSize).octree, BuildSO(worldSize).far, 0, worldSize, pos, hit, enter)
      == Success(TraverseTree(Build(worldSize, pos), worldSize, pos, hit, enter))
  {
    var pos := Vec3(-(worldSize / 2), -(worldSize / 2), -(worldSize / 2));
    PackRootLayout(Build(worldSize, pos));
    TraverseMatches(BuildSO(worldSize).octree, BuildSO(worldSize).far, 0, Build(worldSize, pos),
                    worldSize, pos, hit, enter);
  }
}
