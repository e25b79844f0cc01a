/**
  The packer of utils/voxel_octree.h: `build_real_octree` and `build_SO`
  flatten a build tree into the word array `world_octree` and the far-pointer
  table `octree_far`. The four globals of the source (the two arrays and their
  length counters) are threaded through the functions as a `PackState` value.

  Layout: the words of a mixed node's eight children are contiguous; each
  child's own block is appended, depth first, before the block of its next
  sibling; a child's word is then patched with the distance from the child's
  word to its block (or, when that distance does not fit 15 bits, with an
  index into the far table, which receives the distance).
 */
module Packer {
  import opened BuildTree
  import opened PackedWord

  /** `world_octree`, `world_octree_len`, `octree_far` and `octree_far_len`. */
  datatype PackState = PackState(octree: seq<bv32>, len: int, far: seq<bv32>, farLen: int)

  /** The length counters agree with the arrays they count. */
  predicate Counted(st: PackState) {
    st.len == |st.octree| && st.farLen == |st.far|
  }

  /** The word the first loop of `build_real_octree` pushes for a child. */
  function ChildWord(child: Node): bv32
    requires WellFormed(child)
  {
    if child.id != MIXED then ToU32(child.id) else NodeHeader(child.children)
  }

  /** The eight words pushed for the children of a mixed node, in octant order. */
  function ChildWords(kids: seq<Node>): (ws: seq<bv32>)
    requires |kids| == 8 && forall i :: 0 <= i < 8 ==> WellFormed(kids[i])
    ensures |ws| == 8
  {
    seq(8, i requires 0 <= i < 8 => ChildWord(kids[i]))
  }

  /**
    What the first loop pushes for child i: a uniform child becomes the leaf
    word holding its id; a mixed child becomes a header with every valid bit
    set, a zero child field, a clear far flag, and the leaf bit of each
    grandchild set exactly when that grandchild is uniform.
   */
  lemma ChildWordsMeaning(kids: seq<Node>, i: int)
    requires |kids| == 8 && forall c :: 0 <= c < 8 ==> WellFormed(kids[c])
    requires 0 <= i < 8
    ensures kids[i].id != MIXED ==> IsLeafWord(ChildWords(kids)[i]) && ToNat(ChildWords(kids)[i]) == kids[i].id
    ensures kids[i].id == MIXED ==>
      && ChildWords(kids)[i] & VALID_MASK == VALID_MASK
      && ChildWords(kids)[i] & HIGH_HALF == 0
      && LeafBits(ChildWords(kids)[i], kids[i].children)
  {
    assert ChildWords(kids)[i] == ChildWord(kids[i]);
    if kids[i].id != MIXED {
      LeafWordRoundTrip(kids[i].id);
    } else {
      HeaderBits(kids[i].children);
    }
  }

  /** What the patch of a header word needs: empty high half, every valid bit, the leaf mask. */
  lemma HeaderWord(kids: seq<Node>)
    requires |kids| == 8
    ensures NodeHeader(kids) & HIGH_HALF == 0 && NodeHeader(kids) & VALID_MASK == VALID_MASK
    ensures LeafMask(NodeHeader(kids)) == UniformMask(kids)
  {
    HeaderBits(kids);
  }

  /** The header of a mixed node, bit by bit. */
  lemma HeaderBits(kids: seq<Node>)
    requires |kids| == 8
    ensures NodeHeader(kids) & VALID_MASK == VALID_MASK && NodeHeader(kids) & HIGH_HALF == 0
    ensures LeafBits(NodeHeader(kids), kids)
    ensures LeafMask(NodeHeader(kids)) == UniformMask(kids)
  {
    HeaderValidByte(kids);
    HeaderHigh(kids);
    forall j | 0 <= j < 8
      ensures NodeHeader(kids) & LeafBit(j) != 0 <==> kids[j].id != MIXED
    {
      HeaderLeaf(kids, j);
    }
    MaskFromBits(NodeHeader(kids), kids);
  }

  /**
    The body of the second loop once the child's offset is known: small
    offsets go into the child field, larger ones into the far table, whose
    current length becomes the field.
   */
  function Attach(st: PackState, k: int, offset: int): (r: PackState)
    requires 0 <= k < |st.octree|
    ensures |r.octree| == |st.octree| && r.len == st.len
  {
    if offset >= FAR_LIMIT then
      st.(octree := st.octree[k := SetFar(st.octree[k], ToU32(st.farLen))],
          far := st.far + [ToU32(offset)],
          farLen := st.farLen + 1)
    else
      st.(octree := st.octree[k := SetOffset(st.octree[k], ToU32(offset))])
  }

  /**
    `build_real_octree(n, cur)`: packs the subtree below `n`, whose own word is
    at index `cur`, and returns the offset to store in that word together with
    the new state. A uniform node packs nothing and returns 0.
   */
  function BuildReal(n: Node, cur: int, st: PackState): (r: (int, PackState))
    requires WellFormed(n) && Counted(st)
    ensures Counted(r.1)
    ensures |r.1.octree| >= |st.octree| && |r.1.far| >= |st.far|
    decreases n, 1
  {
    if n.id != MIXED then (0, st)
    else
      var st1 := st.(octree := st.octree + ChildWords(n.children), len := st.len + 8);
      var start := st1.len - 8;
      var st2 := PackChildren(n, 0, start, st1);
      (start - cur, st2)
  }

  /**
    The second loop of `build_real_octree` from octant `i` on: pack child i,
    patch its word at `start + i` with the returned offset, continue.
   */
  function PackChildren(n: Node, i: int, start: int, st: PackState): (r: PackState)
    requires WellFormed(n) && n.id == MIXED && 0 <= i <= 8
    requires Counted(st) && 0 <= start && start + 8 <= |st.octree|
    ensures Counted(r)
    ensures |r.octree| >= |st.octree| && |r.far| >= |st.far|
    decreases n, 0, 8 - i
  {
    if i == 8 then st
    else PackChildren(n, i + 1, start, AttachChild(n.children[i], start + i, st))
  }

  /**
    One turn of the second loop: pack the subtree of `child`, whose word is at
    `k`, and patch that word with the returned offset.
   */
  function AttachChild(child: Node, k: int, st: PackState): (r: PackState)
    requires WellFormed(child) && Counted(st) && 0 <= k < |st.octree|
    ensures Counted(r)
    ensures |r.octree| >= |st.octree| && |r.far| >= |st.far|
    decreases child, 2
  {
    var r := BuildReal(child, k, st);
    Attach(r.1, k, r.0)
  }

  /** The word `build_SO` stores first for a mixed root: offset 1 and the header. */
  function RootWord(root: Node): bv32
    requires WellFormed(root) && root.id == MIXED
  {
    (1 << 17) | NodeHeader(root.children)
  }

  /**
    `build_SO` on an already built tree: a uniform root becomes a single leaf
    word; otherwise the root word is followed by the packed root block.
   */
  function PackRoot(root: Node): (st: PackState)
    requires WellFormed(root)
    ensures Counted(st)
  {
    if root.id != MIXED then PackState([ToU32(root.id)], 1, [], 0)
    else BuildReal(root, 0, PackState([RootWord(root)], 1, [], 0)).1
  }

  /** `build_SO(world_size)`: build the tree of the cube centred on the origin and pack it. */
  function BuildSO(worldSize: int): PackState
    requires worldSize >= 1
  {
    PackRoot(Build(worldSize, Geometry.Vec3(-(worldSize / 2), -(worldSize / 2), -(worldSize / 2))))
  }

  // ---------------------------------------------------------------------------
  // Sizes and frames
  // ---------------------------------------------------------------------------

  /** The number of words `build_real_octree` appends for the subtree below `n`. */
  function PackedSize(n: Node): nat
    decreases n, 1
  {
    if n.id != MIXED then 0 else 8 + ChildrenSize(n, 0)
  }

  /** The words appended for the subtrees of the children of `n` from octant `i` on. */
  function ChildrenSize(n: Node, i: int): nat
    requires 0 <= i
    decreases n, 0, |n.children| - i
  {
    if i >= |n.children| then 0 else PackedSize(n.children[i]) + ChildrenSize(n, i + 1)
  }

  /** The words appended for the subtrees of the children of `n` before octant `i`. */
  function BlocksBefore(n: Node, i: int): nat
    requires 0 <= i <= |n.children|
  {
    if i == 0 then 0 else BlocksBefore(n, i - 1) + PackedSize(n.children[i - 1])
  }

  /** The prefix and suffix sums of the children's block sizes split the whole at any octant. */
  lemma {:induction false} BlocksSplit(n: Node, i: int)
    requires 0 <= i <= |n.children|
    ensures ChildrenSize(n, 0) == BlocksBefore(n, i) + ChildrenSize(n, i)
    decreases i
  {
    if i > 0 {
      BlocksSplit(n, i - 1);
    }
  }

  /**
    `build_real_octree` appends exactly `PackedSize(n)` words (none for a
    uniform node, eight for the children of a mixed node plus their own
    blocks), leaves every word before its first new word untouched, and only
    appends to the far table. On a mixed node it returns the distance from
    `cur` to the first child word, on a uniform node 0.
   */
  lemma {:induction false} BuildRealAppends(n: Node, cur: int, st: PackState)
    requires WellFormed(n) && Counted(st)
    ensures var r := BuildReal(n, cur, st).1;
      |r.octree| == |st.octree| + PackedSize(n) &&
      r.octree[..|st.octree|] == st.octree &&
      r.far[..|st.far|] == st.far
    ensures n.id != MIXED ==> BuildReal(n, cur, st) == (0, st)
    ensures n.id == MIXED ==> BuildReal(n, cur, st).0 == |st.octree| - cur
    ensures n.id == MIXED && cur < |st.octree| ==> BuildReal(n, cur, st).0 >= 1
    decreases n, 1
  {
    if n.id == MIXED {
      var st1 := st.(octree := st.octree + ChildWords(n.children), len := st.len + 8);
      PackChildrenAppends(n, 0, |st.octree|, st1);
      var r := PackChildren(n, 0, |st.octree|, st1);
      assert r.octree[..|st.octree|] == st.octree by {
        forall j | 0 <= j < |st.octree|
          ensures r.octree[j] == st.octree[j]
        {
          assert r.octree[j] == st1.octree[j];
        }
      }
      assert r.far[..|st.far|] == st.far by {
        assert r.far[..|st1.far|] == st1.far;
      }
    }
  }

  /** Patching the word at `k` changes no other word and only appends to the far table. */
  lemma AttachFrame(st: PackState, k: int, offset: int)
    requires Counted(st) && 0 <= k < |st.octree|
    ensures var r := Attach(st, k, offset);
      Counted(r) &&
      (forall j :: 0 <= j < |st.octree| && j != k ==> r.octree[j] == st.octree[j]) &&
      |r.far| >= |st.far| && r.far[..|st.far|] == st.far
  {
  }

  /**
    The second loop from octant `i` on appends the blocks of children `i`..7,
    patches only the words of those children, and only appends to the far
    table.
   */
  lemma {:induction false} PackChildrenAppends(n: Node, i: int, start: int, st: PackState)
    requires WellFormed(n) && n.id == MIXED && 0 <= i <= 8
    requires Counted(st) && 0 <= start && start + 8 <= |st.octree|
    ensures var r := PackChildren(n, i, start, st);
      |r.octree| == |st.octree| + ChildrenSize(n, i) &&
      (forall j :: 0 <= j < |st.octree| && !(start + i <= j < start + 8) ==> r.octree[j] == st.octree[j]) &&
      r.far[..|st.far|] == st.far
    decreases n, 0, 8 - i
  {
    if i < 8 {
      var offset := BuildReal(n.children[i], start + i, st).0;
      var st1 := BuildReal(n.children[i], start + i, st).1;
      BuildRealAppends(n.children[i], start + i, st);
      var st2 := Attach(st1, start + i, offset);
      assert st2 == AttachChild(n.children[i], start + i, st);
      AttachFrame(st1, start + i, offset);
      PackChildrenAppends(n, i + 1, start, st2);
      var r := PackChildren(n, i + 1, start, st2);
      forall j | 0 <= j < |st.octree| && !(start + i <= j < start + 8)
        ensures r.octree[j] == st.octree[j]
      {
        assert st1.octree[j] == st1.octree[..|st.octree|][j];
      }
      assert r.far[..|st.far|] == st.far by {
        assert r.far[..|st.far|] == r.far[..|st2.far|][..|st.far|];
        assert st2.far[..|st.far|] == st2.far[..|st1.far|][..|st.far|];
      }
    }
  }

  /**
    `world_octree_len` after `build_SO`: one word for a uniform root, else the
    root word followed by everything `build_real_octree` appended.
   */
  lemma PackRootSize(root: Node)
    requires WellFormed(root)
    ensures |PackRoot(root).octree| == 1 + PackedSize(root)
    ensures PackRoot(root).len == |PackRoot(root).octree|
    ensures root.id != MIXED ==> PackRoot(root).octree == [ToU32(root.id)] && PackRoot(root).far == []
    ensures root.id == MIXED ==> PackRoot(root).octree[0] == RootWord(root)
  {
    if root.id == MIXED {
      var st0 := PackState([RootWord(root)], 1, [], 0);
      BuildRealAppends(root, 0, st0);
      assert PackRoot(root).octree[0] == PackRoot(root).octree[..1][0];
    }
  }
}
