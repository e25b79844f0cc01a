# Sparse voxel octree: build, bit packing, index resolution

A Dafny model of the sparse voxel octree engine in `utils/voxel_octree.h`,
together with the integer helpers of the second octree traversal in `SVO.h`.

- **Build tree** (`BuildTree`, `Geometry`): `build_dummy_octree` splits a cube
  into eight half-size octants down to unit voxels, which `check_block`
  classifies. A node keeps a block id m when all eight children carry m, and
  -1 (MIXED) otherwise. The octant table `node_offset` and the transition
  table `next_node_table` are characterised bit by bit. The eight octants
  tile their parent exactly.
- **Packed word** (`PackedWord`): the 32-bit node word.
  - Bits 17..31 hold the child offset or the far-table index.
  - Bit 16 is the far flag.
  - Bits 8..15 are the valid bits, bits 0..7 the leaf bits; octant j uses
    bit 15-j and bit 7-j.
  - The C conversion from `int` to `unsigned int` is written out digit by
    digit, and offsets and far indices round-trip through the word.
- **Packer** (`Packer`, `Layout`): `build_real_octree` and `build_SO`.
  - The four globals (`world_octree`, `world_octree_len`, `octree_far`,
    `octree_far_len`) are threaded through the functions as a `PackState`
    value.
  - The layout theorem states that every node of the tree is packed: a
    uniform node is a leaf word holding its id. A mixed node's word has every
    valid bit set and the leaf bit of each uniform child set. It decodes,
    directly or through the far table, to a block of eight packed child
    words placed after it.
- **Index resolution** (`Traversal`, `Layout`): `traverse_octree` with the
  ray/box slab test replaced by an oracle (`hit`, `enter`). On a packed tree
  it never reads outside the word array or the far table. It returns what
  the same search returns on the build tree, which is the nearest hit among
  the children, ties going to the earliest octant.
- **printBinary** (`BinaryText`): the 32 digits of a word, most significant
  first, with a space after each byte and a final newline. Reading the
  digits back gives the word.
- **SVO helpers** (`Svo`):
  - `ordered_octant` is a permutation of the octants for each entry octant.
  - The entry-octant flags are characterised.
  - `calc_octant_intervals` is modelled over `real`.
  - The `count_bits` child rank counts the valid octants before the child.
  - The two operator-precedence defects of `traverse_svo_node` are modelled
    as C++ parses them, next to the evidently intended expressions.

`SVO.h` numbers octants differently from `utils/voxel_octree.h`, and it
places the valid bits differently as well. `Svo` therefore imports none of
the other modules.

## Model

| member | source | states |
|---|---|---|
| Geometry.NodeOffset | utils/voxel_octree.h:17-26 | entry i of `node_offset` is the bit triple ((i>>2)&1, (i>>1)&1, i&1) |
| Geometry.NextNode | utils/voxel_octree.h:28-37 | `next_node_table[i][a]` is i with the bit of axis a set (x 4, y 2, z 1), or -1 when that bit is already set |
| Geometry.ChildrenTile | utils/voxel_octree.h:67-70 | the eight octants at `cur_pos + node_offset[i] * new_size` cover the parent cube, and no voxel lies in two of them |
| Geometry.OctantsDisjoint | utils/voxel_octree.h:67-70 | two octants that share a voxel are the same octant |
| BuildTree.SolidInBox | utils/voxel_octree.h:39-44 | every solid voxel lies in the box [-50, 50] × [-100, 0] × [-50, 50], so the scene fits inside the 256-voxel world cube starting at -128 |
| BuildTree.MergeIds | utils/voxel_octree.h:68-79 | the id loop ends with the running id when every remaining child carries it, and with -1 otherwise |
| BuildTree.Build | utils/voxel_octree.h:57-81 | the tree is well formed: no children or eight, eight for a mixed node, ids -1, 0 or 2 |
| BuildTree.BuildIdMerges | utils/voxel_octree.h:68-79 | a node of size > 1 has id m ≠ -1 exactly when all eight children have id m |
| BuildTree.BuildIdIsUniform | utils/voxel_octree.h:57-81 | on power-of-two sizes a node has id m ≠ -1 exactly when `check_block` returns m on every voxel of its region |
| BuildTree.BuildMixedIffNotUniform | utils/voxel_octree.h:57-81 | a node is -1 exactly when its region is not uniform, and otherwise carries the class of its corner voxel |
| PackedWord.ValidBitShift | utils/voxel_octree.h:98 | the valid bit of octant j is `(1 << 15) >> j` |
| PackedWord.LeafBitShift | utils/voxel_octree.h:102 | the leaf bit of octant j is `(1 << 7) >> j` |
| PackedWord.ToU32Exact | utils/voxel_octree.h:116 | a value that fits in 32 bits survives the conversion to `unsigned int` |
| PackedWord.LeafWordRoundTrip | utils/voxel_octree.h:91-93 | a block id pushed as a word is a leaf word for the traversal, and it reads back as the same id |
| PackedWord.DirectOffsetRoundTrip | utils/voxel_octree.h:122-124 | an offset below 32768 stored with `|= offset << 17` reads back from bits 17..31 with the far flag clear; a non-zero offset makes the word a non-leaf |
| PackedWord.FarIndexRoundTrip | utils/voxel_octree.h:117-121 | a far word has its flag set, holds the far index in bits 17..31, and is never a leaf |
| PackedWord.NearWord | utils/voxel_octree.h:122-124 | patching a header with a non-zero direct offset keeps its valid and leaf bits (the whole low half) and decodes to that offset |
| PackedWord.FarWord | utils/voxel_octree.h:117-121 | patching a header with a far index keeps its valid and leaf bits (the whole low half) and decodes to that index |
| PackedWord.HeaderValid | utils/voxel_octree.h:96-100 | the header of a mixed node marks every octant valid |
| PackedWord.HeaderLeaf | utils/voxel_octree.h:101-103 | the leaf bit of octant i is set exactly when child i is uniform |
| PackedWord.HeaderHigh | utils/voxel_octree.h:95-106 | a freshly pushed header has a zero child field and a clear far flag |
| Packer.ChildWordsMeaning | utils/voxel_octree.h:89-110 | the first loop pushes, for a uniform child, the leaf word that reads back as its id, and for a mixed child a header with every valid bit set, an empty child field and far flag, and the leaf bit of each grandchild set exactly when that grandchild is uniform |
| Packer.BuildReal | utils/voxel_octree.h:84-129 | `world_octree_len` and `octree_far_len` stay equal to the lengths of their arrays, which only grow |
| Packer.BuildRealAppends | utils/voxel_octree.h:84-129 | a uniform node returns 0 and appends nothing. A mixed node appends its whole subtree, keeps every earlier word and far entry, and returns the distance from `cur_offset` to its first child word, which is at least 1 |
| Packer.PackChildrenAppends | utils/voxel_octree.h:114-127 | the second loop appends the children's blocks and patches no word outside the remaining child words |
| Packer.AttachFrame | utils/voxel_octree.h:116-124 | patching a child word changes no other word and only appends to the far table |
| Packer.PackRootSize | utils/voxel_octree.h:151-170 | a uniform root gives the single word [id]. A mixed root gives the root word at index 0, followed by everything `build_real_octree` appends |
| Layout.RootWordDecodes | utils/voxel_octree.h:158-168 | the root word `(1 << 17) \| header` is a non-leaf with every valid bit set and the leaf bit of each uniform child set, whose children start at index 1 |
| Layout.LeafAt | utils/voxel_octree.h:91-93 | a uniform child's pushed word packs that child |
| Layout.AttachNear | utils/voxel_octree.h:122-124 | a child word patched with a direct offset decodes to the child's block, and the packed grandchildren stay packed |
| Layout.AttachFar | utils/voxel_octree.h:117-121 | a child word patched with a far reference decodes through the new far entry to the child's block |
| Layout.AttachZero | utils/voxel_octree.h:123 | storing the offset 0 of a uniform child leaves the arrays unchanged |
| Layout.PackedFrame | utils/voxel_octree.h:114-127 | a packed subtree stays packed while later siblings append words and far entries |
| Layout.AttachChildFrame | utils/voxel_octree.h:114-126 | one turn of the second loop appends the child's subtree, changes no earlier word except the child's own, and keeps the far prefix |
| Layout.BuildRealLayout | utils/voxel_octree.h:84-129 | after `build_real_octree` on a mixed node, each of the eight pushed words packs its child, with every child block placed after the eight words |
| Layout.DepthFirstLayout | utils/voxel_octree.h:111-128 | after `build_real_octree` on a mixed node, the word of each mixed child i decodes to the word right after the eight child words and the blocks of children 0..i-1, and the block of child 7 ends the array |
| Layout.MixedChildBase | utils/voxel_octree.h:116-124 | packing a mixed child and patching its word makes the word decode to the first word the child appended |
| Layout.PackChildrenBases | utils/voxel_octree.h:114-127 | the second loop, from octant i on, places each mixed child's block where the array ended when its turn came |
| Packer.BlocksSplit | utils/voxel_octree.h:114-127 | the block sizes of the children before and from any octant add up to the size of all eight blocks |
| Layout.PackChildrenLayout | utils/voxel_octree.h:114-127 | the second loop, from octant i on, leaves all eight children packed |
| Layout.PackRootLayout | utils/voxel_octree.h:151-170 | after `build_SO` the word at index 0 packs the whole tree |
| Layout.PackedLeafBits | utils/voxel_octree.h:101-103 | in a packed tree, the word of every mixed node has leaf bit j set exactly when child j is uniform |
| Layout.TraverseMatches | utils/voxel_octree.h:182-236 | on a packed subtree `traverse_octree` reads only existing words and far entries, and returns the result of the same search on the build tree |
| Layout.SelectMatches | utils/voxel_octree.h:203-229 | with every valid bit set, child i is read at `new_ind + i`, and the loop selects as the reference selection does |
| Layout.BuildSOTraversal | utils/voxel_octree.h:182-236 | `build_SO` followed by `traverse_octree` from index 0 on the root cube finds what the search on the build tree finds |
| Traversal.FullValidCount | utils/voxel_octree.h:210-217 | with all valid bits set, the number of valid octants before octant i is i |
| Traversal.LoopStart | utils/voxel_octree.h:203-210 | the child loop starts at octant 0 with `ind` = 0, the number of valid octants before octant 0 |
| Traversal.SkipStep | utils/voxel_octree.h:215 | an octant whose valid bit is clear reads no word, and `ind` stays the number of valid octants before the next octant |
| Traversal.VisitStep | utils/voxel_octree.h:215-217 | a valid octant i is read at `new_ind` plus the number of valid octants before i, and after `ind++` the counter is the number of valid octants before i + 1 |
| Traversal.VisitFault | utils/voxel_octree.h:216 | a read of a valid child that faults ends the loop with that fault |
| Traversal.NearerStep | utils/voxel_octree.h:218-225 | one selection step keeps the first nearest counting result of the longer prefix |
| Traversal.NearestCorrect | utils/voxel_octree.h:210-229 | the selection loop returns the counting result (not -1, not 0) of least distance, ties going to the earliest octant |
| Traversal.NearestOfAll | utils/voxel_octree.h:200-233 | started with no hit, the loop returns the nearest counting result, and returns none (-1) exactly when no child result counts |
| Traversal.NearestUnique | utils/voxel_octree.h:218-225 | the nearest counting result is unique |
| BinaryText.PrintBinaryRoundTrip | utils/voxel_octree.h:174-180 | reading the printed digits back, most significant first, gives the word |
| BinaryText.PrintBinaryLength | utils/voxel_octree.h:174-180 | the text has 37 characters: a space after each byte, exactly at positions 8, 17, 26 and 35; a digit 0 or 1 at every other position before the final newline |
| BinaryText.ReadDigits | utils/voxel_octree.h:175-178 | the loop's digits of bits k-1..0 are exactly those bits, in order |
| BinaryText.DigitsLength | utils/voxel_octree.h:175-178 | k digits carry one separator per started byte |
| BinaryText.DigitSpaces | utils/voxel_octree.h:175-178 | the digits of bits k-1..0 come in a first group of (k-1) % 8 + 1 and then groups of eight, each group followed by a space, and every other character is 0 or 1 |
| Svo.OrderedOctantPermutes | SVO.h:102-105 | for a fixed entry octant, `first ^ i` over i = 0..7 visits each octant exactly once |
| Svo.XorCommutes | SVO.h:104 | `^` on octant numbers is commutative |
| Svo.FirstOctantBits | SVO.h:163-167 | the entry octant is an octant, bit 1/2/4 is set exactly when `tm.x`/`tm.y`/`tm.z < t0`, and `ordered_octant(0, first)` is the entry octant |
| Svo.IntervalMeaning | SVO.h:114-142 | t lies in octant i's interval exactly when it lies in [t0, t1] and on octant i's side of each mid-plane crossing |
| Svo.IntervalsNarrow | SVO.h:107-143 | every octant interval lies within [t0, t1] |
| Svo.IntervalsCover | SVO.h:114-142 | the eight intervals cover [t0, t1]: at every t in it the ray is in the interval of the octant on whose side of each mid-plane it is |
| Svo.IntervalsInteriorsDisjoint | SVO.h:114-142 | no parameter lies strictly inside the intervals of two different octants |
| Svo.FirstEnteredAtStart | SVO.h:163-171 | the entry octant's interval starts at t0 |
| Svo.RankCountsValid | SVO.h:182 | `count_bits(mask & ((1 << oct) - 1))` is the number of valid octants before oct |
| Svo.AllValid | SVO.h:97-100 | `count_bits(mask & 0xff)` is the number of valid octants |
| Svo.RankOrdered | SVO.h:180-182 | for a valid octant the rank is below the rank of every later octant and below the number of valid octants |
| Svo.ChildIdsInBlock | SVO.h:182 | with the intended pointer term, valid children get increasing ids inside the block [pointer, pointer + number of valid octants) |
| Svo.LeafTestNeverFires | SVO.h:156 | as C++ parses it, the leaf test is false for every mask |
| Svo.LeafTestMeaning | SVO.h:156 | the intended test holds exactly for masks with a zero child-pointer field; on mask 0 it holds while the parsed test fails |
| Svo.PointerAsParsedBits | SVO.h:182 | as C++ parses it, the pointer term is `mask & 0x7fff00` |
| Svo.PointerAsParsedWrong | SVO.h:182 | as parsed, two masks with the same child-pointer field give different pointers, and pointer field 1 yields 0x20000 instead of 0x100 |
| Svo.PointerReadsField | SVO.h:182 | the intended pointer term depends on the child-pointer field only |

## Left out

- The float slab test of `traverse_octree` (`utils/voxel_octree.h:184-192`) is an oracle: `hit(pos, size)` stands for `t_enter < t_exit && t_exit > 0` and `enter(pos, size)` for `t_enter`. The division by `ray_dir` and its missing zero guard are not modelled.
- `traverse_octree` on a cube of side 0 (the children of a unit cube) is a miss without asking the oracle. The slabs of a zero-width box are empty, so the strict test fails there.
- The `!= NULL` checks of `build_real_octree` and `build_SO` are always true. Every node of size > 1 has eight children, and unit nodes are never mixed.
- The header loops (`utils/voxel_octree.h:96-105`, `159-166`) are modelled as their eight iterations written out (`PackedWord.NodeHeader`). `HeaderValid` and `HeaderLeaf` relate that form to the per-octant bits.
- BuildTree.Build: requires `size >= 1`. In the source `build_dummy_octree` with a size of 0 or below never returns: it recurses on `cur_size / 2`, which stays 0. The only call passes `WORLD_SIZE` = 256 (`main.cpp:223`).
- Packer.BuildSO: requires `worldSize >= 1`, for the same reason as `BuildTree.Build`.
- Layout.DepthFirstLayout: the same size bounds as `BuildRealLayout`.
- Layout.BuildRealLayout: requires the final far table to have at most 32768 entries and the array to stay below 2^32 words. Beyond that, `octree_far_len << 17` and the unsigned offsets wrap in C. The loop lemmas `LoopStep`, `StepPacked`, `ChildLayout`, `MixedChildLayout`, `MixedChildWord`, `AttachLayout`, `BasesStep` and `TurnFacts` carry the same bounds on the state after their turn.
- Layout.PackChildrenLayout: the same size bounds as `BuildRealLayout`, on the state after the loop.
- Layout.PackChildrenBases: the same size bounds as `BuildRealLayout`, on the state after the loop.
- Layout.MixedChildBase: the same size bounds as `BuildRealLayout`, on the state after the turn.
- Layout.PackRootLayout: the same size bounds as `BuildRealLayout`.
- Layout.BuildSOTraversal: the same size bounds as `BuildRealLayout`.
- Layout.AttachFar: requires `octree_far_len < 32768` and an offset below 2^32, so that the index and the offset fit their fields.
- Array lengths and offsets are unbounded integers. The C `int` counters `world_octree_len` and `octree_far_len` are not modelled as overflowing.
- `SelectChildren` keeps the source's `ind` counter. `LoopStart`, `SkipStep` and `VisitStep` show that on any word the loop runs with `ind` equal to the number of valid octants before i. `SelectMatches` relates the loop to the build tree on packed nodes only, where every valid bit is set and that number is i.
- The float out-parameter `dist` is a `real` returned by the oracle; no rounding is modelled.
- `traverse_svo_node` and `traverse_tlsvo_node` are modelled through their integer expressions only. The recursion, the float box arithmetic (`SVO.h:184-197`), `traverse_svo`, `traverse_tlsvo` and `AABB::dist` are not part of this model.
- Svo.FirstOctant: the three flags `c0 | c1 | c2` are written as a sum. They are distinct bits, so the two agree.
- `calc_octant_intervals` is modelled over `real`, without float rounding.
- `build_tlsvo` (`SVO.h:267-277`) does not compile and is not part of this model. Neither is the forward use of `traverse_svo_node` at `SVO.h:72`.
- `free_dummy_octree` and `print_dummy_octree` are memory release and console output.
- `printBinary` writes to standard output. Here its text is the function's result, and the `int` argument is taken as its 32-bit pattern.
- `main.cpp`, `utils/blocks.h` and `utils/public_camera.h` are windowing, input, image loading and a plain camera record. They are not part of this model.
- The concrete `WORLD_SIZE` instance is not evaluated. The build lemmas hold for every power-of-two size.

## Findings

| source | as written | input that shows it | evidently intended | confidence | as-written member | corrected member |
|---|---|---|---|---|---|---|
| SVO.h:156 | `node.mask & CHILD_POINTER_MASK == 0`, which C++ parses as `node.mask & (CHILD_POINTER_MASK == 0)`, that is `node.mask & 0` (same at SVO.h:216) | mask 0, with no child pointer: the test is false, so the leaf branch is never taken | `(node.mask & CHILD_POINTER_MASK) == 0` | high; not executed | Svo.LeafTestNeverFires | Svo.LeafTestMeaning |
| SVO.h:182 | `node.mask & CHILD_POINTER_MASK >> 9`, which C++ parses as `node.mask & (CHILD_POINTER_MASK >> 9)`, that is `node.mask & 0x7fff00` (same at SVO.h:242) | mask 0x20000 (pointer field 1) gives 0x20000 instead of 0x100; masks 0x100 and 0 share the field but give different pointers | `(node.mask & CHILD_POINTER_MASK) >> 9` | medium, because the shift amount may be unintended too; not executed | Svo.PointerAsParsedWrong | Svo.PointerReadsField |
