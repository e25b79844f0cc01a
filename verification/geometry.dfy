/**
  Integer voxel coordinates, the octant offset table and the axis-transition
  table of utils/voxel_octree.h, and the facts about how the eight octants of
  a cube tile it.

  Octant numbering follows utils/voxel_octree.h: bit 2 of the octant index
  selects the upper half along x, bit 1 along y and bit 0 along z.
 */
module Geometry {

  datatype Vec3 = Vec3(x: int, y: int, z: int)

  function Add(a: Vec3, b: Vec3): Vec3 {
    Vec3(a.x + b.x, a.y + b.y, a.z + b.z)
  }

  function Scale(v: Vec3, s: int): Vec3 {
    Vec3(v.x * s, v.y * s, v.z * s)
  }

  /** `node_offset`: the corner offset of each octant, in units of the child size. */
  const NODE_OFFSET: seq<Vec3> := [
    Vec3(0, 0, 0), Vec3(0, 0, 1), Vec3(0, 1, 0), Vec3(0, 1, 1),
    Vec3(1, 0, 0), Vec3(1, 0, 1), Vec3(1, 1, 0), Vec3(1, 1, 1)
  ]

  /** Entry i of the table is the triple of bits (i>>2)&1, (i>>1)&1, i&1. */
  function NodeOffset(i: int): (v: Vec3)
    requires 0 <= i < 8
    ensures v == Vec3(i / 4 % 2, i / 2 % 2, i % 2)
  {
    NODE_OFFSET[i]
  }

  /** Corner of octant i of the cube at `pos` whose children have side `half`. */
  function ChildPos(pos: Vec3, half: int, i: int): Vec3
    requires 0 <= i < 8
  {
    Add(pos, Scale(NodeOffset(i), half))
  }

  /** The voxel `v` lies inside the axis-aligned cube with corner `pos` and side `size`. */
  predicate InCube(v: Vec3, pos: Vec3, size: int) {
    && pos.x <= v.x < pos.x + size
    && pos.y <= v.y < pos.y + size
    && pos.z <= v.z < pos.z + size
  }

  /** Sizes the build recursion halves cleanly down to unit voxels. */
  predicate IsPow2(n: int)
    decreases n
  {
    if n <= 0 then false
    else if n == 1 then true
    else n % 2 == 0 && IsPow2(n / 2)
  }

  /** The octant of the cube at `pos` (children of side `half`) holding `v`. */
  function OctantOf(v: Vec3, pos: Vec3, half: int): (i: int)
    ensures 0 <= i < 8
  {
    (if v.x - pos.x >= half then 4 else 0)
    + (if v.y - pos.y >= half then 2 else 0)
    + (if v.z - pos.z >= half then 1 else 0)
  }

  /** Every voxel of a cube of even side lies in the octant `OctantOf` names. */
  lemma OctantOfContains(v: Vec3, pos: Vec3, size: int)
    requires size >= 2 && size % 2 == 0
    requires InCube(v, pos, size)
    ensures InCube(v, ChildPos(pos, size / 2, OctantOf(v, pos, size / 2)), size / 2)
  {
  }

  /** Each octant of a cube lies inside the cube. */
  lemma ChildInsideParent(v: Vec3, pos: Vec3, size: int, i: int)
    requires size >= 2 && size % 2 == 0 && 0 <= i < 8
    requires InCube(v, ChildPos(pos, size / 2, i), size / 2)
    ensures InCube(v, pos, size)
  {
  }

  /** A voxel lies in at most one octant. */
  lemma OctantsDisjoint(v: Vec3, pos: Vec3, size: int, i: int, j: int)
    requires size >= 2 && size % 2 == 0 && 0 <= i < 8 && 0 <= j < 8
    requires InCube(v, ChildPos(pos, size / 2, i), size / 2)
    requires InCube(v, ChildPos(pos, size / 2, j), size / 2)
    ensures i == j
  {
    var half := size / 2;
    assert i == OctantOf(v, pos, half);
    assert j == OctantOf(v, pos, half);
  }

  /**
    The eight octants of a cube of even side tile it exactly: a voxel is in the
    cube if and only if it is in some octant, and then in exactly one.
   */
  lemma ChildrenTile(v: Vec3, pos: Vec3, size: int)
    requires size >= 2 && size % 2 == 0
    ensures InCube(v, pos, size)
        <==> exists i :: 0 <= i < 8 && InCube(v, ChildPos(pos, size / 2, i), size / 2)
    ensures forall i, j ::
              (0 <= i < 8 && 0 <= j < 8
               && InCube(v, ChildPos(pos, size / 2, i), size / 2)
               && InCube(v, ChildPos(pos, size / 2, j), size / 2)) ==> i == j
  {
    if InCube(v, pos, size) {
      OctantOfContains(v, pos, size);
    }
    forall i | 0 <= i < 8 && InCube(v, ChildPos(pos, size / 2, i), size / 2)
      ensures InCube(v, pos, size)
    {
      ChildInsideParent(v, pos, size, i);
    }
    forall i, j | 0 <= i < 8 && 0 <= j < 8
        && InCube(v, ChildPos(pos, size / 2, i), size / 2)
        && InCube(v, ChildPos(pos, size / 2, j), size / 2)
      ensures i == j
    {
      OctantsDisjoint(v, pos, size, i, j);
    }
  }

  /** The octant bit each axis contributes: x is 4, y is 2, z is 1. */
  function AxisBit(axis: int): int
    requires 0 <= axis < 3
  {
    if axis == 0 then 4 else if axis == 1 then 2 else 1
  }

  /**
    `next_node_table`: the octant a ray moves into when it leaves octant i
    through the mid-plane of `axis`, or -1 when it leaves the parent cube.
   */
  const NEXT_NODE_TABLE: seq<seq<int>> := [
    [4, 2, 1], [5, 3, -1], [6, -1, 3], [7, -1, -1],
    [-1, 6, 5], [-1, 7, -1], [-1, -1, 7], [-1, -1, -1]
  ]

  /** The successor sets the axis' bit of i, or is -1 when that bit is already set. */
  function NextNode(i: int, axis: int): (r: int)
    requires 0 <= i < 8 && 0 <= axis < 3
    ensures r == (if i / AxisBit(axis) % 2 == 1 then -1 else i + AxisBit(axis))
  {
    assert |NEXT_NODE_TABLE[i]| == 3;
    NEXT_NODE_TABLE[i][axis]
  }
}
