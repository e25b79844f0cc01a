/**
  The temporary build tree of utils/voxel_octree.h (`OctreeNode`,
  `check_block`, `build_dummy_octree`).

  A node records only a block id: a value other than MIXED means the whole
  region of the node holds that id; MIXED (-1) means it does not. Unit voxels
  have no children; every larger node has exactly eight, whether or not it
  collapsed to a single id.
 */
module BuildTree {
  import opened Geometry

  /** The marker `build_dummy_octree` stores in a node whose region is not uniform. */
  const MIXED: int := -1

  /** The block id of a solid voxel. */
  const SOLID: int := 2

  /** The block id of an empty voxel. */
  const EMPTY: int := 0

  /** The voxel lies in the ball of radius 50 centred at (0, -50, 0). */
  predicate InBall(p: Vec3) {
    p.x * p.x + (p.y + 50) * (p.y + 50) + p.z * p.z <= 2500
  }

  /** `check_block`: the scene classifier. */
  function CheckBlock(p: Vec3): (id: int)
    ensures id == SOLID || id == EMPTY
    ensures id == SOLID <==> InBall(p)
  {
    if p.x * p.x + (p.y + 50) * (p.y + 50) + p.z * p.z <= 2500 then 2 else 0
  }

  /**
    The solid voxels all lie in the box [-50, 50] x [-100, 0] x [-50, 50],
    inside the 256-voxel world cube that starts at -128 on every axis.
   */
  lemma SolidInBox(p: Vec3)
    ensures CheckBlock(p) == SOLID ==> -50 <= p.x <= 50 && -100 <= p.y <= 0 && -50 <= p.z <= 50
  {
    if CheckBlock(p) == SOLID {
      var a, b, c := p.x * p.x, (p.y + 50) * (p.y + 50), p.z * p.z;
      SquareNonNegative(p.x);
      SquareNonNegative(p.y + 50);
      SquareNonNegative(p.z);
      assert a + b + c <= 2500;
      SquareBound(p.x);
      SquareBound(p.y + 50);
      SquareBound(p.z);
    }
  }

  /** Squares are never negative. */
  lemma SquareNonNegative(a: int)
    ensures a * a >= 0
  {
    if a < 0 {
      assert a * a == (-a) * (-a);
    }
  }

  /** A square of at most 2500 has a root of at most 50 either way. */
  lemma SquareBound(a: int)
    ensures a * a <= 2500 ==> -50 <= a <= 50
  {
    if a > 50 {
      assert a * a > 50 * a;
    } else if a < -50 {
      assert a * a > (-50) * a;
    }
  }

  datatype Node = Node(id: int, children: seq<Node>)

  /**
    The shape every tree `Build` produces: a node has no children or eight, a
    MIXED node has eight, and ids are MIXED or fit in the 16 low bits of a word.
   */
  predicate WellFormed(n: Node)
    decreases n
  {
    && (|n.children| == 0 || |n.children| == 8)
    && (n.id == MIXED ==> |n.children| == 8)
    && (n.id == MIXED || 0 <= n.id < 0x1_0000)
    && forall i :: 0 <= i < |n.children| ==> WellFormed(n.children[i])
  }

  /**
    The id loop of `build_dummy_octree`: starting from the first child's id,
    any child whose id differs turns the running id into MIXED. The result is
    the common id when all the remaining children share a non-MIXED `id`.
   */
  function MergeIds(kids: seq<Node>, i: nat, id: int): (r: int)
    requires i <= |kids|
    ensures r == (if id != MIXED && forall j :: i <= j < |kids| ==> kids[j].id == id
                  then id else MIXED)
    decreases |kids| - i
  {
    if i == |kids| then id
    else MergeIds(kids, i + 1, if kids[i].id != id then MIXED else id)
  }

  /** `build_dummy_octree(size, pos)`. */
  function Build(size: int, pos: Vec3): (n: Node)
    requires size >= 1
    ensures WellFormed(n)
    ensures n.id == MIXED || n.id == EMPTY || n.id == SOLID
    decreases size
  {
    if size == 1 then Node(CheckBlock(pos), [])
    else
      var half := size / 2;
      var kids := seq(8, i requires 0 <= i < 8 => Build(half, ChildPos(pos, half, i)));
      assert forall i :: 0 <= i < 8 ==> WellFormed(kids[i]);
      var id := MergeIds(kids, 1, kids[0].id);
      assert id == MIXED || id == kids[0].id;
      Node(id, kids)
  }

  /**
    A unit node holds `check_block` of its voxel and has no children; a larger
    node has eight children, built at half the size at the octant corners,
    even when it collapsed to a single id.
   */
  lemma BuildShape(size: int, pos: Vec3)
    requires size >= 1
    ensures size == 1 ==> Build(size, pos) == Node(CheckBlock(pos), [])
    ensures size > 1 ==> |Build(size, pos).children| == 8
    ensures size > 1 ==>
              forall i :: 0 <= i < 8 ==> Build(size, pos).children[i] == Build(size / 2, ChildPos(pos, size / 2, i))
  {
  }

  /**
    A node larger than a voxel keeps a non-MIXED id m exactly when all eight
    children carry m.
   */
  lemma BuildIdMerges(size: int, pos: Vec3, m: int)
    requires size > 1 && m != MIXED
    ensures Build(size, pos).id == m
        <==> forall i :: 0 <= i < 8 ==> Build(size, pos).children[i].id == m
  {
    BuildShape(size, pos);
  }

  /** Every voxel of the cube at `pos` with side `size` is classified `m`. */
  ghost predicate Uniform(pos: Vec3, size: int, m: int) {
    forall v :: InCube(v, pos, size) ==> CheckBlock(v) == m
  }

  /**
    The meaning of a node's id: a non-MIXED id m is stored exactly when
    `check_block` returns m on every voxel of the node's region.
   */
  lemma {:induction false} BuildIdIsUniform(size: int, pos: Vec3, m: int)
    requires IsPow2(size) && m != MIXED
    ensures Build(size, pos).id == m <==> Uniform(pos, size, m)
    decreases size
  {
    var n := Build(size, pos);
    BuildShape(size, pos);
    if size == 1 {
      assert InCube(pos, pos, size);
      forall v | InCube(v, pos, size) ensures v == pos { }
    } else {
      var half := size / 2;
      BuildIdMerges(size, pos, m);
      if n.id == m {
        forall i | 0 <= i < 8 ensures Uniform(ChildPos(pos, half, i), half, m) {
          BuildIdIsUniform(half, ChildPos(pos, half, i), m);
        }
        forall v | InCube(v, pos, size) ensures CheckBlock(v) == m {
          OctantOfContains(v, pos, size);
          var i := OctantOf(v, pos, half);
          assert Uniform(ChildPos(pos, half, i), half, m);
        }
      }
      if Uniform(pos, size, m) {
        forall i | 0 <= i < 8 ensures n.children[i].id == m {
          forall v | InCube(v, ChildPos(pos, half, i), half) ensures CheckBlock(v) == m {
            ChildInsideParent(v, pos, size, i);
          }
          BuildIdIsUniform(half, ChildPos(pos, half, i), m);
        }
      }
    }
  }

  /** A node is MIXED exactly when its region holds two different ids. */
  lemma BuildMixedIffNotUniform(size: int, pos: Vec3)
    requires IsPow2(size)
    ensures Build(size, pos).id == MIXED <==> !Uniform(pos, size, CheckBlock(pos))
    ensures Build(size, pos).id != MIXED ==> Build(size, pos).id == CheckBlock(pos)
  {
    var n := Build(size, pos);
    BuildIdIsUniform(size, pos, CheckBlock(pos));
    if n.id != MIXED {
      BuildIdIsUniform(size, pos, n.id);
      assert InCube(pos, pos, size);
    }
  }
}
