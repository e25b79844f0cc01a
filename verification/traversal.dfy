/**
  The index and selection logic of `traverse_octree` in utils/voxel_octree.h.

  The ray/box slab test is not modelled: it becomes an oracle. `hit(pos, size)`
  stands for `t_enter < t_exit && t_exit > 0` on the cube with corner `pos` and
  side `size`, and `enter(pos, size)` for its `t_enter`. A cube of side 0 (the
  children of a unit cube) is a miss without consulting the oracle: its three
  slabs are empty, so the strict test `t_enter < t_exit` fails.

  The source's result -1 ("no hit") is `None`; a hit is a `Probe` holding the
  returned id together with the three out-parameters. Reads the source does not
  guard (a word or far-table index outside its vector) become a `Fault`.
 */
module Traversal {
  import opened Wrappers
  import opened Geometry
  import opened BuildTree
  import opened PackedWord

  /** The id returned with the `dist`, `voxel_pos` and `voxel_size` out-parameters. */
  datatype Probe = Probe(id: int, dist: real, pos: Vec3, size: int)

  /** An unguarded read outside `world_octree` or `octree_far`. */
  datatype Fault = WordOutOfRange(index: int) | FarOutOfRange(index: int)

  /**
    The base index of the eight child words of the word at `k`: `k` plus the
    child field, or plus the far-table entry the field indexes when the far
    flag is set.
   */
  function ChildBase(o: seq<bv32>, f: seq<bv32>, k: int): Result<int, Fault>
    requires 0 <= k < |o|
  {
    if IsFar(o[k]) then
      var x := ToNat(ChildField(o[k]));
      if x < |f| then Success(k + ToNat(f[x])) else Failure(FarOutOfRange(x))
    else Success(k + ToNat(ChildField(o[k])))
  }

  /** The number of octants before `i` whose valid bit is set in `w`. */
  function ValidCount(w: bv32, i: int): nat
    requires 0 <= i <= 8
  {
    if i == 0 then 0
    else ValidCount(w, i - 1) + (if w & ValidBit(i - 1) != 0 then 1 else 0)
  }

  /** With every valid bit set, child i sits at slot i. */
  lemma {:induction false} FullValidCount(w: bv32, i: int)
    requires 0 <= i <= 8
    requires w & VALID_MASK == VALID_MASK
    ensures ValidCount(w, i) == i
  {
    if i > 0 {
      FullValidCount(w, i - 1);
      FullValidByte(w, i - 1);
    }
  }

  /** A child result the selection takes into account: not -1, not the empty id 0. */
  predicate Counts(c: Option<Probe>) {
    c.Some? && c.value.id != -1 && c.value.id != 0
  }

  /**
    One step of the selection loop: a counting candidate replaces the best so
    far when there is none yet or when it is strictly nearer.
   */
  function Nearer(best: Option<Probe>, c: Option<Probe>): Option<Probe> {
    if Counts(c) && (best.None? || c.value.dist < best.value.dist) then c else best
  }

  /**
    `traverse_octree` on the packed array: `k` is `cur_ind`, `size` is
    `cur_size`, `pos` is `cur_pos`.
   */
  function Traverse(o: seq<bv32>, f: seq<bv32>, k: int, size: int, pos: Vec3,
                    hit: (Vec3, int) -> bool, enter: (Vec3, int) -> real): Result<Option<Probe>, Fault>
    decreases size, 1
  {
    if size < 1 || !hit(pos, size) then Success(None)
    else if !(0 <= k < |o|) then Failure(WordOutOfRange(k))
    else if IsLeafWord(o[k]) then Success(Some(Probe(ToNat(o[k]), enter(pos, size), pos, size)))
    else
      match ChildBase(o, f, k)
      case Failure(e) => Failure(e)
      case Success(base) => SelectChildren(o, f, k, base, size, pos, 0, 0, None, hit, enter)
  }

  /**
    The child loop of `traverse_octree` from octant `i` on: `ind` counts the
    valid children already visited, so child i is read at `base + ind`.
   */
  function SelectChildren(o: seq<bv32>, f: seq<bv32>, k: int, base: int, size: int, pos: Vec3,
                          i: int, ind: int, best: Option<Probe>,
                          hit: (Vec3, int) -> bool, enter: (Vec3, int) -> real): Result<Option<Probe>, Fault>
    requires 0 <= k < |o| && size >= 1 && 0 <= i <= 8
    decreases size, 0, 8 - i
  {
    if i == 8 then Success(best)
    else if o[k] & ValidBit(i) == 0 then
      SelectChildren(o, f, k, base, size, pos, i + 1, ind, best, hit, enter)
    else
      match Traverse(o, f, base + ind, size / 2, ChildPos(pos, size / 2, i), hit, enter)
      case Failure(e) => Failure(e)
      case Success(c) => SelectChildren(o, f, k, base, size, pos, i + 1, ind + 1, Nearer(best, c), hit, enter)
  }

  // ---------------------------------------------------------------------------
  // The counter `ind`: the loop runs through the states (i, ValidCount(w, i))
  // ---------------------------------------------------------------------------

  /** The child loop starts at octant 0 with `ind` the count of valid octants before it. */
  lemma LoopStart(o: seq<bv32>, f: seq<bv32>, k: int, base: int, size: int, pos: Vec3,
                  hit: (Vec3, int) -> bool, enter: (Vec3, int) -> real)
    requires 0 <= k < |o| && size >= 1 && hit(pos, size)
    requires !IsLeafWord(o[k]) && ChildBase(o, f, k) == Success(base)
    ensures Traverse(o, f, k, size, pos, hit, enter)
            == SelectChildren(o, f, k, base, size, pos, 0, ValidCount(o[k], 0), None, hit, enter)
  {
  }

  /**
    An octant whose valid bit is clear: no word is read, and the loop moves to
    the next octant with `ind` again the count of valid octants before it.
   */
  lemma SkipStep(o: seq<bv32>, f: seq<bv32>, k: int, base: int, size: int, pos: Vec3,
                 i: int, best: Option<Probe>,
                 hit: (Vec3, int) -> bool, enter: (Vec3, int) -> real)
    requires 0 <= k < |o| && size >= 1 && 0 <= i < 8 && o[k] & ValidBit(i) == 0
    ensures SelectChildren(o, f, k, base, size, pos, i, ValidCount(o[k], i), best, hit, enter)
            == SelectChildren(o, f, k, base, size, pos, i + 1, ValidCount(o[k], i + 1), best, hit, enter)
  {
  }

  /**
    A valid octant: child i is read at `new_ind` plus the count of valid
    octants before i. A fault there is the loop's result; otherwise the loop
    moves to the next octant with `ind` the count of valid octants before it.
   */
  lemma VisitStep(o: seq<bv32>, f: seq<bv32>, k: int, base: int, size: int, pos: Vec3,
                  i: int, best: Option<Probe>, c: Option<Probe>,
                  hit: (Vec3, int) -> bool, enter: (Vec3, int) -> real)
    requires 0 <= k < |o| && size >= 1 && 0 <= i < 8 && o[k] & ValidBit(i) != 0
    requires Traverse(o, f, base + ValidCount(o[k], i), size / 2, ChildPos(pos, size / 2, i), hit, enter) == Success(c)
    ensures SelectChildren(o, f, k, base, size, pos, i, ValidCount(o[k], i), best, hit, enter)
            == SelectChildren(o, f, k, base, size, pos, i + 1, ValidCount(o[k], i + 1), Nearer(best, c), hit, enter)
  {
  }

  /** `VisitStep` when the read of child i faults: the loop ends with that fault. */
  lemma VisitFault(o: seq<bv32>, f: seq<bv32>, k: int, base: int, size: int, pos: Vec3,
                   i: int, best: Option<Probe>,
                   hit: (Vec3, int) -> bool, enter: (Vec3, int) -> real)
    requires 0 <= k < |o| && size >= 1 && 0 <= i < 8 && o[k] & ValidBit(i) != 0
    requires Traverse(o, f, base + ValidCount(o[k], i), size / 2, ChildPos(pos, size / 2, i), hit, enter).Failure?
    ensures SelectChildren(o, f, k, base, size, pos, i, ValidCount(o[k], i), best, hit, enter)
            == Traverse(o, f, base + ValidCount(o[k], i), size / 2, ChildPos(pos, size / 2, i), hit, enter)
  {
  }

  // ---------------------------------------------------------------------------
  // Reference: the same search on the build tree, and what the selection picks
  // ---------------------------------------------------------------------------

  /** The selection loop over a sequence of child results, from index `i` on. */
  function Nearest(cs: seq<Option<Probe>>, i: int, best: Option<Probe>): Option<Probe>
    requires 0 <= i <= |cs|
    decreases |cs| - i
  {
    if i == |cs| then best else Nearest(cs, i + 1, Nearer(best, cs[i]))
  }

  /**
    `r` is what the selection should return for the candidates `cs`: nothing
    when no candidate counts; otherwise the first counting candidate whose
    distance is minimal among the counting ones.
   */
  ghost predicate IsNearest(cs: seq<Option<Probe>>, r: Option<Probe>) {
    if forall j :: 0 <= j < |cs| ==> !Counts(cs[j]) then r.None?
    else exists j :: 0 <= j < |cs| && FirstNearest(cs, j) && r == cs[j]
  }

  /** Candidate `j` counts, no counting candidate is nearer, and every earlier one is farther. */
  ghost predicate FirstNearest(cs: seq<Option<Probe>>, j: int)
    requires 0 <= j < |cs|
  {
    && Counts(cs[j])
    && (forall m :: 0 <= m < |cs| && Counts(cs[m]) ==> cs[j].value.dist <= cs[m].value.dist)
    && (forall m :: 0 <= m < j && Counts(cs[m]) ==> cs[j].value.dist < cs[m].value.dist)
  }

  /** There is at most one nearest result. */
  lemma NearestUnique(cs: seq<Option<Probe>>, r1: Option<Probe>, r2: Option<Probe>)
    requires IsNearest(cs, r1) && IsNearest(cs, r2)
    ensures r1 == r2
  {
    if exists j :: 0 <= j < |cs| && Counts(cs[j]) {
      var j1 :| 0 <= j1 < |cs| && FirstNearest(cs, j1) && r1 == cs[j1];
      var j2 :| 0 <= j2 < |cs| && FirstNearest(cs, j2) && r2 == cs[j2];
      assert j1 == j2;
    }
  }

  /** Appending one candidate: a selection step keeps the nearest of the longer prefix. */
  lemma NearerStep(ps: seq<Option<Probe>>, c: Option<Probe>, best: Option<Probe>)
    requires IsNearest(ps, best)
    ensures IsNearest(ps + [c], Nearer(best, c))
  {
    var qs := ps + [c];
    var n := |ps|;
    if forall j :: 0 <= j < |ps| ==> !Counts(ps[j]) {
      if Counts(c) {
        assert FirstNearest(qs, n);
      } else {
        assert forall j :: 0 <= j < |qs| ==> !Counts(qs[j]);
      }
    } else {
      var j :| 0 <= j < |ps| && FirstNearest(ps, j) && best == ps[j];
      assert qs[j] == ps[j];
      if Counts(c) && c.value.dist < best.value.dist {
        assert FirstNearest(qs, n);
      } else {
        assert FirstNearest(qs, j);
      }
    }
  }

  /** The selection loop returns the nearest counting candidate, ties to the earliest. */
  lemma {:induction false} NearestCorrect(cs: seq<Option<Probe>>, i: int, best: Option<Probe>)
    requires 0 <= i <= |cs|
    requires IsNearest(cs[..i], best)
    ensures IsNearest(cs, Nearest(cs, i, best))
    decreases |cs| - i
  {
    if i == |cs| {
      assert cs[..i] == cs;
    } else {
      NearerPrefix(cs, i, best);
      NearestCorrect(cs, i + 1, Nearer(best, cs[i]));
    }
  }

  /** `NearerStep` on the prefixes of one sequence. */
  lemma NearerPrefix(cs: seq<Option<Probe>>, i: int, best: Option<Probe>)
    requires 0 <= i < |cs|
    requires IsNearest(cs[..i], best)
    ensures IsNearest(cs[..i + 1], Nearer(best, cs[i]))
  {
    NearerStep(cs[..i], cs[i], best);
    assert cs[..i] + [cs[i]] == cs[..i + 1];
  }

  /** The whole loop, started with nothing selected. */
  lemma NearestOfAll(cs: seq<Option<Probe>>)
    ensures IsNearest(cs, Nearest(cs, 0, None))
    ensures Nearest(cs, 0, None).None? <==> forall j :: 0 <= j < |cs| ==> !Counts(cs[j])
  {
    assert cs[..0] == [];
    NearestCorrect(cs, 0, None);
  }

  /** `traverse_octree` read on the build tree instead of the packed array. */
  function TraverseTree(n: Node, size: int, pos: Vec3,
                        hit: (Vec3, int) -> bool, enter: (Vec3, int) -> real): Option<Probe>
    requires WellFormed(n)
    decreases n, 1
  {
    if size < 1 || !hit(pos, size) then None
    else if n.id != MIXED then Some(Probe(n.id, enter(pos, size), pos, size))
    else Nearest(Candidates(n, size, pos, hit, enter), 0, None)
  }

  /** The results of the eight children of a mixed node, in octant order. */
  function Candidates(n: Node, size: int, pos: Vec3,
                      hit: (Vec3, int) -> bool, enter: (Vec3, int) -> real): (cs: seq<Option<Probe>>)
    requires WellFormed(n) && n.id == MIXED
    ensures |cs| == 8
    decreases n, 0
  {
    seq(8, i requires 0 <= i < 8 => TraverseTree(n.children[i], size / 2, ChildPos(pos, size / 2, i), hit, enter))
  }
}
