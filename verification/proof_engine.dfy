/**
 * Authentication-path generation, `GenerateMerkleProofForSegment` in
 * `merkle/merkle.go`.
 */
module ProofEngine {
  import opened Results
  import opened Hashing
  import opened TreeStore

  /** `ProofPart`: a digest and whether it is the right operand when recombined. */
  datatype ProofPart = ProofPart(hash: Bytes, isRight: bool)

  /**
   * What a path holds for slot `j` of `level`: the left sibling of an odd
   * slot, the right sibling of an even slot that has one, and otherwise the
   * lone last node itself, to be paired with itself as the build does.
   */
  function SiblingPart(level: seq<MerkleNode>, j: nat): ProofPart
    requires j < |level|
  {
    if j % 2 == 1 then ProofPart(level[j - 1].hash, false)
    else if j + 1 < |level| then ProofPart(level[j + 1].hash, true)
    else ProofPart(level[j].hash, false)
  }

  /**
   * One pass of the level loop: picks the sibling slot by parity and emits
   * at most one part. On levels the running index has outgrown (a stale
   * tree) nothing is emitted, except that an odd index one past the end
   * still emits the level's last node.
   */
  function LevelStep(level: seq<MerkleNode>, j: nat): (r: seq<ProofPart>)
    ensures j < |level| ==> r == [SiblingPart(level, j)]
    ensures j == |level| ==> r == if j % 2 == 1 then [ProofPart(level[j - 1].hash, false)] else []
    ensures j > |level| ==> r == []
  {
    var isRight := j % 2 == 0;
    var sibling := if isRight then j + 1 else j - 1;
    if sibling < |level| then [ProofPart(level[sibling].hash, isRight)]
    else if j == |level| - 1 then [ProofPart(level[j].hash, false)]
    else []
  }

  /** The level loop from level `k` up to, not including, the last level. */
  function PathFrom(nodes: seq<seq<MerkleNode>>, k: nat, j: nat): seq<ProofPart>
    decreases |nodes| - k
  {
    if k + 1 >= |nodes| then [] else LevelStep(nodes[k], j) + PathFrom(nodes, k + 1, j / 2)
  }

  /** The path never has more parts than there are levels above `k`. */
  lemma {:induction false} PathFromLength(nodes: seq<seq<MerkleNode>>, k: nat, j: nat)
    ensures |PathFrom(nodes, k, j)| <= if k + 1 >= |nodes| then 0 else |nodes| - 1 - k
    decreases |nodes| - k
  {
    if k + 1 < |nodes| {
      PathFromLength(nodes, k + 1, j / 2);
    }
  }

  /**
   * `GenerateMerkleProofForSegment`: rejects a tree without leaves and an
   * index outside level 0; otherwise the leaf's own digest (marked left)
   * followed by one part per level loop pass that found a node. The flag
   * `isTreeBuilt` is not consulted: a tree with only its leaf level yields
   * the one-part path.
   */
  function GenerateMerkleProofForSegment(t: MerkleTree, segmentIndex: int): (r: Result<seq<ProofPart>, Error>)
    ensures r.Failure? <==> |Leaves(t)| == 0 || segmentIndex < 0 || segmentIndex >= |Leaves(t)|
    ensures r.Failure? ==> r.error == if |Leaves(t)| == 0 then NotConstructed else IndexOutOfBounds
    ensures r.Success? ==> && 1 <= |r.value| <= |t.nodes|
                           && r.value[0] == ProofPart(t.nodes[0][segmentIndex].hash, false)
    ensures r.Success? && |t.nodes| == 1 ==> |r.value| == 1
  {
    if |t.nodes| == 0 || |t.nodes[0]| == 0 then Failure(NotConstructed)
    else if segmentIndex < 0 || segmentIndex >= |t.nodes[0]| then Failure(IndexOutOfBounds)
    else
      PathFromLength(t.nodes, 0, segmentIndex);
      Success([ProofPart(t.nodes[0][segmentIndex].hash, false)] + PathFrom(t.nodes, 0, segmentIndex))
  }

  /** The running index of the level loop after `m` passes: `j` halved `m` times. */
  function Halved(j: nat, m: nat): nat
    decreases m
  {
    if m == 0 then j else Halved(j / 2, m - 1)
  }

  /** Each level above the leaves has half as many nodes as the one below, rounded up. */
  predicate HalvingLevels(nodes: seq<seq<MerkleNode>>) {
    forall k :: 0 <= k < |nodes| - 1 ==> |nodes[k + 1]| == (|nodes[k]| + 1) / 2
  }

  /**
   * On a tree with the built level sizes, the path from slot `j` of level `k` holds exactly one
   * part per level above, and the part for level `k + m` is the sibling of
   * the running index `Halved(j, m)`, which stays inside that level.
   */
  lemma {:induction false} PathFromShape(nodes: seq<seq<MerkleNode>>, k: nat, j: nat)
    requires HalvingLevels(nodes) && k < |nodes| && j < |nodes[k]|
    ensures var p := PathFrom(nodes, k, j);
      && |p| == |nodes| - 1 - k
      && forall m :: 0 <= m < |p| ==>
           Halved(j, m) < |nodes[k + m]| && p[m] == SiblingPart(nodes[k + m], Halved(j, m))
    decreases |nodes| - k
  {
    if k + 1 < |nodes| {
      PathFromShape(nodes, k + 1, j / 2);
      var p := PathFrom(nodes, k, j);
      var rest := PathFrom(nodes, k + 1, j / 2);
      assert p == [SiblingPart(nodes[k], j)] + rest;
      forall m | 1 <= m < |p|
        ensures Halved(j, m) < |nodes[k + m]| && p[m] == SiblingPart(nodes[k + m], Halved(j, m))
      {
        assert p[m] == rest[m - 1];
        assert k + m == (k + 1) + (m - 1);
      }
    }
  }

  /**
   * The path generated on a built tree: the leaf's digest, then for every
   * level below the top the sibling part of the running index
   * `segmentIndex` halved `k` times.
   */
  lemma ProofOnBuiltTree(h: HashFn, t: MerkleTree, segmentIndex: int)
    requires WellShaped(h, t.nodes) && 0 <= segmentIndex < |t.nodes[0]|
    ensures var r := GenerateMerkleProofForSegment(t, segmentIndex);
      && r.Success?
      && |r.value| == |t.nodes|
      && r.value[0] == ProofPart(t.nodes[0][segmentIndex].hash, false)
      && forall k :: 0 <= k < |t.nodes| - 1 ==>
           Halved(segmentIndex, k) < |t.nodes[k]|
           && r.value[k + 1] == SiblingPart(t.nodes[k], Halved(segmentIndex, k))
  {
    assert HalvingLevels(t.nodes) by {
      forall k | 0 <= k < |t.nodes| - 1
        ensures |t.nodes[k + 1]| == (|t.nodes[k]| + 1) / 2
      {
        assert IsParentLevel(h, t.nodes[k], t.nodes[k + 1]);
      }
    }
    PathFromShape(t.nodes, 0, segmentIndex);
    var r := GenerateMerkleProofForSegment(t, segmentIndex);
    var p := PathFrom(t.nodes, 0, segmentIndex);
    assert r.value == [ProofPart(t.nodes[0][segmentIndex].hash, false)] + p;
    forall k | 0 <= k < |t.nodes| - 1
      ensures Halved(segmentIndex, k) < |t.nodes[k]|
              && r.value[k + 1] == SiblingPart(t.nodes[k], Halved(segmentIndex, k))
    {
      assert r.value[k + 1] == p[k];
    }
  }
}
