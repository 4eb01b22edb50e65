/**
 * The central theorem: a path generated from a built tree always verifies
 * against that tree's root. The proof-request flow relies on it when it
 * self-checks every path before answering.
 */
module Completeness {
  import opened Results
  import opened Hashing
  import opened TreeStore
  import opened ProofEngine
  import opened ProofVerifier

  /** Every node of a built tree over well-sized leaves has a well-sized digest. */
  lemma BuiltDigestsSized(h: HashFn, nodes: seq<seq<MerkleNode>>)
    requires WellShaped(h, nodes) && AllSizedNodes(nodes[0])
    ensures DigestsSized(nodes)
  {
    WellShapedIsBuilt(h, nodes);
  }

  /**
   * One level of the walk: combining slot `j` with its sibling part gives
   * the parent node, slot `j / 2` of the level above.
   */
  lemma SiblingCombinesToParent(h: HashFn, lower: seq<MerkleNode>, upper: seq<MerkleNode>, j: nat)
    requires IsParentLevel(h, lower, upper) && j < |lower|
    ensures j / 2 < |upper|
    ensures Combine(h, lower[j].hash, SiblingPart(lower, j)) == upper[j / 2].hash
  {
  }

  /**
   * Folding the path of slot `j` of level `k` into that slot's digest
   * succeeds and yields the root.
   */
  lemma {:induction false} PathReachesRoot(h: HashFn, nodes: seq<seq<MerkleNode>>, k: nat, j: nat)
    requires WellShaped(h, nodes) && DigestsSized(nodes)
    requires k < |nodes| && j < |nodes[k]|
    ensures Fold(h, nodes[k][j].hash, PathFrom(nodes, k, j)) == Success(nodes[|nodes| - 1][0].hash)
    decreases |nodes| - k
  {
    if k + 1 < |nodes| {
      var part := SiblingPart(nodes[k], j);
      var rest := PathFrom(nodes, k + 1, j / 2);
      var path := PathFrom(nodes, k, j);
      assert path == [part] + rest;
      assert path[1..] == rest;
      SiblingCombinesToParent(h, nodes[k], nodes[k + 1], j);
      PathReachesRoot(h, nodes, k + 1, j / 2);
    }
  }

  /**
   * Completeness: on a built tree whose leaves are well-sized digests, every
   * valid index yields a path, and that path verifies against the root.
   */
  lemma ProofCompleteness(h: HashFn, t: MerkleTree, segmentIndex: int)
    requires WellShaped(h, t.nodes) && AllSizedNodes(t.nodes[0])
    requires 0 <= segmentIndex < |t.nodes[0]|
    ensures var p := GenerateMerkleProofForSegment(t, segmentIndex);
      p.Success? && VerifyMerkleProof(h, GetRootHash(t), p.value) == Success(true)
  {
    BuiltDigestsSized(h, t.nodes);
    PathReachesRoot(h, t.nodes, 0, segmentIndex);
    var proof := GenerateMerkleProofForSegment(t, segmentIndex).value;
    assert proof[1..] == PathFrom(t.nodes, 0, segmentIndex);
  }

  /**
   * The upload-then-prove flow: leaves ingested one upload at a time, the
   * tree built, a path generated for any uploaded segment. The path has
   * 1 + ceil(log2 n) parts and the self-check always succeeds.
   */
  lemma IngestBuildProve(h: HashFn, data: seq<Bytes>, segmentIndex: int)
    requires 0 <= segmentIndex < |data|
    ensures var built := BuildMerkleTree(h, AddLeaves(h, EmptyTree, data));
      && built.Success?
      && var p := GenerateMerkleProofForSegment(built.value, segmentIndex);
      && p.Success?
      && |p.value| == 1 + Height(|data|)
      && VerifyMerkleProof(h, GetRootHash(built.value), p.value) == Success(true)
  {
    var t := AddLeaves(h, EmptyTree, data);
    AddLeavesOrder(h, EmptyTree, data);
    var built := BuildMerkleTree(h, t).value;
    assert DigestsSized(t.nodes);
    assert built.nodes[0] == t.nodes[0];
    ProofCompleteness(h, built, segmentIndex);
    ProofOnBuiltTree(h, built, segmentIndex);
  }

  /**
   * Three leaves: the lone third leaf is paired with itself on the way to
   * level 1, and the path for it carries its own digest again, marked left.
   */
  lemma ThreeLeaves(h: HashFn, a: Bytes, b: Bytes, c: Bytes)
    ensures var built := BuildMerkleTree(h, AddLeaves(h, EmptyTree, [a, b, c]));
      var ha, hb, hc := h(a), h(b), h(c);
      var l, r := h(ha + hb), h(hc + hc);
      && built.Success?
      && built.value.nodes == [[MerkleNode(ha), MerkleNode(hb), MerkleNode(hc)],
                               [MerkleNode(l), MerkleNode(r)],
                               [MerkleNode(h(l + r))]]
      && GenerateMerkleProofForSegment(built.value, 2)
         == Success([ProofPart(hc, false), ProofPart(hc, false), ProofPart(l, false)])
  {
    var data := [a, b, c];
    var ha: Bytes, hb: Bytes, hc: Bytes := h(a), h(b), h(c);
    var leaves := [MerkleNode(ha), MerkleNode(hb), MerkleNode(hc)];
    var t := AddLeaves(h, EmptyTree, data);
    assert Leaves(t) == leaves by {
      AddLeavesOrder(h, EmptyTree, data);
      var hashed := seq(|data|, i requires 0 <= i < |data| => MerkleNode(h(data[i])));
      assert hashed == leaves;
    }
    var l: Bytes, r: Bytes := h(ha + hb), h(hc + hc);
    var level1 := [MerkleNode(l), MerkleNode(r)];
    var level2 := [MerkleNode(h(l + r))];
    assert Parents(h, leaves) == level1 by {
      assert leaves[2..] == [MerkleNode(hc)];
    }
    assert Parents(h, level1) == level2 by {
      assert level1[2..] == [];
    }
    var nodes := [leaves, level1, level2];
    assert BuildLevels(h, leaves) == nodes by {
      assert BuildLevels(h, level2) == [level2];
      assert BuildLevels(h, level1) == [level1, level2];
    }
    var built := MerkleTree(nodes, true);
    assert BuildMerkleTree(h, t) == Success(built);
    ProofOnBuiltTree(h, built, 2);
    var proof := GenerateMerkleProofForSegment(built, 2).value;
    assert Halved(2, 1) == 1;
    assert proof == [ProofPart(hc, false), ProofPart(hc, false), ProofPart(l, false)];
  }
}
