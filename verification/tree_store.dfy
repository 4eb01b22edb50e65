/**
 * The leveled node structure of `merkle/merkle.go`: leaf ingestion, the root
 * accessor and the full rebuild of every level above the leaves.
 *
 * A tree is a value; the Go methods that mutate their receiver are modelled
 * as functions returning the updated tree.
 */
module TreeStore {
  import opened Results
  import opened Hashing

  /** `MerkleNode`: one digest, located by (level, slot) only. */
  datatype MerkleNode = MerkleNode(hash: Bytes)

  /** `MerkleTree`: level 0 holds the leaves in insertion order. */
  datatype MerkleTree = MerkleTree(nodes: seq<seq<MerkleNode>>, isTreeBuilt: bool)

  /** The errors the engine reports, one per distinct `fmt.Errorf` in the source. */
  datatype Error =
    | NoLeaves            // BuildMerkleTree: "No leaves provided"
    | NotConstructed      // GenerateMerkleProofForSegment: "not properly constructed"
    | IndexOutOfBounds    // GenerateMerkleProofForSegment: "index out of bounds"
    | InvalidProof        // VerifyMerkleProof: empty proof or bad first digest
    | InvalidPartSize     // VerifyMerkleProof: bad digest in a later part

  /** The zero value `&merkle.MerkleTree{}` the handlers start from. */
  const EmptyTree: MerkleTree := MerkleTree([], false)

  /** The leaves of `t`, empty when level 0 does not exist. */
  function Leaves(t: MerkleTree): seq<MerkleNode> {
    if |t.nodes| == 0 then [] else t.nodes[0]
  }

  /** True when every node of every level carries a `DigestSize`-byte digest. */
  predicate DigestsSized(nodes: seq<seq<MerkleNode>>) {
    forall k, i :: 0 <= k < |nodes| && 0 <= i < |nodes[k]| ==> |nodes[k][i].hash| == DigestSize
  }

  /** True when every node of `level` carries a `DigestSize`-byte digest. */
  predicate AllSizedNodes(level: seq<MerkleNode>) {
    forall i :: 0 <= i < |level| ==> |level[i].hash| == DigestSize
  }

  /**
   * `AddLeaf`: hashes `data`, creates level 0 when it is absent, appends the
   * digest as the last leaf. Upper levels and the built flag are left alone.
   */
  function AddLeaf(h: HashFn, t: MerkleTree, data: Bytes): (r: MerkleTree)
    ensures |r.nodes| == if |t.nodes| == 0 then 1 else |t.nodes|
    ensures Leaves(r) == Leaves(t) + [MerkleNode(h(data))]
    ensures forall k :: 1 <= k < |t.nodes| ==> r.nodes[k] == t.nodes[k]
    ensures r.isTreeBuilt == t.isTreeBuilt
    ensures DigestsSized(t.nodes) ==> DigestsSized(r.nodes)
  {
    var base := if |t.nodes| == 0 then t.nodes + [[]] else t.nodes;
    t.(nodes := base[0 := base[0] + [MerkleNode(h(data))]])
  }

  /** Feeds `data` to `AddLeaf` one item at a time, as successive uploads do. */
  function AddLeaves(h: HashFn, t: MerkleTree, data: seq<Bytes>): MerkleTree
    decreases |data|
  {
    if |data| == 0 then t else AddLeaves(h, AddLeaf(h, t, data[0]), data[1..])
  }

  /**
   * Ingestion order is leaf order: after adding `data` to a fresh tree, leaf
   * `i` is the digest of `data[i]`, and there is exactly one level.
   */
  lemma {:induction false} AddLeavesOrder(h: HashFn, t: MerkleTree, data: seq<Bytes>)
    ensures var r := AddLeaves(h, t, data);
      && Leaves(r) == Leaves(t) + seq(|data|, i requires 0 <= i < |data| => MerkleNode(h(data[i])))
      && r.isTreeBuilt == t.isTreeBuilt
      && (|data| > 0 ==> |r.nodes| == if |t.nodes| == 0 then 1 else |t.nodes|)
      && (DigestsSized(t.nodes) ==> DigestsSized(r.nodes))
    decreases |data|
  {
    if |data| > 0 {
      var t' := AddLeaf(h, t, data[0]);
      AddLeavesOrder(h, t', data[1..]);
      var first := MerkleNode(h(data[0]));
      var hashed := seq(|data|, i requires 0 <= i < |data| => MerkleNode(h(data[i])));
      var rest := seq(|data| - 1, i requires 0 <= i < |data| - 1 => MerkleNode(h(data[1..][i])));
      assert hashed == [first] + rest by {
        forall i | 0 <= i < |rest| ensures rest[i] == hashed[i + 1] {
          assert data[1..][i] == data[i + 1];
        }
      }
      assert Leaves(t') == Leaves(t) + [first];
      assert Leaves(t) + [first] + rest == Leaves(t) + hashed;
    }
  }

  /**
   * `GetRootHash`: the first node of the last level. The source indexes
   * without checking, so calling it on a tree with no levels or an empty top
   * level is the caller's error.
   */
  function GetRootHash(t: MerkleTree): (r: Bytes)
    requires |t.nodes| > 0 && |t.nodes[|t.nodes| - 1]| > 0
    ensures DigestsSized(t.nodes) ==> |r| == DigestSize
  {
    t.nodes[|t.nodes| - 1][0].hash
  }

  /**
   * The node the build derives for slot `i` of the level above `lower`:
   * the digest of the pair (2i, 2i+1), left first, and a lone last node is
   * paired with itself.
   */
  function ParentAt(h: HashFn, lower: seq<MerkleNode>, i: nat): MerkleNode
    requires 2 * i < |lower|
  {
    var left := lower[2 * i];
    var right := if 2 * i + 1 < |lower| then lower[2 * i + 1] else left;
    MerkleNode(h(left.hash + right.hash))
  }

  /** `upper` is the level the build derives from `lower`. */
  predicate IsParentLevel(h: HashFn, lower: seq<MerkleNode>, upper: seq<MerkleNode>) {
    && |upper| == (|lower| + 1) / 2
    && forall i :: 0 <= i < |upper| ==> upper[i] == ParentAt(h, lower, i)
  }

  /**
   * Adding a leaf to a tree that already has levels above the leaves keeps
   * the built flag and the old root: that root does not commit to the new
   * leaf until the tree is rebuilt.
   */
  lemma AddLeafKeepsStaleRoot(h: HashFn, t: MerkleTree, data: Bytes)
    requires |t.nodes| >= 2 && |t.nodes[|t.nodes| - 1]| > 0
    ensures var r := AddLeaf(h, t, data);
      && r.isTreeBuilt == t.isTreeBuilt
      && |Leaves(r)| == |Leaves(t)| + 1
      && GetRootHash(r) == GetRootHash(t)
  {
  }

  /**
   * The body of the inner loop of `BuildMerkleTree`: walks `level` two nodes
   * at a time, left to right.
   */
  function Parents(h: HashFn, level: seq<MerkleNode>): (r: seq<MerkleNode>)
    ensures IsParentLevel(h, level, r)
    decreases |level|
  {
    if |level| == 0 then []
    else if |level| == 1 then [MerkleNode(h(level[0].hash + level[0].hash))]
    else [MerkleNode(h(level[0].hash + level[1].hash))] + Parents(h, level[2..])
  }

  /** Number of levels the build adds above `n` leaves: ceil(log2 n). */
  function Height(n: nat): nat
    decreases n
  {
    if n <= 1 then 0 else 1 + Height((n + 1) / 2)
  }

  /** 2^k. */
  function Pow2(k: nat): nat {
    if k == 0 then 1 else 2 * Pow2(k - 1)
  }

  /** `Height(n)` is the least k with n <= 2^k. */
  lemma {:induction false} HeightIsCeilLog2(n: nat)
    requires n >= 1
    ensures n <= Pow2(Height(n))
    ensures n > 1 ==> Pow2(Height(n) - 1) < n
    decreases n
  {
    if n > 1 {
      var m := (n + 1) / 2;
      HeightIsCeilLog2(m);
      assert Pow2(Height(n)) == 2 * Pow2(Height(m));
      if m > 1 {
        assert Pow2(Height(m)) == 2 * Pow2(Height(m) - 1);
      }
    }
  }

  /**
   * The exact shape of a built tree: a non-empty leaf level, each level
   * derived from the one below, and only the topmost level down to one node.
   */
  predicate WellShaped(h: HashFn, nodes: seq<seq<MerkleNode>>) {
    && |nodes| >= 1
    && |nodes[|nodes| - 1]| == 1
    && (forall k :: 0 <= k < |nodes| - 1 ==> |nodes[k]| > 1)
    && (forall k :: 0 <= k < |nodes| - 1 ==> IsParentLevel(h, nodes[k], nodes[k + 1]))
  }

  /**
   * The outer loop of `BuildMerkleTree`: starting from `level`, keeps adding
   * the parent level while the newest level has more than one node.
   */
  function BuildLevels(h: HashFn, level: seq<MerkleNode>): (r: seq<seq<MerkleNode>>)
    requires |level| >= 1
    ensures WellShaped(h, r)
    ensures r[0] == level
    ensures |r| == 1 + Height(|level|)
    ensures AllSizedNodes(level) ==> DigestsSized(r)
    decreases |level|
  {
    if |level| == 1 then [level] else [level] + BuildLevels(h, Parents(h, level))
  }

  /**
   * `BuildMerkleTree`: fails exactly when there are no leaves (the caller
   * keeps its tree unchanged); otherwise keeps level 0, discards every level
   * above it, re-derives them and sets the built flag.
   */
  function BuildMerkleTree(h: HashFn, t: MerkleTree): (r: Result<MerkleTree, Error>)
    ensures r.Failure? <==> |Leaves(t)| == 0
    ensures r.Failure? ==> r.error == NoLeaves
    ensures r.Success? ==> && r.value.isTreeBuilt
                           && WellShaped(h, r.value.nodes)
                           && Leaves(r.value) == Leaves(t)
                           && |r.value.nodes| == 1 + Height(|Leaves(t)|)
  {
    if |t.nodes| == 0 || |t.nodes[0]| == 0 then Failure(NoLeaves)
    else Success(MerkleTree(BuildLevels(h, t.nodes[0]), true))
  }

  /** A level determines the level the build puts above it. */
  lemma ParentLevelUnique(h: HashFn, lower: seq<MerkleNode>, upper: seq<MerkleNode>)
    requires IsParentLevel(h, lower, upper)
    ensures upper == Parents(h, lower)
  {
  }

  /** Any well-shaped level sequence is the one the build derives from its leaves. */
  lemma {:induction false} WellShapedIsBuilt(h: HashFn, nodes: seq<seq<MerkleNode>>)
    requires WellShaped(h, nodes)
    ensures nodes == BuildLevels(h, nodes[0])
    decreases |nodes|
  {
    if |nodes| > 1 {
      ParentLevelUnique(h, nodes[0], nodes[1]);
      var rest := nodes[1..];
      WellShapedIsBuilt(h, rest);
      assert nodes == [nodes[0]] + rest;
    }
  }

  /**
   * Rebuilding is idempotent, and more: any tree whose levels already have
   * the built shape is left with the same levels by a rebuild.
   */
  lemma BuildIdempotent(h: HashFn, t: MerkleTree)
    requires WellShaped(h, t.nodes)
    ensures BuildMerkleTree(h, t) == Success(t.(isTreeBuilt := true))
  {
    WellShapedIsBuilt(h, t.nodes);
  }
}
