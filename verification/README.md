# Merkle-tree engine of a segment store, in Dafny

This project models the hash-tree engine of a file-segment store. Clients
upload segments of a file, and each upload adds one leaf. On request, the
server proves that a segment belongs to the uploaded set by returning an
authentication path. The engine has four parts:

- leaf ingestion (`AddLeaf`);
- tree construction (`BuildMerkleTree`), a full rebuild of every level
  above the leaves;
- path generation (`GenerateMerkleProofForSegment`): the leaf's own digest
  first, then one sibling digest per level, each marked left or right;
- path verification (`VerifyMerkleProof`), which folds the path back into a
  root and compares it with a trusted root.

The Go methods mutate their receiver. Here a tree is an immutable value:
each operation returns the updated tree, or a `Result` carrying the error
that the Go code returns. Levels are `seq<seq<MerkleNode>>`, and a node is
located by its position only, as in the source.

SHA-256 is a parameter `h: HashFn`. `HashFn` is the type of total functions
from bytes to bytes whose result is always 32 bytes wide. The proofs use
nothing else about the hash, so every theorem holds for SHA-256 and for
every other 32-byte digest function. No claim depends on collision
resistance.

There is one module per part of the engine: ingestion and build
(`TreeStore`), path generation (`ProofEngine`) and verification
(`ProofVerifier`). Three more modules hold the hash (`Hashing`), the result
type (`Results`) and the completeness theorem (`Completeness`).

- `Hashing`: bytes, `DigestSize`, `Digest` and `HashFn`.
- `Results`: the success/failure value that stands in for Go's `(value, error)`.
- `TreeStore`: the node and tree types, the errors, `AddLeaf`, `GetRootHash`,
  `BuildMerkleTree`, and the exact shape of a built tree (`WellShaped`).
- `ProofEngine`: `ProofPart` and `GenerateMerkleProofForSegment`.
- `ProofVerifier`: `VerifyMerkleProof`, and a top-down reference definition
  (`Reconstruct`) of the digest that a path rebuilds.
- `Completeness`: a path generated from a built tree always verifies
  against that tree's root.

Quirks of the code that the model keeps (`merkle/merkle.go`):

- Path generation does not look at the built flag (lines 100-117). On a
  tree that has only its leaf level, the level loop runs zero times, so the
  path has one part.
- `AddLeaf` does not clear the built flag (lines 37-48). After `AddLeaf` on
  a built tree the flag stays set while the top level no longer covers the
  new leaf: `AddLeafKeepsStaleRoot` shows the root staying the same. The
  request flow never meets this case, because the proof handler
  (`handlers/proof.go`) builds the tree but never saves it.
- The first part of every path is marked left (line 115).

## Model

| member | source | states |
|---|---|---|
| TreeStore.AddLeaf | merkle/merkle.go:37-48 | level 0 is created when absent; exactly one node, the digest of the data, is appended after the existing leaves; every upper level and the built flag are unchanged; 32-byte digests stay 32 bytes |
| TreeStore.AddLeavesOrder | merkle/merkle.go:37-48 | after a series of uploads, leaf i is the digest of the i-th uploaded data: insertion order is the leaf index; the built flag is never touched |
| TreeStore.AddLeafKeepsStaleRoot | merkle/merkle.go:37-54 | adding a leaf to a tree that has upper levels keeps the built flag and the old root, which does not cover the new leaf |
| TreeStore.GetRootHash | merkle/merkle.go:51-54 | on a tree whose digests are all 32 bytes wide the root is 32 bytes wide; a tree with no levels or an empty top level is outside what the code accepts (it would panic) |
| TreeStore.Parents | merkle/merkle.go:69-91 | the level derived from a level of n nodes has (n+1)/2 nodes, and node i is the digest of the pair (2i, 2i+1), left first, or of node 2i with itself when 2i is the lone last node |
| TreeStore.BuildLevels | merkle/merkle.go:62-93 | the rebuilt levels start with the given leaves, each level is derived from the one below, only the top level has a single node, there are 1 + ceil(log2 n) levels, and 32-byte leaves give 32-byte digests everywhere |
| TreeStore.HeightIsCeilLog2 | merkle/merkle.go:66-93 | the number of levels added above n leaves is the least k with n <= 2^k |
| TreeStore.BuildMerkleTree | merkle/merkle.go:56-98 | fails with the no-leaves error exactly when level 0 is missing or empty; otherwise keeps level 0, gives the tree the built shape with 1 + ceil(log2 n) levels, and sets the built flag |
| TreeStore.ParentLevelUnique | merkle/merkle.go:69-91 | a level determines the level the build derives above it |
| TreeStore.WellShapedIsBuilt | merkle/merkle.go:62-93 | any level sequence with the built shape is exactly what the build derives from its level 0 |
| TreeStore.BuildIdempotent | merkle/merkle.go:56-98 | rebuilding a tree that already has the built shape gives back the same levels, with the flag set |
| ProofEngine.LevelStep | merkle/merkle.go:118-143 | for a running index inside the level, one pass of the loop emits exactly the sibling part; past the end it emits nothing, except that an odd index one past the end emits the level's last node |
| ProofEngine.PathFromLength | merkle/merkle.go:117-144 | the level loop emits at most one part per level below the top |
| ProofEngine.GenerateMerkleProofForSegment | merkle/merkle.go:100-147 | fails with the not-constructed error exactly when there are no leaves, and with the out-of-bounds error exactly when the index is negative or not below the leaf count; otherwise the path starts with the leaf's own digest marked left, has at most one part per level, and has one part when only the leaf level exists |
| ProofEngine.PathFromShape | merkle/merkle.go:117-144 | on levels with the built sizes, the path has one part per level below the top, and the part for level m is the sibling of the index halved m times, which stays inside that level |
| ProofEngine.ProofOnBuiltTree | merkle/merkle.go:111-146 | on a built tree the path has as many parts as there are levels: the leaf's digest, then, for each level k below the top, the sibling part of the index halved k times (right sibling of an even slot, left sibling of an odd slot, the node itself for a lone last node) |
| ProofVerifier.ReconstructFirst | merkle/merkle.go:156-171 | rebuilding the digest from the bottom and from the top agree: combining the first part into the leaf and reconstructing the rest gives the same digest |
| ProofVerifier.FoldReconstructs | merkle/merkle.go:156-171 | the checking loop fails with the part-size error exactly when some part is not 32 bytes wide, and otherwise returns the digest that the path reconstructs |
| ProofVerifier.VerifyMerkleProof | merkle/merkle.go:149-174 | it fails exactly when the path is empty or some digest is not 32 bytes wide; the error is the invalid-proof error exactly when the path is empty or its first digest is mis-sized, and the part-size error otherwise; on success it answers true exactly when the path reconstructs the given root |
| Completeness.BuiltDigestsSized | merkle/merkle.go:38-89 | a built tree over 32-byte leaves has 32-byte digests at every level |
| Completeness.SiblingCombinesToParent | merkle/merkle.go:123-139 | combining a slot with its sibling part, on the side the part's flag names, gives the parent that the build derived for that slot |
| Completeness.PathReachesRoot | merkle/merkle.go:117-171 | folding the path of any slot of any level into that slot's digest succeeds and gives the root |
| Completeness.ProofCompleteness | merkle/merkle.go:100-174 | on a built tree with 32-byte leaves, every valid index yields a path, and that path verifies against the root |
| Completeness.IngestBuildProve | merkle/merkle.go:37-174 | uploads, then a build, then a path for any uploaded segment: the path has 1 + ceil(log2 n) parts and the self-check against the root always succeeds |
| Completeness.ThreeLeaves | merkle/merkle.go:66-146 | with three leaves a, b, c, level 1 is [H(Ha+Hb), H(Hc+Hc)] and the root is H of their concatenation; the path for leaf 2 is [(Hc, left), (Hc, left), (H(Ha+Hb), left)] |

## Left out

- `SaveMerkleTree` and `LoadMerkleTree`: file I/O and a JSON library serializer, whose round trip cannot be seen here.
- The HTTP handlers and `main.go`: routing, multipart parsing, index parsing, file storage and JSON responses.
- SHA-256 internals: the hash is a parameter that is only known to return 32 bytes. Tamper sensitivity and collision resistance are probabilistic claims and are not stated.
- The unlocked read-modify-write of the persisted tree across concurrent requests: this is concurrency, and the source has no locking to model.
- Nil receivers and nil nodes: a `nil` tree, and null nodes in a loaded file, cannot arise from the engine's own operations.
- The error message texts: each distinct message is one constructor of `Error`.
- In-place mutation: on a failed build the caller keeps its tree, because the operation returns a new value instead of changing the old one.
- TreeStore.GetRootHash: the Go code panics on a tree with no levels or an empty top level; here that case is a precondition rather than a modelled panic.
