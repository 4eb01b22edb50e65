/** Path checking, `VerifyMerkleProof` in `merkle/merkle.go`. */
module ProofVerifier {
  import opened Results
  import opened Hashing
  import opened TreeStore
  import opened ProofEngine

  /**
   * One recombination step: a right part is appended to the running digest,
   * a left part is prepended to it.
   */
  function Combine(h: HashFn, current: Bytes, part: ProofPart): Bytes {
    if part.isRight then h(current + part.hash) else h(part.hash + current)
  }

  /** The `range proof[1:]` loop: folds `parts` into `current`, checking widths as it goes. */
  function Fold(h: HashFn, current: Bytes, parts: seq<ProofPart>): Result<Bytes, Error>
    decreases |parts|
  {
    if |parts| == 0 then Success(current)
    else if |parts[0].hash| != DigestSize then Failure(InvalidPartSize)
    else Fold(h, Combine(h, current, parts[0]), parts[1..])
  }

  /** True when every part carries a `DigestSize`-byte digest. */
  predicate PartsSized(parts: seq<ProofPart>) {
    forall i :: 0 <= i < |parts| ==> |parts[i].hash| == DigestSize
  }

  /**
   * The digest a path reconstructs, defined from the top down: the last
   * part is combined with what the path without it reconstructs.
   */
  function Reconstruct(h: HashFn, leaf: Bytes, parts: seq<ProofPart>): Bytes
    decreases |parts|
  {
    if |parts| == 0 then leaf
    else Combine(h, Reconstruct(h, leaf, parts[..|parts| - 1]), parts[|parts| - 1])
  }

  /** Reconstructing past one more part is one more combination at the bottom. */
  lemma {:induction false} ReconstructFirst(h: HashFn, leaf: Bytes, parts: seq<ProofPart>)
    requires |parts| > 0
    ensures Reconstruct(h, leaf, parts) == Reconstruct(h, Combine(h, leaf, parts[0]), parts[1..])
    decreases |parts|
  {
    if |parts| > 1 {
      var init := parts[..|parts| - 1];
      ReconstructFirst(h, leaf, init);
      assert init[1..] == parts[1..][..|parts[1..]| - 1];
    }
  }

  /** The checking loop fails exactly on a mis-sized part and otherwise reconstructs. */
  lemma {:induction false} FoldReconstructs(h: HashFn, current: Bytes, parts: seq<ProofPart>)
    ensures Fold(h, current, parts).Failure? <==> !PartsSized(parts)
    ensures Fold(h, current, parts).Failure? ==> Fold(h, current, parts).error == InvalidPartSize
    ensures Fold(h, current, parts).Success? ==> Fold(h, current, parts).value == Reconstruct(h, current, parts)
    decreases |parts|
  {
    if |parts| > 0 {
      FoldReconstructs(h, Combine(h, current, parts[0]), parts[1..]);
      ReconstructFirst(h, current, parts);
      assert PartsSized(parts) <==> |parts[0].hash| == DigestSize && PartsSized(parts[1..]) by {
        if |parts[0].hash| == DigestSize && PartsSized(parts[1..]) {
          forall i | 0 <= i < |parts| ensures |parts[i].hash| == DigestSize {
            if i > 0 { assert parts[i] == parts[1..][i - 1]; }
          }
        }
      }
    }
  }

  /**
   * `VerifyMerkleProof`: an empty path or a mis-sized first digest is an
   * invalid proof, a mis-sized later digest an invalid part; otherwise the
   * answer is whether the path reconstructs `rootHash`. The width of
   * `rootHash` itself is not checked.
   */
  function VerifyMerkleProof(h: HashFn, rootHash: Bytes, proof: seq<ProofPart>): (r: Result<bool, Error>)
    ensures r.Failure? <==> |proof| == 0 || !PartsSized(proof)
    ensures r == Failure(InvalidProof) <==> |proof| == 0 || |proof[0].hash| != DigestSize
    ensures r.Failure? ==> r.error == if |proof| == 0 || |proof[0].hash| != DigestSize then InvalidProof else InvalidPartSize
    ensures r.Success? ==> (r.value <==> Reconstruct(h, proof[0].hash, proof[1..]) == rootHash)
  {
    if |proof| == 0 || |proof[0].hash| != DigestSize then Failure(InvalidProof)
    else
      FoldReconstructs(h, proof[0].hash, proof[1..]);
      assert PartsSized(proof) <==> PartsSized(proof[1..]) by {
        if PartsSized(proof[1..]) {
          forall i | 0 <= i < |proof| ensures |proof[i].hash| == DigestSize {
            if i > 0 { assert proof[i] == proof[1..][i - 1]; }
          }
        }
      }
      match Fold(h, proof[0].hash, proof[1..])
      case Failure(e) => Failure(e)
      case Success(current) => Success(current == rootHash)
  }
}
