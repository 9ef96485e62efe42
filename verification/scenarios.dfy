/**
  Small concrete trees, for any digest: four leaves, three leaves with a
  padded tail, the empty input, and a hash that was never added.
 */
module Scenarios {
  import opened Wrappers
  import opened Hashing
  import opened Directions
  import opened Errors
  import opened Inclusion
  import opened Builder
  import opened Engine

  /**
    Four leaves build three levels of lengths 4, 2 and 1. The proof of the
    third leaf is its right neighbour and then the left pair's hash, and it
    folds back to the root.
   */
  lemma FourLeaves(d: Digest, a: Hash, b: Hash, c: Hash, e: Hash)
    ensures var r := NewFromHashes(d, [a, b, c, e]);
            && r.Success?
            && r.value.levels == [[a, b, c, e], [Combine(d, a, b), Combine(d, c, e)],
                                  [Combine(d, Combine(d, a, b), Combine(d, c, e))]]
    ensures var t := NewFromHashes(d, [a, b, c, e]).value;
            && InclusionProofAt(t, c, 2) == Success(ProofOfInclusion([(e, Right), (Combine(d, a, b), Left)], c))
            && VerifyAt(d, t, c, 2)
  {
    var ab := Combine(d, a, b);
    var ce := Combine(d, c, e);
    assert CombinePairs(d, [a, b, c, e]) == [ab, ce];
    assert CombinePairs(d, [ab, ce]) == [Combine(d, ab, ce)];
    var root := Combine(d, ab, ce);
    var levels := [[a, b, c, e], [ab, ce], [root]];
    assert BuildLevels(d, [root]) == [[root]];
    assert Padded([ab, ce]) == [ab, ce];
    assert BuildLevels(d, [ab, ce]) == [[ab, ce], [root]];
    assert Padded([a, b, c, e]) == [a, b, c, e];
    assert BuildLevels(d, [a, b, c, e]) == levels;
    assert Path(levels[2..], 0) == [];
    assert Path(levels[1..], 1) == [(ab, Left)];
    assert Path(levels, 2) == [(e, Right), (ab, Left)];
    assert Fold(d, root, []) == root;
    assert Fold(d, ce, [(ab, Left)]) == Fold(d, root, []);
    assert Fold(d, c, [(e, Right), (ab, Left)]) == Fold(d, ce, [(ab, Left)]);
  }

  /**
    Three leaves: level 0 stores the third leaf twice, and both the third leaf
    and its copy verify at their own index.
   */
  lemma ThreeLeaves(d: Digest, a: Hash, b: Hash, c: Hash)
    ensures var r := NewFromHashes(d, [a, b, c]);
            r.Success? && r.value.levels[0] == [a, b, c, c]
    ensures var t := NewFromHashes(d, [a, b, c]).value;
            VerifyAt(d, t, c, 2) && VerifyAt(d, t, c, 3)
  {
    var t := NewFromHashes(d, [a, b, c]).value;
    VerifyAtIff(d, t, c, 2);
    VerifyAtIff(d, t, c, 3);
  }

  /**
    Leaves given as data are hashed first, and the hash of item `i` verifies
    at index `i`, the last item of an odd count included.
   */
  lemma HashablesVerify(d: Digest, data: seq<seq<byte>>, i: nat)
    requires i < |data|
    ensures var r := NewFromHashables(d, data);
            r.Success? && i < |r.value.levels[0]| && VerifyAt(d, r.value, HashOf(d, data[i]), i)
  {
    var t := NewFromHashables(d, data).value;
    VerifyAtIff(d, t, HashOf(d, data[i]), i);
  }

  /**
    An empty list of hashes, or of data, is refused with `FailedToBuild`: the
    corrected behaviour, since `build_tree` as written never returns on it
    (`Builder.EmptyBuildNeverReturns`).
   */
  lemma EmptyInput(d: Digest)
    ensures NewFromHashes(d, []) == Failure(FailedToBuild(NoLastElement))
    ensures NewFromHashables(d, []) == Failure(FailedToBuild(NoLastElement))
  {
    assert HashAll(d, []) == [];
  }

  /** A hash that is not a leaf has no proof, and does not verify. */
  lemma AbsentHash(d: Digest, a: Hash, b: Hash, c: Hash, e: Hash, x: Hash)
    requires x != a && x != b && x != c && x != e
    ensures var t := NewFromHashes(d, [a, b, c, e]).value;
            && InclusionProof(t, x) == Failure(InvalidHash(NotPartOfTree))
            && !Verify(d, t, x)
  {
    FourLeaves(d, a, b, c, e);
  }
}
