/**
  The proof engine of src/merkle_tree.rs: inclusion proofs by index and by
  search (`proof_of_inclusion_with_index`, `proof_of_inclusion`) and their
  verification against the root (`verify_with_index`, `verify`).
 */
module Engine {
  import opened Wrappers
  import opened Hashing
  import opened Directions
  import opened Errors
  import opened Inclusion
  import opened Builder

  /**
    The entry level `level` contributes for the node at `index`: the right
    neighbour of an even index (the node itself when it has none), the left
    neighbour of an odd one.
   */
  function Entry(level: seq<Hash>, index: nat): ProofEntry
    requires index < |level|
  {
    if index % 2 == 0 then
      if index + 1 < |level| then (level[index + 1], Right) else (level[index], Right)
    else
      (level[index - 1], Left)
  }

  /**
    The walk of `proof_of_inclusion_with_index` from level 0 upwards: one entry
    per level until a level of one hash, halving the index at each step.
   */
  function Path(levels: seq<seq<Hash>>, index: nat): (path: seq<ProofEntry>)
    requires Navigable(levels) && index < |levels[0]|
    ensures |path| <= |levels|
    decreases |levels|
  {
    if |levels[0]| == 1 then []
    else if |levels| == 1 then [Entry(levels[0], index)]
    else
      assert HalvesAt(levels, 0);
      NavigableUpper(levels);
      [Entry(levels[0], index)] + Path(levels[1..], index / 2)
  }

  /** `proof_of_inclusion_with_index`. */
  function InclusionProofAt(t: MerkleTree, leaf: Hash, index: nat): (r: Result<ProofOfInclusion, MerkleTreeError>)
    requires Navigable(t.levels) && index < |t.levels[0]|
    ensures r.Failure? <==> t.levels[0][index] != leaf
    ensures r.Failure? ==> r.error == InvalidHash(NotPartOfTree)
    ensures r.Success? ==> r.value.leaf == leaf
  {
    if t.levels[0][index] != leaf then Failure(InvalidHash(NotPartOfTree))
    else Success(NewFrom(leaf, Path(t.levels, index)))
  }

  /** One step of verification: put the sibling on its side of the accumulated hash and combine. */
  function Step(d: Digest, acc: Hash, entry: ProofEntry): Hash
  {
    match entry.1
    case Left => Combine(d, entry.0, acc)
    case Right => Combine(d, acc, entry.0)
  }

  /** The hash a proof path folds `acc` to, entries taken in order. */
  function Fold(d: Digest, acc: Hash, path: seq<ProofEntry>): Hash
    decreases |path|
  {
    if |path| == 0 then acc else Fold(d, Step(d, acc, path[0]), path[1..])
  }

  /** `verify_with_index`: the leaf is at `index` and its proof folds to the root. */
  function VerifyAt(d: Digest, t: MerkleTree, leaf: Hash, index: nat): (ok: bool)
    requires Navigable(t.levels) && index < |t.levels[0]|
    ensures ok ==> t.levels[0][index] == leaf
  {
    if t.levels[0][index] != leaf then false
    else
      match InclusionProofAt(t, leaf, index)
      case Failure(_) => false
      case Success(proof) => Fold(d, leaf, Iter(proof)) == Root(t)
  }

  /** `iter().position(..)`: the first index holding `leaf`, if any. */
  function Position(hashes: seq<Hash>, leaf: Hash): (r: Option<nat>)
    ensures r.None? <==> leaf !in hashes
    ensures r.Some? ==> r.value < |hashes| && hashes[r.value] == leaf && leaf !in hashes[..r.value]
    decreases |hashes|
  {
    if |hashes| == 0 then None
    else if hashes[0] == leaf then Some(0)
    else
      match Position(hashes[1..], leaf)
      case None => None
      case Some(i) =>
        assert hashes[..i + 1] == [hashes[0]] + hashes[1..][..i];
        Some(i + 1)
  }

  /**
    `verify`: search level 0 for the leaf, then verify at the first match.
    Only a leaf of the tree can verify.
   */
  function Verify(d: Digest, t: MerkleTree, leaf: Hash): (ok: bool)
    requires Navigable(t.levels)
    ensures ok ==> leaf in t.levels[0]
  {
    match Position(t.levels[0], leaf)
    case None => false
    case Some(i) => VerifyAt(d, t, leaf, i)
  }

  /** `proof_of_inclusion`: search level 0 for the leaf, then prove the first match. */
  function InclusionProof(t: MerkleTree, leaf: Hash): (r: Result<ProofOfInclusion, MerkleTreeError>)
    requires Navigable(t.levels)
    ensures r.Failure? <==> leaf !in t.levels[0]
    ensures r.Failure? ==> r.error == InvalidHash(NotPartOfTree)
    ensures r.Success? ==> r.value.leaf == leaf
  {
    match Position(t.levels[0], leaf)
    case None => Failure(InvalidHash(NotPartOfTree))
    case Some(i) => InclusionProofAt(t, leaf, i)
  }

  lemma MulMono(p: int, a: int, b: int)
    requires p > 0 && a <= b
    ensures p * a <= p * b
  {
    assert p * b - p * a == p * (b - a);
  }

  /** Euclidean division has a unique quotient. */
  lemma DivUnique(n: int, p: int, q: int, r: int)
    requires p > 0 && 0 <= r < p && n == p * q + r
    ensures n / p == q
  {
    var q' := n / p;
    assert n == p * q' + n % p;
    if q' > q {
      MulMono(p, q + 1, q');
    } else if q' < q {
      MulMono(p, q' + 1, q);
    }
  }

  /** Dividing by `a` and then halving divides by `2 * a`. */
  lemma DivHalf(i: nat, a: nat)
    requires a > 0
    ensures (i / a) / 2 == i / (2 * a)
  {
    var q := i / a;
    var r := i % a;
    assert i == a * q + r;
    var s := q / 2;
    if q % 2 == 0 {
      assert q == 2 * s;
      assert a * q == (2 * a) * s;
      DivUnique(i, 2 * a, s, r);
    } else {
      assert q == 2 * s + 1;
      assert a * q == (2 * a) * s + a;
      DivUnique(i, 2 * a, s, a + r);
    }
  }

  /** The index the walk of a proof reaches after halving `index` `k` times. */
  function Climb(index: nat, k: nat): nat
  {
    if k == 0 then index else Climb(index, k - 1) / 2
  }

  /** Halving first and then `k` times is halving `k + 1` times. */
  lemma {:induction false} ClimbShift(index: nat, k: nat)
    ensures Climb(index / 2, k) == Climb(index, k + 1)
  {
    if k > 0 {
      ClimbShift(index, k - 1);
    }
  }

  /** Halving `k` times divides by `2^k`. */
  lemma {:induction false} ClimbIsDivision(index: nat, k: nat)
    ensures Climb(index, k) == index / Pow2(k)
  {
    if k > 0 {
      ClimbIsDivision(index, k - 1);
      DivHalf(index, Pow2(k - 1));
    }
  }

  /** A tree's proof has one entry per level below the root. */
  lemma {:induction false} PathLength(d: Digest, levels: seq<seq<Hash>>, index: nat)
    requires Valid(d, levels) && index < |levels[0]|
    ensures |Path(levels, index)| == |levels| - 1
    decreases |levels|
  {
    SingleLevelIffSingleLeaf(d, levels);
    if |levels| > 1 {
      ValidUpper(d, levels);
      assert HalvesAt(levels, 0);
      PathLength(d, levels[1..], index / 2);
    }
  }

  /** Entry `k` of a tree's proof is the entry of level `k` for the node the walk has climbed to. */
  lemma {:induction false} PathEntryIsEntry(d: Digest, levels: seq<seq<Hash>>, index: nat, k: nat)
    requires Valid(d, levels) && index < |levels[0]| && k < |levels| - 1
    ensures |Path(levels, index)| == |levels| - 1
    ensures Climb(index, k) < |levels[k]|
    ensures Path(levels, index)[k] == Entry(levels[k], Climb(index, k))
    decreases k
  {
    PathLength(d, levels, index);
    assert LinkedAt(d, levels, 0);
    if k > 0 {
      ValidUpper(d, levels);
      assert HalvesAt(levels, 0);
      PathEntryIsEntry(d, levels[1..], index / 2, k - 1);
      ClimbShift(index, k - 1);
      assert Path(levels, index)[k] == Path(levels[1..], index / 2)[k - 1];
    }
  }

  /** In a level of even length every even node has a right neighbour. */
  lemma EntryOfEvenLevel(level: seq<Hash>, j: nat)
    requires |level| % 2 == 0 && j < |level|
    ensures j % 2 == 0 ==> j + 1 < |level| && Entry(level, j) == (level[j + 1], Right)
    ensures j % 2 == 1 ==> Entry(level, j) == (level[j - 1], Left)
  {
  }

  /**
    Entry `k` of a tree's proof for leaf `index` belongs to level `k` and the
    node `j = index / 2^k` there (see `ClimbIsDivision`): the right neighbour
    `j + 1` of an even `j`, which always exists, so the self-pairing branch is
    never taken, and the left neighbour `j - 1` of an odd one.
   */
  lemma PathEntryAt(d: Digest, levels: seq<seq<Hash>>, index: nat, k: nat)
    requires Valid(d, levels) && index < |levels[0]| && k < |levels| - 1
    ensures |Path(levels, index)| == |levels| - 1
    ensures Climb(index, k) < |levels[k]|
    ensures var j := Climb(index, k);
            j % 2 == 0 ==> j + 1 < |levels[k]| && Path(levels, index)[k] == (levels[k][j + 1], Right)
    ensures var j := Climb(index, k);
            j % 2 == 1 ==> Path(levels, index)[k] == (levels[k][j - 1], Left)
  {
    PathEntryIsEntry(d, levels, index, k);
    assert LinkedAt(d, levels, k);
    EntryOfEvenLevel(levels[k], Climb(index, k));
  }

  /** Folding a path extended by one entry takes one more step. */
  lemma {:induction false} FoldAppend(d: Digest, acc: Hash, path: seq<ProofEntry>, entry: ProofEntry)
    ensures Fold(d, acc, path + [entry]) == Step(d, Fold(d, acc, path), entry)
    decreases |path|
  {
    if |path| > 0 {
      assert (path + [entry])[1..] == path[1..] + [entry];
      FoldAppend(d, Step(d, acc, path[0]), path[1..], entry);
    }
  }

  /** One verification step from a node with its proof entry reaches the node's parent. */
  lemma StepClimbs(d: Digest, lower: seq<Hash>, upper: seq<Hash>, j: nat, entry: ProofEntry)
    requires ParentLevel(d, lower, upper) && j < |lower|
    requires j % 2 == 0 ==> j + 1 < |lower| && entry == (lower[j + 1], Right)
    requires j % 2 == 1 ==> entry == (lower[j - 1], Left)
    ensures j / 2 < |upper|
    ensures Step(d, lower[j], entry) == upper[j / 2]
  {
    var p := j / 2;
    assert p < |lower| / 2;
    assert upper[p] == Combine(d, lower[2 * p], lower[2 * p + 1]);
    if j % 2 == 0 {
      assert j == 2 * p;
    } else {
      assert j - 1 == 2 * p;
    }
  }

  /**
    After `k` steps the fold of a leaf's proof has climbed to level `k`: it is
    the hash `levels[k][index / 2^k]` the builder stored there (see
    `ClimbIsDivision`).
   */
  lemma {:induction false} FoldPrefix(d: Digest, levels: seq<seq<Hash>>, index: nat, k: nat)
    requires Valid(d, levels) && index < |levels[0]| && k < |levels|
    ensures |Path(levels, index)| == |levels| - 1
    ensures Climb(index, k) < |levels[k]|
    ensures Fold(d, levels[0][index], Path(levels, index)[..k]) == levels[k][Climb(index, k)]
    decreases k
  {
    PathLength(d, levels, index);
    var path := Path(levels, index);
    var leaf := levels[0][index];
    if k == 0 {
      assert path[..0] == [];
    } else {
      FoldPrefix(d, levels, index, k - 1);
      PathEntryAt(d, levels, index, k - 1);
      var j := Climb(index, k - 1);
      var acc := Fold(d, leaf, path[..k - 1]);
      assert acc == levels[k - 1][j];
      assert path[..k] == path[..k - 1] + [path[k - 1]];
      FoldAppend(d, leaf, path[..k - 1], path[k - 1]);
      assert Fold(d, leaf, path[..k]) == Step(d, acc, path[k - 1]);
      assert LinkedAt(d, levels, k - 1);
      StepClimbs(d, levels[k - 1], levels[k], j, path[k - 1]);
    }
  }

  /**
    The round trip: the proof of every stored leaf, padded copies included,
    folds back to the root.
   */
  lemma RoundTrip(d: Digest, levels: seq<seq<Hash>>, index: nat)
    requires Valid(d, levels) && index < |levels[0]|
    ensures Fold(d, levels[0][index], Path(levels, index)) == levels[|levels| - 1][0]
  {
    var k := |levels| - 1;
    FoldPrefix(d, levels, index, k);
    assert Path(levels, index)[..k] == Path(levels, index);
  }

  /**
    In a built tree the proof for a stored leaf exists, has one entry per
    level below the root, and folds the leaf back to the root.
   */
  lemma InclusionProofAtSound(d: Digest, t: MerkleTree, index: nat)
    requires Valid(d, t.levels) && index < |t.levels[0]|
    ensures var r := InclusionProofAt(t, t.levels[0][index], index);
            r.Success? && |Iter(r.value)| == |t.levels| - 1 && Fold(d, t.levels[0][index], Iter(r.value)) == Root(t)
    ensures Iter(InclusionProofAt(t, t.levels[0][index], index).value) == Path(t.levels, index)
  {
    var leaf := t.levels[0][index];
    var path := Path(t.levels, index);
    PathLength(d, t.levels, index);
    RoundTrip(d, t.levels, index);
    IterNewFromRoundTrip(leaf, path, NewFrom(leaf, path));
  }

  /** On a built tree, `verify_with_index` holds exactly when the leaf sits at that index. */
  lemma VerifyAtIff(d: Digest, t: MerkleTree, leaf: Hash, index: nat)
    requires Valid(d, t.levels) && index < |t.levels[0]|
    ensures VerifyAt(d, t, leaf, index) <==> t.levels[0][index] == leaf
  {
    if t.levels[0][index] == leaf {
      InclusionProofAtSound(d, t, index);
    }
  }

  /** On a built tree, `verify` holds exactly for the hashes of level 0. */
  lemma VerifyIff(d: Digest, t: MerkleTree, leaf: Hash)
    requires Valid(d, t.levels)
    ensures Verify(d, t, leaf) <==> leaf in t.levels[0]
  {
    match Position(t.levels[0], leaf)
    case None =>
    case Some(i) => VerifyAtIff(d, t, leaf, i);
  }

  /**
    `proof_of_inclusion` proves the first occurrence of the leaf, and on a built
    tree that proof folds the leaf to the root.
   */
  lemma InclusionProofFirstMatch(d: Digest, t: MerkleTree, leaf: Hash)
    requires Valid(d, t.levels) && leaf in t.levels[0]
    ensures var r := InclusionProof(t, leaf);
            r.Success? && Fold(d, leaf, Iter(r.value)) == Root(t)
    ensures exists i :: 0 <= i < |t.levels[0]| && t.levels[0][i] == leaf && leaf !in t.levels[0][..i]
                        && InclusionProof(t, leaf) == InclusionProofAt(t, leaf, i)
  {
    var i := Position(t.levels[0], leaf).value;
    InclusionProofAtSound(d, t, i);
  }
}
