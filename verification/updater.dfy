/**
  The incremental updater of src/merkle_tree.rs: `add_hash` and `add_data`.
  The source mutates the tree in place and returns `Result<(), _>`; here an
  update returns the tree after the call together with that outcome.
 */
module Updater {
  import opened Wrappers
  import opened Hashing
  import opened Errors
  import opened Builder
  import opened Engine

  /** The tree held after an update, and what the update returned. */
  datatype Update = Update(tree: MerkleTree, outcome: Outcome<MerkleTreeError>)

  /**
    The leaf level `add_hash` rebuilds from: when the last two leaves are
    equal the new hash takes the place of the last one (the builder's padding
    copy), otherwise it is appended.
   */
  function NextLeaves(leaves: seq<Hash>, hash: Hash): (next: seq<Hash>)
    ensures |next| >= 1 && next[|next| - 1] == hash
    ensures |next| == |leaves| <==> |leaves| >= 2 && leaves[|leaves| - 1] == leaves[|leaves| - 2]
    ensures |next| != |leaves| ==> |next| == |leaves| + 1
    ensures next[..|next| - 1] == leaves[..|next| - 1]
    ensures forall x :: x in next <==> x in leaves || x == hash
  {
    var n := |leaves|;
    if n >= 2 && leaves[n - 1] == leaves[n - 2] then
      var next := leaves[..n - 1] + [hash];
      assert leaves == leaves[..n - 1] + [leaves[n - 2]];
      assert next[..n - 1] == leaves[..n - 1];
      next
    else
      var next := leaves + [hash];
      assert next[..n] == leaves;
      next
  }

  /** Every leaf of a built tree is one of the hashes it was built from, and back. */
  lemma BuiltLeaves(d: Digest, hashes: seq<Hash>)
    requires |hashes| > 0
    ensures forall x :: x in BuildLevels(d, hashes)[0] <==> x in hashes
  {
    var n := |hashes|;
    if n > 1 && n % 2 == 1 {
      assert hashes[n - 1] in hashes;
    }
  }

  /**
    `add_hash`: a hash that already verifies is refused with
    `HashAlreadyExists` before anything is touched; any other is placed in the
    leaf level, and the whole tree is rebuilt from that level. The rebuild
    cannot fail, because the new leaf level is never empty.
   */
  function AddHash(d: Digest, t: MerkleTree, hash: Hash): (u: Update)
    requires Navigable(t.levels)
    ensures u.outcome.Fail? <==> Verify(d, t, hash)
    ensures u.outcome.Fail? ==> u.tree == t && u.outcome.error == HashAlreadyExists(AlreadyContained)
    ensures u.outcome.Pass? ==> Valid(d, u.tree.levels)
    ensures u.outcome.Pass? ==> forall x :: x in u.tree.levels[0] <==> x in t.levels[0] || x == hash
    ensures u.outcome.Pass? ==> u.tree.levels[0] == Padded(NextLeaves(t.levels[0], hash))
  {
    if Verify(d, t, hash) then Update(t, Fail(HashAlreadyExists(AlreadyContained)))
    else
      var leaves := NextLeaves(t.levels[0], hash);
      BuiltLeaves(d, leaves);
      Update(MerkleTree(BuildLevels(d, leaves)), Pass)
  }

  /** `add_data`: add the `get_hash_of` hash of the item. */
  function AddData(d: Digest, t: MerkleTree, data: seq<byte>): (u: Update)
    requires Navigable(t.levels)
    ensures u.outcome.Fail? <==> Verify(d, t, HashOf(d, data))
    ensures u.outcome.Fail? ==> u.tree == t && u.outcome.error == HashAlreadyExists(AlreadyContained)
    ensures u.outcome.Pass? ==> Valid(d, u.tree.levels)
    ensures u.outcome.Pass? ==> forall x :: x in u.tree.levels[0] <==> x in t.levels[0] || x == HashOf(d, data)
    ensures u.outcome.Pass? ==> u.tree.levels[0] == Padded(NextLeaves(t.levels[0], HashOf(d, data)))
  {
    AddHash(d, t, HashOf(d, data))
  }

  /**
    On a built tree, `add_hash` succeeds exactly for a hash not yet among the
    leaves; afterwards the new hash verifies, every hash that verified before
    still does, and nothing else does.
   */
  lemma AddHashMembership(d: Digest, t: MerkleTree, hash: Hash)
    requires Valid(d, t.levels)
    ensures AddHash(d, t, hash).outcome.Pass? <==> hash !in t.levels[0]
    ensures var u := AddHash(d, t, hash);
            forall x :: Verify(d, u.tree, x) <==> Verify(d, t, x) || (u.outcome.Pass? && x == hash)
  {
    var u := AddHash(d, t, hash);
    VerifyIff(d, t, hash);
    forall x
      ensures Verify(d, u.tree, x) <==> Verify(d, t, x) || (u.outcome.Pass? && x == hash)
    {
      VerifyIff(d, t, x);
      VerifyIff(d, u.tree, x);
    }
  }

  /**
    Adding a new hash to the tree built from `hashes` gives the tree built
    from `hashes` with the hash appended, as long as the input does not end in
    two equal hashes.
   */
  lemma AddHashExtendsBuild(d: Digest, hashes: seq<Hash>, hash: Hash)
    requires |hashes| > 0 && hash !in hashes
    requires !(|hashes| >= 2 && hashes[|hashes| - 1] == hashes[|hashes| - 2])
    ensures AddHash(d, MerkleTree(BuildLevels(d, hashes)), hash)
            == Update(MerkleTree(BuildLevels(d, hashes + [hash])), Pass)
  {
    var t := MerkleTree(BuildLevels(d, hashes));
    BuiltLeaves(d, hashes);
    VerifyIff(d, t, hash);
    var n := |hashes|;
    var leaves := NextLeaves(t.levels[0], hash);
    if n > 1 && n % 2 == 1 {
      assert t.levels[0] == hashes + [hashes[n - 1]];
      assert t.levels[0][..n] == hashes;
    }
    assert leaves == hashes + [hash];
  }

  /**
    The padding-slot heuristic cannot tell a genuine trailing pair of equal
    leaves from the builder's copy: adding `x` to the tree of `[a, a]`
    overwrites the second `a`, giving the tree of `[a, x]`, not that of
    `[a, a, x]`. The value `a` is still a leaf, so membership is kept.
   */
  lemma AddHashDropsGenuineDuplicate(d: Digest, a: Hash, x: Hash)
    requires a != x
    ensures AddHash(d, MerkleTree(BuildLevels(d, [a, a])), x)
            == Update(MerkleTree(BuildLevels(d, [a, x])), Pass)
    ensures BuildLevels(d, [a, x]) != BuildLevels(d, [a, a, x])
  {
    var t := MerkleTree(BuildLevels(d, [a, a]));
    VerifyIff(d, t, x);
    assert t.levels[0] == [a, a];
    assert NextLeaves([a, a], x) == [a, x];
    assert |BuildLevels(d, [a, a, x])[0]| == 4;
  }

  /** The tree after calling `add_hash` with each hash in turn, ignoring refusals. */
  function AddAll(d: Digest, t: MerkleTree, hashes: seq<Hash>): (r: MerkleTree)
    requires Valid(d, t.levels)
    ensures Valid(d, r.levels)
    decreases |hashes|
  {
    if |hashes| == 0 then t
    else AddAll(d, AddHash(d, t, hashes[0]).tree, hashes[1..])
  }

  /** The leaves after adding hashes one by one are the old leaves and the added hashes. */
  lemma {:induction false} AddAllLeaves(d: Digest, t: MerkleTree, hashes: seq<Hash>, x: Hash)
    requires Valid(d, t.levels)
    ensures x in AddAll(d, t, hashes).levels[0] <==> x in t.levels[0] || x in hashes
    decreases |hashes|
  {
    if |hashes| > 0 {
      var u := AddHash(d, t, hashes[0]);
      VerifyIff(d, t, hashes[0]);
      assert forall y :: y in u.tree.levels[0] <==> y in t.levels[0] || y == hashes[0];
      AddAllLeaves(d, u.tree, hashes[1..], x);
      assert x in hashes <==> x == hashes[0] || x in hashes[1..];
    }
  }

  /**
    Adding hashes one by one to a built tree: afterwards exactly the hashes
    that verified before and the added ones verify.
   */
  lemma AddAllMembership(d: Digest, t: MerkleTree, hashes: seq<Hash>, x: Hash)
    requires Valid(d, t.levels)
    ensures Verify(d, AddAll(d, t, hashes), x) <==> Verify(d, t, x) || x in hashes
  {
    AddAllLeaves(d, t, hashes, x);
    VerifyIff(d, t, x);
    VerifyIff(d, AddAll(d, t, hashes), x);
  }
}
