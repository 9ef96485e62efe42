/**
  The tree builder of src/merkle_tree.rs: the `MerkleTree` record, the
  level-by-level construction `build_tree`, the constructors `new_from_hashes`
  and `new_from_hashables`, and `root`.
 */
module Builder {
  import opened Wrappers
  import opened Hashing
  import opened Errors

  /**
    A Merkle tree: level 0 holds the leaves, each further level the
    combinations of adjacent pairs of the level below, the last level the root.
    The field is private in the source and only `build_tree` ever fills it, so
    every tree a caller can hold satisfies `Valid`.
   */
  datatype MerkleTree = MerkleTree(levels: seq<seq<Hash>>)

  /** 2 to the power `k`. */
  function Pow2(k: nat): (p: nat)
    ensures p >= 1
  {
    if k == 0 then 1 else 2 * Pow2(k - 1)
  }

  /**
    `upper` is the level `build_tree` stores on top of `lower`: one hash per
    adjacent pair of `lower`, in order, followed by a copy of the last of them
    when there are an odd number of them other than one.
   */
  predicate ParentLevel(d: Digest, lower: seq<Hash>, upper: seq<Hash>)
  {
    var half := |lower| / 2;
    && |lower| % 2 == 0
    && (|upper| == half || (half > 1 && |upper| == half + 1 && upper[half] == upper[half - 1]))
    && forall j :: 0 <= j < half ==> upper[j] == Combine(d, lower[2 * j], lower[2 * j + 1])
  }

  /** A node of level `k` has its parent index `i / 2` inside level `k + 1`. */
  predicate HalvesAt(levels: seq<seq<Hash>>, k: nat)
    requires k + 1 < |levels|
  {
    |levels[k]| <= 2 * |levels[k + 1]|
  }

  /**
    The weaker shape under which walking the levels never indexes out of
    range: no empty level, and a node's parent index `i / 2` always exists.
   */
  predicate Navigable(levels: seq<seq<Hash>>)
  {
    && |levels| >= 1
    && (forall k :: 0 <= k < |levels| ==> |levels[k]| >= 1)
    && (forall k: nat :: k + 1 < |levels| ==> HalvesAt(levels, k))
  }

  /** Level `k` of `levels` holds at least two hashes and level `k + 1` is its parent level. */
  predicate LinkedAt(d: Digest, levels: seq<seq<Hash>>, k: nat)
    requires k + 1 < |levels|
  {
    |levels[k]| >= 2 && ParentLevel(d, levels[k], levels[k + 1])
  }

  /**
    The invariant of every tree built with digest `d`: a navigable tree with
    a one-hash root on top, and below it levels of at least two hashes, each
    (and so each of even length) the parent level of the one below.
   */
  predicate Valid(d: Digest, levels: seq<seq<Hash>>)
  {
    && Navigable(levels)
    && |levels[|levels| - 1]| == 1
    && forall k: nat :: k + 1 < |levels| ==> LinkedAt(d, levels, k)
  }

  /** The levels above the leaves of a navigable tree are navigable too. */
  lemma NavigableUpper(levels: seq<seq<Hash>>)
    requires Navigable(levels) && |levels| >= 2
    ensures Navigable(levels[1..])
  {
    var upper := levels[1..];
    forall k: nat | k + 1 < |upper|
      ensures HalvesAt(upper, k)
    {
      assert HalvesAt(levels, k + 1);
      assert upper[k] == levels[k + 1] && upper[k + 1] == levels[k + 2];
    }
  }

  /** The levels above the leaves of a tree form a tree of their own. */
  lemma ValidUpper(d: Digest, levels: seq<seq<Hash>>)
    requires Valid(d, levels) && |levels| >= 2
    ensures Valid(d, levels[1..])
  {
    NavigableUpper(levels);
    var upper := levels[1..];
    forall k: nat | k + 1 < |upper|
      ensures LinkedAt(d, upper, k)
    {
      assert LinkedAt(d, levels, k + 1);
      assert upper[k] == levels[k + 1] && upper[k + 1] == levels[k + 2];
    }
  }

  /** A level of at least two hashes under a tree built on it extends the tree downwards. */
  lemma ValidCons(d: Digest, level: seq<Hash>, upper: seq<seq<Hash>>)
    requires Valid(d, upper)
    requires |level| >= 2 && ParentLevel(d, level, upper[0])
    ensures Valid(d, [level] + upper)
  {
    var levels := [level] + upper;
    forall k | 0 <= k < |levels|
      ensures |levels[k]| >= 1
    {
      if k > 0 {
        assert levels[k] == upper[k - 1];
      }
    }
    forall k: nat | k + 1 < |levels|
      ensures HalvesAt(levels, k)
    {
      if k > 0 {
        assert HalvesAt(upper, k - 1);
        assert levels[k] == upper[k - 1] && levels[k + 1] == upper[k];
      }
    }
    forall k: nat | k + 1 < |levels|
      ensures LinkedAt(d, levels, k)
    {
      if k > 0 {
        assert LinkedAt(d, upper, k - 1);
        assert levels[k] == upper[k - 1] && levels[k + 1] == upper[k];
      }
    }
  }

  /**
    A level as `build_tree` stores it: a level of odd length other than one
    gets a copy of its last hash appended. An odd length implies a last
    element, so the `FailedToBuild` arm guarding `last()` cannot be reached.
   */
  function Padded(hashes: seq<Hash>): (level: seq<Hash>)
    ensures |hashes| != 1 ==> |level| % 2 == 0
    ensures |hashes| <= |level| <= |hashes| + 1 && level[..|hashes|] == hashes
    ensures |level| > |hashes| <==> |hashes| > 1 && |hashes| % 2 == 1
    ensures |level| > |hashes| ==> level[|hashes|] == hashes[|hashes| - 1]
  {
    if |hashes| != 1 && |hashes| % 2 != 0 then hashes + [hashes[|hashes| - 1]] else hashes
  }

  /** The next level up: one combined hash per adjacent pair, left to right. */
  function CombinePairs(d: Digest, level: seq<Hash>): (next: seq<Hash>)
    requires |level| % 2 == 0
    ensures |next| == |level| / 2
    decreases |level|
  {
    if |level| == 0 then []
    else [Combine(d, level[0], level[1])] + CombinePairs(d, level[2..])
  }

  /** Hash `j` of the next level combines hashes `2j` and `2j + 1` of the level below. */
  lemma {:induction false} CombinePairsAt(d: Digest, level: seq<Hash>)
    requires |level| % 2 == 0
    ensures forall j :: 0 <= j < |level| / 2 ==>
      CombinePairs(d, level)[j] == Combine(d, level[2 * j], level[2 * j + 1])
    decreases |level|
  {
    if |level| > 0 {
      CombinePairsAt(d, level[2..]);
      var next := CombinePairs(d, level);
      assert next == [Combine(d, level[0], level[1])] + CombinePairs(d, level[2..]);
      forall j | 1 <= j < |level| / 2
        ensures next[j] == Combine(d, level[2 * j], level[2 * j + 1])
      {
        assert next[j] == CombinePairs(d, level[2..])[j - 1];
        assert level[2..][2 * (j - 1)] == level[2 * j];
        assert level[2..][2 * (j - 1) + 1] == level[2 * j + 1];
      }
    }
  }

  /**
    `build_tree` on a non-empty list of hashes. The result is a valid tree
    whose leaf level is the input, plus a copy of its last hash exactly when
    the input has odd length greater than one.
   */
  function BuildLevels(d: Digest, hashes: seq<Hash>): (levels: seq<seq<Hash>>)
    requires |hashes| > 0
    ensures Valid(d, levels)
    ensures |hashes| > 1 && |hashes| % 2 == 1 ==> levels[0] == hashes + [hashes[|hashes| - 1]]
    ensures |hashes| == 1 || |hashes| % 2 == 0 ==> levels[0] == hashes
    decreases |hashes|
  {
    if |hashes| == 1 then [hashes]
    else
      var level := Padded(hashes);
      var upper := BuildLevels(d, CombinePairs(d, level));
      CombinePairsAt(d, level);
      ValidCons(d, level, upper);
      [level] + upper
  }

  /**
    `root`: the first hash of the last level, which on a built tree is that
    level's only hash.
   */
  function Root(t: MerkleTree): (r: Hash)
    requires Navigable(t.levels)
    ensures r in t.levels[|t.levels| - 1]
    ensures |t.levels[|t.levels| - 1]| == 1 ==> t.levels[|t.levels| - 1] == [r]
  {
    t.levels[|t.levels| - 1][0]
  }

  /**
    `new_from_hashes`, with the empty input reported as `FailedToBuild` (the
    source's own `build_tree` never returns on it; see `BuildTreeAsWritten`).
   */
  function NewFromHashes(d: Digest, hashes: seq<Hash>): (r: Result<MerkleTree, MerkleTreeError>)
    ensures r.Failure? <==> |hashes| == 0
    ensures r.Failure? ==> r.error == FailedToBuild(NoLastElement)
    ensures r.Success? ==> Valid(d, r.value.levels)
    ensures r.Success? ==> r.value.levels[0] == Padded(hashes)
  {
    if |hashes| == 0 then Failure(FailedToBuild(NoLastElement))
    else Success(MerkleTree(BuildLevels(d, hashes)))
  }

  /** The leaf hash of every data item, in order. */
  function HashAll(d: Digest, data: seq<seq<byte>>): (hashes: seq<Hash>)
    ensures |hashes| == |data|
    ensures forall i :: 0 <= i < |data| ==> hashes[i] == HashOf(d, data[i])
  {
    seq(|data|, i requires 0 <= i < |data| => HashOf(d, data[i]))
  }

  /** `new_from_hashables`: hash each item with `get_hash_of`, then build from the hashes. */
  function NewFromHashables(d: Digest, data: seq<seq<byte>>): (r: Result<MerkleTree, MerkleTreeError>)
    ensures r.Failure? <==> |data| == 0
    ensures r.Failure? ==> r.error == FailedToBuild(NoLastElement)
    ensures r.Success? ==> Valid(d, r.value.levels)
    ensures r.Success? ==> r.value.levels[0] == Padded(HashAll(d, data))
  {
    NewFromHashes(d, HashAll(d, data))
  }

  /** A tree has a single level exactly when it has a single leaf. */
  lemma SingleLevelIffSingleLeaf(d: Digest, levels: seq<seq<Hash>>)
    requires Valid(d, levels)
    ensures |levels| == 1 <==> |levels[0]| == 1
  {
    if |levels| > 1 {
      assert LinkedAt(d, levels, 0);
    }
  }

  /**
    The length of the level above a non-root level is half the level's length,
    rounded up to even when that half is odd and more than one.
   */
  lemma ParentLength(d: Digest, levels: seq<seq<Hash>>)
    requires Valid(d, levels) && |levels| >= 2
    ensures var half := |levels[0]| / 2;
            |levels[1]| == if half > 1 && half % 2 == 1 then half + 1 else half
  {
    assert LinkedAt(d, levels, 0);
    if |levels| > 2 {
      assert LinkedAt(d, levels, 1);
    }
  }

  /**
    Two valid trees with the same leaf level are the same tree: the levels
    `build_tree` produces are the only ones the tree invariant allows.
   */
  lemma {:induction false} ValidLevelsUnique(d: Digest, a: seq<seq<Hash>>, b: seq<seq<Hash>>)
    requires Valid(d, a) && Valid(d, b)
    requires a[0] == b[0]
    ensures a == b
    decreases |a|
  {
    SingleLevelIffSingleLeaf(d, a);
    SingleLevelIffSingleLeaf(d, b);
    if |a| > 1 {
      ParentLength(d, a);
      ParentLength(d, b);
      var half := |a[0]| / 2;
      assert LinkedAt(d, a, 0) && LinkedAt(d, b, 0);
      forall j | 0 <= j < |a[1]|
        ensures a[1][j] == b[1][j]
      {
        if j == half {
          assert a[1][j] == a[1][half - 1] && b[1][j] == b[1][half - 1];
        }
      }
      assert a[1] == b[1];
      ValidUpper(d, a);
      ValidUpper(d, b);
      ValidLevelsUnique(d, a[1..], b[1..]);
      assert a == [a[0]] + a[1..];
      assert b == [b[0]] + b[1..];
    }
  }

  /**
    A valid tree whose leaf level is the padded input is the tree `build_tree`
    builds from that input, so the contracts of `NewFromHashes`,
    `NewFromHashables` and `AddHash` each pin the tree they return.
   */
  lemma PaddedLeavesPinTree(d: Digest, levels: seq<seq<Hash>>, hashes: seq<Hash>)
    requires |hashes| > 0 && Valid(d, levels) && levels[0] == Padded(hashes)
    ensures levels == BuildLevels(d, hashes)
  {
    ValidLevelsUnique(d, levels, BuildLevels(d, hashes));
  }

  /** One level of `build_tree` on two or more hashes: the padded input, then the tree of its pairs. */
  lemma BuildStep(d: Digest, hashes: seq<Hash>)
    requires |hashes| >= 2
    ensures |hashes| <= |Padded(hashes)| <= |hashes| + 1
    ensures |Padded(hashes)| == 2 * |CombinePairs(d, Padded(hashes))|
    ensures BuildLevels(d, hashes) == [Padded(hashes)] + BuildLevels(d, CombinePairs(d, Padded(hashes)))
  {
  }

  /** The number of levels `build_tree` stacks on `n >= 1` leaves. */
  function Height(n: nat): nat
    requires n >= 1
  {
    if n == 1 then 1 else 1 + Height((n + 1) / 2)
  }

  /** The tree built from `hashes` has `Height(|hashes|)` levels. */
  lemma {:induction false} BuildLevelsHeight(d: Digest, hashes: seq<Hash>)
    requires |hashes| >= 1
    ensures |BuildLevels(d, hashes)| == Height(|hashes|)
    decreases |hashes|
  {
    if |hashes| >= 2 {
      BuildStep(d, hashes);
      var next := CombinePairs(d, Padded(hashes));
      assert |next| == (|hashes| + 1) / 2;
      BuildLevelsHeight(d, next);
    }
  }

  /** `Height(n) == ceil(log2 n) + 1`: for `n >= 2`, `2^(h-2) < n <= 2^(h-1)`. */
  lemma {:induction false} HeightBounds(n: nat)
    requires n >= 2
    ensures var h := Height(n); h >= 2 && Pow2(h - 2) < n <= Pow2(h - 1)
    decreases n
  {
    var m := (n + 1) / 2;
    var h := Height(n);
    if m == 1 {
      assert h == 2;
      assert Pow2(0) == 1 && Pow2(1) == 2;
    } else {
      HeightBounds(m);
      var k := Height(m);
      assert h == k + 1;
      assert Pow2(h - 1) == 2 * Pow2(k - 1);
      assert Pow2(h - 2) == Pow2(k - 1) == 2 * Pow2(k - 2);
    }
  }

  /**
    Tree height: `n >= 2` leaves give `h` levels with `2^(h-2) < n <= 2^(h-1)`,
    that is `h == ceil(log2 n) + 1`.
   */
  lemma BuildHeight(d: Digest, hashes: seq<Hash>)
    requires |hashes| >= 2
    ensures var h := |BuildLevels(d, hashes)|; h >= 2 && Pow2(h - 2) < |hashes| <= Pow2(h - 1)
  {
    BuildLevelsHeight(d, hashes);
    HeightBounds(|hashes|);
  }

  /** A single hash is its own tree: one level, and it is the root. */
  lemma SingleLeafTree(d: Digest, a: Hash)
    ensures BuildLevels(d, [a]) == [[a]]
    ensures Root(MerkleTree(BuildLevels(d, [a]))) == a
  {
  }

  /**
    Padding is idempotent for odd lengths above one: appending the copy the
    builder would add changes nothing.
   */
  lemma PaddingIdempotent(d: Digest, hashes: seq<Hash>)
    requires |hashes| > 1 && |hashes| % 2 == 1
    ensures BuildLevels(d, hashes + [hashes[|hashes| - 1]]) == BuildLevels(d, hashes)
  {
    var padded := hashes + [hashes[|hashes| - 1]];
    assert Padded(padded) == padded == Padded(hashes);
    var upper := BuildLevels(d, CombinePairs(d, padded));
    assert BuildLevels(d, padded) == [padded] + upper;
    assert BuildLevels(d, hashes) == [padded] + upper;
  }

  /**
    For a single hash it is not: one leaf is never padded, while the same leaf
    twice pairs with itself under a combined root.
   */
  lemma SingleLeafPaddingChangesTree(d: Digest, a: Hash)
    ensures BuildLevels(d, [a]) == [[a]]
    ensures BuildLevels(d, [a, a]) == [[a, a], [Combine(d, a, a)]]
    ensures Root(MerkleTree(BuildLevels(d, [a, a]))) == Combine(d, a, a)
  {
    assert CombinePairs(d, [a, a]) == [Combine(d, a, a)];
  }

  /**
    `build_tree` as written, with its recursion bounded by `fuel`: `None` means
    it had not returned after `fuel` nested calls. Whenever it does return,
    the input was non-empty and the levels are those of `BuildLevels`.
   */
  function BuildTreeAsWritten(d: Digest, hashes: seq<Hash>, fuel: nat): (r: Option<seq<seq<Hash>>>)
    ensures r.Some? ==> |hashes| > 0 && r.value == BuildLevels(d, hashes)
    decreases fuel
  {
    if fuel == 0 then None
    else if |hashes| == 1 then Some([hashes])
    else
      var level := Padded(hashes);
      match BuildTreeAsWritten(d, CombinePairs(d, level), fuel - 1)
      case None => None
      case Some(upper) => Some([level] + upper)
  }

  /**
    On an empty list `build_tree` never returns: the empty level is even, so
    it is not padded, combines to the empty level, and recurses on it again.
   */
  lemma {:induction false} EmptyBuildNeverReturns(d: Digest, fuel: nat)
    ensures BuildTreeAsWritten(d, [], fuel) == None
    decreases fuel
  {
    if fuel > 0 {
      assert CombinePairs(d, Padded([])) == [];
      EmptyBuildNeverReturns(d, fuel - 1);
    }
  }

  /** One call of `build_tree` on two or more hashes returns once the call on the next level does. */
  lemma AsWrittenStep(d: Digest, hashes: seq<Hash>, fuel: nat)
    requires |hashes| > 1 && fuel > 0
    requires BuildTreeAsWritten(d, CombinePairs(d, Padded(hashes)), fuel - 1).Some?
    ensures BuildTreeAsWritten(d, hashes, fuel).Some?
  {
  }

  /** On a non-empty list, `Height(|hashes|)` nested calls are enough for `build_tree` to return. */
  lemma {:induction false} AsWrittenReturns(d: Digest, hashes: seq<Hash>, fuel: nat)
    requires |hashes| > 0 && fuel >= Height(|hashes|)
    ensures BuildTreeAsWritten(d, hashes, fuel).Some?
    decreases |hashes|
  {
    if |hashes| > 1 {
      var next := CombinePairs(d, Padded(hashes));
      assert |next| == (|hashes| + 1) / 2;
      AsWrittenReturns(d, next, fuel - 1);
      AsWrittenStep(d, hashes, fuel);
    }
  }

  /** On a non-empty list it returns, with enough fuel, exactly the levels of `BuildLevels`. */
  lemma BuildTreeAsWrittenAgrees(d: Digest, hashes: seq<Hash>, fuel: nat)
    requires |hashes| > 0
    requires fuel >= |BuildLevels(d, hashes)|
    ensures BuildTreeAsWritten(d, hashes, fuel) == Some(BuildLevels(d, hashes))
  {
    BuildLevelsHeight(d, hashes);
    AsWrittenReturns(d, hashes, fuel);
  }
}
