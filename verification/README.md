# Merkle tree core, modelled in Dafny

This project models the core of `rusty-merkle-tree`. That core is a Merkle tree over hash strings (`src/merkle_tree.rs`) plus the proof container it hands out (`src/proof_of_inclusion.rs`). It has three parts:

- **The builder** (`build_tree`, `new_from_hashes`, `new_from_hashables`, `root`).
  - It stores the tree as a list of levels.
  - Level 0 holds the leaves. An odd level of more than one hash gets a copy of its last hash appended and stored.
  - Each level above combines adjacent pairs of the level below. The last level holds only the root.
- **The proof engine**:
  - `proof_of_inclusion_with_index` walks the levels from the leaf upwards. At each level it records the sibling and the side it goes on.
  - `verify_with_index` folds such a proof from the leaf and compares the result with the root.
  - `verify` and `proof_of_inclusion` first look for the leaf by a first-match linear search.
- **The updater** (`add_hash`, `add_data`).
  - It refuses a hash that already verifies.
  - Otherwise it overwrites the last leaf when the last two leaves are equal (the builder's padding copy), or else appends the hash.
  - It then rebuilds the whole tree.

Modules:

- `Hashing` (`hashing.dfy`): `Hash` is text, as the source's `String` alias is.
  - SHA3-256 followed by hex rendering is a caller-supplied `Digest`, with one view for raw bytes and one for text.
  - `get_hash_of` is `HashOf`. `combine_hashes` is `Combine`, the digest of the two texts joined.
- `Directions`, `Errors` and `Inclusion`: the `Direction` and `MerkleTreeError` enums and the `ProofOfInclusion` record.
- `Builder` (`builder.dfy`) holds the build functions.
  - `Valid` is the invariant every built tree satisfies:
    - the root level has one hash;
    - every lower level has at least two hashes and even length;
    - level `k + 1` holds `Combine(levels[k][2j], levels[k][2j+1])` at each `j`, plus the padding copy.
  - The operations themselves only need the weaker `Navigable`, the shape under which no index goes out of range.
- `Engine` (`engine.dfy`): proofs, verification and the first-match search.
  - `Entry` (`src/merkle_tree.rs:184-192`) is one step of the proof walk, and `Step` and `Fold` (`src/merkle_tree.rs:122-129`) are one combination and the whole loop of verification.
  - These three carry no contract of their own. What they do is stated by `Engine.EntryOfEvenLevel`, `Engine.PathEntryAt`, `Engine.StepClimbs`, `Engine.FoldAppend` and `Engine.FoldPrefix`.
- `Updater` (`updater.dfy`): `add_hash` and `add_data`.
  - The source mutates the tree in place. Here an update returns the resulting tree together with the outcome.
- `Scenarios` (`scenarios.dfy`): small concrete trees (four leaves, three leaves, no leaves, an absent hash), stated for any digest.

The central results need no cryptographic assumption:

- Every stored leaf's proof folds back to the root. This includes the padding copy.
- The proof's self-pairing branch is never taken on a built tree.
- `verify` holds exactly for the hashes of level 0.
- `add_hash` keeps every earlier leaf and adds the new one. For an input that does not end in two equal hashes, it gives the same tree as a fresh build of the longer list.

Behaviour of the code that the model keeps as it is:

- An index outside the leaf level panics (Rust indexing at `src/merkle_tree.rs:113` and `:171`), so it is a precondition here.
- Appending a copy of the last hash builds the same tree for an odd count above one (`Builder.PaddingIdempotent`), but not for a single hash. `[a]` builds the one-level tree `[[a]]`, while `[a, a]` builds a two-level tree whose root is `Combine(a, a)` (`Builder.SingleLeafPaddingChangesTree`).
- `add_hash` overwrites the last leaf whenever the last two leaves are equal (`src/merkle_tree.rs:236-237`). It cannot tell the builder's padding copy from a genuine trailing pair of equal leaves, and `Updater.AddHashDropsGenuineDuplicate` shows it overwriting such a pair.

## Model

| member | source | states |
|---|---|---|
| Hashing.HashOf | src/merkle_tree.rs:151-156 | with a consistent digest, data that is the UTF-8 encoding of a text hashes as that text |
| Hashing.Combine | src/merkle_tree.rs:91-100 | with a consistent digest, the combined hash is the digest `get_hash_of` gives the UTF-8 bytes of the left hash followed by those of the right, so leaves and inner nodes share one hash function with no domain separation |
| Hashing.TextJoinIsAmbiguous | src/merkle_tree.rs:92-93 | joining texts drops the boundary: the distinct pairs ("ab", "c") and ("a", "bc") combine to the same hash |
| Hashing.Utf8Append | src/merkle_tree.rs:93-96 | the bytes hashed for a joined string are the bytes of its two parts, in order |
| Inclusion.NewFrom | src/proof_of_inclusion.rs:11-13 | the proof keeps the given leaf, and the given path with the same length, entries and order |
| Inclusion.Iter | src/proof_of_inclusion.rs:24-26 | iteration yields exactly the stored (hash, direction) pairs, in stored order |
| Inclusion.IterNewFromRoundTrip | src/proof_of_inclusion.rs:11-26 | iterating a new proof gives its path back, and a proof is rebuilt from its leaf and its entries |
| Builder.Padded | src/merkle_tree.rs:55-65 | the stored level starts with the input, and grows by one copy of the last hash exactly when the length is odd and above one; so every level other than a single hash has even length |
| Builder.CombinePairs | src/merkle_tree.rs:70-76 | the next level has one hash per adjacent pair |
| Builder.CombinePairsAt | src/merkle_tree.rs:70-76 | hash `j` of the next level combines hashes `2j` and `2j+1` of the current one |
| Builder.BuildLevels | src/merkle_tree.rs:46-79 | building a non-empty list gives a valid tree; level 0 is the input, plus a copy of its last hash exactly when its length is odd and above one |
| Builder.Root | src/merkle_tree.rs:103-105 | the root is a hash of the last level, and is that level's only hash when the level has one |
| Builder.NewFromHashes | src/merkle_tree.rs:24-28 | fails exactly on the empty list, with `FailedToBuild("No last element in hashes")`; otherwise gives a valid tree whose leaf level is the input, padded |
| Builder.HashAll | src/merkle_tree.rs:32-40 | one hash per item, in order: hash `i` is the `get_hash_of` hash of item `i` |
| Builder.NewFromHashables | src/merkle_tree.rs:31-43 | fails exactly on empty data; otherwise gives a valid tree whose leaf level is the item hashes, padded, so leaf `i` is the hash of item `i` |
| Builder.PaddedLeavesPinTree | src/merkle_tree.rs:46-79 | any valid tree whose leaf level is the padded input is the tree built from that input |
| Builder.SingleLevelIffSingleLeaf | src/merkle_tree.rs:50-53 | a built tree has one level exactly when it has one leaf |
| Builder.ParentLength | src/merkle_tree.rs:55-78 | the level above the leaves is half as long, rounded up to even when that half is odd and above one |
| Builder.ValidLevelsUnique | src/merkle_tree.rs:46-79 | the tree invariant determines all levels from the leaves: two valid trees with the same leaves are equal |
| Builder.BuildStep | src/merkle_tree.rs:55-78 | one build step stores the padded level, which is one longer than the input at most, and stacks the tree of its pairs on top |
| Builder.BuildLevelsHeight | src/merkle_tree.rs:46-79 | building `n` leaves gives `Height(n)` levels, each level halving the count rounded up |
| Builder.HeightBounds | src/merkle_tree.rs:67-78 | for `n >= 2`, `Height(n) = h` satisfies `2^(h-2) < n <= 2^(h-1)` |
| Builder.BuildHeight | src/merkle_tree.rs:296-299 | a tree of `n >= 2` leaves has `ceil(log2 n) + 1` levels; four leaves give three |
| Builder.SingleLeafTree | src/merkle_tree.rs:50-53 | one hash builds the one-level tree whose root is that hash |
| Builder.PaddingIdempotent | src/merkle_tree.rs:55-65 | for an odd count above one, appending the copy of the last hash builds the same tree |
| Builder.SingleLeafPaddingChangesTree | src/merkle_tree.rs:50-65 | for a single hash, appending its copy changes the tree and its root |
| Builder.BuildTreeAsWritten | src/merkle_tree.rs:46-79 | `build_tree` as written, with bounded recursion depth: whenever it returns, the input was non-empty and the levels are those of `BuildLevels` |
| Builder.EmptyBuildNeverReturns | src/merkle_tree.rs:46-79 | `build_tree` as written never returns on the empty list, however deep the recursion is allowed to go |
| Builder.AsWrittenReturns | src/merkle_tree.rs:46-79 | on a non-empty list of `n` hashes, `build_tree` as written returns within `Height(n)` nested calls |
| Builder.BuildTreeAsWrittenAgrees | src/merkle_tree.rs:46-79 | on a non-empty list `build_tree` as written returns, given enough depth, exactly the levels of `BuildLevels` |
| Engine.InclusionProofAt | src/merkle_tree.rs:166-198 | fails with `InvalidHash("Hash is not part of the tree")` exactly when the leaf is not at the index; otherwise returns a proof for that leaf |
| Engine.Path | src/merkle_tree.rs:177-195 | the walk records at most one entry per level |
| Engine.PathLength | src/merkle_tree.rs:179-195 | on a built tree the walk records one entry per level below the root |
| Engine.PathEntryIsEntry | src/merkle_tree.rs:179-195 | entry `k` of a tree's proof is the entry level `k` gives for the node reached after halving the index `k` times |
| Engine.EntryOfEvenLevel | src/merkle_tree.rs:184-192 | in a level of even length an even node has a right neighbour, recorded as Right, and an odd node's left neighbour is recorded as Left |
| Engine.PathEntryAt | src/merkle_tree.rs:184-194 | entry `k` pairs node `j = index / 2^k` of level `k` with its right neighbour when `j` is even, which always exists, so the self-pairing branch is never taken, and with its left neighbour when `j` is odd |
| Engine.ClimbShift | src/merkle_tree.rs:194 | halving once and then `k` times is halving `k + 1` times |
| Engine.ClimbIsDivision | src/merkle_tree.rs:194 | halving the index `k` times divides it by `2^k` |
| Engine.FoldAppend | src/merkle_tree.rs:122-129 | folding a proof with one more entry applies one more combination step |
| Engine.StepClimbs | src/merkle_tree.rs:124-129 | one verification step from a node, with the entry the walk records for it, yields the node's parent |
| Engine.FoldPrefix | src/merkle_tree.rs:112-132 | after `k` steps, folding the proof from the leaf gives the stored node `levels[k][index / 2^k]` |
| Engine.RoundTrip | src/merkle_tree.rs:112-132 | the whole proof of any stored leaf, padding copy included, folds to the root |
| Engine.InclusionProofAtSound | src/merkle_tree.rs:166-198 | on a built tree the proof of a stored leaf exists, has one entry per level below the root, folds to the root, and its entries are those of the walk `Path`, so `Engine.PathEntryAt` gives each sibling and direction |
| Engine.VerifyAt | src/merkle_tree.rs:112-132 | a successful verification means the leaf sits at the index |
| Engine.VerifyAtIff | src/merkle_tree.rs:112-132 | on a built tree, verification at an index holds exactly when the leaf sits there |
| Engine.Position | src/merkle_tree.rs:139-142 | the search finds nothing exactly when the hash is absent; otherwise it finds its first occurrence |
| Engine.Verify | src/merkle_tree.rs:138-145 | only a hash of level 0 can verify |
| Engine.VerifyIff | src/merkle_tree.rs:138-145 | on a built tree, `verify` holds exactly for the hashes of level 0 |
| Engine.InclusionProof | src/merkle_tree.rs:207-221 | fails with `InvalidHash` exactly when the hash is not a leaf; otherwise returns a proof for that hash |
| Engine.InclusionProofFirstMatch | src/merkle_tree.rs:207-221 | the proof found is the one for the first occurrence of the leaf, and on a built tree it folds to the root |
| Updater.NextLeaves | src/merkle_tree.rs:236-240 | the new hash ends the leaf list; the length is kept exactly when the last two leaves were equal, and otherwise grows by one; the other leaves keep their order; no leaf value is lost |
| Updater.AddHash | src/merkle_tree.rs:227-248 | refuses with `HashAlreadyExists` exactly when the hash already verifies, leaving the tree unchanged; otherwise gives a valid tree whose leaf level is the new leaf list, padded, and whose leaf values are the old ones plus the new hash |
| Updater.BuiltLeaves | src/merkle_tree.rs:50-68 | the leaf values of a built tree are exactly the hashes it was built from |
| Updater.AddData | src/merkle_tree.rs:251-254 | adds the `get_hash_of` hash of the item with the same refusal; on success the tree is valid, its leaf level is the new leaf list, padded, and its leaf values are the old ones plus that hash |
| Updater.AddHashMembership | src/merkle_tree.rs:227-248 | on a built tree, adding succeeds exactly for a hash that is not yet a leaf; afterwards exactly the hashes that verified before, plus the added one, verify |
| Updater.AddHashExtendsBuild | src/merkle_tree.rs:236-247 | adding a new hash to the tree built from a list that does not end in two equal hashes gives the tree built from the list with the hash appended |
| Updater.AddHashDropsGenuineDuplicate | src/merkle_tree.rs:236-240 | adding `x` to the tree of `[a, a]` gives the tree of `[a, x]`, not that of `[a, a, x]` |
| Updater.AddAllLeaves | src/merkle_tree.rs:227-248 | after adding hashes one by one, the leaf values are the old ones and the added ones |
| Updater.AddAllMembership | src/merkle_tree.rs:494-501 | after adding hashes one by one to a built tree, a hash verifies exactly when it verified before or was added |
| Scenarios.FourLeaves | src/merkle_tree.rs:310-313 | four leaves give levels of lengths 4, 2 and 1, as the repository's test checks; in addition, the proof of the third leaf is (fourth leaf, Right), then (combined first pair, Left), and it verifies |
| Scenarios.ThreeLeaves | src/merkle_tree.rs:55-68 | three leaves store level 0 as `[a, b, c, c]`, and the third leaf verifies at index 2 and at the padding index 3 |
| Scenarios.HashablesVerify | src/merkle_tree.rs:326-331 | for leaves given as data, the hash of item `i` verifies at index `i` |
| Scenarios.EmptyInput | src/merkle_tree.rs:24-43 | an empty list of hashes or of data gives `FailedToBuild`. This is the corrected behaviour of the "## Findings" row: the code as written never returns on an empty input |
| Scenarios.AbsentHash | src/merkle_tree.rs:465-469 | a hash that is not a leaf has no proof (`InvalidHash`) and does not verify |

## Left out

- SHA3-256 and the hex rendering of `bytes_to_hex` (`src/merkle_tree.rs:1`, `256-260`) are a foreign library and formatting. They are the `Digest` parameter. `Hashing.Consistent` ties its byte and text views together through a UTF-8 encoder.
- Collision and second-preimage resistance are not assumed. No result depends on them, and nothing says a forged proof fails.
- `print` on the tree and on the proof (`src/merkle_tree.rs:262-270`, `src/proof_of_inclusion.rs:15-21`) only writes to standard output.
- Indices are `nat`, not `u32`. An index above the leaf count panics in the source and is a precondition here. The `as u32` casts at `src/merkle_tree.rs:144` and `220` are not modelled, because they wrap only beyond 2^32 leaves.
- `src/cli.rs`, `src/util.rs` and `src/main.rs` (the command loop, argument parsing and file reading) are not part of this model. Neither is the `FailedToProcessFile` variant, which the core never produces.
- The commented-out `combine_hashes` (`src/merkle_tree.rs:82-90`) is not part of this model.
- The `?` after the rebuild in `add_hash` (`src/merkle_tree.rs:244`) is not modelled, because it can never fire. `build_tree` never returns an error. On a non-empty level it succeeds, and on an empty level it recurses without end (`Builder.EmptyBuildNeverReturns`). The leaf level after an add is never empty, so `Updater.AddHash` builds directly.
- The operations accept any `Navigable` tree. The theorems assume `Valid`, which holds of every tree the builder returns. The level field is private, so no other tree is reachable.
- Builder.CombinePairs: its own contract gives only the length. The hash at each position is stated by `Builder.CombinePairsAt`.
- Engine.Path: its own contract bounds only the length. The exact length and each entry, on a built tree, are `Engine.PathLength` and `Engine.PathEntryAt`.
- Engine.InclusionProofAt: its own contract fixes the failure case, the error and the leaf, but not the siblings and directions of the returned proof. On a built tree, `Engine.InclusionProofAtSound` shows that they are the entries of `Path`, and `Engine.PathEntryAt` states each entry.
- Engine.Verify: its own contract states only that success means the hash is in level 0. The converse holds only on a built tree, and it is `Engine.VerifyIff`.
- Engine.VerifyAt: its own contract states only that success means the leaf is at the index. The converse holds only on a built tree, and it is `Engine.VerifyAtIff`.
- Engine.InclusionProof: its own contract does not say which occurrence is proved. The first occurrence, and the fold to the root, are `Engine.InclusionProofFirstMatch`.

## Findings

| source | as written | input that shows it | evidently intended | confidence | as-written member | corrected member |
|---|---|---|---|---|---|---|
| src/merkle_tree.rs:46-79 | `build_tree` on an empty list does not stop. The empty list has even length, so it is not padded and the `FailedToBuild` arm guarding `last()` is never reached. It combines to the empty list and recurses on it again without end. | `MerkleTree::new_from_hashes(vec![])`, or `new_from_hashables` with an empty vector | return `FailedToBuild("No last element in hashes")` for an empty input | not executed | Builder.EmptyBuildNeverReturns | Builder.NewFromHashes |
