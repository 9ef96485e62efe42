/** The errors the Merkle tree core returns (src/merkle_tree_error.rs). */
module Errors {

  /** Every variant carries the human-readable message the core attaches to it. */
  datatype MerkleTreeError =
    | FailedToBuild(message: string)
    | InvalidHash(message: string)
    | HashAlreadyExists(message: string)

  /** The message of the (only) `FailedToBuild` the builder constructs. */
  const NoLastElement: string := "No last element in hashes"

  /** The message of every `InvalidHash` the proof engine returns. */
  const NotPartOfTree: string := "Hash is not part of the tree"

  /** The message of the `HashAlreadyExists` the updater returns. */
  const AlreadyContained: string := "Hash is already contained in the tree"
}
