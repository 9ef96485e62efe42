/** The proof-of-inclusion container (src/proof_of_inclusion.rs). */
module Inclusion {
  import opened Hashing
  import opened Directions

  /** One step of a proof: a sibling hash and the side it is concatenated on. */
  type ProofEntry = (Hash, Direction)

  /**
    A proof that `leaf` is included in a tree: the sibling hashes on the path
    from the leaf up to (but not including) the root, leaf end first.
   */
  datatype ProofOfInclusion = ProofOfInclusion(proof: seq<ProofEntry>, leaf: Hash)

  /** `new_from`: a proof for `leaf` whose path is `path`, both kept as given. */
  function NewFrom(leaf: Hash, path: seq<ProofEntry>): (p: ProofOfInclusion)
    ensures p.leaf == leaf
    ensures |p.proof| == |path|
    ensures forall i :: 0 <= i < |path| ==> p.proof[i] == path[i]
  {
    ProofOfInclusion(path, leaf)
  }

  /**
    `iter`: the stored entries, in stored order. It only reads the proof, and
    the proof is a value, so neither its path nor its leaf can change.
   */
  function Iter(p: ProofOfInclusion): (entries: seq<ProofEntry>)
    ensures |entries| == |p.proof|
    ensures forall i :: 0 <= i < |entries| ==> entries[i] == p.proof[i]
  {
    p.proof
  }

  /** Building a proof and iterating it give back the path; the proof is its leaf and entries. */
  lemma IterNewFromRoundTrip(leaf: Hash, path: seq<ProofEntry>, p: ProofOfInclusion)
    ensures Iter(NewFrom(leaf, path)) == path
    ensures NewFrom(leaf, path).leaf == leaf
    ensures NewFrom(p.leaf, Iter(p)) == p
  {
  }
}
