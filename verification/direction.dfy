/** The side on which a sibling hash is concatenated when a proof is folded (src/direction.rs). */
module Directions {

  /** `Left`: the sibling goes before the accumulated hash; `Right`: after it. */
  datatype Direction = Left | Right
}
