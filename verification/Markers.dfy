/** Markers for facts that should be used only where they are asked for.  A definition of the
    form `forall i {:trigger At(i)} :: At(i) ==> ...` says what follows the arrow for the places
    `i` that a proof mentions, and `forall i {:trigger Ask(t, i)} :: Ask(t, i) ==> ...` says what
    follows the arrow to proofs that ask about topic `t`. */
module Markers {

  ghost predicate At(i: int) { true }

  datatype Topic = Runs | Links | Effects | Steps | Progress | Shortage | Invariant

  ghost predicate Ask(t: Topic, i: int) { true }
}
