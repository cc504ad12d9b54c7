/** The reasons an operation on the catalogue model is rejected. */
module Errors {

  datatype Error =
      /** A catalogue was constructed with an empty name. */
    | EmptyName
      /** A dynamic attribute name is not accepted (see `Attributes.ValidName`). */
    | InvalidAttributeName(name: string)
      /** An event was added to a catalogue it already belongs to. */
    | DuplicateMembership(event: nat)
}
