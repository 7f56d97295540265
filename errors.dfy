/** The one error condition of the multiset: a negative count or factor. */
module Errors {

  /** Outcome of a mutator that may raise `ArgumentError`. */
  datatype Outcome = Ok | ArgumentError(message: string)

  /** Message raised by `add` and `delete` for a negative count (both use the same text). */
  const NegativeCount: string := "attempt to add negative count"

  /** Message raised by `*` for a negative scale factor. */
  const NegativeArgument: string := "negative argument"
}
