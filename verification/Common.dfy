/** What may go wrong with one statement sent to a database server. */
module Faults {

  /** What the client sees: nothing wrong, an error before the server acted, or an error although the
      server had already acted. */
  datatype Fault = NoFault | LostBefore | LostAfter
}

/** Durations are in nanoseconds. */
module Durations {
  const SECOND := 1_000_000_000
}

/** The contents of files and table columns. */
module Bytes {
  type byte = bv8
}
