/** The optional value the calculator uses for JavaScript's `null` and for a regex group that did not take part in a match. */
module Wrappers {

  datatype Option<+T> = None | Some(value: T)
}
