/** The optional-value datatype that stands in for the C# `null` reference. */
module Wrappers {

  datatype Option<+T> = None | Some(value: T)
}
