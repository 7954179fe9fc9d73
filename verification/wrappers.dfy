/** The Some/None datatype used for the .NET values that may be null. */
module Wrappers {

  datatype Option<+T> = None | Some(value: T)

  /** A .NET `string` reference: `None` stands for `null`. */
  type NString = Option<string>

  /** `string.IsNullOrEmpty`. */
  predicate IsNullOrEmpty(s: NString) {
    s.None? || s.value == ""
  }
}
