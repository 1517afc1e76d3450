/** Option and Outcome values used in place of null references and thrown exceptions. */
module Wrappers {

  datatype Option<+T> = None | Some(value: T)

  /** Pass, or Fail carrying the exception the C# method throws. */
  datatype Outcome<+E> = Pass | Fail(error: E)
}
