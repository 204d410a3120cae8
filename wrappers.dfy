// The optional-value and outcome types shared by the modules.

module Wrappers {

  datatype Option<T> = None | Some(value: T)

  /**
   * The result of an operation that the original either completes or
   * abandons by raising an exception; `Raises` names the exception.
   */
  datatype Outcome<T> = Done(value: T) | Raises(what: string)
}
