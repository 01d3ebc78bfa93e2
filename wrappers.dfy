/** Failure-carrying wrappers shared by the modules of the model. */
module Wrappers {

  datatype Option<+T> = None | Some(value: T)

  /** The outcome of a call into a collaborator that either returns a value
      or raises (the Python exception is not modelled beyond its occurrence). */
  datatype Attempt<+T> = Returned(value: T) | Raised

  /** Pass or fail of an operation that returns nothing, such as a store write. */
  datatype Outcome = Pass | Fail
}
