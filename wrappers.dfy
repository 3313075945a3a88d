/** Option and Result wrappers shared by every module of the model. */
module Wrappers {

  datatype Option<T> = None | Some(value: T)
  {
    predicate IsSome() { Some? }
  }

  /** The outcome of an operation that can fail with an error of type E. */
  datatype Result<T, E> = Ok(value: T) | Err(error: E)
  {
    predicate IsOk() { Ok? }
  }

  /**
   * The Python exceptions raised by the post-processing scripts; a call that
   * raises one of them ends with `Err` of that kind.
   */
  datatype PyError = ValueError | IndexError | KeyError | TypeError | AttributeError

  /** Java's `Constants.NONE`, the "-1 free" marker for positions and ids. */
  const NONE: int := -1
}
