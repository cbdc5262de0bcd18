/** Optional values and results, standing for Java's `Optional`, nullable
    references and the exceptions the menu layer throws. */
module Wrappers {

  datatype Option<+T> = None | Some(value: T)

  datatype Result<+T, +E> = Success(value: T) | Failure(error: E)
}
