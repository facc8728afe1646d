/** Option and Result, used for the recorder's optional keys and for the
    exception thrown by btree_layout::random_node. */
module Wrappers {

  datatype Option<+T> = None | Some(value: T)

  datatype Result<+R, +E> = Success(value: R) | Failure(error: E)
}
