/** The optional result shared by the readers, the task pool and the worker model. */
module Wrappers {
  datatype Option<T> = None | Some(value: T)
}
