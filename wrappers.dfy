/** The optional value used wherever a Python operation may raise. */
module Wrappers {

  /** `None` stands for "this step raised an exception"; `Some(v)` for a normal result. */
  datatype Option<+T> = None | Some(value: T)
}
