/** The optional value used where the navigation code returns `None`. */
module Wrappers {

  /** `None` stands for Python's `None` result (no match, or a caught IndexError/StopIteration). */
  datatype Option<+T> = None | Some(value: T)

}
