/** The null-or-value results of the modelled C functions. */
module Wrappers {

  /** A C pointer result: `None` stands for `NULL`. */
  datatype Option<+T> = None | Some(value: T)
}
