/** The `Option` type the kernel's iterators and the test harness return. */
module Wrappers {

  datatype Option<+T> = None | Some(value: T)
}
