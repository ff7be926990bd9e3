/** The optional value used for lookups that may miss and for operations that
    raise an exception on some inputs (None stands for the exception). */
module Wrappers {

  datatype Option<+T> = None | Some(value: T)

}
