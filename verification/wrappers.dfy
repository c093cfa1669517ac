/** The optional value used wherever the Python code either finds something or
    raises (and the caller catches) an exception. */
module Wrappers {

  datatype Option<+T> = None | Some(value: T)

}
