/** The optional value used wherever the modelled C code can fail or can
    leave a result undefined (a NULL pointer, an out-of-bounds access). */
module Wrappers {

  datatype Option<+T> = None | Some(value: T)

}
