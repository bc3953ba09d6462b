/** The optional value shared by the modules of the pixel-art generator. */
module Wrappers {

  datatype Option<T> = None | Some(value: T)
}
