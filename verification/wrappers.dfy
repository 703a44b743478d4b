/** An optional value: the decoder's "a frame was delivered, or nothing was". */
module Wrappers {

  datatype Option<+T> = None | Some(value: T)
}
