/** Option, the model's stand-in for the nil that Go returns when there is no frame. */
module Wrappers {

  datatype Option<+T> = None | Some(value: T)
}
