/** The optional value the service passes around where Python uses `None`. */
module Wrappers {

  datatype Option<+T> = None | Some(value: T)
}
