/** The optional value used where the component keeps `null` in its state. */
module Wrappers {

  datatype Option<+T> = None | Some(value: T)

}
