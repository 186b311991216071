/** The optional value the component keeps in `null`-initialised state slots. */
module Wrappers {

  datatype Option<+T> = None | Some(value: T)
}
