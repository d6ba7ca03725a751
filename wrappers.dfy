/** The optional value the layout code expresses with `null`. */
module Wrappers {

  datatype Option<+T> = None | Some(value: T)
}
