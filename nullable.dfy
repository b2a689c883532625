/** Java's nullable references: a parameter that may be null is an `Option`. */
module Nullable {

  datatype Option<+T> = None | Some(value: T)
}
