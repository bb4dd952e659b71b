/** Option, the value the model uses for Java's null. */
module Wrappers {

  datatype Option<+T> = None | Some(value: T)
}
