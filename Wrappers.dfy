/** Option type used where the Java code accepts an arbitrary `Object`. */
module Wrappers {
  datatype Option<+T> = None | Some(value: T)
}
