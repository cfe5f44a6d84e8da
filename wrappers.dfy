/** The optional value used for nullable references of the plugin (`T?` in Kotlin). */
module Wrappers {

  datatype Option<+T> = None | Some(value: T)
}
