/** The Option type that the Rust code returns from its fallible lookups. */
module Wrappers {

  datatype Option<+T> = None | Some(value: T)
}
