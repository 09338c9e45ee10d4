/** The Option type shared by the modules of this model: None stands for a null pointer or a missing value. */
module Wrappers {

  datatype Option<T> = None | Some(value: T)
}
