/** The Option datatype, used where the source has a nullable value or an
    optional output. */
module Wrappers {

  datatype Option<+T> = None | Some(value: T)
}
