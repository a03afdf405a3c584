/** The optional value used for every nullable cell of the patient table. */
module Wrappers {
  datatype Option<+T> = None | Some(value: T)
}
