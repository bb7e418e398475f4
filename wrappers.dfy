/** The optional value used wherever pandas would produce NaN or a lookup
    would find nothing. */
module Wrappers {

  datatype Option<+T> = None | Some(value: T)
}
