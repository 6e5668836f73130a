/** The optional value used wherever the component reads something that may be
    absent: an Array.find that matches nothing, a store key that was never
    written, a number that does not parse. */
module Wrappers {

  datatype Option<+T> = None | Some(value: T)
}
