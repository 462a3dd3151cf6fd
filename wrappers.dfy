/** The optional value used for Go's zero `time.Time` ("no instant"). */
module Wrappers {

  datatype Option<+T> = None | Some(value: T)
}
