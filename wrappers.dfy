/** An optional value: a request field or query parameter that may be absent,
    or the outcome of a lookup that may find nothing. */
module Wrappers {

  datatype Option<+T> = None | Some(value: T)

}
