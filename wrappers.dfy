/** An optional value: the contact list is `undefined` until the query has resolved. */
module Wrappers {

  datatype Option<+T> = None | Some(value: T)
}
