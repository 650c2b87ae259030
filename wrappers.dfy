/** The optional value used wherever the service has `Optional[...]` or a `None` default. */
module Wrappers {

  datatype Option<+T> = None | Some(value: T)

}
