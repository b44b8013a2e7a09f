/** An optional value: `None` where a pointer walk meets a null link it must not follow. */
module Wrappers {
  datatype Option<+T> = None | Some(value: T)
}
