/** An optional value: what a parser or a dictionary lookup returns when
    there may be nothing to return. */
module Wrappers {

  datatype Option<+T> = None | Some(value: T)
}
