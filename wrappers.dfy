/** The missing-value marker that the line traces use as a break between polylines. */
module Wrappers {

  datatype Option<+T> = None | Some(value: T)
}
