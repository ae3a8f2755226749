/** The optional value used for results the source reports as "no result" (None). */
module Wrappers {

  datatype Option<+T> = None | Some(value: T)
}
