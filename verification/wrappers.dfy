/** The optional value used wherever the source yields "nothing" (an Invalid
    Date, a line that does not parse). */
module Wrappers {

  datatype Option<+T> = None | Some(value: T)
}
