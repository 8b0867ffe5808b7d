/** The optional value used wherever the sniffer script returns `None` for "nothing". */
module Wrappers {

  datatype Option<+T> = None | Some(value: T)
}
