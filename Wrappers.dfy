/** The optional value used wherever the debugger returns NULL or a read may fail. */
module Wrappers {

  datatype Option<+T> = None | Some(value: T)
}
