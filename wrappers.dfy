/** The source reports every failure as `null`; the model uses Option for it. */
module Wrappers {

  datatype Option<+T> = None | Some(value: T)
}
