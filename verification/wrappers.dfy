/** Stock optional-value datatype; `None` stands for a Java `null`. */
module Wrappers {

  datatype Option<+T> = None | Some(value: T)
}
