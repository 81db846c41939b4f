/** The nullable results of the store (`MyTask?` in the source) as an Option. */
module Wrappers {

  datatype Option<+T> = None | Some(value: T)
}
