/** The optional value the updater's selector returns (Python's Optional[str]). */
module Wrappers {

  datatype Option<+T> = None | Some(value: T)

}
