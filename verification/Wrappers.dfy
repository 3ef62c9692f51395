/** What a value that may be missing is. */
module Wrappers {

  datatype Option<+T> = None | Some(value: T) {
    function Or(other: T): T {
      if Some? then value else other
    }
  }
}
