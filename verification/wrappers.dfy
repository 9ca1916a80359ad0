/** The result of a lookup that may come back empty: a boot record read
    from a short image, a free run that does not exist, a file name that is
    not in the root directory. The C++ code answers these with 0 or with an
    empty record; the repaired lookups answer with `None` instead. */
module Wrappers {

  datatype Option<+T> = None | Some(value: T) {

    /** What the C++ code returns in place of a missing answer: the held
        value, or the sentinel `zero` when there is none. */
    function GetOr(zero: T): (r: T) {
      if this.Some? then this.value else zero
    }
  }
}
