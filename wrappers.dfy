/** The Option datatype used for "the pattern matches here, ending at ..." results. */
module Wrappers {

  datatype Option<+T> = None | Some(value: T) {

    /** This value if it is present, otherwise `other`: the order in which a regex tries alternatives. */
    function OrElse(other: Option<T>): (r: Option<T>)
      ensures Some? ==> r == this
      ensures None? ==> r == other
    {
      if Some? then this else other
    }
  }
}
