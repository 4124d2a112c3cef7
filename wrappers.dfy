/** The optional-value datatype the rest of the model uses for JavaScript's
    "returns nothing" and "argument missing" cases. */
module Wrappers {

  datatype Option<+T> = None | Some(value: T)
  {
    /** The value, or `default` when there is none: how a parameter left
        out takes its default value. */
    function GetOr(default: T): (r: T)
      ensures Some? ==> r == value
      ensures None? ==> r == default
    {
      match this
      case Some(v) => v
      case None => default
    }
  }
}
