/** Java references that may be null. */
module Nullable {

  /** A reference that is either null (`None`) or points at a value. */
  datatype Option<+T> = None | Some(value: T)

  /** The text Java's string concatenation produces for a possibly null String. */
  function JavaText(s: Option<string>): (r: string)
    ensures s.Some? ==> r == s.value
    ensures s.None? ==> r == "null"
  {
    match s
    case None => "null"
    case Some(v) => v
  }
}
