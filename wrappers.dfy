/** Python's `None`-or-value results. */
module Wrappers {

  datatype Option<+T> = None | Some(value: T)

  /** The elements of an option as a sequence of length zero or one. */
  function ToSeq<T>(o: Option<T>): (r: seq<T>)
    ensures |r| == (if o.Some? then 1 else 0)
    ensures forall x :: x in r ==> o == Some(x)
  {
    match o
    case None => []
    case Some(v) => [v]
  }
}
