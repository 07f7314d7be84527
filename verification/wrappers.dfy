/** Optional values: `None` stands for JavaScript's `undefined`/`null`, or for
    a value the source treats as falsy and therefore ignores. */
module Wrappers {

  datatype Option<+T> = None | Some(value: T) {

    /** Returns the wrapped value, or `default` when there is none. */
    function GetOr(default: T): T
    {
      match this
      case Some(v) => v
      case None => default
    }
  }

  /** The one-element list of a present value, the empty list otherwise. */
  function ToSeq<T(!new)>(o: Option<T>): (r: seq<T>)
    ensures |r| <= 1
    ensures forall x :: x in r <==> o == Some(x)
  {
    match o
    case Some(v) => [v]
    case None => []
  }
}
