/** A value that may be absent: the model's stand-in for a nullable Java
    reference. */
module Wrappers {

  datatype Option<+T> = None | Some(value: T) {

    /** The present value, with `fallback` standing in for an absent one. */
    function GetOr(fallback: T): T {
      match this
      case None => fallback
      case Some(present) => present
    }

    /** The present value as a sequence of zero or one elements. */
    function ToSeq(): (s: seq<T>)
      ensures |s| <= 1
      ensures None? <==> s == []
      ensures Some? ==> s == [value]
    {
      match this
      case None => []
      case Some(present) => [present]
    }
  }

  /** The present value as a set of zero or one elements. */
  function ToSet<T>(o: Option<T>): (s: set<T>)
    ensures |s| <= 1
    ensures o.Some? ==> s == {o.value}
    ensures o.None? ==> s == {}
  {
    match o
    case None => {}
    case Some(present) => {present}
  }
}
