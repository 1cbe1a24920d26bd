/** The Some/None datatype used wherever the Python code returns `None`
    or swallows an exception and carries on, and a result type for the
    places where it lets an exception escape. */
module Wrappers {

  datatype Option<+T> = None | Some(value: T) {

    /** The wrapped value, or `default` when there is none. */
    function GetOr(default: T): T {
      match this
      case Some(v) => v
      case None => default
    }
  }

  /** A value, or the exception Python would raise instead. */
  datatype Result<+T> = Success(value: T) | Failure(error: string)

  /** The first element of `xs` for which `f` succeeds, with its result and
      index: the "try each in order, first success wins" loop that runs
      through the organiser's parsers. */
  function FirstSome<A, B>(xs: seq<A>, f: A -> Option<B>): (r: Option<(B, nat)>)
    ensures r.Some? ==> r.value.1 < |xs| && f(xs[r.value.1]) == Some(r.value.0)
    ensures r.Some? ==> forall j :: 0 <= j < r.value.1 ==> f(xs[j]).None?
    ensures r.None? ==> forall j :: 0 <= j < |xs| ==> f(xs[j]).None?
  {
    if xs == [] then None
    else match f(xs[0])
      case Some(b) => Some((b, 0))
      case None =>
        match FirstSome(xs[1..], f)
        case Some((b, k)) => Some((b, k + 1))
        case None => None
  }
}
