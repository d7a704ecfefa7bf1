/** Stock success/failure wrappers used to model the exceptions the program raises. */
module Wrappers {

  datatype Option<+T> = None | Some(value: T)

  datatype Result<+T, +E> = Ok(value: T) | Err(error: E)

  /**
   * Applies f to each element in order, as a Python loop does: all results
   * if every application succeeds, otherwise the first error.
   */
  function Collect<A, T, E>(xs: seq<A>, f: A -> Result<T, E>): (r: Result<seq<T>, E>)
    ensures r.Ok? ==> |r.value| == |xs| && forall k :: 0 <= k < |xs| ==> f(xs[k]) == Ok(r.value[k])
    ensures r.Err? ==>
      exists k :: (0 <= k < |xs| && f(xs[k]) == Err(r.error) && (forall j :: 0 <= j < k ==> f(xs[j]).Ok?))
  {
    if |xs| == 0 then Ok([])
    else match f(xs[0])
      case Err(e) => Err(e)
      case Ok(x) =>
        match Collect(xs[1..], f)
        case Err(e) =>
          assert forall j :: 1 <= j < |xs| ==> xs[j] == xs[1..][j - 1];
          Err(e)
        case Ok(ys) => Ok([x] + ys)
  }
}
