/** Failure-compatible wrappers for the error paths of the analysis code:
    a Python exception raised on a reachable input becomes an `Err`. */
module Outcomes {

  datatype Option<+T> = None | Some(value: T)

  datatype Result<+T, +E> = Ok(value: T) | Err(error: E) {

    predicate IsFailure() {
      Err?
    }

    function PropagateFailure<U>(): Result<U, E>
      requires Err?
    {
      Err(error)
    }

    function Extract(): T
      requires Ok?
    {
      value
    }
  }

  /** A Python loop that appends one result per item and lets the first
      exception escape: all values when every item succeeds, otherwise the
      error of the first item that failed. */
  function Collect<T, E>(rs: seq<Result<T, E>>): (r: Result<seq<T>, E>)
    ensures r.Ok? <==> forall i :: 0 <= i < |rs| ==> rs[i].Ok?
    ensures r.Ok? ==> |r.value| == |rs| && forall i :: 0 <= i < |rs| ==> rs[i] == Ok(r.value[i])
    ensures r.Err? ==> exists i :: 0 <= i < |rs| && rs[i] == Err(r.error) && FirstFailure(rs, i)
  {
    if |rs| == 0 then Ok([])
    else if rs[0].Err? then
      assert FirstFailure(rs, 0);
      Err(rs[0].error)
    else
      var rest := Collect(rs[1..]);
      if rest.Err? then
        assert exists i :: 0 <= i < |rs| && rs[i] == Err(rest.error) && FirstFailure(rs, i) by {
          var i :| 0 <= i < |rs| - 1 && rs[1..][i] == Err(rest.error) && FirstFailure(rs[1..], i);
          assert rs[i + 1] == Err(rest.error);
          forall j | 0 <= j < i + 1
            ensures rs[j].Ok?
          {
            if j > 0 {
              assert rs[j] == rs[1..][j - 1];
            }
          }
          assert FirstFailure(rs, i + 1);
        }
        Err(rest.error)
      else
        Ok([rs[0].value] + rest.value)
  }

  /** Every result before index i succeeded. */
  predicate FirstFailure<T, E>(rs: seq<Result<T, E>>, i: int)
    requires 0 <= i <= |rs|
  {
    forall j :: 0 <= j < i ==> rs[j].Ok?
  }
}
