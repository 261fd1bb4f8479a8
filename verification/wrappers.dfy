/** Failure-compatible wrappers shared by every module of the model:
    `Option` for the source's `X | None` returns and `Result` for the
    operations that raise `ValueError` (or let the store raise). */
module Wrappers {

  datatype Option<+T> = None | Some(value: T) {

    /** The wrapped value, or `default` when there is none
        (Python's `x or default` on an optional). */
    function GetOr(default: T): T {
      match this
      case Some(v) => v
      case None => default
    }
  }

  datatype Result<+T, +E> = Ok(value: T) | Err(error: E) {

    predicate IsFailure() {
      Err?
    }

    function PropagateFailure<U>(): Result<U, E>
      requires Err?
    {
      Err(error)
    }

    function Extract(): T
      requires Ok?
    {
      value
    }
  }

  /** `f` applied to each element in order, stopping at the first failure
      (a Python loop whose body may raise): succeeds exactly when every
      element succeeds, with the results in order, and otherwise fails with
      the error of the first element that fails. */
  function MapAll<T, U(==), E(==)>(xs: seq<T>, f: T -> Result<U, E>): (r: Result<seq<U>, E>)
    ensures r.Ok? <==> forall i :: 0 <= i < |xs| ==> f(xs[i]).Ok?
    ensures r.Ok? ==> |r.value| == |xs| && forall i :: 0 <= i < |xs| ==> f(xs[i]) == Ok(r.value[i])
    ensures r.Err? ==> exists i :: FirstFailure(xs, f, i) && f(xs[i]) == Err(r.error)
  {
    if xs == [] then Ok([])
    else
      var first := f(xs[0]);
      if first.Err? then
        assert FirstFailure(xs, f, 0);
        Err(first.error)
      else
        var rest := MapAll(xs[1..], f);
        if rest.Err? then
          var i :| FirstFailure(xs[1..], f, i) && f(xs[1..][i]) == Err(rest.error);
          assert FirstFailure(xs, f, i + 1);
          Err(rest.error)
        else
          Ok([first.value] + rest.value)
  }

  /** Element `i` is the first one `f` fails on. */
  predicate FirstFailure<T, U, E>(xs: seq<T>, f: T -> Result<U, E>, i: int) {
    && 0 <= i < |xs|
    && (forall j :: 0 <= j < i ==> f(xs[j]).Ok?)
    && f(xs[i]).Err?
  }
}
