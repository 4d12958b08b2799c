/** Option and Result values shared by the daily solvers.
    `None` stands for the JavaScript `null`/`undefined`/`NaN` results the solvers
    return when there is no answer, `Failure` for a thrown `Error`. */
module Wrappers {

  datatype Option<+T> = None | Some(value: T)

  datatype Result<+T> = Success(value: T) | Failure(error: string) {
    predicate IsFailure() {
      Failure?
    }

    function PropagateFailure<U>(): Result<U>
      requires Failure?
    {
      Failure(error)
    }

    function Extract(): T
      requires Success?
    {
      value
    }
  }

  /** `xs.map(f)` for an `f` that may throw: the first failing element aborts the map. */
  function MapAll<A, B>(xs: seq<A>, f: A -> Result<B>): (r: Result<seq<B>>)
    ensures r.Success? <==> forall i :: 0 <= i < |xs| ==> f(xs[i]).Success?
    ensures r.Success? ==> |r.value| == |xs| && forall i :: 0 <= i < |xs| ==> r.value[i] == f(xs[i]).value
    ensures r.Failure? ==> exists i :: 0 <= i < |xs| && f(xs[i]).Failure? && r.error == f(xs[i]).error
                                       && forall j :: 0 <= j < i ==> f(xs[j]).Success?
  {
    if xs == [] then Success([])
    else
      match f(xs[0])
      case Failure(msg) => Failure(msg)
      case Success(y) =>
        match MapAll(xs[1..], f)
        case Failure(msg) =>
          assert exists i :: 0 <= i < |xs| && f(xs[i]).Failure? && msg == f(xs[i]).error
                             && forall j :: 0 <= j < i ==> f(xs[j]).Success? by {
            var k :| 0 <= k < |xs[1..]| && f(xs[1..][k]).Failure? && msg == f(xs[1..][k]).error
                     && forall j :: 0 <= j < k ==> f(xs[1..][j]).Success?;
            assert xs[1..][k] == xs[k + 1];
            assert forall j :: 1 <= j < k + 1 ==> xs[j] == xs[1..][j - 1];
          }
          Failure(msg)
        case Success(ys) =>
          assert forall i :: 1 <= i < |xs| ==> xs[i] == xs[1..][i - 1];
          Success([y] + ys)
  }
}
