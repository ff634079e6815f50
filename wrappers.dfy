/** Option and Result, for `java.util.Optional` and for the walkers' exception. */
module Wrappers {

  datatype Option<+T> = None | Some(value: T)

  /** `Failure(msg)` stands for an `IllegalStateException` carrying `msg`. */
  datatype Result<+T> = Success(value: T) | Failure(error: string)

  /**
   * Runs a sequence of steps that may throw, in order: the first failure is
   * the outcome, otherwise every value, in order.
   */
  function Collect<T>(rs: seq<Result<T>>): (r: Result<seq<T>>)
    ensures r.Success? <==> forall i :: 0 <= i < |rs| ==> rs[i].Success?
    ensures r.Success? ==> |r.value| == |rs| && forall i :: 0 <= i < |rs| ==> rs[i] == Success(r.value[i])
  {
    if rs == [] then Success([])
    else match rs[0]
      case Failure(e) => Failure(e)
      case Success(v) =>
        match Collect(rs[1..])
        case Failure(e) => Failure(e)
        case Success(vs) => Success([v] + vs)
  }

  /** The failure Collect reports is that of the first step that fails. */
  lemma {:induction false} CollectFirstFailure<T>(rs: seq<Result<T>>, n: nat)
    requires n < |rs| && rs[n].Failure?
    requires forall j :: 0 <= j < n ==> rs[j].Success?
    ensures Collect(rs) == Failure(rs[n].error)
  {
    if n > 0 {
      CollectFirstFailure(rs[1..], n - 1);
    }
  }
}
