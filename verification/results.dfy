/** Optional values and success/failure results, used for the error paths
    of the ledger and of the export (the exceptions of `income_expense.py`). */
module Results {

  /** A value that may be absent, e.g. a failed lookup. */
  datatype Option<+T> = None | Some(value: T)

  /** Either a computed value or the error that ended the computation. */
  datatype Result<+T, +E> = Success(value: T) | Failure(error: E)

  /** Runs a sequence of steps in order, as a loop whose body may raise:
      the first failure ends the run, otherwise the run yields every value. */
  function Collect<T, E>(rs: seq<Result<T, E>>): (r: Result<seq<T>, E>)
    ensures r.Success? ==> |r.value| == |rs|
  {
    if |rs| == 0 then Success([])
    else
      match rs[0]
      case Failure(e) => Failure(e)
      case Success(x) =>
        match Collect(rs[1..])
        case Failure(e) => Failure(e)
        case Success(xs) => Success([x] + xs)
  }

  /** A successful run holds the value of every step, in order. */
  lemma {:induction false} CollectElement<T, E>(rs: seq<Result<T, E>>, j: nat)
    requires Collect(rs).Success? && j < |rs|
    ensures rs[j] == Success(Collect(rs).value[j])
    decreases j
  {
    if j > 0 {
      CollectElement(rs[1..], j - 1);
    }
  }

  /** A run succeeds exactly when every step does. */
  lemma {:induction false} CollectSucceeds<T, E>(rs: seq<Result<T, E>>)
    ensures Collect(rs).Success? <==> forall i :: 0 <= i < |rs| ==> rs[i].Success?
    decreases |rs|
  {
    if |rs| > 0 {
      CollectSucceeds(rs[1..]);
      assert forall i :: 1 <= i < |rs| ==> rs[i] == rs[1..][i - 1];
    }
  }

  /** A failed run reports the error of its first failing step. */
  lemma {:induction false} CollectFirstFailure<T, E>(rs: seq<Result<T, E>>)
    requires Collect(rs).Failure?
    ensures exists i :: 0 <= i < |rs| && rs[i] == Failure(Collect(rs).error)
                        && forall j :: 0 <= j < i ==> rs[j].Success?
    decreases |rs|
  {
    if rs[0].Success? {
      CollectFirstFailure(rs[1..]);
      var i :| 0 <= i < |rs[1..]| && rs[1..][i] == Failure(Collect(rs[1..]).error)
               && forall j :: 0 <= j < i ==> rs[1..][j].Success?;
      assert rs[i + 1] == rs[1..][i];
      assert forall j :: 0 <= j < i + 1 ==> rs[j].Success? by {
        forall j | 0 < j < i + 1 ensures rs[j].Success? {
          assert rs[j] == rs[1..][j - 1];
        }
      }
    } else {
      assert rs[0] == Failure(Collect(rs).error);
    }
  }
}
