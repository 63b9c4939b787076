/**
 * Running an action again after it fails, a bounded number of times. The
 * dispatcher queue is not modelled: each retry runs right after the
 * failure it follows, and the delay parameter, which the source never
 * uses, is dropped.
 */
module Dispatchers {
  import opened Wrappers

  /** How many runs `retryCount` allows: the first one plus the positive retries. */
  function Attempts(retryCount: int): (n: nat)
    ensures n >= 1
    ensures retryCount <= 0 ==> n == 1
    ensures retryCount > 0 ==> n == retryCount + 1
  {
    if retryCount > 0 then retryCount + 1 else 1
  }

  /** The outcome of runs `k` to `n - 1`, stopping at the first success; the last run's outcome otherwise. */
  function FirstSuccess<T>(action: nat -> Result<T>, k: nat, n: nat): Result<T>
    requires k < n
    decreases n - k
  {
    if k + 1 == n || action(k).Ok? then action(k) else FirstSuccess(action, k + 1, n)
  }

  /** The outcome that RetryOnErrorAsync completes with. */
  function Retried<T>(action: nat -> Result<T>, retryCount: int): (r: Result<T>)
    ensures r.Ok? <==> exists j :: 0 <= j < Attempts(retryCount) && action(j).Ok?
    ensures r.Ok? ==> exists j :: 0 <= j < Attempts(retryCount) && action(j).Ok? && r == action(j)
                                  && forall i :: 0 <= i < j ==> action(i).Err?
    ensures r.Err? ==> r == action(Attempts(retryCount) - 1)
  {
    FirstSuccessSpec(action, 0, Attempts(retryCount));
    FirstSuccess(action, 0, Attempts(retryCount))
  }

  /**
   * The retried call succeeds exactly when some allowed run succeeds, and then with
   * the result of the first such run.
   */
  lemma {:induction false} FirstSuccessSpec<T>(action: nat -> Result<T>, k: nat, n: nat)
    requires k < n
    ensures FirstSuccess(action, k, n).Ok? <==> exists j :: k <= j < n && action(j).Ok?
    ensures FirstSuccess(action, k, n).Ok? ==>
              exists j :: k <= j < n && action(j).Ok? && FirstSuccess(action, k, n) == action(j)
                          && forall i :: k <= i < j ==> action(i).Err?
    ensures FirstSuccess(action, k, n).Err? ==> FirstSuccess(action, k, n) == action(n - 1)
    decreases n - k
  {
    if k + 1 < n && action(k).Err? {
      FirstSuccessSpec(action, k + 1, n);
      if FirstSuccess(action, k, n).Ok? {
        var j :| k + 1 <= j < n && action(j).Ok? && FirstSuccess(action, k + 1, n) == action(j)
                 && forall i :: k + 1 <= i < j ==> action(i).Err?;
        assert forall i :: k <= i < j ==> action(i).Err?;
      }
    }
  }

  /**
   * RetryOnErrorAsync<T>. `action(k)` is the outcome of the k-th run
   * (counting from 0). Returns the outcome it completes with and the number
   * of runs: the first success ends the retries, and when every allowed run
   * fails the call fails with the last run's exception.
   */
  method RetryOnError<T>(action: nat -> Result<T>, retryCount: int) returns (r: Result<T>, runs: nat)
    ensures 1 <= runs <= Attempts(retryCount)
    ensures r == action(runs - 1)
    ensures forall k :: 0 <= k < runs - 1 ==> action(k).Err?
    ensures r.Err? ==> runs == Attempts(retryCount)
    ensures r == Retried(action, retryCount)
  {
    var i := retryCount;
    runs := 0;
    while true
      invariant runs + (if i > 0 then i else 0) + 1 == Attempts(retryCount)
      invariant forall k :: 0 <= k < runs ==> action(k).Err?
      invariant runs < Attempts(retryCount) ==> Retried(action, retryCount) == FirstSuccess(action, runs, Attempts(retryCount))
      decreases Attempts(retryCount) - runs
    {
      r := action(runs);
      runs := runs + 1;
      if r.Ok? {
        return;
      }
      var before := i;
      i := i - 1;
      if before <= 0 {
        return;
      }
    }
  }

  /** An action without a result as one returning the empty value. */
  function AsResult(action: nat -> Outcome): nat -> Result<()>
  {
    (k: nat) => if action(k).Pass? then Ok(()) else Err(action(k).error)
  }

  /** The outcome that the overload for actions without a result completes with. */
  function RetriedAction(action: nat -> Outcome, retryCount: int): Outcome
  {
    var res := Retried(AsResult(action), retryCount);
    if res.Ok? then Pass else Fail(res.error)
  }

  /** RetryOnErrorAsync for an action without a result: the same runs, completing with no value. */
  method RetryOnErrorAction(action: nat -> Outcome, retryCount: int) returns (r: Outcome, runs: nat)
    ensures 1 <= runs <= Attempts(retryCount)
    ensures r == action(runs - 1)
    ensures forall k :: 0 <= k < runs - 1 ==> action(k).Fail?
    ensures r.Fail? ==> runs == Attempts(retryCount)
    ensures r == RetriedAction(action, retryCount)
  {
    var wrapped := AsResult(action);
    var res;
    res, runs := RetryOnError(wrapped, retryCount);
    assert forall k: nat :: wrapped(k).Err? ==> action(k).Fail?;
    r := if res.Ok? then Pass else Fail(res.error);
  }
}
