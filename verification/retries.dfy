/** `withRetries` from `lib/capi.ts`: call an action up to `attempts` times, returning
    the first value it produces and sleeping `baseDelayMs * 2^i` after the failed call
    number `i`; when every call fails, rethrow the last error. The action is a function
    from the call number to its outcome, and the sleeps are returned as data. */
module Retries {
  import opened Results

  const DefaultAttempts := 3
  const DefaultBaseDelayMs := 400

  /** What one call of the action did: produced a value or threw an error. */
  datatype Attempt<T> = Returned(value: T) | Threw(error: string)

  /** How `withRetries` settles: with a value, or by throwing the last error, which is
      `undefined` (`None`) when the action was never called. */
  datatype Completion<T> = Value(value: T) | Raised(error: Option<string>)

  /** The completion, how many times the action was called, and the backoff delays (ms)
      slept, in order. */
  datatype RetryRun<T> = RetryRun(completion: Completion<T>, calls: nat, delays: seq<int>)

  function Pow2(i: nat): (p: nat)
    ensures p >= 1
  {
    if i == 0 then 1 else 2 * Pow2(i - 1)
  }

  /** `Math.max(attempts, 0)`: how many calls the loop allows. */
  function CallBudget(attempts: int): nat {
    if attempts > 0 then attempts else 0
  }

  /** The loop of `withRetries` from iteration `i` on, with `lastErr` thrown so far. */
  function RetryFrom<T>(fn: nat -> Attempt<T>, attempts: int, baseDelayMs: int, i: nat,
                        lastErr: Option<string>): (run: RetryRun<T>)
    ensures i <= run.calls
    ensures run.calls <= CallBudget(attempts) || run.calls == i
    ensures run.completion.Value? ==>
      i < run.calls && fn(run.calls - 1) == Returned(run.completion.value)
    ensures forall k :: i <= k < run.calls - 1 ==> fn(k).Threw?
    ensures run.completion.Raised? ==>
      && run.calls == (if i < attempts then attempts else i)
      && (i < run.calls ==> fn(run.calls - 1).Threw?)
      && run.completion.error == (if i < run.calls then Some(fn(run.calls - 1).error) else lastErr)
    ensures |run.delays| == run.calls - i - (if run.completion.Value? then 1 else 0)
    ensures forall k :: 0 <= k < |run.delays| ==> run.delays[k] == baseDelayMs * Pow2(i + k)
    decreases attempts - i
  {
    if i >= attempts then RetryRun(Raised(lastErr), i, [])
    else
      match fn(i)
      case Returned(v) => RetryRun(Value(v), i + 1, [])
      case Threw(e) =>
        var rest := RetryFrom(fn, attempts, baseDelayMs, i + 1, Some(e));
        RetryRun(rest.completion, rest.calls, [baseDelayMs * Pow2(i)] + rest.delays)
  }

  /** `withRetries(fn, attempts, baseDelayMs)`. */
  function WithRetries<T>(fn: nat -> Attempt<T>, attempts: int, baseDelayMs: int): (run: RetryRun<T>)
    ensures run.calls <= CallBudget(attempts)
    ensures attempts > 0 ==> run.calls >= 1
  {
    RetryFrom(fn, attempts, baseDelayMs, 0, None)
  }

  /** What `withRetries` promises: a value exactly when one of the allowed calls
      returns, namely the first such call's value; otherwise every allowed call was
      made and the last error is rethrown (`undefined` when no call was allowed); the
      sleep after failed call `k` is `baseDelayMs * 2^k`, with no sleep after a
      success. */
  lemma WithRetriesSemantics<T>(fn: nat -> Attempt<T>, attempts: int, baseDelayMs: int)
    ensures var run := WithRetries(fn, attempts, baseDelayMs);
      && (run.completion.Value? <==> exists k :: 0 <= k < attempts && fn(k).Returned?)
      && (run.completion.Value? ==> 1 <= run.calls && fn(run.calls - 1) == Returned(run.completion.value))
      && (forall k :: 0 <= k < run.calls - 1 ==> fn(k).Threw?)
      && (run.completion.Raised? ==>
            && run.calls == CallBudget(attempts)
            && (forall k :: 0 <= k < run.calls ==> fn(k).Threw?)
            && run.completion.error == (if attempts > 0 then Some(fn(attempts - 1).error) else None))
      && |run.delays| == (if run.completion.Value? then run.calls - 1 else run.calls)
      && (forall k :: 0 <= k < |run.delays| ==> run.delays[k] == baseDelayMs * Pow2(k))
  {
    var run := RetryFrom(fn, attempts, baseDelayMs, 0, None);
    assert run.completion.Raised? ==> forall k :: 0 <= k < run.calls ==> fn(k).Threw?;
  }

  /** With the defaults, three failures mean three calls, the last error rethrown, and
      sleeps of 400, 800 and 1600 ms, the last one after the final failure. */
  lemma DefaultScheduleWhenAllFail<T>(fn: nat -> Attempt<T>)
    requires fn(0).Threw? && fn(1).Threw? && fn(2).Threw?
    ensures WithRetries(fn, DefaultAttempts, DefaultBaseDelayMs)
         == RetryRun(Raised(Some(fn(2).error)), 3, [400, 800, 1600])
  {
    var run := WithRetries(fn, DefaultAttempts, DefaultBaseDelayMs);
    WithRetriesSemantics(fn, DefaultAttempts, DefaultBaseDelayMs);
    assert Pow2(1) == 2 && Pow2(2) == 4;
    assert run.delays == [400, 800, 1600];
  }

  /** The first success ends the loop: a value on call `k` (after `k` failures) means
      `k + 1` calls and the `k` doubling delays before it. */
  lemma StopsAtFirstSuccess<T>(fn: nat -> Attempt<T>, attempts: int, baseDelayMs: int, k: nat)
    requires k < attempts
    requires fn(k).Returned?
    requires forall j :: 0 <= j < k ==> fn(j).Threw?
    ensures WithRetries(fn, attempts, baseDelayMs).completion == Value(fn(k).value)
    ensures WithRetries(fn, attempts, baseDelayMs).calls == k + 1
    ensures |WithRetries(fn, attempts, baseDelayMs).delays| == k
  {
    var run := WithRetries(fn, attempts, baseDelayMs);
    WithRetriesSemantics(fn, attempts, baseDelayMs);
    assert run.completion.Value?;
  }
}
