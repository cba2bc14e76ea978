/**
 * retryOperation (backend/yjs-persistence-logic.js): run a fallible
 * asynchronous operation up to maxRetries times, waiting
 * retryDelayMs * attempts between a failed attempt and the next one.
 *
 * The operation is given as the sequence of its outcomes, one per
 * invocation; the waits are recorded instead of performed.
 */
module Retry {
  /** What one invocation of the operation did: resolved or threw. */
  datatype Outcome<T, E> = Ok(value: T) | Err(error: E)

  /** How retryOperation settles: it resolves to the value of the first
      success, rethrows the error of the last attempt, or, when the loop
      body never runs (maxRetries <= 0), resolves to undefined. */
  datatype RetryResult<T, E> = Returned(value: T) | Thrown(error: E) | NoAttempt

  /** MAX_DB_RETRIES and DB_RETRY_DELAY_MS, the defaults every caller uses. */
  const MaxDbRetries := 3
  const DbRetryDelayMs := 1000

  /** Index of the first success in `outcomes`, or |outcomes| if none. */
  function FirstOk<T, E>(outcomes: seq<Outcome<T, E>>): (k: nat)
    ensures k <= |outcomes|
    ensures forall i :: 0 <= i < k ==> outcomes[i].Err?
    ensures k < |outcomes| ==> outcomes[k].Ok?
  {
    if outcomes == [] then 0
    else if outcomes[0].Ok? then 0
    else 1 + FirstOk(outcomes[1..])
  }

  /** Reference count of invocations: up to and including the first
      success within the budget, or the whole budget. */
  function Invocations<T, E>(outcomes: seq<Outcome<T, E>>, maxRetries: int): nat
    requires maxRetries <= |outcomes|
  {
    if maxRetries <= 0 then 0
    else
      var k := FirstOk(outcomes[..maxRetries]);
      if k < maxRetries then k + 1 else maxRetries
  }

  /** Reference result: the first success within the budget, otherwise the
      error of the last attempt. */
  function Settle<T, E>(outcomes: seq<Outcome<T, E>>, maxRetries: int): RetryResult<T, E>
    requires maxRetries <= |outcomes|
  {
    if maxRetries <= 0 then NoAttempt
    else
      var k := FirstOk(outcomes[..maxRetries]);
      if k < maxRetries then Returned(outcomes[k].value)
      else Thrown(outcomes[maxRetries - 1].error)
  }

  /** The waits between n + 1 consecutive attempts: the wait after attempt
      i (counting from 1) is retryDelayMs * i, a linear progression. */
  function Backoff(retryDelayMs: int, n: nat): (delays: seq<int>)
    ensures |delays| == n
    ensures forall i :: 0 <= i < n ==> delays[i] == retryDelayMs * (i + 1)
  {
    if n == 0 then [] else Backoff(retryDelayMs, n - 1) + [retryDelayMs * n]
  }

  /** The while loop of retryOperation. `calls` counts invocations of the
      operation and `delays` lists the waits awaited, in order. */
  method RetryOperation<T, E>(outcomes: seq<Outcome<T, E>>, maxRetries: int, retryDelayMs: int)
    returns (result: RetryResult<T, E>, calls: nat, delays: seq<int>)
    requires maxRetries <= |outcomes|
    ensures result == Settle(outcomes, maxRetries)
    ensures calls == Invocations(outcomes, maxRetries)
    ensures calls <= (if maxRetries < 0 then 0 else maxRetries)
    ensures forall i :: 0 <= i < calls - 1 ==> outcomes[i].Err?
    ensures result.Returned? ==> calls >= 1 && outcomes[calls - 1] == Ok(result.value)
    ensures result.Thrown? ==> calls == maxRetries && outcomes[calls - 1] == Err(result.error)
    ensures delays == Backoff(retryDelayMs, if calls == 0 then 0 else calls - 1)
  {
    var attempts := 0;
    delays := [];
    while attempts < maxRetries
      invariant 0 <= attempts
      invariant attempts == 0 || attempts < maxRetries
      invariant forall i :: 0 <= i < attempts ==> outcomes[i].Err?
      invariant delays == Backoff(retryDelayMs, attempts)
    {
      attempts := attempts + 1;
      match outcomes[attempts - 1]
      case Ok(v) =>
        FirstOkAt(outcomes[..maxRetries], attempts - 1);
        return Returned(v), attempts, delays;
      case Err(e) =>
        if attempts >= maxRetries {
          FirstOkNone(outcomes[..maxRetries]);
          return Thrown(e), attempts, delays;
        }
        delays := delays + [retryDelayMs * attempts];
    }
    return NoAttempt, 0, [];
  }

  /** The first success is unique: an index preceded only by failures and
      itself a success is FirstOk. */
  lemma FirstOkAt<T, E>(outcomes: seq<Outcome<T, E>>, k: nat)
    requires k < |outcomes| && outcomes[k].Ok?
    requires forall i :: 0 <= i < k ==> outcomes[i].Err?
    ensures FirstOk(outcomes) == k
  {
  }

  /** With failures only, FirstOk runs off the end. */
  lemma FirstOkNone<T, E>(outcomes: seq<Outcome<T, E>>)
    requires forall i :: 0 <= i < |outcomes| ==> outcomes[i].Err?
    ensures FirstOk(outcomes) == |outcomes|
  {
  }

  /** K failures followed by a success, with K < maxRetries: exactly K + 1
      invocations, and the success's value is returned. */
  lemma SucceedsAfterFailures<T, E>(outcomes: seq<Outcome<T, E>>, maxRetries: int, k: nat)
    requires k < maxRetries <= |outcomes|
    requires forall i :: 0 <= i < k ==> outcomes[i].Err?
    requires outcomes[k].Ok?
    ensures Invocations(outcomes, maxRetries) == k + 1
    ensures Settle(outcomes, maxRetries) == Returned(outcomes[k].value)
  {
    FirstOkAt(outcomes[..maxRetries], k);
  }

  /** An operation failing on every attempt is invoked exactly maxRetries
      times and the last error is rethrown. */
  lemma AlwaysFails<T, E>(outcomes: seq<Outcome<T, E>>, maxRetries: int)
    requires 0 < maxRetries <= |outcomes|
    requires forall i :: 0 <= i < maxRetries ==> outcomes[i].Err?
    ensures Invocations(outcomes, maxRetries) == maxRetries
    ensures Settle(outcomes, maxRetries) == Thrown(outcomes[maxRetries - 1].error)
  {
    FirstOkNone(outcomes[..maxRetries]);
  }

  /** retryOperation resolves to a value exactly when some attempt within
      the budget succeeds, and that value is then one an attempt within the
      budget returned. */
  lemma ReturnsIffSomeSuccess<T, E>(outcomes: seq<Outcome<T, E>>, maxRetries: int)
    requires maxRetries <= |outcomes|
    ensures Settle(outcomes, maxRetries).Returned? <==>
            exists i :: 0 <= i < maxRetries && outcomes[i].Ok?
    ensures Settle(outcomes, maxRetries).Returned? ==>
            exists i :: 0 <= i < maxRetries && outcomes[i] == Ok(Settle(outcomes, maxRetries).value)
  {
    if maxRetries > 0 {
      var k := FirstOk(outcomes[..maxRetries]);
      if k < maxRetries {
        assert outcomes[k] == outcomes[..maxRetries][k];
      } else {
        forall i | 0 <= i < maxRetries ensures outcomes[i].Err? {
          assert outcomes[i] == outcomes[..maxRetries][i];
        }
      }
    }
  }
}
