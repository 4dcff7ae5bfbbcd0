/**
 * The bounded retry wrapper `withRetry`. The operation is given as a script:
 * `fn(k)` is what its k-th invocation (counting from 0) returns or throws.
 * Waiting is counted instead of timed: every wait lasts `RetryDelayMs`.
 */
module Retry {

  /** `config.retryAttempts`, the default bound. */
  const RetryAttempts: int := 3

  /** `config.retryDelay`, the pause between two attempts, in milliseconds. */
  const RetryDelayMs: nat := 500

  /** What one invocation of the operation does: return a value or throw. */
  datatype Attempt<T, E> = Ok(value: T) | Err(error: E)

  /**
   * How `withRetry` settles: it returns the first success, rethrows the last
   * failure, or, when the loop body never runs, resolves to `undefined`.
   */
  datatype RetryResult<T, E> = Returned(value: T) | Threw(error: E) | Undefined

  /**
   * Invokes the operation at most `maxAttempts` times, strictly one after the
   * other, and waits once after every failed attempt that is not the last.
   */
  method WithRetry<T, E>(fn: nat -> Attempt<T, E>, maxAttempts: int)
      returns (r: RetryResult<T, E>, invocations: nat, waits: nat)
    ensures maxAttempts <= 0 ==> r == Undefined && invocations == 0
    ensures maxAttempts > 0 ==> 1 <= invocations <= maxAttempts && !r.Undefined?
    ensures waits == if invocations == 0 then 0 else invocations - 1
    // every invocation before the last one failed
    ensures forall k: nat :: k + 1 < invocations ==> fn(k).Err?
    // the first success is returned at the attempt that produced it
    ensures r.Returned? ==> invocations >= 1 && fn(invocations - 1) == Ok(r.value)
    // when every attempt fails, all maxAttempts run and the last error is rethrown
    ensures r.Threw? ==> invocations == maxAttempts && fn(maxAttempts - 1) == Err(r.error)
  {
    invocations, waits := 0, 0;
    var attempts := 0;
    while attempts < maxAttempts
      invariant maxAttempts > 0 ==> 0 <= attempts < maxAttempts
      invariant maxAttempts <= 0 ==> attempts == 0
      invariant invocations == attempts && waits == attempts
      invariant forall k: nat :: k < attempts ==> fn(k).Err?
      decreases maxAttempts - attempts
    {
      var outcome := fn(attempts);
      invocations := invocations + 1;
      match outcome
      case Ok(v) =>
        r := Returned(v);
        return;
      case Err(e) =>
        attempts := attempts + 1;
        if attempts == maxAttempts {
          r := Threw(e);
          return;
        }
        waits := waits + 1;
    }
    r := Undefined;
  }
}
