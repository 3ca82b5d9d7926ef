/** The quota-retry decorator: call the wrapped function up to
    `max_retries` times, waiting `base_delay * 2^attempt` seconds after each
    quota error, re-raising any other error at once. Calls and sleeps are
    observable here as the number of calls made and the list of waits. */
module Retry {
  import opened Text
  import opened Results

  /** What one call of the wrapped function does. */
  datatype Outcome<T> = Returned(value: T) | Raised(message: string)

  /** What the wrapper does: return a value, re-raise an error, or give up
      with the "max retries" error that mentions the last quota error. */
  datatype Final<T> = Success(value: T) | Reraised(message: string) | GaveUp(maxRetries: int, last: Option<string>)

  /** The error text mentions 429 or RESOURCE_EXHAUSTED. */
  predicate IsQuota(message: string) {
    Contains(message, "429") || Contains(message, "RESOURCE_EXHAUSTED")
  }

  predicate QuotaFailure<T>(o: Outcome<T>) {
    o.Raised? && IsQuota(o.message)
  }

  function Pow2(i: nat): (p: nat)
    ensures p >= 1
  {
    if i == 0 then 1 else 2 * Pow2(i - 1)
  }

  /** The wrapper applied to `call`, where `call(i)` is what the i-th call
      (from 0) of the wrapped function does. */
  method RetryOnQuotaError<T>(maxRetries: int, baseDelay: int, call: nat -> Outcome<T>)
    returns (r: Final<T>, calls: nat, sleeps: seq<int>)
    ensures calls <= if maxRetries > 0 then maxRetries else 0
    ensures forall i :: 0 <= i < calls - 1 ==> QuotaFailure(call(i))
    ensures r.Success? <==> calls > 0 && call(calls - 1).Returned?
    ensures r.Success? ==> r.value == call(calls - 1).value
    ensures r.Reraised? <==> calls > 0 && call(calls - 1).Raised? && !IsQuota(call(calls - 1).message)
    ensures r.Reraised? ==> r.message == call(calls - 1).message
    ensures r.GaveUp? ==> calls == (if maxRetries > 0 then maxRetries else 0) &&
                          r.maxRetries == maxRetries &&
                          (forall i :: 0 <= i < calls ==> QuotaFailure(call(i))) &&
                          r.last == if calls == 0 then None else Some(call(calls - 1).message)
    ensures |sleeps| == if r.GaveUp? then calls else calls - 1
    ensures forall i :: 0 <= i < |sleeps| ==> sleeps[i] == baseDelay * Pow2(i)
  {
    calls, sleeps := 0, [];
    var last: Option<string> := None;
    var attempt := 0;
    while attempt < maxRetries
      invariant 0 <= attempt && calls == attempt && |sleeps| == attempt
      invariant attempt <= if maxRetries > 0 then maxRetries else 0
      invariant forall i :: 0 <= i < attempt ==> QuotaFailure(call(i))
      invariant forall i :: 0 <= i < attempt ==> sleeps[i] == baseDelay * Pow2(i)
      invariant last == if attempt == 0 then None else Some(call(attempt - 1).message)
      decreases maxRetries - attempt
    {
      var outcome := call(attempt);
      calls := calls + 1;
      match outcome
      case Returned(v) =>
        return Success(v), calls, sleeps;
      case Raised(message) =>
        if !IsQuota(message) {
          return Reraised(message), calls, sleeps;
        }
        sleeps := sleeps + [baseDelay * Pow2(attempt)];
        last := Some(message);
      attempt := attempt + 1;
    }
    r := GaveUp(maxRetries, last);
  }

  /** The waits double: each is twice the one before. */
  lemma WaitsDouble(baseDelay: int, i: nat)
    ensures baseDelay * Pow2(i + 1) == 2 * (baseDelay * Pow2(i))
  {
  }
}
