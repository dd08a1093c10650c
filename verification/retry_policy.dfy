/** The retry policy of the wallet page's query client: whether a failed
    query is tried again, and how long to wait before the next attempt. */
module RetryPolicy {
  import opened Optional

  /** The part of a thrown error the policy looks at: `err?.response?.status`.
      An error that is not an object, or has no `response`, has `response ==
      None`. */
  datatype HttpResponse = HttpResponse(status: Option<int>)
  datatype QueryError = QueryError(response: Option<HttpResponse>)

  const Forbidden := 403
  /** Failures after which a query is no longer retried. */
  const MaxRetries := 2
  const BaseDelay := 1000
  const MaxDelay := 30000

  /** `err?.response?.status === 403`. */
  predicate IsForbidden(e: QueryError) {
    e.response.Some? && e.response.value.status == Some(Forbidden)
  }

  /** The `retry` option. */
  function ShouldRetry(failureCount: nat, error: QueryError): (r: bool)
    ensures IsForbidden(error) ==> !r
    ensures !IsForbidden(error) ==> (r <==> failureCount < MaxRetries)
  {
    !IsForbidden(error) && failureCount < MaxRetries
  }

  /** A query is retried for at most two failure counts, 0 and 1, and never
      once the server answered 403. */
  lemma RetriedOnlyEarly(failureCount: nat, error: QueryError)
    ensures ShouldRetry(failureCount, error) <==> !IsForbidden(error) && failureCount in {0, 1}
  {
  }

  /** Once the policy gives up on an error it stays given up. */
  lemma ShouldRetryMonotone(m: nat, n: nat, error: QueryError)
    requires m <= n && !ShouldRetry(m, error)
    ensures !ShouldRetry(n, error)
  {
  }

  function Pow2(n: nat): (r: nat)
    ensures r >= 1
  {
    if n == 0 then 1 else 2 * Pow2(n - 1)
  }

  lemma {:induction false} Pow2Monotone(m: nat, n: nat)
    requires m <= n
    ensures Pow2(m) <= Pow2(n)
    decreases n
  {
    if m < n {
      Pow2Monotone(m, n - 1);
    }
  }

  /** 2^n passes 30 (the cap over the base delay) exactly from n = 5 on. */
  lemma Pow2Threshold(n: nat)
    ensures n >= 5 ==> Pow2(n) >= 32
    ensures n < 5 ==> Pow2(n) <= 16
  {
    assert Pow2(5) == 32 && Pow2(4) == 16;
    if n >= 5 {
      Pow2Monotone(5, n);
    } else {
      Pow2Monotone(n, 4);
    }
  }

  /** The `retryDelay` option: `Math.min(1000 * 2 ** attemptIndex, 30000)`.
      JavaScript's `2 ** n` is exact up to n = 1023 and `Infinity` beyond;
      either way the minimum is the same as with unbounded integers. */
  function RetryDelay(attemptIndex: nat): (r: nat)
    ensures BaseDelay <= r <= MaxDelay
    ensures r == MaxDelay <==> attemptIndex >= 5
    ensures attemptIndex < 5 ==> r == BaseDelay * Pow2(attemptIndex)
  {
    Pow2Threshold(attemptIndex);
    var d := BaseDelay * Pow2(attemptIndex);
    if d < MaxDelay then d else MaxDelay
  }

  /** Waits never get shorter from one attempt to the next. */
  lemma {:induction false} RetryDelayMonotone(m: nat, n: nat)
    requires m <= n
    ensures RetryDelay(m) <= RetryDelay(n)
  {
  }

  /** The schedule: 1, 2, 4, 8, 16 seconds, then 30 seconds for good. */
  lemma RetryDelaySchedule(n: nat)
    ensures RetryDelay(0) == 1000 && RetryDelay(1) == 2000 && RetryDelay(2) == 4000
    ensures RetryDelay(3) == 8000 && RetryDelay(4) == 16000
    ensures n >= 5 ==> RetryDelay(n) == 30000
  {
  }
}
