/** The retry loops of the standalone crawlers: `safe_get` of
    `vexio_crawler.py` and `altex_crawler.py` (navigate, retry on an exception
    with a growing pause, re-raise the last exception) and `fetch_page_async`
    of `vexio_test.py` (two tries, an empty page when both fail). What each
    attempt does is a parameter: the outcome of attempt `k`. */
module Retry {
  import opened Wrappers

  /** How many attempts a loop of at most `tries` attempts has made once it
      has got past attempt `k`: it ends after the first success. */
  function AttemptsFrom<T, E>(outcome: nat -> Result<T, E>, tries: nat, k: nat): (n: nat)
    requires k <= tries
    ensures k <= n <= tries
    decreases tries - k
  {
    if k == tries then k
    else if outcome(k).Success? then k + 1
    else AttemptsFrom(outcome, tries, k + 1)
  }

  /** The reference count: the first success ends the loop, and when every
      attempt fails all `tries` are made. */
  lemma {:induction false} AttemptsFromFirstSuccess<T, E>(outcome: nat -> Result<T, E>, tries: nat, k: nat, j: nat)
    requires k <= j < tries
    requires forall i :: k <= i < j ==> outcome(i).Failure?
    requires outcome(j).Success?
    ensures AttemptsFrom(outcome, tries, k) == j + 1
    decreases j - k
  {
    if k < j {
      AttemptsFromFirstSuccess(outcome, tries, k + 1, j);
    }
  }

  lemma {:induction false} AttemptsFromAllFail<T, E>(outcome: nat -> Result<T, E>, tries: nat, k: nat)
    requires k <= tries
    requires forall i :: k <= i < tries ==> outcome(i).Failure?
    ensures AttemptsFrom(outcome, tries, k) == tries
    decreases tries - k
  {
    if k < tries {
      AttemptsFromAllFail(outcome, tries, k + 1);
    }
  }

  /** `for attempt in range(tries)`, leaving the loop on the first success:
      the number of attempts made. */
  method Attempt<T, E>(outcome: nat -> Result<T, E>, tries: nat) returns (attempts: nat)
    ensures attempts <= tries
    ensures tries > 0 ==> attempts > 0
    ensures forall k :: 0 <= k < attempts - 1 ==> outcome(k).Failure?
    ensures 0 < attempts < tries ==> outcome(attempts - 1).Success?
    ensures attempts == AttemptsFrom(outcome, tries, 0)
  {
    attempts := 0;
    while attempts < tries
      invariant attempts <= tries
      invariant forall k :: 0 <= k < attempts ==> outcome(k).Failure?
      invariant AttemptsFrom(outcome, tries, 0) == AttemptsFrom(outcome, tries, attempts)
    {
      var r := outcome(attempts);
      attempts := attempts + 1;
      if r.Success? {
        return;
      }
    }
  }

  /** The default `retries` of both `safe_get`s. */
  const DefaultRetries: int := 2

  /** The pause after failed attempt `k`: `0.2 + k * 0.1` seconds in
      `vexio_crawler.py`, `1.0 + k` in `altex_crawler.py`. */
  function VexioBackoff(k: nat): real {
    0.2 + k as real * 0.1
  }

  function AltexBackoff(k: nat): real {
    1.0 + k as real
  }

  /** The pause after the successful navigation (`wait_after`). */
  const VexioWaitAfter: real := 0.3
  const AltexWaitAfter: real := 0.6

  /** What `safe_get` did: how many navigations, the pause after each, and
      the exception it raised, if any. */
  datatype Navigation<E> = Navigation(attempts: nat, pauses: seq<real>, raised: Option<E>)

  /** `safe_get(driver, url, retries, wait_after)`, where `load(k)` is the
      exception `driver.get` raises on attempt `k` (`None` when it loads). */
  method SafeGet<E>(load: nat -> Option<E>, retries: int, waitAfter: real, backoff: nat -> real)
    returns (nav: Navigation<E>)
    ensures retries < 0 ==> nav == Navigation(0, [], None)
    ensures retries >= 0 ==> 1 <= nav.attempts <= retries + 1
    ensures forall k :: 0 <= k < nav.attempts - 1 ==> load(k).Some?
    ensures 0 < nav.attempts <= retries ==> load(nav.attempts - 1).None?
    ensures nav.raised.Some? <==> 0 < nav.attempts && load(nav.attempts - 1).Some?
    ensures nav.raised.Some? ==> nav.attempts == retries + 1 && nav.raised == load(retries)
    ensures |nav.pauses| == nav.attempts
    ensures forall k :: 0 <= k < nav.attempts ==>
              nav.pauses[k] == if load(k).Some? then backoff(k) else waitAfter
  {
    var outcome := (k: nat) => if load(k).Some? then Failure(load(k).value) else Success(());
    var tries := if retries < 0 then 0 else retries + 1;
    var n := Attempt(outcome, tries);
    assert forall k: nat :: outcome(k).Success? <==> load(k).None?;
    var pauses := seq(n, (k: int) requires 0 <= k < n => if load(k).Some? then backoff(k) else waitAfter);
    var raised := if n > 0 && load(n - 1).Some? then load(n - 1) else None;
    nav := Navigation(n, pauses, raised);
  }

  /** `RETRY_COUNT` of `vexio_test.py`. */
  const RetryCount: nat := 2

  /** The pause after a failed fetch. */
  const FetchPause: real := 0.1

  /** `fetch_page_async`: the page's products and whether a next page
      exists, from the first of `RetryCount` tries that succeeds, and
      `([], False)` when none does; `get(k)` is the outcome of try `k`. */
  method FetchPage<P, E>(get: nat -> Result<(seq<P>, bool), E>)
    returns (items: seq<P>, hasNext: bool, attempts: nat, pauses: seq<real>)
    ensures 1 <= attempts <= RetryCount
    ensures forall k :: 0 <= k < attempts - 1 ==> get(k).Failure?
    ensures get(attempts - 1).Success? ==> (items, hasNext) == get(attempts - 1).value
    ensures get(attempts - 1).Failure? ==> attempts == RetryCount && items == [] && !hasNext
    ensures pauses == seq(attempts - 1, (k: int) => FetchPause)
            + (if get(attempts - 1).Failure? then [FetchPause] else [])
  {
    attempts := Attempt(get, RetryCount);
    var last := get(attempts - 1);
    if last.Success? {
      items, hasNext := last.value.0, last.value.1;
      pauses := seq(attempts - 1, (k: int) => FetchPause);
    } else {
      items, hasNext := [], false;
      pauses := seq(attempts - 1, (k: int) => FetchPause) + [FetchPause];
    }
  }
}
