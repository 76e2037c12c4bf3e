/** The per-host pacing and soft-block retry loop of `_throttled_get` in
    `scrapers/utils.py`. The process-wide host map is explicit state; the
    clock readings, the random delay and the random jitter are parameters; the
    browser is what each navigation shows: the page source, or a raise. */
module Throttle {
  import opened Wrappers
  import Text

  /** `_last_hit_per_host`: host name to the time of its last fetch. */
  type HostClock = map<string, real>

  /** Phrases that mark a rate-limit or human-check page. */
  const BlockMarkers: seq<string> :=
    ["captcha", "too many requests", "temporarily unavailable", "high traffic", "are you a human"]

  /** The page source (`None` read as "") contains a marker, ignoring case. */
  predicate Blocked(source: Option<string>) {
    exists k :: 0 <= k < |BlockMarkers| && Text.Contains(Text.Lower(source.GetOr("")), BlockMarkers[k])
  }

  /** `_last_hit_per_host.get(host, 0)`. */
  function LastHit(clock: HostClock, host: string): real {
    if host in clock then clock[host] else 0.0
  }

  /** `max(0.0, last + min_delay - now)`: the pause before the first request. */
  function Wait(clock: HostClock, host: string, now: real, minDelay: real): (w: real)
    ensures w >= 0.0
    ensures now + w >= LastHit(clock, host) + minDelay
    ensures w == 0.0 || now + w == LastHit(clock, host) + minDelay
  {
    var d := LastHit(clock, host) + minDelay - now;
    if d > 0.0 then d else 0.0
  }

  /** What one navigation gives: `driver.get(url)` and `driver.page_source`
      are outside any `try`, so either may raise (a page-load timeout, say),
      which ends the call; otherwise the page source, `None` when empty. */
  datatype Shown = Raised | Loaded(source: Option<string>)

  /** The loop retries after this navigation when attempts remain. */
  predicate SoftBlocked(s: Shown) {
    s.Loaded? && Blocked(s.source)
  }

  /** Navigations made from attempt `attempt` on (`pageAt(k)` is what
      navigation `k` shows): a raise, a page without a marker, or the last
      allowed attempt ends the loop. */
  function Navigations(pageAt: nat -> Shown, attempt: nat, maxRetries: nat): (n: nat)
    requires attempt <= maxRetries
    ensures 1 <= n <= maxRetries + 1 - attempt
    ensures forall k :: attempt <= k < attempt + n - 1 ==> SoftBlocked(pageAt(k))
    ensures attempt + n - 1 < maxRetries ==> !SoftBlocked(pageAt(attempt + n - 1))
    decreases maxRetries - attempt
  {
    if SoftBlocked(pageAt(attempt)) && attempt < maxRetries then
      1 + Navigations(pageAt, attempt + 1, maxRetries)
    else 1
  }

  /** What one call does: the initial pause, the number of navigations, the
      back-off pauses between them, whether the last navigation raised, and
      the host map afterwards. */
  datatype Fetch = Fetch(waited: real, navigations: nat, backoffs: seq<real>, raised: bool, clock: HostClock)

  /** `_throttled_get(driver, url, max_retries=maxRetries)` for a URL whose
      network location is `host`, started at `now` with `min_delay` equal to
      `minDelay`; `jitter(k)` is the `random.random()` drawn after attempt `k`
      and `finishedAt` the clock reading after the loop. A raise leaves the
      function before the host's time is recorded. */
  function ThrottledGet(clock: HostClock, host: string, now: real, minDelay: real,
                        pageAt: nat -> Shown, maxRetries: int,
                        jitter: nat -> real, finishedAt: real): (f: Fetch)
    ensures f.waited >= 0.0 && now + f.waited >= LastHit(clock, host) + minDelay
    ensures f.waited == 0.0 || now + f.waited == LastHit(clock, host) + minDelay
    ensures maxRetries < 0 ==> f.navigations == 0
    ensures maxRetries >= 0 ==> 1 <= f.navigations <= maxRetries + 1
    ensures forall k :: 0 <= k < f.navigations - 1 ==> SoftBlocked(pageAt(k))
    ensures 0 < f.navigations <= maxRetries ==> !SoftBlocked(pageAt(f.navigations - 1))
    ensures f.raised <==> 0 < f.navigations && pageAt(f.navigations - 1).Raised?
    ensures |f.backoffs| == if f.navigations == 0 then 0 else f.navigations - 1
    ensures forall k :: 0 <= k < |f.backoffs| ==> f.backoffs[k] == 2.5 * (k + 1) as real + jitter(k)
    ensures f.raised ==> f.clock == clock
    ensures !f.raised ==> host in f.clock && f.clock[host] == finishedAt
    ensures forall h :: h != host ==> (h in f.clock <==> h in clock)
    ensures forall h :: h != host && h in clock ==> f.clock[h] == clock[h]
  {
    var w := Wait(clock, host, now, minDelay);
    var n := if maxRetries < 0 then 0 else Navigations(pageAt, 0, maxRetries);
    var pauses := seq(if n == 0 then 0 else n - 1, (k: int) requires 0 <= k => 2.5 * (k + 1) as real + jitter(k));
    var raised := 0 < n && pageAt(n - 1).Raised?;
    Fetch(w, n, pauses, raised, if raised then clock else clock[host := finishedAt])
  }

  /** Two calls for the same host in sequence, the first of which did not
      raise: the second call's first request starts no earlier than its
      `minDelay` after the first call ended, whatever the first call's
      retries were. */
  lemma PacedAcrossCalls(clock: HostClock, host: string,
                         now1: real, delay1: real, pages1: nat -> Shown,
                         retries1: int, jitter1: nat -> real, finished1: real,
                         now2: real, delay2: real, pages2: nat -> Shown,
                         retries2: int, jitter2: nat -> real, finished2: real)
    requires finished1 <= now2
    ensures var first := ThrottledGet(clock, host, now1, delay1, pages1, retries1, jitter1, finished1);
            var second := ThrottledGet(first.clock, host, now2, delay2, pages2, retries2, jitter2, finished2);
            !first.raised ==> now2 + second.waited >= finished1 + delay2
  {
  }

  /** A call that raised leaves no trace in the host map: the next call for
      the host behaves exactly as if the raising call had never been made,
      so it is paced from the older timestamp. */
  lemma RaisedCallIsForgotten(clock: HostClock, host: string,
                              now1: real, delay1: real, pages1: nat -> Shown,
                              retries1: int, jitter1: nat -> real, finished1: real,
                              now2: real, delay2: real, pages2: nat -> Shown,
                              retries2: int, jitter2: nat -> real, finished2: real)
    ensures var first := ThrottledGet(clock, host, now1, delay1, pages1, retries1, jitter1, finished1);
            first.raised ==>
              ThrottledGet(first.clock, host, now2, delay2, pages2, retries2, jitter2, finished2)
              == ThrottledGet(clock, host, now2, delay2, pages2, retries2, jitter2, finished2)
  {
  }
}
