/**
  Recovery policies: when the Worker is declared unavailable, and how often the engine may be
  restarted automatically. Both are small counters over timed events; the results here speak
  about whole runs of those events: when the Worker is given up, how long it is left alone after a rate
  limit, and how far restarts are spread.
 */
module Recovery {
  import opened Basics
  import opened Collections

  const WORKER_FAILURE_THRESHOLD := 5
  const WORKER_FAILURE_GAP_MS := 60_000
  const WORKER_MIN_STREAK_MS := 15_000
  const RATE_LIMIT_DEFAULT_BACKOFF_MS := 5_000
  const RATE_LIMIT_MAX_BACKOFF_MS := 30_000

  // ---- Worker health ----

  datatype Response = Response(status: int, at: nat, retryAfterSeconds: nat)

  predicate RateLimited(r: Response) { r.status == 429 }
  predicate Failed(r: Response) {
    r.status < 0 || r.status == 401 || r.status == 403 || r.status >= 500
  }
  predicate Healthy(r: Response) { !RateLimited(r) && !Failed(r) }

  datatype Health = Health(failures: nat, streakStart: nat, lastFailure: nat, backoffUntil: nat, unavailable: bool)

  const FRESH := Health(0, 0, 0, 0, false)

  /** How long a rate-limiting response asks for quiet: what it says, five seconds if nothing, never over thirty. */
  function Pause(r: Response): (ms: nat)
    ensures 0 < ms <= RATE_LIMIT_MAX_BACKOFF_MS
  {
    Min(if r.retryAfterSeconds != 0 then r.retryAfterSeconds * 1000 else RATE_LIMIT_DEFAULT_BACKOFF_MS,
        RATE_LIMIT_MAX_BACKOFF_MS)
  }

  function Observed(h: Health, r: Response): (h': Health)
  {
    if h.unavailable then h
    else if RateLimited(r) then
      h.(backoffUntil := Max(h.backoffUntil, r.at + Pause(r)))
    else if !Failed(r) then h.(failures := 0)
    else
      var restart := h.failures == 0 || Elapsed(r.at, h.lastFailure) > WORKER_FAILURE_GAP_MS;
      var start := if restart then r.at else h.streakStart;
      var failures := if restart then 1 else h.failures + 1;
      Health(failures, start, r.at, h.backoffUntil,
             failures >= WORKER_FAILURE_THRESHOLD && Elapsed(r.at, start) >= WORKER_MIN_STREAK_MS)
  }

  class WorkerHealth {
    var failures: nat
    var streakStartMs: nat
    var lastFailureMs: nat
    var backoffUntilMs: nat
    var unavailable: bool

    ghost function View(): Health
      reads this
    {
      Health(failures, streakStartMs, lastFailureMs, backoffUntilMs, unavailable)
    }

    constructor ()
      ensures View() == FRESH
    {
      failures, streakStartMs, lastFailureMs, backoffUntilMs, unavailable := 0, 0, 0, 0, false;
    }

    method Observe(httpStatus: int, nowMs: nat, retryAfterSeconds: nat) returns (latched: bool)
      modifies this
      ensures View() == Observed(old(View()), Response(httpStatus, nowMs, retryAfterSeconds))
      ensures latched == View().unavailable
    {
      if unavailable {
        return true;
      }
      if httpStatus == 429 {
        var requested := if retryAfterSeconds != 0 then retryAfterSeconds * 1000 else RATE_LIMIT_DEFAULT_BACKOFF_MS;
        backoffUntilMs := Max(backoffUntilMs, nowMs + Min(requested, RATE_LIMIT_MAX_BACKOFF_MS));
        return false;
      }
      if !(httpStatus < 0 || httpStatus == 401 || httpStatus == 403 || httpStatus >= 500) {
        failures := 0;
        return false;
      }
      if failures == 0 || Elapsed(nowMs, lastFailureMs) > WORKER_FAILURE_GAP_MS {
        failures := 0;
        streakStartMs := nowMs;
      }
      lastFailureMs := nowMs;
      failures := failures + 1;
      unavailable := failures >= WORKER_FAILURE_THRESHOLD && Elapsed(nowMs, streakStartMs) >= WORKER_MIN_STREAK_MS;
      return unavailable;
    }

    /** True exactly while the pause of some rate-limiting response of the run so far lasts. */
    method BackingOff(nowMs: nat, ghost run: seq<Response>) returns (wait: bool)
      requires View() == After(run, |run|)
      ensures wait <==> exists i :: 0 <= i < |run| && PausedBy(run, i, nowMs)
    {
      wait := nowMs < backoffUntilMs;
      PausedExactlyByRateLimits(run, |run|, nowMs);
    }
  }

  /** The state after the first `n` responses of a run. */
  function After(run: seq<Response>, n: nat): (h: Health)
    requires n <= |run|
  {
    if n == 0 then FRESH else Observed(After(run, n - 1), run[n - 1])
  }

  /** Response `i` is a rate limit that was noted, and the pause it asked for has not ended at `now`. */
  predicate PausedBy(run: seq<Response>, i: nat, now: nat)
    requires i < |run|
  {
    RateLimited(run[i]) && !After(run, i).unavailable && now < run[i].at + Pause(run[i])
  }

  /** The end of the pause is the latest end any noted rate limit asked for; nothing else moves it. */
  lemma {:induction false} PausedExactlyByRateLimits(run: seq<Response>, n: nat, now: nat)
    requires n <= |run|
    ensures now < After(run, n).backoffUntil <==> exists i :: 0 <= i < n && PausedBy(run, i, now)
  {
    if n > 0 {
      PausedExactlyByRateLimits(run, n - 1, now);
      var last := n - 1;
      assert now < After(run, n).backoffUntil <==> now < After(run, last).backoffUntil || PausedBy(run, last, now);
    }
  }

  /** A pause is over thirty seconds after the last response of a run at the latest, and is never cut short. */
  lemma {:induction false} PauseIsBounded(run: seq<Response>, m: nat, n: nat)
    requires Timely(run) && m <= n <= |run|
    ensures After(run, m).backoffUntil <= After(run, n).backoffUntil
    ensures n > 0 ==> After(run, n).backoffUntil <= run[n - 1].at + RATE_LIMIT_MAX_BACKOFF_MS
    decreases n
  {
    if n > 0 {
      PauseIsBounded(run, if m < n then m else n - 1, n - 1);
      if n > 1 { assert run[n - 2].at <= run[n - 1].at; }
    }
  }

  predicate Timely(run: seq<Response>) {
    forall i, j :: 0 <= i < j < |run| ==> run[i].at <= run[j].at
  }

  function CountFailed(run: seq<Response>, from: nat, end: nat): (n: nat)
    requires from <= end <= |run|
    decreases end
  {
    if from == end then 0
    else CountFailed(run, from, end - 1) + (if Failed(run[end - 1]) then 1 else 0)
  }

  /** The last failure before response `k`, or -1. */
  function PreviousFailure(run: seq<Response>, k: nat): (p: int)
    requires k <= |run|
    ensures -1 <= p < k && (p >= 0 ==> Failed(run[p]))
    ensures forall x :: p < x < k ==> !Failed(run[x])
  {
    if k == 0 then -1 else if Failed(run[k - 1]) then k - 1 else PreviousFailure(run, k - 1)
  }

  predicate NearPrevious(run: seq<Response>, k: nat)
    requires k < |run|
  {
    var p := PreviousFailure(run, k);
    p >= 0 && run[k].at - run[p].at <= WORKER_FAILURE_GAP_MS
  }

  /** From failure `a` to failure `j` nothing healthy was seen and no two neighbouring failures are far apart. */
  predicate Streak(run: seq<Response>, a: nat, j: nat)
    requires a <= j < |run|
  {
    && Failed(run[a]) && Failed(run[j])
    && (forall k :: a <= k <= j ==> !Healthy(run[k]))
    && (forall k :: a < k <= j && Failed(run[k]) ==> NearPrevious(run, k))
  }

  /** The evidence on which the Worker may be given up. */
  predicate Sustained(run: seq<Response>, a: nat, j: nat)
    requires a <= j < |run|
  {
    && Streak(run, a, j)
    && CountFailed(run, a, j + 1) >= WORKER_FAILURE_THRESHOLD
    && run[j].at - run[a].at >= WORKER_MIN_STREAK_MS
  }

  /** After `n` responses the counters describe the streak `a..l`, and no longer one ends at `l`. */
  ghost predicate Describes(h: Health, run: seq<Response>, n: nat, a: nat, l: nat)
    requires a <= l < n <= |run|
  {
    && Streak(run, a, l)
    && h.failures == CountFailed(run, a, l + 1) > 0
    && h.streakStart == run[a].at && h.lastFailure == run[l].at
    && PreviousFailure(run, n) == l
    && (forall k :: l < k < n ==> !Healthy(run[k]))
    && (forall b :: 0 <= b <= l && Streak(run, b, l) ==> a <= b)
  }

  /** Since the last failure, if any, something healthy was seen. */
  ghost predicate Quiet(run: seq<Response>, n: nat)
    requires n <= |run|
  {
    var p := PreviousFailure(run, n);
    p >= 0 ==> exists h :: p < h < n && Healthy(run[h])
  }

  lemma {:induction false} CountFailedSplits(run: seq<Response>, a: nat, b: nat, end: nat)
    requires a <= b <= end <= |run|
    ensures CountFailed(run, a, end) == CountFailed(run, a, b) + CountFailed(run, b, end)
    decreases end
  {
    if b < end { CountFailedSplits(run, a, b, end - 1); }
  }

  lemma {:induction false} NoFailuresCounted(run: seq<Response>, from: nat, end: nat)
    requires from <= end <= |run| && forall k :: from <= k < end ==> !Failed(run[k])
    ensures CountFailed(run, from, end) == 0
    decreases end
  {
    if from < end { NoFailuresCounted(run, from, end - 1); }
  }

  /** Until the first latch, the counters describe the longest streak ending at the last failure. */
  lemma {:induction false} CountersDescribeRun(run: seq<Response>, n: nat) returns (a: nat)
    requires Timely(run) && n <= |run| && !After(run, n).unavailable
    ensures After(run, n).failures == 0 ==> Quiet(run, n)
    ensures After(run, n).failures > 0 ==>
      var l := PreviousFailure(run, n); 0 <= a <= l && Describes(After(run, n), run, n, a, l)
  {
    a := 0;
    if n > 0 {
      a := CountersDescribeRun(run, n - 1);
      if Failed(run[n - 1]) {
        a := FailureExtends(run, n, a);
      } else if Healthy(run[n - 1]) {
        assert PreviousFailure(run, n) < n - 1 < n;
      }
    }
  }

  /** What is known just before a failure at `n - 1` is observed. */
  ghost predicate Prepared(run: seq<Response>, n: nat, a: nat)
    requires 0 < n <= |run|
  {
    var h, l := After(run, n - 1), PreviousFailure(run, n - 1);
    && Timely(run) && Failed(run[n - 1]) && !h.unavailable
    && (h.failures == 0 ==> Quiet(run, n - 1))
    && (h.failures > 0 ==> 0 <= a <= l && Describes(h, run, n - 1, a, l))
  }

  lemma {:induction false} FailureExtends(run: seq<Response>, n: nat, a: nat) returns (a': nat)
    requires 0 < n <= |run| && Prepared(run, n, a)
    ensures a' <= n - 1 && Describes(After(run, n), run, n, a', n - 1)
  {
    if After(run, n - 1).failures == 0 || !NearPrevious(run, n - 1) {
      a' := n - 1;
      FreshStreak(run, n, a);
    } else {
      a' := a;
      LongerStreak(run, n, a);
    }
  }

  /** A failure after a healthy answer or a long pause starts a streak of its own. */
  lemma {:induction false} FreshStreak(run: seq<Response>, n: nat, a: nat)
    requires 0 < n <= |run| && Prepared(run, n, a)
    requires After(run, n - 1).failures == 0 || !NearPrevious(run, n - 1)
    ensures Describes(After(run, n), run, n, n - 1, n - 1)
  {
    assert CountFailed(run, n - 1, n) == CountFailed(run, n - 1, n - 1) + 1 == 1;
    var last := n - 1;
    forall b | 0 <= b < last ensures !Streak(run, b, last) {
      NoOlderStreak(run, last, b);
    }
  }

  lemma {:induction false} NoOlderStreak(run: seq<Response>, last: nat, b: nat)
    requires b < last < |run| && (Quiet(run, last) || !NearPrevious(run, last)) && Failed(run[last])
    ensures !Streak(run, b, last)
  {
    if NearPrevious(run, last) && Failed(run[b]) {
      var h :| PreviousFailure(run, last) < h < last && Healthy(run[h]);
    }
  }

  /** A failure soon after the last one lengthens its streak. */
  lemma {:induction false} LongerStreak(run: seq<Response>, n: nat, a: nat)
    requires 0 < n <= |run| && Prepared(run, n, a)
    requires After(run, n - 1).failures > 0 && NearPrevious(run, n - 1)
    ensures a <= n - 1 && Describes(After(run, n), run, n, a, n - 1)
  {
    var l := PreviousFailure(run, n - 1);
    assert CountFailed(run, a, n) == CountFailed(run, a, l + 1) + 1 by {
      NoFailuresCounted(run, l + 1, n - 1);
      CountFailedSplits(run, a, l + 1, n - 1);
    }
    var last := n - 1;
    StreakGrows(run, a, l, last);
    forall b | 0 <= b <= last && Streak(run, b, last) ensures a <= b {
      if b <= l { StreakShrinks(run, b, l, last); }
    }
  }

  /** A near failure behind a streak, with nothing healthy or failed between them, prolongs it. */
  lemma {:induction false} StreakGrows(run: seq<Response>, a: nat, l: nat, last: nat)
    requires a <= l < last < |run| && Streak(run, a, l) && Failed(run[last]) && NearPrevious(run, last)
    requires forall k :: l < k < last ==> !Healthy(run[k]) && !Failed(run[k])
    ensures Streak(run, a, last)
  {
  }

  lemma {:induction false} StreakShrinks(run: seq<Response>, b: nat, l: nat, last: nat)
    requires b <= l < last < |run| && Streak(run, b, last) && Failed(run[l])
    ensures Streak(run, b, l)
  {
  }

  lemma {:induction false} LatchPersists(run: seq<Response>, n: nat, m: nat)
    requires n <= m <= |run| && After(run, n).unavailable
    ensures After(run, m).unavailable
    decreases m
  {
    if n < m { LatchPersists(run, n, m - 1); }
  }

  /** The Worker is given up exactly when some stretch of the run is a sustained failure. */
  lemma {:induction false} LatchesExactlyOnSustainedFailure(run: seq<Response>)
    requires Timely(run)
    ensures After(run, |run|).unavailable <==> exists a, j :: 0 <= a <= j < |run| && Sustained(run, a, j)
  {
    if After(run, |run|).unavailable {
      var a, j := LatchHasEvidence(run, |run|);
      assert Sustained(run, a, j);
    }
    forall a, j | 0 <= a <= j < |run| && Sustained(run, a, j) ensures After(run, |run|).unavailable {
      EvidenceLatches(run, a, j);
    }
  }

  lemma {:induction false} LatchHasEvidence(run: seq<Response>, n: nat) returns (a: nat, j: nat)
    requires Timely(run) && n <= |run| && After(run, n).unavailable
    ensures a <= j < n && Sustained(run, a, j)
  {
    if After(run, n - 1).unavailable {
      a, j := LatchHasEvidence(run, n - 1);
    } else {
      a := CountersDescribeRun(run, n - 1);
      a := FailureExtends(run, n, a);
      j := n - 1;
    }
  }

  lemma {:induction false} EvidenceLatches(run: seq<Response>, a: nat, j: nat)
    requires Timely(run) && a <= j < |run| && Sustained(run, a, j)
    ensures After(run, |run|).unavailable
  {
    if After(run, j).unavailable {
      LatchPersists(run, j, |run|);
    } else {
      EvidenceLatchesAtOnce(run, a, j);
      LatchPersists(run, j + 1, |run|);
    }
  }

  lemma {:induction false} EvidenceLatchesAtOnce(run: seq<Response>, a: nat, j: nat)
    requires Timely(run) && a <= j < |run| && Sustained(run, a, j) && !After(run, j).unavailable
    ensures After(run, j + 1).unavailable
  {
    var b := CountersDescribeRun(run, j);
    b := FailureExtends(run, j + 1, b);
    FullStreakLatches(run, a, b, j);
  }

  lemma {:induction false} FullStreakLatches(run: seq<Response>, a: nat, b: nat, j: nat)
    requires Timely(run) && a <= j < |run| && Sustained(run, a, j)
    requires b <= j && Describes(After(run, j + 1), run, j + 1, b, j) && !After(run, j).unavailable
    ensures After(run, j + 1).unavailable
  {
    assert b <= a;
    CountFailedSplits(run, b, a, j + 1);
    assert b < a ==> run[b].at <= run[a].at;
    var h := After(run, j + 1);
    assert h == Observed(After(run, j), run[j]);
    assert h.failures >= WORKER_FAILURE_THRESHOLD && Elapsed(run[j].at, h.streakStart) >= WORKER_MIN_STREAK_MS;
  }

  /** The first `n` responses with every rate-limit answer removed. */
  function WithoutRateLimits(run: seq<Response>, n: nat): (kept: seq<Response>)
    requires n <= |run|
  {
    if n == 0 then []
    else if RateLimited(run[n - 1]) then WithoutRateLimits(run, n - 1)
    else WithoutRateLimits(run, n - 1) + [run[n - 1]]
  }

  lemma {:induction false} AfterOfExtension(run: seq<Response>, more: seq<Response>, n: nat)
    requires n <= |run|
    ensures After(run + more, n) == After(run, n)
  {
    if n > 0 { AfterOfExtension(run, more, n - 1); }
  }

  lemma {:induction false} BackoffIgnored(g: Health, h: Health, r: Response)
    requires g.(backoffUntil := 0) == h.(backoffUntil := 0)
    ensures Observed(g, r).(backoffUntil := 0) == Observed(h, r).(backoffUntil := 0)
  {
  }

  /** Rate limiting is neither a failure nor a recovery: it can be inserted anywhere. */
  lemma {:induction false} RateLimitsNeverMatter(run: seq<Response>, n: nat)
    requires n <= |run|
    ensures var kept := WithoutRateLimits(run, n);
      && After(kept, |kept|).(backoffUntil := 0) == After(run, n).(backoffUntil := 0)
      && (After(kept, |kept|).unavailable <==> After(run, n).unavailable)
  {
    if n > 0 {
      RateLimitsNeverMatter(run, n - 1);
      if !RateLimited(run[n - 1]) {
        var rest := WithoutRateLimits(run, n - 1);
        AfterOneMore(rest, run[n - 1]);
        BackoffIgnored(After(rest, |rest|), After(run, n - 1), run[n - 1]);
      }
    }
  }

  lemma {:induction false} AfterOneMore(run: seq<Response>, r: Response)
    ensures After(run + [r], |run + [r]|) == Observed(After(run, |run|), r)
  {
    AfterOfExtension(run, [r], |run|);
    assert (run + [r])[|run|] == r;
  }

  // ---- restart budget ----

  predicate NonDecreasing(times: seq<nat>) {
    forall i, j :: 0 <= i < j < |times| ==> times[i] <= times[j]
  }

  /** The first attempt from `from` on that is still inside the window. */
  function FirstLive(attempts: seq<nat>, from: nat, now: nat, window: nat): (k: nat)
    requires from <= |attempts|
    ensures from <= k <= |attempts|
    decreases |attempts| - from
  {
    if from < |attempts| && Elapsed(now, attempts[from]) >= window then FirstLive(attempts, from + 1, now, window)
    else from
  }

  lemma {:induction false} FirstLiveSeparates(attempts: seq<nat>, from: nat, now: nat, window: nat)
    requires from <= |attempts|
    ensures var k := FirstLive(attempts, from, now, window);
      && (forall i :: from <= i < k ==> Elapsed(now, attempts[i]) >= window)
      && (k < |attempts| ==> Elapsed(now, attempts[k]) < window)
    decreases |attempts| - from
  {
    if from < |attempts| && Elapsed(now, attempts[from]) >= window {
      FirstLiveSeparates(attempts, from + 1, now, window);
    }
  }

  function Consumed(attempts: seq<nat>, now: nat, maxAttempts: nat, window: nat): (r: (seq<nat>, nat))
  {
    Numbered(attempts[FirstLive(attempts, 0, now, window)..], now, maxAttempts)
  }

  /** The window with one more attempt and its number; 0 if it is full. */
  function Numbered(kept: seq<nat>, now: nat, maxAttempts: nat): (r: (seq<nat>, nat)) {
    if |kept| >= maxAttempts then (kept, 0) else (kept + [now], |kept| + 1)
  }

  class RestartBudget {
    const maxAttempts: nat
    const windowMs: nat
    var attempts: seq<nat>

    constructor (maxAttempts: nat, windowMs: nat)
      ensures this.maxAttempts == Max(maxAttempts, 1) && this.windowMs == Max(windowMs, 1) && attempts == []
    {
      this.maxAttempts, this.windowMs, attempts := Max(maxAttempts, 1), Max(windowMs, 1), [];
    }

    method Consume(nowMs: nat) returns (attempt: nat)
      modifies this
      ensures (attempts, attempt) == Consumed(old(attempts), nowMs, maxAttempts, windowMs)
    {
      Purge(nowMs);
      if |attempts| >= maxAttempts {
        return 0;
      }
      attempts := attempts + [nowMs];
      return |attempts|;
    }

    method Reset()
      modifies this
      ensures attempts == []
    {
      attempts := [];
    }

    method Purge(nowMs: nat)
      modifies this
      ensures attempts == old(attempts)[FirstLive(old(attempts), 0, nowMs, windowMs)..]
    {
      ghost var k := 0;
      while |attempts| > 0 && Elapsed(nowMs, attempts[0]) >= windowMs
        invariant k <= |old(attempts)| && attempts == old(attempts)[k..]
        invariant FirstLive(old(attempts), 0, nowMs, windowMs) == FirstLive(old(attempts), k, nowMs, windowMs)
        decreases |attempts|
      {
        attempts := attempts[1..];
        k := k + 1;
      }
    }
  }

  /** The first `n` requests on a fresh or reset budget: the window it then keeps and the times it granted. */
  function Granted(times: seq<nat>, n: nat, maxAttempts: nat, window: nat): (r: (seq<nat>, seq<nat>))
    requires n <= |times|
  {
    if n == 0 then ([], [])
    else
      var (attempts, granted) := Granted(times, n - 1, maxAttempts, window);
      var (attempts', attempt) := Consumed(attempts, times[n - 1], maxAttempts, window);
      (attempts', if attempt == 0 then granted else granted + [times[n - 1]])
  }

  /** How many of the first `n` granted restarts are less than a window old at `now`. */
  function Recent(granted: seq<nat>, n: nat, now: nat, window: nat): (count: nat)
    requires n <= |granted|
  {
    if n == 0 then 0
    else Recent(granted, n - 1, now, window) + (if now - granted[n - 1] < window then 1 else 0)
  }

  /** Restarts that are `maxAttempts` or more grants apart are a window apart. */
  predicate Spread(granted: seq<nat>, maxAttempts: nat, window: nat) {
    forall i, j :: 0 <= i < j < |granted| && j - i >= maxAttempts ==> granted[j] - granted[i] >= window
  }

  /** All granted restarts lie in the past, and those before `first` are a window old. */
  ghost predicate Windowed(granted: seq<nat>, first: nat, now: nat, window: nat) {
    && NonDecreasing(granted) && first <= |granted|
    && (forall i :: 0 <= i < |granted| ==> granted[i] <= now)
    && (forall i :: 0 <= i < first ==> now - granted[i] >= window)
  }

  lemma {:induction false} FirstLiveOfSuffix(granted: seq<nat>, first: nat, from: nat, now: nat, window: nat)
    requires first + from <= |granted|
    ensures first + FirstLive(granted[first..], from, now, window) == FirstLive(granted, first + from, now, window)
    decreases |granted| - from
  {
    if first + from < |granted| {
      assert granted[first..][from] == granted[first + from];
      if Elapsed(now, granted[first + from]) >= window {
        FirstLiveOfSuffix(granted, first, from + 1, now, window);
      }
    }
  }

  /** A request on a window that is a tail of the granted restarts leaves such a tail. */
  lemma {:induction false} ConsumedFromTail(granted: seq<nat>, first: nat, now: nat, maxAttempts: nat, window: nat)
    requires first <= |granted|
    ensures var next := FirstLive(granted, first, now, window);
      Consumed(granted[first..], now, maxAttempts, window) ==
      if |granted| - next >= maxAttempts then (granted[next..], 0)
      else ((granted + [now])[next..], |granted| - next + 1)
  {
    var tail, next := granted[first..], FirstLive(granted, first, now, window);
    FirstLiveOfSuffix(granted, first, 0, now, window);
    ConsumedFrom(tail, next - first, granted[next..], now, maxAttempts, window) by {
      DropDrop(granted, first, next - first);
    }
    NumberedTail(granted, next, now, maxAttempts);
  }

  lemma {:induction false} ConsumedFrom(tail: seq<nat>, k: nat, kept: seq<nat>, now: nat, maxAttempts: nat, window: nat)
    requires k == FirstLive(tail, 0, now, window) && kept == tail[k..]
    ensures Consumed(tail, now, maxAttempts, window) == Numbered(kept, now, maxAttempts)
  {
  }

  lemma {:induction false} NumberedTail(granted: seq<nat>, next: nat, now: nat, maxAttempts: nat)
    requires next <= |granted|
    ensures Numbered(granted[next..], now, maxAttempts) ==
      if |granted| - next >= maxAttempts then (granted[next..], 0)
      else ((granted + [now])[next..], |granted| - next + 1)
  {
    DropAppend(granted, [now], next);
  }

  /** One request: the window moves on, and a grant keeps the restarts spread out. */
  lemma {:induction false} WindowMoves(granted: seq<nat>, first: nat, before: nat, now: nat, window: nat)
    requires Windowed(granted, first, before, window) && before <= now
    ensures var next := FirstLive(granted, first, now, window);
      && Windowed(granted, next, now, window)
      && (forall i :: next <= i < |granted| ==> now - granted[i] < window)
  {
    FirstLiveSeparates(granted, first, now, window);
  }

  /** The oldest of `maxAttempts + 1` restarts has left the window by the time the newest is granted. */
  lemma {:induction false} GrantKeepsSpread(granted: seq<nat>, next: nat, now: nat, maxAttempts: nat, window: nat)
    requires Windowed(granted, next, now, window) && |granted| - next < maxAttempts
    requires Spread(granted, maxAttempts, window)
    ensures Spread(granted + [now], maxAttempts, window)
    ensures Windowed(granted + [now], next, now, window)
  {
  }

  lemma {:induction false} BudgetInvariant(times: seq<nat>, n: nat, maxAttempts: nat, window: nat) returns (first: nat)
    requires NonDecreasing(times) && n <= |times| && maxAttempts >= 1 && window >= 1
    ensures var (attempts, granted) := Granted(times, n, maxAttempts, window);
      && Windowed(granted, first, if n > 0 then times[n - 1] else 0, window)
      && attempts == granted[first..] && Spread(granted, maxAttempts, window)
  {
    first := 0;
    if n > 0 {
      var (attempts, granted) := Granted(times, n - 1, maxAttempts, window);
      var now := times[n - 1];
      first := BudgetInvariant(times, n - 1, maxAttempts, window);
      ConsumedFromTail(granted, first, now, maxAttempts, window);
      WindowMoves(granted, first, if n > 1 then times[n - 2] else 0, now, window);
      first := FirstLive(granted, first, now, window);
      if |granted| - first < maxAttempts { GrantKeepsSpread(granted, first, now, maxAttempts, window); }
    }
  }

  lemma {:induction false} RecentCountsTail(granted: seq<nat>, n: nat, now: nat, window: nat, gone: nat)
    requires gone <= |granted| && n <= |granted|
    requires forall i :: 0 <= i < gone ==> now - granted[i] >= window
    requires forall i :: gone <= i < |granted| ==> now - granted[i] < window
    ensures Recent(granted, n, now, window) == if n <= gone then 0 else n - gone
  {
    if n > 0 { RecentCountsTail(granted, n - 1, now, window, gone); }
  }

  /** Between two resets, any `maxAttempts + 1` granted restarts span at least the window. */
  lemma {:induction false} GrantedRestartsAreSpread(times: seq<nat>, maxAttempts: nat, window: nat, i: nat)
    requires NonDecreasing(times) && maxAttempts >= 1 && window >= 1
    requires i + maxAttempts < |Granted(times, |times|, maxAttempts, window).1|
    ensures var granted := Granted(times, |times|, maxAttempts, window).1;
      granted[i + maxAttempts] - granted[i] >= window
  {
    var _ := BudgetInvariant(times, |times|, maxAttempts, window);
  }

  /** A request is refused exactly when the window is full, and otherwise numbered by the window. */
  lemma {:induction false} RefusedExactlyWhenWindowFull(times: seq<nat>, n: nat, maxAttempts: nat, window: nat)
    requires NonDecreasing(times) && n < |times| && maxAttempts >= 1 && window >= 1
    ensures var (attempts, granted) := Granted(times, n, maxAttempts, window);
      var recent := Recent(granted, |granted|, times[n], window);
      var attempt := Consumed(attempts, times[n], maxAttempts, window).1;
      && (attempt == 0 <==> recent >= maxAttempts)
      && (attempt != 0 ==> attempt == recent + 1)
  {
    var (attempts, granted) := Granted(times, n, maxAttempts, window);
    var first := BudgetInvariant(times, n, maxAttempts, window);
    ConsumedFromTail(granted, first, times[n], maxAttempts, window);
    WindowMoves(granted, first, if n > 0 then times[n - 1] else 0, times[n], window);
    RecentCountsTail(granted, |granted|, times[n], window, FirstLive(granted, first, times[n], window));
  }
}
