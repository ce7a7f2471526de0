/** The sliding-window limiter of src/rate_limit.rs, an independent algorithm over request timestamps. */
module SlidingWindows {
  import opened Basics
  import opened TokenBuckets
  import opened RateLimiters

  /** The timestamps that are left once everything in front older than `start` has been popped. */
  function Trim(timestamps: seq<real>, start: real): (rest: seq<real>) {
    if timestamps != [] && timestamps[0] < start then Trim(timestamps[1..], start) else timestamps
  }

  /** Two to the 63rd: an `Instant` counts its seconds in an i64. */
  const INSTANT_LIMIT: real := 9_223_372_036_854_775_808.0

  predicate IsInstant(t: real) {
    -INSTANT_LIMIT <= t < INSTANT_LIMIT
  }

  /**
   * One check of one key. It panics when the start of the window or the end of the oldest request's window is not an
   * instant, and with a limit of zero requests, when the deque is empty and has no front.
   */
  function CheckTimes(timestamps: seq<real>, window: real, limit: nat, now: real): (seq<real>, CheckResult) {
    if !IsInstant(now - window) then (timestamps, Panicked)
    else
      var recent := Trim(timestamps, now - window);
      if |recent| < limit then (recent + [now], Allowed)
      else if recent == [] || !IsInstant(recent[0] + window) then (recent, Panicked)
      else (recent, Limited(Elapsed(now, recent[0] + window), limit, 0))
  }

  type Requests = map<string, seq<real>>

  function TimesOf(r: Requests, key: string): seq<real> {
    if key in r then r[key] else []
  }

  function CheckWindow(r: Requests, window: real, limit: nat, key: string, now: real): (Requests, CheckResult) {
    var (times, result) := CheckTimes(TimesOf(r, key), window, limit, now);
    (if IsInstant(now - window) then r[key := times] else r, result)
  }

  class SlidingWindowLimiter {
    const windowSecs: nat
    const maxRequests: nat
    var requests: Requests

    constructor (windowSecs: nat, maxRequests: nat)
      ensures requests == map[] && this.windowSecs == windowSecs && this.maxRequests == maxRequests
    {
      this.windowSecs := windowSecs;
      this.maxRequests := maxRequests;
      this.requests := map[];
    }

    method Check(key: string, now: real) returns (result: CheckResult)
      modifies this
      ensures (requests, result) == CheckWindow(old(requests), windowSecs as real, maxRequests, key, now)
    {
      var windowStart := now - windowSecs as real;
      if !IsInstant(windowStart) {
        return Panicked;
      }
      var timestamps := if key in requests then requests[key] else [];
      ghost var before := timestamps;

      while timestamps != [] && timestamps[0] < windowStart
        invariant Trim(timestamps, windowStart) == Trim(before, windowStart)
        decreases |timestamps|
      {
        timestamps := timestamps[1..];
      }

      if |timestamps| < maxRequests {
        timestamps := timestamps + [now];
        result := Allowed;
      } else if timestamps == [] || !IsInstant(timestamps[0] + windowSecs as real) {
        result := Panicked;
      } else {
        result := Limited(Elapsed(now, timestamps[0] + windowSecs as real), maxRequests, 0);
      }
      requests := requests[key := timestamps];
    }
  }

  // ---------- runs ----------

  datatype Request = Request(key: string, at: real)

  /** What one request adds to a key's history. */
  function Grant(r: Requests, window: real, limit: nat, request: Request, key: string): seq<real> {
    if request.key == key && CheckWindow(r, window, limit, key, request.at).1 == Allowed then [request.at] else []
  }

  /** The times at which a run admits a key. */
  function Admitted(r: Requests, window: real, limit: nat, run: seq<Request>, key: string): seq<real>
    decreases |run|
  {
    if run == [] then []
    else
      Grant(r, window, limit, run[0], key)
      + Admitted(CheckWindow(r, window, limit, run[0].key, run[0].at).0, window, limit, run[1..], key)
  }

  function RunWindow(r: Requests, window: real, limit: nat, run: seq<Request>): Requests
    decreases |run|
  {
    if run == [] then r
    else RunWindow(CheckWindow(r, window, limit, run[0].key, run[0].at).0, window, limit, run[1..])
  }

  predicate Ordered(from: real, run: seq<Request>)
    decreases |run|
  {
    run == [] || (from <= run[0].at && Ordered(run[0].at, run[1..]))
  }

  function EndTime(from: real, run: seq<Request>): real {
    if run == [] then from else run[|run| - 1].at
  }

  ghost predicate Sorted(s: seq<real>) {
    forall i, j :: 0 <= i < j < |s| ==> s[i] <= s[j]
  }

  /**
   * How a deque relates to everything its key was ever granted: it holds the recent end of that history, and whatever
   * it no longer holds is out of every window that is still to come.
   */
  ghost predicate Remembers(times: seq<real>, history: seq<real>, window: real, limit: nat, now: real) {
    && |times| <= limit
    && Sorted(history) && (forall i :: 0 <= i < |history| ==> history[i] <= now)
    && |times| <= |history| && times == history[|history| - |times|..]
    && (forall i :: 0 <= i < |history| - |times| ==> history[i] < now - window)
  }

  /** Admissions at least `limit` apart in number are more than a window apart in time. */
  ghost predicate Spaced(history: seq<real>, window: real, limit: nat) {
    forall i, j :: 0 <= i && i + limit <= j < |history| ==> history[i] + window < history[j]
  }

  /** The admissions (by position) that fall into a closed window. */
  ghost function InWindow(history: seq<real>, lo: real, hi: real): set<int> {
    set i | 0 <= i < |history| && lo <= history[i] <= hi
  }

  /** Trimming a sorted list keeps exactly what is not older than the start. */
  lemma {:induction false} TrimCuts(times: seq<real>, start: real)
    requires Sorted(times)
    ensures
      var rest := Trim(times, start);
      && |rest| <= |times| && rest == times[|times| - |rest|..]
      && (forall i :: 0 <= i < |times| - |rest| ==> times[i] < start)
      && (forall i :: 0 <= i < |rest| ==> start <= rest[i])
  {
    if times != [] && times[0] < start {
      TrimCuts(times[1..], start);
      var rest := Trim(times[1..], start);
      forall i | 0 <= i < |times| - |rest| ensures times[i] < start {
        assert i == 0 || times[i] == times[1..][i - 1];
      }
    }
  }

  /** Trimming drops only what is out of every window from now on. */
  lemma TrimKeepsMemory(times: seq<real>, history: seq<real>, window: real, limit: nat, before: real, now: real)
    requires before <= now && Remembers(times, history, window, limit, before)
    ensures Remembers(Trim(times, now - window), history, window, limit, now)
    ensures
      var recent := Trim(times, now - window);
      forall i :: 0 <= i < |recent| ==> now - window <= recent[i]
  {
    hide Trim;
    TrimCuts(times, now - window);
    var recent := Trim(times, now - window);
    var cut := |history| - |recent|;
    assert recent == history[cut..];
    forall i | 0 <= i < cut ensures history[i] < now - window {
      if i >= |history| - |times| {
        assert history[i] == times[i - (|history| - |times|)];
      }
    }
  }

  /** A deque without old entries is exactly the part of the history inside the window that ends now. */
  lemma DequeIsTheWindow(recent: seq<real>, history: seq<real>, window: real, limit: nat, now: real)
    requires Remembers(recent, history, window, limit, now)
    requires forall i :: 0 <= i < |recent| ==> now - window <= recent[i]
    ensures |InWindow(history, now - window, now)| == |recent|
  {
    var cut := |history| - |recent|;
    forall i | cut <= i < |history| ensures now - window <= history[i] {
      assert history[i] == recent[i - cut];
    }
    assert InWindow(history, now - window, now) == Interval(cut, |history|);
  }

  /** Admitting one more request, when there is room for it. */
  lemma AdmissionKeepsMemory(recent: seq<real>, history: seq<real>, window: real, limit: nat, now: real)
    requires 0.0 <= window && |recent| < limit
    requires Remembers(recent, history, window, limit, now) && Spaced(history, window, limit)
    ensures Remembers(recent + [now], history + [now], window, limit, now)
    ensures Spaced(history + [now], window, limit)
  {
    var grown := history + [now];
    assert recent + [now] == grown[|grown| - (|recent| + 1)..];
  }

  lemma CheckKeepsMemory(times: seq<real>, history: seq<real>, window: real, limit: nat, before: real, now: real)
    requires 0.0 <= window && before <= now
    requires Remembers(times, history, window, limit, before) && Spaced(history, window, limit)
    ensures
      var (after, result) := CheckTimes(times, window, limit, now);
      var grown := if result == Allowed then history + [now] else history;
      Remembers(after, grown, window, limit, now) && Spaced(grown, window, limit)
    // The verdict: admitted exactly when the window ending now holds fewer than `limit` admissions.
    ensures
      CheckTimes(times, window, limit, now).1 == Allowed <==>
        IsInstant(now - window) && |InWindow(history, now - window, now)| < limit
  {
    if !IsInstant(now - window) {
      return;
    }
    TrimKeepsMemory(times, history, window, limit, before, now);
    DequeIsTheWindow(Trim(times, now - window), history, window, limit, now);
    if |Trim(times, now - window)| < limit {
      AdmissionKeepsMemory(Trim(times, now - window), history, window, limit, now);
    }
    hide Remembers, Spaced, Trim, InWindow;
  }

  /** A key's deque remembers that key's history, also when another key makes a request. */
  lemma RequestKeepsMemory(r: Requests, window: real, limit: nat, before: real, request: Request, key: string,
                           history: seq<real>)
    requires 0.0 <= window && before <= request.at
    requires Remembers(TimesOf(r, key), history, window, limit, before) && Spaced(history, window, limit)
    ensures
      var next := CheckWindow(r, window, limit, request.key, request.at).0;
      var grown := history + Grant(r, window, limit, request, key);
      Remembers(TimesOf(next, key), grown, window, limit, request.at) && Spaced(grown, window, limit)
  {
    if request.key == key {
      CheckKeepsMemory(TimesOf(r, key), history, window, limit, before, request.at);
    }
    hide CheckTimes;
    assert history + [] == history;
  }

  lemma {:induction false} RunKeepsMemory(r: Requests, window: real, limit: nat, from: real, run: seq<Request>,
                                          key: string, history: seq<real>)
    requires 0.0 <= window && Ordered(from, run)
    requires Remembers(TimesOf(r, key), history, window, limit, from) && Spaced(history, window, limit)
    ensures
      var grown := history + Admitted(r, window, limit, run, key);
      && Spaced(grown, window, limit) && from <= EndTime(from, run)
      && Remembers(TimesOf(RunWindow(r, window, limit, run), key), grown, window, limit, EndTime(from, run))
    decreases |run|
  {
    hide CheckWindow, TimesOf, Remembers, Spaced, Grant;
    if run == [] {
      assert history + [] == history;
    } else {
      var next := CheckWindow(r, window, limit, run[0].key, run[0].at).0;
      var granted := Grant(r, window, limit, run[0], key);
      RequestKeepsMemory(r, window, limit, from, run[0], key, history);
      RunKeepsMemory(next, window, limit, run[0].at, run[1..], key, history + granted);
      assert history + granted + Admitted(next, window, limit, run[1..], key)
          == history + Admitted(r, window, limit, run, key);
      assert EndTime(run[0].at, run[1..]) == EndTime(from, run);
    }
  }

  /** From an empty limiter on, every deque remembers and every history is spaced. */
  lemma FreshRunKeepsMemory(window: real, limit: nat, from: real, run: seq<Request>, key: string)
    requires 0.0 <= window && Ordered(from, run)
    ensures
      var history := Admitted(map[], window, limit, run, key);
      && Spaced(history, window, limit) && from <= EndTime(from, run)
      && Remembers(TimesOf(RunWindow(map[], window, limit, run), key), history, window, limit, EndTime(from, run))
  {
    var history := Admitted(map[], window, limit, run, key);
    RunKeepsMemory(map[], window, limit, from, run, key, []);
    hide Admitted, RunWindow, Spaced, Remembers;
    assert [] + history == history;
  }

  /**
   * The promise of a sliding window: over the whole history of any run, every closed window of the configured length
   * contains at most `limit` admissions of any one key.
   */
  lemma NoWindowOverflows(window: real, limit: nat, from: real, run: seq<Request>, key: string, lo: real)
    requires 0.0 <= window && Ordered(from, run)
    ensures
      var history := Admitted(map[], window, limit, run, key);
      |InWindow(history, lo, lo + window)| <= limit
  {
    hide Admitted, RunWindow, Spaced;
    var history := Admitted(map[], window, limit, run, key);
    FreshRunKeepsMemory(window, limit, from, run, key);
    WindowsOfSpacedAreSmall(history, window, limit, lo);
  }

  lemma WindowsOfSpacedAreSmall(history: seq<real>, window: real, limit: nat, lo: real)
    requires Sorted(history) && Spaced(history, window, limit)
    ensures |InWindow(history, lo, lo + window)| <= limit
  {
    var inWindow := InWindow(history, lo, lo + window);
    var first := FirstFrom(history, lo);
    assert first == |history| || lo <= history[first];
    SubsetSize(inWindow, Interval(first, first + limit));
  }

  /** The first admission at or after lo. */
  ghost function FirstFrom(history: seq<real>, lo: real): (first: nat)
    requires Sorted(history)
    ensures first <= |history| && (forall i :: 0 <= i < |history| ==> (lo <= history[i] <==> first <= i))
  {
    if history == [] || lo <= history[0] then 0 else 1 + FirstFrom(history[1..], lo)
  }

  /**
   * No request is refused without need: after any run, the next check of a key is admitted if and only if the window
   * that ends now starts at an instant and holds fewer than `limit` admissions of that key.
   */
  lemma AdmittedExactlyWhenThereIsRoom(window: real, limit: nat, from: real, run: seq<Request>, key: string, now: real)
    requires 0.0 <= window && Ordered(from, run) && EndTime(from, run) <= now
    ensures
      var history := Admitted(map[], window, limit, run, key);
      CheckWindow(RunWindow(map[], window, limit, run), window, limit, key, now).1 == Allowed
      <==> IsInstant(now - window) && |InWindow(history, now - window, now)| < limit
  {
    hide Admitted, RunWindow, Spaced;
    var history := Admitted(map[], window, limit, run, key);
    FreshRunKeepsMemory(window, limit, from, run, key);
    CheckKeepsMemory(TimesOf(RunWindow(map[], window, limit, run), key), history, window, limit, EndTime(from, run),
                     now);
  }

  /**
   * The retry hint, after any run: with no request of the key in between, a refused caller is admitted strictly after
   * the hinted time and still refused at it. A refusal names the limit, and nothing remaining. There is no hint, and
   * the check panics, exactly with a limit of zero or when the start of the window, or the end of the window that
   * begins with the oldest admission counted, is not an instant.
   */
  lemma RetryHintIsStrict(window: real, limit: nat, from: real, run: seq<Request>, key: string, now: real, later: real)
    requires 0.0 <= window && Ordered(from, run) && EndTime(from, run) <= now <= later && IsInstant(later)
    requires CheckWindow(RunWindow(map[], window, limit, run), window, limit, key, now).1 != Allowed
    ensures
      var history := Admitted(map[], window, limit, run, key);
      var (refused, answer) := CheckWindow(RunWindow(map[], window, limit, run), window, limit, key, now);
      if limit == 0 || !IsInstant(now - window) then answer == Panicked
      else
        && |history| >= limit
        && (answer == Panicked <==> !IsInstant(history[|history| - limit] + window))
        && (answer != Panicked ==>
              && answer.Limited? && answer == Limited(answer.retryAfter, limit, 0)
              && (CheckWindow(refused, window, limit, key, later).1 == Allowed <==> later > now + answer.retryAfter))
  {
    hide Admitted, RunWindow, Spaced;
    var history := Admitted(map[], window, limit, run, key);
    FreshRunKeepsMemory(window, limit, from, run, key);
    RetryOfTimes(TimesOf(RunWindow(map[], window, limit, run), key), history, window, limit, EndTime(from, run), now,
                 later);
    hide CheckTimes, Remembers;
  }

  lemma RetryOfTimes(times: seq<real>, history: seq<real>, window: real, limit: nat, before: real, now: real,
                     later: real)
    requires 0.0 <= window && before <= now <= later && Remembers(times, history, window, limit, before)
    requires CheckTimes(times, window, limit, now).1 != Allowed && IsInstant(later)
    ensures
      var (refused, answer) := CheckTimes(times, window, limit, now);
      if limit == 0 || !IsInstant(now - window) then answer == Panicked
      else
        && |history| >= limit
        && (answer == Panicked <==> !IsInstant(history[|history| - limit] + window))
        && (answer != Panicked ==>
              && answer.Limited? && answer == Limited(answer.retryAfter, limit, 0)
              && (CheckTimes(refused, window, limit, later).1 == Allowed <==> later > now + answer.retryAfter))
  {
    TimesAreSorted(times, history, window, limit, before);
    hide Remembers;
    var recent := Trim(times, now - window);
    TrimCuts(times, now - window);
    TrimsSomeExactly(recent, later - window);
    if limit > 0 && |recent| == limit {
      assert recent[0] == times[|times| - |recent|] == history[|history| - limit];
    }
  }

  /** A deque is the recent end of a sorted history, and no longer than the limit. */
  lemma TimesAreSorted(times: seq<real>, history: seq<real>, window: real, limit: nat, now: real)
    requires Remembers(times, history, window, limit, now)
    ensures Sorted(times) && |times| <= limit && forall i :: 0 <= i < |times| ==> times[i] <= now
    ensures |times| <= |history| && times == history[|history| - |times|..]
  {
  }

  /** Trimming a deque makes it shorter exactly when its front is too old. */
  lemma TrimsSomeExactly(times: seq<real>, start: real)
    requires Sorted(times)
    ensures |Trim(times, start)| <= |times|
    ensures |Trim(times, start)| < |times| <==> times != [] && times[0] < start
  {
    TrimCuts(times, start);
  }
}
