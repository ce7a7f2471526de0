/**
 * Which limits a check of src/rate_limit.rs works with, over runs that set limits for endpoints and name endpoints in
 * checks.
 */
module EndpointLimits {
  import opened Basics
  import opened TokenBuckets
  import opened RateLimiters

  function RunCalls(s: LimiterState, calls: seq<Call>): LimiterState
    decreases |calls|
  {
    if calls == [] then s else RunCalls(StepCall(s, calls[0]).0, calls[1..])
  }

  /** What the callers of `check` see during a run. */
  function CallAnswers(s: LimiterState, calls: seq<Call>): seq<CheckResult>
    decreases |calls|
  {
    if calls == [] then []
    else
      var (after, answer) := StepCall(s, calls[0]);
      (if answer.Some? then [answer.value] else []) + CallAnswers(after, calls[1..])
  }

  function NewLimiter(defaultConfig: Config): LimiterState {
    LimiterState(defaultConfig, map[], map[])
  }

  /** The limits that the last of these calls to set them for an endpoint has set. */
  function LastSet(calls: seq<Call>, endpoint: string): Option<Config> {
    if calls == [] then None
    else
      var last := calls[|calls| - 1];
      if last.SetLimitCall? && last.endpoint == endpoint then Some(last.config)
      else LastSet(calls[..|calls| - 1], endpoint)
  }

  /** The limits a check is to work with after these calls: the last ones set for its endpoint, or the default ones. */
  function LimitsAfter(defaultConfig: Config, calls: seq<Call>, endpoint: Option<string>): Config {
    if endpoint.Some? && LastSet(calls, endpoint.value).Some? then LastSet(calls, endpoint.value).value
    else defaultConfig
  }

  /** The calls of a run that follows `before`, with the limits each check is to work with in place of its endpoint. */
  function Resolved(defaultConfig: Config, before: seq<Call>, calls: seq<Call>): seq<LimiterOp>
    decreases |calls|
  {
    if calls == [] then []
    else
      (match calls[0]
       case SetLimitCall(_, _) => []
       case CheckCall(key, endpoint, at) => [Check(key, LimitsAfter(defaultConfig, before, endpoint), at)]
       case ResetCall(key, at) => [LimiterOp.Reset(key, at)]
       case RemoveCall(key, at) => [Remove(key, at)]
       case CleanupCall(maxAge, at) => [Cleanup(maxAge, at)])
      + Resolved(defaultConfig, before + [calls[0]], calls[1..])
  }

  /** The limiter remembers exactly what the calls before have set. */
  ghost predicate Remembers(s: LimiterState, defaultConfig: Config, before: seq<Call>) {
    && s.defaultConfig == defaultConfig
    && forall ep ::
         LastSet(before, ep) == if ep in s.endpointConfigs then Some(s.endpointConfigs[ep]) else None
  }

  lemma LastSetOfOneMore(before: seq<Call>, call: Call, endpoint: string)
    ensures
      LastSet(before + [call], endpoint) ==
        if call.SetLimitCall? && call.endpoint == endpoint then Some(call.config) else LastSet(before, endpoint)
  {
    assert (before + [call])[..|before + [call]| - 1] == before;
  }

  lemma StepRemembers(s: LimiterState, defaultConfig: Config, before: seq<Call>, call: Call)
    requires Remembers(s, defaultConfig, before)
    ensures Remembers(StepCall(s, call).0, defaultConfig, before + [call])
    ensures
      call.CheckCall? ==>
        StepCall(s, call).1 ==
          Some(CheckKey(s.contents, call.key, LimitsAfter(defaultConfig, before, call.named), call.at).1)
    ensures
      StepCall(s, call).0.contents ==
        match call
        case SetLimitCall(_, _) => s.contents
        case CheckCall(key, endpoint, at) =>
          CheckKey(s.contents, key, LimitsAfter(defaultConfig, before, endpoint), at).0
        case ResetCall(key, at) => ResetKey(s.contents, key, at)
        case RemoveCall(key, at) => RemoveKey(s.contents, key)
        case CleanupCall(maxAge, at) => Cleaned(s.contents, maxAge, at)
  {
    hide LastSet, CheckKey, ResetKey, RemoveKey, Cleaned;
    forall ep
      ensures
        LastSet(before + [call], ep) ==
          if call.SetLimitCall? && call.endpoint == ep then Some(call.config) else LastSet(before, ep)
    {
      LastSetOfOneMore(before, call, ep);
    }
  }

  lemma {:induction false} RunResolves(s: LimiterState, defaultConfig: Config, before: seq<Call>, calls: seq<Call>)
    requires Remembers(s, defaultConfig, before)
    ensures RunCalls(s, calls).contents == RunLimiter(s.contents, Resolved(defaultConfig, before, calls))
    ensures CallAnswers(s, calls) == Answers(s.contents, Resolved(defaultConfig, before, calls))
    ensures Remembers(RunCalls(s, calls), defaultConfig, before + calls)
    decreases |calls|
  {
    hide Remembers, CheckKey, ResetKey, RemoveKey, Cleaned, LimitsAfter;
    if calls == [] {
      assert before + [] == before;
    } else {
      var call, next := calls[0], StepCall(s, calls[0]).0;
      var rest := Resolved(defaultConfig, before + [call], calls[1..]);
      StepRemembers(s, defaultConfig, before, call);
      RunResolves(next, defaultConfig, before + [call], calls[1..]);
      assert before + [call] + calls[1..] == before + calls;
      if call.SetLimitCall? {
        assert [] + rest == rest;
      } else {
        var op := Resolved(defaultConfig, before, calls)[0];
        assert Resolved(defaultConfig, before, calls) == [op] + rest;
        assert ([op] + rest)[1..] == rest;
      }
    }
  }

  lemma NewRemembers(defaultConfig: Config)
    ensures Remembers(NewLimiter(defaultConfig), defaultConfig, [])
  {
  }

  /**
   * Every run of a limiter is a run in which each check carries the limits last set for the endpoint it names, or the
   * default ones when none were set or no endpoint is named. What is proved about such runs so holds of the limiter.
   */
  lemma ChecksUseTheLastLimits(defaultConfig: Config, calls: seq<Call>)
    ensures
      var ops := Resolved(defaultConfig, [], calls);
      && RunCalls(NewLimiter(defaultConfig), calls).contents == RunLimiter(map[], ops)
      && CallAnswers(NewLimiter(defaultConfig), calls) == Answers(map[], ops)
  {
    NewRemembers(defaultConfig);
    RunResolves(NewLimiter(defaultConfig), defaultConfig, [], calls);
  }

  /** n checks of one key for one endpoint at one instant. */
  function CallBurst(n: nat, key: string, endpoint: Option<string>, at: real): seq<Call> {
    seq(n, _ => CheckCall(key, endpoint, at))
  }

  lemma {:induction false} BurstResolves(defaultConfig: Config, before: seq<Call>, n: nat, key: string,
                                         endpoint: Option<string>, at: real)
    ensures
      Resolved(defaultConfig, before, CallBurst(n, key, endpoint, at)) ==
        Burst(n, key, LimitsAfter(defaultConfig, before, endpoint), at)
    decreases n
  {
    if n > 0 {
      var call, fewer := CheckCall(key, endpoint, at), CallBurst(n - 1, key, endpoint, at);
      var cfg := LimitsAfter(defaultConfig, before, endpoint);
      assert CallBurst(n, key, endpoint, at)[0] == call && CallBurst(n, key, endpoint, at)[1..] == fewer;
      BurstResolves(defaultConfig, before + [call], n - 1, key, endpoint, at);
      if endpoint.Some? {
        LastSetOfOneMore(before, call, endpoint.value);
      }
      hide LastSet;
      assert [Check(key, cfg, at)] + Burst(n - 1, key, cfg, at) == Burst(n, key, cfg, at);
    }
  }

  /**
   * The first checks of a key without a bucket: after any calls, a burst for an endpoint is admitted in full if and
   * only if it is no larger than the capacity last set for that endpoint (or the default one), and the bucket has these
   * limits from then on.
   */
  lemma FirstChecksUseTheLastLimits(defaultConfig: Config, calls: seq<Call>, key: string, endpoint: Option<string>,
                                    at: real, n: nat)
    requires key !in RunCalls(NewLimiter(defaultConfig), calls).contents
    requires 0.0 <= LimitsAfter(defaultConfig, calls, endpoint).refillRate
    ensures
      var s := RunCalls(NewLimiter(defaultConfig), calls);
      var limits := LimitsAfter(defaultConfig, calls, endpoint);
      && (AllAllowed(CallAnswers(s, CallBurst(n, key, endpoint, at))) <==> n <= limits.maxTokens)
      && (var after := StepCall(s, CheckCall(key, endpoint, at)).0.contents;
          key in after && LimitsOf(after[key]) == limits)
  {
    var s := RunCalls(NewLimiter(defaultConfig), calls);
    var limits := LimitsAfter(defaultConfig, calls, endpoint);
    NewRemembers(defaultConfig);
    RunResolves(NewLimiter(defaultConfig), defaultConfig, [], calls);
    assert [] + calls == calls;
    RunResolves(s, defaultConfig, calls, CallBurst(n, key, endpoint, at));
    BurstResolves(defaultConfig, calls, n, key, endpoint, at);
    StepRemembers(s, defaultConfig, calls, CheckCall(key, endpoint, at));
    var b := NewBucket(limits.maxTokens, limits.refillRate, at);
    FlowZero(limits.refillRate);
    hide Flow, Remembers, RunCalls, CallAnswers, CallBurst, Resolved, LimitsAfter, BurstPasses, Answers, Burst;
    assert Refill(b, at) == b;
    BurstPassesExactly(s.contents, n, key, limits, at);
    assert BurstPasses(s.contents, n, key, limits, at) <==> AllAllowed(Answers(s.contents, Burst(n, key, limits, at)));
  }

  /** Whatever bucket it comes from, a refusal carries the capacity last set for the endpoint that was named. */
  lemma RefusalsCarryTheLastLimit(defaultConfig: Config, calls: seq<Call>, key: string, endpoint: Option<string>,
                                  at: real)
    ensures
      var answer := StepCall(RunCalls(NewLimiter(defaultConfig), calls), CheckCall(key, endpoint, at)).1;
      && answer.Some?
      && (answer.value.Limited? ==>
            answer.value.limit == LimitsAfter(defaultConfig, calls, endpoint).maxTokens && answer.value.remaining == 0)
  {
    var s := RunCalls(NewLimiter(defaultConfig), calls);
    NewRemembers(defaultConfig);
    RunResolves(NewLimiter(defaultConfig), defaultConfig, [], calls);
    assert [] + calls == calls;
    StepRemembers(s, defaultConfig, calls, CheckCall(key, endpoint, at));
    var limits := LimitsAfter(defaultConfig, calls, endpoint);
    RefusedIsEmptyOf(BucketFor(s.contents, key, limits, at), at);
    hide Remembers, RunCalls, LimitsAfter, Refill;
  }

  lemma RefusedIsEmptyOf(b: Bucket, now: real)
    ensures !Consume(b, 1, now).1 ==> WholeTokens(Consume(b, 1, now).0) == 0
  {
    if !Consume(b, 1, now).1 {
      RefusedIsEmpty(b, now);
    }
  }
}
