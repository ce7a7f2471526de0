/** The per-key rate limiter of src/rate_limit.rs and its garbage collection. */
module RateLimiters {
  import opened Basics
  import opened TokenBuckets

  /** The part of `RateLimitConfig` a token bucket uses. */
  datatype Config = Config(maxTokens: nat, refillRate: real)

  /** `Panicked`: the retry hint is not a valid `Duration` (see `TimeUntilToken`). */
  datatype CheckResult = Allowed | Limited(retryAfter: real, limit: nat, remaining: nat) | Panicked

  /** The limiter's memory, as a value. */
  type Contents = map<string, Bucket>

  function Refusal(b: Bucket, cfg: Config): CheckResult {
    match TimeUntilToken(b)
    case Some(wait) => Limited(wait, cfg.maxTokens, WholeTokens(b))
    case None => Panicked
  }

  /** One check against one bucket. */
  function CheckBucket(b: Bucket, cfg: Config, now: real): (Bucket, CheckResult) {
    var (after, granted) := Consume(b, 1, now);
    (after, if granted then Allowed else Refusal(after, cfg))
  }

  /** The bucket a check works on: the stored one, or a new full one. */
  function BucketFor(c: Contents, key: string, cfg: Config, now: real): Bucket {
    if key in c then c[key] else NewBucket(cfg.maxTokens, cfg.refillRate, now)
  }

  function CheckKey(c: Contents, key: string, cfg: Config, now: real): (Contents, CheckResult) {
    var (after, result) := CheckBucket(BucketFor(c, key, cfg, now), cfg, now);
    (c[key := after], result)
  }

  function ResetKey(c: Contents, key: string, now: real): Contents {
    if key in c then c[key := NewBucket(c[key].maxTokens, c[key].refillRate, now)] else c
  }

  function RemoveKey(c: Contents, key: string): Contents {
    map k | k in c && k != key :: c[k]
  }

  function Cleaned(c: Contents, maxAge: real, now: real): Contents {
    map k | k in c && Elapsed(c[k].lastRefill, now) < maxAge :: c[k]
  }

  /** The limiter's whole memory, as a value. */
  datatype LimiterState = LimiterState(defaultConfig: Config, endpointConfigs: map<string, Config>, contents: Contents)

  datatype Call =
    | SetLimitCall(endpoint: string, config: Config)
    | CheckCall(key: string, named: Option<string>, at: real)
    | ResetCall(key: string, at: real)
    | RemoveCall(key: string, at: real)
    | CleanupCall(maxAge: real, at: real)

  /** The configuration for a check that names an endpoint, or none. */
  function ConfigNamed(s: LimiterState, endpoint: Option<string>): Config {
    match endpoint
    case Some(ep) => if ep in s.endpointConfigs then s.endpointConfigs[ep] else s.defaultConfig
    case None => s.defaultConfig
  }

  /** One call of the limiter, and the answer if it is a check. */
  function StepCall(s: LimiterState, call: Call): (LimiterState, Option<CheckResult>) {
    match call
    case SetLimitCall(endpoint, config) => (s.(endpointConfigs := s.endpointConfigs[endpoint := config]), None)
    case CheckCall(key, endpoint, at) =>
      var (after, answer) := CheckKey(s.contents, key, ConfigNamed(s, endpoint), at);
      (s.(contents := after), Some(answer))
    case ResetCall(key, at) => (s.(contents := ResetKey(s.contents, key, at)), None)
    case RemoveCall(key, at) => (s.(contents := RemoveKey(s.contents, key)), None)
    case CleanupCall(maxAge, at) => (s.(contents := Cleaned(s.contents, maxAge, at)), None)
  }

  class RateLimiter {
    const defaultConfig: Config
    var buckets: map<string, TokenBucket>
    var endpointConfigs: map<string, Config>

    /** Every key owns its bucket. */
    ghost predicate Owned()
      reads this
    {
      forall a, b :: a in buckets && b in buckets && a != b ==> buckets[a] != buckets[b]
    }

    ghost function Value(): Contents
      reads this, buckets.Values
    {
      map k | k in buckets :: buckets[k].Value()
    }

    ghost function State(): LimiterState
      reads this, buckets.Values
    {
      LimiterState(defaultConfig, endpointConfigs, Value())
    }

    constructor (defaultConfig: Config)
      ensures Owned() && Value() == map[] && this.defaultConfig == defaultConfig && endpointConfigs == map[]
      ensures buckets == map[]
    {
      this.defaultConfig := defaultConfig;
      this.buckets := map[];
      this.endpointConfigs := map[];
    }

    method SetEndpointLimit(endpoint: string, config: Config)
      modifies this`endpointConfigs
      ensures State() == StepCall(old(State()), SetLimitCall(endpoint, config)).0
    {
      endpointConfigs := endpointConfigs[endpoint := config];
    }

    /** `entry(..).or_insert_with(..)`: the bucket of a key, made if need be. */
    method BucketOf(key: string, config: Config, now: real) returns (bucket: TokenBucket)
      requires Owned()
      modifies this`buckets
      ensures Owned() && key in buckets && buckets[key] == bucket
      ensures fresh(buckets.Values - old(buckets.Values))
      ensures Value() == old(Value())[key := BucketFor(old(Value()), key, config, now)]
    {
      if key !in buckets {
        var created := new TokenBucket(config.maxTokens, config.refillRate, now);
        buckets := buckets[key := created];
      }
      bucket := buckets[key];
    }

    method Check(key: string, endpoint: Option<string>, now: real) returns (result: CheckResult)
      requires Owned()
      modifies this`buckets, buckets.Values
      ensures Owned() && fresh(buckets.Values - old(buckets.Values))
      ensures (State(), Some(result)) == StepCall(old(State()), CheckCall(key, endpoint, now))
    {
      hide Consume, TimeUntilToken, WholeTokens, BucketFor;
      var config := defaultConfig;
      if endpoint.Some? && endpoint.value in endpointConfigs {
        config := endpointConfigs[endpoint.value];
      }
      var bucket := BucketOf(key, config, now);
      assert bucket in buckets.Values;
      ghost var before := Value();
      assert before[key] == bucket.Value();
      var granted := bucket.TryConsume(1, now);
      assert Value() == before[key := bucket.Value()];
      assert Value() == old(Value())[key := bucket.Value()];
      if granted {
        result := Allowed;
      } else {
        var hint := TimeUntilToken(bucket.Value());
        if hint.Some? {
          result := Limited(hint.value, config.maxTokens, WholeTokens(bucket.Value()));
        } else {
          result := Panicked;
        }
      }
    }

    method Reset(key: string, now: real)
      requires Owned()
      modifies buckets.Values
      ensures State() == StepCall(old(State()), ResetCall(key, now)).0
    {
      if key in buckets {
        buckets[key].Reset(now);
      }
    }

    method Remove(key: string, ghost now: real)
      requires Owned()
      modifies this`buckets
      ensures Owned() && buckets.Values <= old(buckets.Values)
      ensures State() == StepCall(old(State()), RemoveCall(key, now)).0
    {
      buckets := map k | k in buckets && k != key :: buckets[k];
    }

    method Cleanup(maxAge: real, now: real)
      requires Owned()
      modifies this`buckets
      ensures Owned() && buckets.Values <= old(buckets.Values)
      ensures State() == StepCall(old(State()), CleanupCall(maxAge, now)).0
    {
      buckets := map k | k in buckets && Elapsed(buckets[k].lastRefill, now) < maxAge :: buckets[k];
    }
  }

  // ---------- runs ----------

  datatype LimiterOp =
    | Check(key: string, config: Config, at: real)
    | Reset(key: string, at: real)
    | Remove(key: string, at: real)
    | Cleanup(maxAge: real, at: real)

  /** One operation of a run. Every check comes with the configuration its endpoint has at the time. */
  function StepLimiter(c: Contents, op: LimiterOp): Contents {
    match op
    case Check(key, cfg, at) => CheckKey(c, key, cfg, at).0
    case Reset(key, at) => ResetKey(c, key, at)
    case Remove(key, at) => RemoveKey(c, key)
    case Cleanup(maxAge, at) => Cleaned(c, maxAge, at)
  }

  function RunLimiter(c: Contents, ops: seq<LimiterOp>): Contents
    decreases |ops|
  {
    if ops == [] then c else RunLimiter(StepLimiter(c, ops[0]), ops[1..])
  }

  /** What the callers of `check` see during a run. */
  function Answers(c: Contents, ops: seq<LimiterOp>): seq<CheckResult>
    decreases |ops|
  {
    if ops == [] then []
    else (if ops[0].Check? then [CheckKey(c, ops[0].key, ops[0].config, ops[0].at).1] else [])
         + Answers(StepLimiter(c, ops[0]), ops[1..])
  }

  function WithoutCleanup(ops: seq<LimiterOp>): seq<LimiterOp> {
    if ops == [] then []
    else (if ops[0].Cleanup? then [] else [ops[0]]) + WithoutCleanup(ops[1..])
  }

  predicate InOrder(from: real, ops: seq<LimiterOp>)
    decreases |ops|
  {
    ops == [] || (from <= ops[0].at && InOrder(ops[0].at, ops[1..]))
  }

  /** Every cleanup of a run uses the same age. */
  predicate CleansAt(maxAge: real, ops: seq<LimiterOp>) {
    forall op <- ops :: op.Cleanup? ==> op.maxAge == maxAge
  }

  /** Every check of a run uses the same configuration. */
  predicate AllUse(cfg: Config, ops: seq<LimiterOp>) {
    forall op <- ops :: op.Check? ==> op.config == cfg
  }

  // ---------- cleanup is invisible when buckets that old are full ----------

  /** A bucket an idle key may have lost without anybody noticing: it has the right shape and is full by now. */
  predicate FullBy(b: Bucket, cfg: Config, now: real) {
    b.maxTokens == cfg.maxTokens && b.refillRate == cfg.refillRate && b.lastRefill <= now
    && Refill(b, now).tokens == cfg.maxTokens as real
  }

  /** The bucket of a run with cleanups (if any is left) next to the bucket of the same run without. */
  ghost predicate Matches(lean: Contents, full: Contents, cfg: Config, now: real) {
    && (forall k :: k in lean ==> k in full && lean[k] == full[k])
    && (forall k :: k in full ==>
          && Valid(full[k]) && full[k].maxTokens == cfg.maxTokens && full[k].refillRate == cfg.refillRate
          && full[k].lastRefill <= now)
    && (forall k :: k in full && k !in lean ==> FullBy(full[k], cfg, now))
  }

  /** Full stays full. */
  lemma StaysFull(b: Bucket, cfg: Config, now: real, later: real)
    requires Valid(b) && FullBy(b, cfg, now) && now <= later
    ensures FullBy(b, cfg, later)
    ensures Refill(b, later) == Refill(NewBucket(cfg.maxTokens, cfg.refillRate, later), later)
  {
    RefillComposes(b, now, later);
    RefillKeepsValid(Refill(b, now), later);
    RefillKeepsValid(b, now);
    RefillKeepsValid(NewBucket(cfg.maxTokens, cfg.refillRate, later), later);
    hide Flow;
  }

  /** A bucket idle for maxAge is full, when maxAge is long enough to fill an empty bucket. */
  lemma IdleBucketIsFull(b: Bucket, cfg: Config, maxAge: real, now: real)
    requires Valid(b) && b.maxTokens == cfg.maxTokens && b.refillRate == cfg.refillRate
    requires b.lastRefill <= now && Elapsed(b.lastRefill, now) >= maxAge
    requires Flow(cfg.refillRate, maxAge) >= cfg.maxTokens as real
    ensures FullBy(b, cfg, now)
  {
    var elapsed := Elapsed(b.lastRefill, now);
    FlowAdds(b.refillRate, maxAge, elapsed - maxAge);
    assert maxAge + (elapsed - maxAge) == elapsed;
    FlowNonNegative(b.refillRate, elapsed - maxAge);
    hide Flow;
  }

  /** Time alone does not break a match. */
  lemma MatchLasts(lean: Contents, full: Contents, cfg: Config, now: real, later: real)
    requires Matches(lean, full, cfg, now) && now <= later
    ensures Matches(lean, full, cfg, later)
  {
    forall k | k in full && k !in lean ensures FullBy(full[k], cfg, later) {
      StaysFull(full[k], cfg, now, later);
    }
    hide FullBy, Valid, Flow;
  }

  lemma CheckKeepsMatch(lean: Contents, full: Contents, cfg: Config, key: string, at: real)
    requires Matches(lean, full, cfg, at) && 0.0 <= cfg.refillRate
    ensures CheckKey(lean, key, cfg, at).1 == CheckKey(full, key, cfg, at).1
    ensures Matches(CheckKey(lean, key, cfg, at).0, CheckKey(full, key, cfg, at).0, cfg, at)
  {
    var b, idle := BucketFor(full, key, cfg, at), BucketFor(lean, key, cfg, at);
    StepKeepsValid(b, Take(1, at));
    if key in full && key !in lean {
      StaysFull(full[key], cfg, at, at);
    }
    assert Refill(b, at) == Refill(idle, at);
    assert CheckBucket(b, cfg, at) == CheckBucket(idle, cfg, at);
    hide Refill, Valid, Flow, FullBy;
  }

  lemma ResetKeepsMatch(lean: Contents, full: Contents, cfg: Config, key: string, at: real)
    requires Matches(lean, full, cfg, at) && 0.0 <= cfg.refillRate
    ensures Matches(ResetKey(lean, key, at), ResetKey(full, key, at), cfg, at)
  {
    var filled := NewBucket(cfg.maxTokens, cfg.refillRate, at);
    RefillKeepsValid(filled, at);
    assert Valid(filled) && FullBy(filled, cfg, at);
    hide Refill, Valid, Flow, FullBy;
  }

  /** A cleanup on one side only goes unnoticed. */
  lemma CleanupKeepsMatch(lean: Contents, full: Contents, cfg: Config, maxAge: real, at: real)
    requires Matches(lean, full, cfg, at) && Flow(cfg.refillRate, maxAge) >= cfg.maxTokens as real
    ensures Matches(Cleaned(lean, maxAge, at), full, cfg, at)
  {
    forall k | k in lean && k !in Cleaned(lean, maxAge, at) ensures FullBy(full[k], cfg, at) {
      IdleBucketIsFull(full[k], cfg, maxAge, at);
    }
    hide FullBy, Valid, Flow, Elapsed;
  }

  /** Matching memories give the same answers and stay matched; a cleanup may even happen on one side only. */
  lemma StepKeepsMatch(lean: Contents, full: Contents, cfg: Config, maxAge: real, now: real, op: LimiterOp)
    requires Matches(lean, full, cfg, now) && 0.0 <= cfg.refillRate && now <= op.at
    requires op.Check? ==> op.config == cfg
    requires op.Cleanup? ==> op.maxAge == maxAge && Flow(cfg.refillRate, maxAge) >= cfg.maxTokens as real
    ensures op.Check? ==> CheckKey(lean, op.key, cfg, op.at).1 == CheckKey(full, op.key, cfg, op.at).1
    ensures Matches(StepLimiter(lean, op), if op.Cleanup? then full else StepLimiter(full, op), cfg, op.at)
  {
    MatchLasts(lean, full, cfg, now, op.at);
    hide FullBy, Valid, Flow, CheckKey, ResetKey, Cleaned;
    match op
    case Check(key, _, at) => CheckKeepsMatch(lean, full, cfg, key, at);
    case Reset(key, at) => ResetKeepsMatch(lean, full, cfg, key, at);
    case Remove(key, at) =>
    case Cleanup(age, at) => CleanupKeepsMatch(lean, full, cfg, age, at);
  }

  lemma {:induction false} MatchedRunsAnswerAlike(lean: Contents, full: Contents, cfg: Config, maxAge: real, now: real,
                                                  ops: seq<LimiterOp>)
    requires Matches(lean, full, cfg, now) && 0.0 <= cfg.refillRate && InOrder(now, ops)
    requires AllUse(cfg, ops) && CleansAt(maxAge, ops)
    requires Flow(cfg.refillRate, maxAge) >= cfg.maxTokens as real
    ensures Answers(lean, ops) == Answers(full, WithoutCleanup(ops))
    decreases |ops|
  {
    hide StepLimiter, CheckKey, Matches, Flow;
    if ops != [] {
      var op, rest := ops[0], ops[1..];
      StepKeepsMatch(lean, full, cfg, maxAge, now, op);
      MatchedRunsAnswerAlike(StepLimiter(lean, op), if op.Cleanup? then full else StepLimiter(full, op),
                             cfg, maxAge, op.at, rest);
      if op.Cleanup? {
        assert WithoutCleanup(ops) == WithoutCleanup(rest);
      } else {
        assert WithoutCleanup(ops)[0] == op && WithoutCleanup(ops)[1..] == WithoutCleanup(rest);
      }
    }
  }

  // ---------- and only then ----------

  /** n checks of one key at one instant. */
  function Burst(n: nat, key: string, cfg: Config, at: real): seq<LimiterOp> {
    seq(n, _ => Check(key, cfg, at))
  }

  lemma {:induction false} AnswersConcat(c: Contents, xs: seq<LimiterOp>, ys: seq<LimiterOp>)
    ensures Answers(c, xs + ys) == Answers(c, xs) + Answers(RunLimiter(c, xs), ys)
    ensures RunLimiter(c, xs + ys) == RunLimiter(RunLimiter(c, xs), ys)
    decreases |xs|
  {
    hide StepLimiter, CheckKey;
    if xs == [] {
      assert xs + ys == ys;
    } else {
      var op, next := xs[0], StepLimiter(c, xs[0]);
      var answer := if op.Check? then [CheckKey(c, op.key, op.config, op.at).1] else [];
      AnswersConcat(next, xs[1..], ys);
      assert (xs + ys)[0] == op && (xs + ys)[1..] == xs[1..] + ys;
      assert Answers(c, xs + ys) == answer + (Answers(next, xs[1..]) + Answers(RunLimiter(next, xs[1..]), ys));
      assert Answers(c, xs) == answer + Answers(next, xs[1..]);
    }
  }

  /** A burst is admitted in full exactly when the refilled bucket holds that many tokens, and takes them all out. */
  lemma {:induction false} BurstAdmitted(c: Contents, cfg: Config, n: nat, key: string, at: real)
    requires Valid(Refill(BucketFor(c, key, cfg, at), at))
    ensures
      var b := Refill(BucketFor(c, key, cfg, at), at);
      && ((forall r <- Answers(c, Burst(n, key, cfg, at)) :: r == Allowed) <==> b.tokens >= n as real)
      && (0 < n && b.tokens >= n as real ==>
            RunLimiter(c, Burst(n, key, cfg, at)) == c[key := b.(tokens := b.tokens - n as real)])
    decreases n
  {
    if n > 0 {
      var ops := Burst(n, key, cfg, at);
      assert ops[0] == Check(key, cfg, at) && ops[1..] == Burst(n - 1, key, cfg, at);
      var next := StepLimiter(c, ops[0]);
      var answer := CheckKey(c, key, cfg, at).1;
      FlowZero(next[key].refillRate);
      hide Flow;
      assert Refill(next[key], at) == next[key];
      assert Answers(c, ops) == [answer] + Answers(next, ops[1..]);
      BurstAdmitted(next, cfg, n - 1, key, at);
      assert answer in Answers(c, ops);
      assert forall r <- Answers(next, ops[1..]) :: r in Answers(c, ops);
    }
  }

  lemma WithoutOneMore(op: LimiterOp, rest: seq<LimiterOp>)
    ensures WithoutCleanup([op] + rest) == (if op.Cleanup? then [] else [op]) + WithoutCleanup(rest)
  {
    assert ([op] + rest)[1..] == rest;
  }

  lemma {:induction false} BurstIsCheckOnly(n: nat, key: string, cfg: Config, at: real, rest: seq<LimiterOp>)
    ensures WithoutCleanup(Burst(n, key, cfg, at) + rest) == Burst(n, key, cfg, at) + WithoutCleanup(rest)
    ensures InOrder(at, rest) ==> InOrder(at, Burst(n, key, cfg, at) + rest)
    decreases n
  {
    if n == 0 {
      assert Burst(n, key, cfg, at) + rest == rest;
    } else {
      var check, fewer := Check(key, cfg, at), Burst(n - 1, key, cfg, at);
      BurstIsCheckOnly(n - 1, key, cfg, at, rest);
      WithoutOneMore(check, fewer + rest);
      InOrderOneMore(check, fewer + rest);
      assert Burst(n, key, cfg, at) == [check] + fewer;
      assert Burst(n, key, cfg, at) + rest == [check] + (fewer + rest);
      hide WithoutCleanup, InOrder, Burst;
    }
  }

  lemma InOrderOneMore(op: LimiterOp, rest: seq<LimiterOp>)
    ensures InOrder(op.at, rest) ==> InOrder(op.at, [op] + rest)
  {
    assert ([op] + rest)[1..] == rest;
  }

  /** Every check of a run uses one of these configurations. */
  predicate Uses(configs: set<Config>, ops: seq<LimiterOp>) {
    forall op <- ops :: op.Check? ==> op.config in configs
  }

  /** With these configurations nobody can tell a limiter that cleans up at this age from one that never does. */
  ghost predicate CleanupIsInvisible(configs: set<Config>, maxAge: real) {
    forall start: real, ops: seq<LimiterOp> :: InOrder(start, ops) && Uses(configs, ops) && CleansAt(maxAge, ops) ==>
      Answers(map[], ops) == Answers(map[], WithoutCleanup(ops))
  }

  /** Spend the whole capacity, wait for maxAge, clean up, and ask for the whole capacity again. */
  function Probe(cfg: Config, maxAge: real): seq<LimiterOp> {
    Burst(cfg.maxTokens, "k", cfg, 0.0) + ([Cleanup(maxAge, maxAge)] + Burst(cfg.maxTokens, "k", cfg, maxAge))
  }

  /** The memory after the first half of the probe: the one bucket is empty. */
  function Spent(cfg: Config): Contents {
    map["k" := NewBucket(cfg.maxTokens, cfg.refillRate, 0.0).(tokens := 0.0)]
  }

  lemma FirstHalfSpendsEverything(cfg: Config)
    requires 0.0 <= cfg.refillRate && 0 < cfg.maxTokens
    ensures forall r <- Answers(map[], Burst(cfg.maxTokens, "k", cfg, 0.0)) :: r == Allowed
    ensures RunLimiter(map[], Burst(cfg.maxTokens, "k", cfg, 0.0)) == Spent(cfg)
  {
    FlowZero(cfg.refillRate);
    hide Flow;
    var full := NewBucket(cfg.maxTokens, cfg.refillRate, 0.0);
    assert Refill(full, 0.0) == full;
    BurstAdmitted(map[], cfg, cfg.maxTokens, "k", 0.0);
    hide RunLimiter, Answers;
  }

  /** With cleanup the spent bucket is gone, so the second half finds a full one. */
  lemma SecondHalfWithCleanup(cfg: Config, maxAge: real)
    requires 0.0 <= cfg.refillRate && 0.0 <= maxAge
    ensures
      forall r <- Answers(Spent(cfg), [Cleanup(maxAge, maxAge)] + Burst(cfg.maxTokens, "k", cfg, maxAge)) ::
        r == Allowed
  {
    var again := Burst(cfg.maxTokens, "k", cfg, maxAge);
    var ops := [Cleanup(maxAge, maxAge)] + again;
    assert ops[1..] == again;
    assert Cleaned(Spent(cfg), maxAge, maxAge) == map[];
    assert Answers(Spent(cfg), ops) == Answers(map[], again);
    FlowZero(cfg.refillRate);
    hide Flow;
    var full := NewBucket(cfg.maxTokens, cfg.refillRate, maxAge);
    assert Refill(full, maxAge) == full;
    BurstAdmitted(map[], cfg, cfg.maxTokens, "k", maxAge);
  }

  /** Without it the second half finds only what has flowed in since. */
  lemma SecondHalfWithoutCleanup(cfg: Config, maxAge: real)
    requires 0.0 <= cfg.refillRate && 0.0 <= maxAge && Flow(cfg.refillRate, maxAge) < cfg.maxTokens as real
    ensures exists r <- Answers(Spent(cfg), Burst(cfg.maxTokens, "k", cfg, maxAge)) :: r != Allowed
  {
    FlowNonNegative(cfg.refillRate, maxAge);
    FlowZero(cfg.refillRate);
    hide Flow;
    BurstAdmitted(Spent(cfg), cfg, cfg.maxTokens, "k", maxAge);
    hide Answers, Burst;
  }

  lemma ProbeShape(cfg: Config, maxAge: real)
    requires 0.0 <= maxAge
    ensures InOrder(0.0, Probe(cfg, maxAge)) && AllUse(cfg, Probe(cfg, maxAge)) && CleansAt(maxAge, Probe(cfg, maxAge))
    ensures
      WithoutCleanup(Probe(cfg, maxAge)) == Burst(cfg.maxTokens, "k", cfg, 0.0) + Burst(cfg.maxTokens, "k", cfg, maxAge)
  {
    var again := Burst(cfg.maxTokens, "k", cfg, maxAge);
    var rest := [Cleanup(maxAge, maxAge)] + again;
    BurstIsCheckOnly(cfg.maxTokens, "k", cfg, maxAge, []);
    assert again + [] == again;
    assert rest[1..] == again && WithoutCleanup(rest) == again;
    BurstIsCheckOnly(cfg.maxTokens, "k", cfg, 0.0, rest);
  }

  /** Below that age the probe is admitted in full with cleanup, and not without. */
  lemma ProbeTellsThemApart(cfg: Config, maxAge: real)
    requires 0.0 <= cfg.refillRate && 0.0 <= maxAge && Flow(cfg.refillRate, maxAge) < cfg.maxTokens as real
    ensures
      var ops := Probe(cfg, maxAge);
      && InOrder(0.0, ops) && AllUse(cfg, ops) && CleansAt(maxAge, ops)
      && (forall r <- Answers(map[], ops) :: r == Allowed)
      && (exists r <- Answers(map[], WithoutCleanup(ops)) :: r != Allowed)
  {
    FlowNonNegative(cfg.refillRate, maxAge);
    ProbeShape(cfg, maxAge);
    FirstHalfSpendsEverything(cfg);
    SecondHalfWithCleanup(cfg, maxAge);
    SecondHalfWithoutCleanup(cfg, maxAge);
    var first, again := Burst(cfg.maxTokens, "k", cfg, 0.0), Burst(cfg.maxTokens, "k", cfg, maxAge);
    AnswersConcat(map[], first, [Cleanup(maxAge, maxAge)] + again);
    AnswersConcat(map[], first, again);
    hide Flow, Answers, Burst, RunLimiter, Spent, InOrder, CleansAt, WithoutCleanup;
    var r :| r in Answers(Spent(cfg), again) && r != Allowed;
    assert r in Answers(map[], WithoutCleanup(Probe(cfg, maxAge)));
  }

  /** With a single configuration: exactly when an empty bucket fills up within the age at which it is collected. */
  lemma CleanupIsInvisibleForOne(cfg: Config, maxAge: real)
    requires 0.0 <= cfg.refillRate && 0.0 <= maxAge
    ensures CleanupIsInvisible({cfg}, maxAge) <==> maxAge * cfg.refillRate >= cfg.maxTokens as real
  {
    assert Flow(cfg.refillRate, maxAge) == maxAge * cfg.refillRate;
    hide Flow;
    if Flow(cfg.refillRate, maxAge) >= cfg.maxTokens as real {
      forall start: real, ops: seq<LimiterOp> | InOrder(start, ops) && Uses({cfg}, ops) && CleansAt(maxAge, ops)
        ensures Answers(map[], ops) == Answers(map[], WithoutCleanup(ops))
      {
        assert AllUse(cfg, ops);
        MatchedRunsAnswerAlike(map[], map[], cfg, maxAge, start, ops);
      }
    } else {
      ProbeTellsThemApart(cfg, maxAge);
      assert InOrder(0.0, Probe(cfg, maxAge)) && Uses({cfg}, Probe(cfg, maxAge));
    }
  }

  // ---------- what callers are told ----------

  /** Operations that can touch the bucket of a key. */
  predicate Concerns(op: LimiterOp, key: string) {
    op.Cleanup? || op.key == key
  }

  function Concerning(ops: seq<LimiterOp>, key: string): seq<LimiterOp> {
    if ops == [] then []
    else (if Concerns(ops[0], key) then [ops[0]] else []) + Concerning(ops[1..], key)
  }

  /** What the callers with one key see during a run. */
  function AnswersTo(c: Contents, ops: seq<LimiterOp>, key: string): seq<CheckResult>
    decreases |ops|
  {
    if ops == [] then []
    else (if ops[0].Check? && ops[0].key == key then [CheckKey(c, key, ops[0].config, ops[0].at).1] else [])
         + AnswersTo(StepLimiter(c, ops[0]), ops[1..], key)
  }

  predicate Agree(c: Contents, d: Contents, key: string) {
    if key in c then key in d && c[key] == d[key] else key !in d
  }

  lemma StepAgrees(c: Contents, d: Contents, op: LimiterOp, key: string)
    requires Agree(c, d, key)
    ensures Agree(StepLimiter(c, op), if Concerns(op, key) then StepLimiter(d, op) else d, key)
    ensures op.Check? ==> CheckKey(c, key, op.config, op.at).1 == CheckKey(d, key, op.config, op.at).1
  {
    hide CheckBucket, NewBucket, Elapsed;
  }

  /** No key is affected by another: leaving out the operations on other keys changes nothing for this one. */
  lemma {:induction false} KeysAreIsolated(c: Contents, d: Contents, ops: seq<LimiterOp>, key: string)
    requires Agree(c, d, key)
    ensures AnswersTo(c, ops, key) == AnswersTo(d, Concerning(ops, key), key)
    ensures Agree(RunLimiter(c, ops), RunLimiter(d, Concerning(ops, key)), key)
    decreases |ops|
  {
    if ops != [] {
      var op, rest := ops[0], Concerning(ops[1..], key);
      StepAgrees(c, d, op, key);
      hide StepLimiter, CheckKey, Agree;
      KeysAreIsolated(StepLimiter(c, op), if Concerns(op, key) then StepLimiter(d, op) else d, ops[1..], key);
      if Concerns(op, key) {
        assert ([op] + rest)[1..] == rest;
      } else {
        assert [] + rest == rest;
      }
    }
  }

  /** All buckets are valid and not refilled in the future. */
  ghost predicate Shaped(c: Contents, now: real) {
    forall k :: k in c ==> Valid(c[k]) && c[k].lastRefill <= now
  }

  /** No configuration in use drains its buckets. */
  predicate NeverDrains(ops: seq<LimiterOp>) {
    forall op <- ops :: op.Check? ==> 0.0 <= op.config.refillRate
  }

  function LimiterEnd(from: real, ops: seq<LimiterOp>): real
    decreases |ops|
  {
    if ops == [] then from else LimiterEnd(ops[0].at, ops[1..])
  }

  lemma StepKeepsShape(c: Contents, now: real, op: LimiterOp)
    requires Shaped(c, now) && now <= op.at && (op.Check? ==> 0.0 <= op.config.refillRate)
    ensures Shaped(StepLimiter(c, op), op.at)
  {
    if op.Check? {
      StepKeepsValid(BucketFor(c, op.key, op.config, op.at), Take(1, op.at));
    }
    hide Flow, Refill;
  }

  lemma {:induction false} RunKeepsShape(c: Contents, now: real, ops: seq<LimiterOp>)
    requires Shaped(c, now) && NeverDrains(ops) && InOrder(now, ops)
    ensures Shaped(RunLimiter(c, ops), LimiterEnd(now, ops)) && now <= LimiterEnd(now, ops)
    decreases |ops|
  {
    hide Shaped, StepLimiter;
    if ops != [] {
      StepKeepsShape(c, now, ops[0]);
      RunKeepsShape(StepLimiter(c, ops[0]), ops[0].at, ops[1..]);
    }
  }

  /**
   * What a refusal tells its caller, after any run with any mixture of configurations: the limit of the endpoint asked
   * for, that nothing remains, and exactly when to come back. Whatever happens to other keys in between, the next check
   * of this key, for whatever endpoint, is admitted if and only if the hinted time has passed and the bucket can hold a
   * token at all. Instead of a refusal the caller gets a panic exactly when the bucket never refills or needs longer
   * than a `Duration` can say.
   */
  lemma RefusalsAreExact(from: real, ops: seq<LimiterOp>, key: string, cfg: Config, now: real,
                         between: seq<LimiterOp>, other: Config, later: real)
    requires NeverDrains(ops) && 0.0 <= cfg.refillRate && InOrder(from, ops) && LimiterEnd(from, ops) <= now <= later
    requires Concerning(between, key) == []
    requires CheckKey(RunLimiter(map[], ops), key, cfg, now).1 != Allowed
    ensures
      var (refused, answer) := CheckKey(RunLimiter(map[], ops), key, cfg, now);
      && key in refused
      && (answer.Panicked? <==> refused[key].refillRate <= 0.0 || Lacking(refused[key]) >= DURATION_LIMIT)
      && (!answer.Panicked? ==>
            && answer == Limited(Lacking(refused[key]), cfg.maxTokens, 0)
            && (CheckKey(RunLimiter(refused, between), key, other, later).1 == Allowed
                <==> later >= now + answer.retryAfter && refused[key].maxTokens >= 1))
  {
    hide Flow, InOrder;
    var c := RunLimiter(map[], ops);
    RunKeepsShape(map[], from, ops);
    hide RunLimiter, Concerning;
    var b := BucketFor(c, key, cfg, now);
    var (refused, answer) := CheckKey(c, key, cfg, now);
    RefillKeepsValid(b, now);
    RefusedIsEmpty(b, now);
    KeysAreIsolated(refused, refused, between, key);
    assert RunLimiter(refused, []) == refused by { NoOperations(refused); }
    if 0.0 < b.refillRate {
      RefusedComesBack(b, now, later);
    }
    hide Refill;
  }

  /** The same for a bucket on its own. */
  lemma RefusedComesBack(b: Bucket, now: real, later: real)
    requires Valid(b) && b.lastRefill <= now <= later && !Consume(b, 1, now).1 && 0.0 < b.refillRate
    ensures
      Consume(Consume(b, 1, now).0, 1, later).1 <==> later >= now + Lacking(Consume(b, 1, now).0) && b.maxTokens >= 1
  {
    if b.maxTokens >= 1 {
      RetryHintIsExact(b, now, [], later);
    }
    hide Flow;
  }

  lemma NoOperations(c: Contents)
    ensures RunLimiter(c, []) == c
  {
  }

  lemma RefusedIsEmpty(b: Bucket, now: real)
    requires !Consume(b, 1, now).1
    ensures WholeTokens(Consume(b, 1, now).0) == 0
  {
    hide Refill;
  }

  // ---------- whose limits govern a check ----------

  function LimitsOf(b: Bucket): Config {
    Config(b.maxTokens, b.refillRate)
  }

  /** The key has a bucket before every operation of a run and after the last one. */
  predicate StaysIn(c: Contents, ops: seq<LimiterOp>, key: string)
    decreases |ops|
  {
    key in c && (ops == [] || StaysIn(StepLimiter(c, ops[0]), ops[1..], key))
  }

  /** A bucket is lost exactly when its key is removed or a cleanup finds it too old. */
  lemma LostExactly(c: Contents, op: LimiterOp, key: string)
    requires key in c
    ensures
      key !in StepLimiter(c, op) <==>
        || (op.Remove? && op.key == key)
        || (op.Cleanup? && Elapsed(c[key].lastRefill, op.at) >= op.maxAge)
  {
    hide CheckBucket, Elapsed;
  }

  lemma StepKeepsLimits(c: Contents, op: LimiterOp, key: string)
    requires key in c && key in StepLimiter(c, op)
    ensures LimitsOf(StepLimiter(c, op)[key]) == LimitsOf(c[key])
  {
    hide Flow, Least, Elapsed, TimeUntilToken, WholeTokens;
  }

  lemma {:induction false} LimitsStay(c: Contents, ops: seq<LimiterOp>, key: string)
    requires StaysIn(c, ops, key)
    ensures key in RunLimiter(c, ops) && LimitsOf(RunLimiter(c, ops)[key]) == LimitsOf(c[key])
    decreases |ops|
  {
    hide StepLimiter, LimitsOf;
    if ops != [] {
      StepKeepsLimits(c, ops[0], key);
      LimitsStay(StepLimiter(c, ops[0]), ops[1..], key);
    }
  }

  /**
   * A bucket keeps the limits of the check that created it, through every run in which it is not lost, whatever
   * configurations later checks come with.
   */
  lemma BucketKeepsItsLimits(c: Contents, key: string, cfg: Config, at: real, ops: seq<LimiterOp>)
    requires key !in c && StaysIn(CheckKey(c, key, cfg, at).0, ops, key)
    ensures
      var after := RunLimiter(c, [Check(key, cfg, at)] + ops);
      key in after && LimitsOf(after[key]) == cfg
  {
    var run := [Check(key, cfg, at)] + ops;
    assert run[0] == Check(key, cfg, at) && run[1..] == ops;
    LimitsStay(CheckKey(c, key, cfg, at).0, ops, key);
    hide Refill, StaysIn;
  }

  /** On a stored bucket the configuration of a check is nothing but a label on a refusal. */
  lemma StoredBucketIgnoresConfig(c: Contents, key: string, a: Config, b: Config, now: real)
    requires key in c
    ensures CheckKey(c, key, a, now).0 == CheckKey(c, key, b, now).0
    ensures
      var (x, y) := (CheckKey(c, key, a, now).1, CheckKey(c, key, b, now).1);
      if x.Limited? then y == Limited(x.retryAfter, b.maxTokens, x.remaining) else y == x
  {
  }

  /** All of a burst of n checks for one endpoint is admitted. */
  predicate BurstPasses(c: Contents, n: nat, key: string, cfg: Config, at: real) {
    AllAllowed(Answers(c, Burst(n, key, cfg, at)))
  }

  predicate AllAllowed(answers: seq<CheckResult>) {
    forall r <- answers :: r == Allowed
  }

  lemma BurstPassesExactly(c: Contents, n: nat, key: string, cfg: Config, at: real)
    requires Valid(Refill(BucketFor(c, key, cfg, at), at))
    ensures BurstPasses(c, n, key, cfg, at) <==> n as real <= Refill(BucketFor(c, key, cfg, at), at).tokens
  {
    hide Refill;
    BurstAdmitted(c, cfg, n, key, at);
    assert AllAllowed(Answers(c, Burst(n, key, cfg, at)))
        <==> n as real <= Refill(BucketFor(c, key, cfg, at), at).tokens;
  }

  /**
   * What callers notice: when the bucket of a key is full, the burst limit of an endpoint is enforced if and only if it
   * is the one the bucket was created with.
   */
  lemma BurstLimitHoldsExactly(c: Contents, key: string, cfg: Config, at: real)
    requires key in c && Valid(c[key]) && Refill(c[key], at).tokens == c[key].maxTokens as real
    ensures
      (forall n: nat :: BurstPasses(c, n, key, cfg, at) <==> n <= cfg.maxTokens) <==> cfg.maxTokens == c[key].maxTokens
  {
    hide Refill, BurstPasses;
    RefillKeepsValid(c[key], at);
    forall n: nat ensures BurstPasses(c, n, key, cfg, at) <==> n <= c[key].maxTokens {
      BurstPassesExactly(c, n, key, cfg, at);
    }
    if forall n: nat :: BurstPasses(c, n, key, cfg, at) <==> n <= cfg.maxTokens {
      assert BurstPasses(c, cfg.maxTokens, key, cfg, at);
      assert BurstPasses(c, c[key].maxTokens, key, cfg, at);
    }
  }

  /**
   * The endpoint limit that comes too late: after a first request to one endpoint, a burst of n requests to another one
   * is admitted as long as the first one's limit allows, whatever the limit of the other. With limits of 100 and 2 and
   * three requests, `test_endpoint_limits` (src/rate_limit.rs:394-413) expects a refusal.
   */
  lemma EndpointLimitComesTooLate(key: string, first: Config, other: Config, at: real, n: nat)
    requires 1 <= first.maxTokens && 0.0 <= first.refillRate
    ensures BurstPasses(CheckKey(map[], key, first, at).0, n, key, other, at) <==> n + 1 <= first.maxTokens
  {
    FlowZero(first.refillRate);
    hide Flow, BurstPasses;
    var c := CheckKey(map[], key, first, at).0;
    assert Refill(c[key], at).tokens == (first.maxTokens - 1) as real;
    RefillKeepsValid(c[key], at);
    BurstPassesExactly(c, n, key, other, at);
  }
}
