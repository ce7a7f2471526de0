/** What the callers of the rate limiter of src/rate_limit.rs can find out by checking. */
module LimiterObservation {
  import opened Basics
  import opened TokenBuckets
  import opened RateLimiters

  /** A bucket with these limits never admits anything, and every check of it panics when it asks for the hint. */
  predicate Hopeless(cfg: Config) {
    cfg.maxTokens == 0 && (cfg.refillRate <= 0.0 || 1.0 / cfg.refillRate >= DURATION_LIMIT)
  }

  /** Limits that no caller can tell apart. */
  predicate Twins(a: Config, b: Config) {
    a == b || (Hopeless(a) && Hopeless(b))
  }

  function Fresh(cfg: Config, now: real): Bucket {
    NewBucket(cfg.maxTokens, cfg.refillRate, now)
  }

  // ---------- telling two fresh buckets apart ----------

  lemma FreshIsRefilled(cfg: Config, now: real)
    ensures Refill(Fresh(cfg, now), now) == Fresh(cfg, now)
  {
    FlowZero(cfg.refillRate);
    hide Flow;
  }

  /** Checks for the second of two configurations that tell fresh buckets of theirs apart. */
  function Telling(a: Config, b: Config, key: string, now: real): seq<LimiterOp> {
    if a.maxTokens != b.maxTokens then
      Burst(if a.maxTokens > b.maxTokens then a.maxTokens else b.maxTokens, key, b, now)
    else if a.maxTokens == 0 then [Check(key, b, now)]
    else Burst(a.maxTokens, key, b, now) + [Check(key, b, now + TokenTime(a, b))]
  }

  /** How long the faster of two configurations takes for one token. */
  function TokenTime(a: Config, b: Config): real {
    var rate := if a.refillRate > b.refillRate then a.refillRate else b.refillRate;
    if rate <= 0.0 then 0.0 else 1.0 / rate
  }

  /** A burst as large as the larger capacity. */
  lemma CapacityTells(c: Contents, a: Config, b: Config, key: string, now: real)
    requires a.maxTokens != b.maxTokens && 0.0 <= a.refillRate && 0.0 <= b.refillRate
    ensures
      var run := Telling(a, b, key, now);
      Answers(c[key := Fresh(a, now)], run) != Answers(c[key := Fresh(b, now)], run)
  {
    var n := if a.maxTokens > b.maxTokens then a.maxTokens else b.maxTokens;
    FreshIsRefilled(a, now);
    FreshIsRefilled(b, now);
    BurstPassesExactly(c[key := Fresh(a, now)], n, key, b, now);
    BurstPassesExactly(c[key := Fresh(b, now)], n, key, b, now);
    hide Refill, Answers;
  }

  /** A run of checks with one configuration, none before `from`. */
  predicate ChecksFrom(run: seq<LimiterOp>, cfg: Config, from: real) {
    InOrder(from, run) && forall op <- run :: op.Check? && op.config == cfg
  }

  lemma OneCheckFrom(key: string, cfg: Config, from: real, at: real)
    requires from <= at
    ensures ChecksFrom([Check(key, cfg, at)], cfg, from)
  {
    var run := [Check(key, cfg, at)];
    assert run[1..] == [];
  }

  lemma ReciprocalFalls(x: real, y: real)
    requires 0.0 < x < y
    ensures 1.0 / y < 1.0 / x
  {
    var u, v := 1.0 / x, 1.0 / y;
    assert u * x == 1.0 && v * y == 1.0;
    assert u * y > u * x;
    assert (u - v) * y > 0.0;
  }

  /** When a spent bucket admits again. */
  lemma SpentComesBack(cfg: Config, now: real, later: real)
    requires 0.0 <= cfg.refillRate && 1 <= cfg.maxTokens && now <= later
    ensures
      Consume(Fresh(cfg, now).(tokens := 0.0), 1, later).1 <==>
        0.0 < cfg.refillRate && later - now >= 1.0 / cfg.refillRate
  {
    var spent := Fresh(cfg, now).(tokens := 0.0);
    if 0.0 < cfg.refillRate {
      GrantedExactlyWhenEnoughFlowedIn(spent, 1, later);
    } else {
      assert Flow(0.0, Elapsed(now, later)) == 0.0;
    }
    hide Flow;
  }

  /** After the time of the faster bucket, only that one has a token again. */
  lemma OneComesBackFirst(faster: Config, slower: Config, now: real)
    requires 1 <= faster.maxTokens && 1 <= slower.maxTokens && 0.0 <= slower.refillRate < faster.refillRate
    ensures
      var later := now + 1.0 / faster.refillRate;
      && now <= later && Consume(Fresh(faster, now).(tokens := 0.0), 1, later).1
      && !Consume(Fresh(slower, now).(tokens := 0.0), 1, later).1
  {
    hide Consume;
    var later := now + 1.0 / faster.refillRate;
    if 0.0 < slower.refillRate {
      ReciprocalFalls(slower.refillRate, faster.refillRate);
    }
    SpentComesBack(faster, now, later);
    SpentComesBack(slower, now, later);
  }

  /** Spending the capacity, and asking again when the faster bucket has one token. */
  lemma RateTells(c: Contents, a: Config, b: Config, key: string, now: real)
    requires 1 <= a.maxTokens == b.maxTokens && a.refillRate != b.refillRate
    requires 0.0 <= a.refillRate && 0.0 <= b.refillRate
    ensures
      var run := Telling(a, b, key, now);
      Answers(c[key := Fresh(a, now)], run) != Answers(c[key := Fresh(b, now)], run)
  {
    hide Answers, Consume, Fresh;
    if a.refillRate > b.refillRate {
      OneComesBackFirst(a, b, now);
    } else {
      OneComesBackFirst(b, a, now);
    }
    AnswersAfterBurst(c, a, b, key, now, now + TokenTime(a, b));
    AnswersAfterBurst(c, b, b, key, now, now + TokenTime(a, b));
  }

  /** The last answer after a burst that has spent a fresh bucket. */
  lemma AnswersAfterBurst(c: Contents, a: Config, b: Config, key: string, now: real, later: real)
    requires 1 <= a.maxTokens && 0.0 <= a.refillRate
    ensures
      var answers := Answers(c[key := Fresh(a, now)], Burst(a.maxTokens, key, b, now) + [Check(key, b, later)]);
      && answers != []
      && (answers[|answers| - 1] == Allowed <==> Consume(Fresh(a, now).(tokens := 0.0), 1, later).1)
  {
    var start, burst := c[key := Fresh(a, now)], Burst(a.maxTokens, key, b, now);
    var again := [Check(key, b, later)];
    FreshIsRefilled(a, now);
    BurstAdmitted(start, b, a.maxTokens, key, now);
    AnswersConcat(start, burst, again);
    var spent := RunLimiter(start, burst);
    assert spent[key] == Fresh(a, now).(tokens := 0.0);
    OneCheck(spent, key, b, later);
    hide Answers, RunLimiter, Burst, Consume, Refill;
  }

  lemma OneCheck(c: Contents, key: string, cfg: Config, at: real)
    requires key in c
    ensures
      var answers := Answers(c, [Check(key, cfg, at)]);
      && |answers| == 1 && answers[0] == CheckKey(c, key, cfg, at).1
      && (answers[0] == Allowed <==> Consume(c[key], 1, at).1)
  {
    hide Consume;
    var run := [Check(key, cfg, at)];
    assert run[1..] == [];
  }

  /** The answer of a bucket without capacity is its hint, or a panic. */
  lemma HintTells(c: Contents, a: Config, b: Config, key: string, now: real)
    requires a.maxTokens == b.maxTokens == 0 && !Twins(a, b) && 0.0 <= a.refillRate && 0.0 <= b.refillRate
    ensures
      var run := Telling(a, b, key, now);
      Answers(c[key := Fresh(a, now)], run) != Answers(c[key := Fresh(b, now)], run)
  {
    OneCheck(c[key := Fresh(a, now)], key, b, now);
    OneCheck(c[key := Fresh(b, now)], key, b, now);
    FreshIsRefilled(a, now);
    FreshIsRefilled(b, now);
    if 0.0 < a.refillRate && 0.0 < b.refillRate {
      if a.refillRate < b.refillRate {
        ReciprocalFalls(a.refillRate, b.refillRate);
      } else {
        ReciprocalFalls(b.refillRate, a.refillRate);
      }
    }
    hide Refill, Answers;
  }

  /** Two fresh buckets are told apart whenever their limits are not twins. */
  lemma FreshBucketsTell(c: Contents, a: Config, b: Config, key: string, now: real)
    requires !Twins(a, b) && 0.0 <= a.refillRate && 0.0 <= b.refillRate
    ensures
      var run := Telling(a, b, key, now);
      Answers(c[key := Fresh(a, now)], run) != Answers(c[key := Fresh(b, now)], run)
  {
    hide Answers, Hopeless, Telling;
    if a.maxTokens != b.maxTokens {
      CapacityTells(c, a, b, key, now);
    } else if a.maxTokens == 0 {
      HintTells(c, a, b, key, now);
    } else {
      RateTells(c, a, b, key, now);
    }
  }

  lemma TellingIsChecks(a: Config, b: Config, key: string, now: real)
    ensures
      var run := Telling(a, b, key, now);
      run != [] && run[0] == Check(key, b, now) && ChecksFrom(run, b, now)
  {
    var n := if a.maxTokens > b.maxTokens then a.maxTokens else b.maxTokens;
    var later := now + TokenTime(a, b);
    OneCheckFrom(key, b, now, now);
    OneCheckFrom(key, b, now, later);
    BurstIsCheckOnly(n, key, b, now, []);
    BurstIsCheckOnly(a.maxTokens, key, b, now, [Check(key, b, later)]);
    assert Burst(n, key, b, now) + [] == Burst(n, key, b, now);
  }

  // ---------- when cleanup is invisible ----------

  /** A first check of a key without a bucket is a check of a fresh one. */
  lemma MissingIsFresh(c: Contents, key: string, cfg: Config, now: real, run: seq<LimiterOp>)
    requires key !in c && run != [] && run[0] == Check(key, cfg, now)
    ensures Answers(c, run) == Answers(c[key := Fresh(cfg, now)], run)
  {
    var stored := c[key := Fresh(cfg, now)];
    hide CheckBucket;
    var (after, answer) := CheckBucket(Fresh(cfg, now), cfg, now);
    assert CheckKey(c, key, cfg, now) == (c[key := after], answer);
    assert stored[key := after] == c[key := after];
  }

  lemma {:induction false} ChecksStay(run: seq<LimiterOp>, cfg: Config, from: real)
    requires ChecksFrom(run, cfg, from)
    ensures WithoutCleanup(run) == run
    decreases |run|
  {
    if run != [] {
      assert run[0] in run;
      assert forall op <- run[1..] :: op in run;
      ChecksStay(run[1..], cfg, run[0].at);
      assert run == [run[0]] + run[1..];
    }
  }

  /** A check for the one configuration, a cleanup just when it collects the bucket, and a reset. */
  function Swap(a: Config, maxAge: real): seq<LimiterOp> {
    [Check("k", a, 0.0), Cleanup(maxAge, maxAge), LimiterOp.Reset("k", maxAge)]
  }

  lemma SwapWithCleanup(a: Config, maxAge: real, run: seq<LimiterOp>)
    requires 0.0 <= maxAge
    ensures Answers(map[], Swap(a, maxAge) + run) == [CheckKey(map[], "k", a, 0.0).1] + Answers(map[], run)
  {
    hide CheckBucket;
    var ops := Swap(a, maxAge) + run;
    var one := CheckKey(map[], "k", a, 0.0).0;
    assert ops[1..] == [Cleanup(maxAge, maxAge), LimiterOp.Reset("k", maxAge)] + run;
    assert ops[1..][1..] == [LimiterOp.Reset("k", maxAge)] + run && ops[1..][1..][1..] == run;
    LastRefillIs("k", a);
    assert Cleaned(one, maxAge, maxAge) == map[];
    assert ResetKey(map[], "k", maxAge) == map[];
    assert Answers(map[], ops[1..][1..]) == Answers(map[], run);
    assert Answers(one, ops[1..]) == Answers(map[], ops[1..][1..]);
  }

  lemma LastRefillIs(key: string, a: Config)
    ensures
      var after := CheckKey(map[], key, a, 0.0).0;
      after.Keys == {key} && after[key].lastRefill == 0.0 && LimitsOf(after[key]) == a
  {
  }

  lemma SwapDropsCleanup(a: Config, maxAge: real, run: seq<LimiterOp>)
    requires WithoutCleanup(run) == run
    ensures
      WithoutCleanup(Swap(a, maxAge) + run) == [Check("k", a, 0.0)] + ([LimiterOp.Reset("k", maxAge)] + run)
  {
    var check, cleanup, reset := Check("k", a, 0.0), Cleanup(maxAge, maxAge), LimiterOp.Reset("k", maxAge);
    WithoutOneMore(reset, run);
    WithoutOneMore(cleanup, [reset] + run);
    WithoutOneMore(check, [cleanup] + ([reset] + run));
    hide WithoutCleanup;
    assert Swap(a, maxAge) + run == [check] + ([cleanup] + ([reset] + run));
  }

  lemma SwapWithoutCleanup(a: Config, maxAge: real, run: seq<LimiterOp>)
    requires WithoutCleanup(run) == run
    ensures
      Answers(map[], WithoutCleanup(Swap(a, maxAge) + run)) ==
        [CheckKey(map[], "k", a, 0.0).1] + Answers(map["k" := Fresh(a, maxAge)], run)
  {
    hide CheckBucket, Answers, WithoutCleanup, Swap;
    var one := CheckKey(map[], "k", a, 0.0).0;
    SwapDropsCleanup(a, maxAge, run);
    LastRefillIs("k", a);
    assert ResetKey(one, "k", maxAge) == map["k" := Fresh(a, maxAge)];
    AnswersOneMore(one, LimiterOp.Reset("k", maxAge), run);
    AnswersOneMore(map[], Check("k", a, 0.0), [LimiterOp.Reset("k", maxAge)] + run);
  }

  lemma AnswersOneMore(c: Contents, op: LimiterOp, run: seq<LimiterOp>)
    ensures
      Answers(c, [op] + run) ==
        (if op.Check? then [CheckKey(c, op.key, op.config, op.at).1] else []) + Answers(StepLimiter(c, op), run)
  {
    hide CheckKey, StepLimiter;
    assert ([op] + run)[1..] == run;
  }

  /** Two configurations that are not twins let callers notice a cleanup at any age. */
  lemma DifferentLimitsShow(a: Config, b: Config, maxAge: real) returns (ops: seq<LimiterOp>)
    requires !Twins(a, b) && 0.0 <= a.refillRate && 0.0 <= b.refillRate && 0.0 <= maxAge
    ensures InOrder(0.0, ops) && Uses({a, b}, ops) && CleansAt(maxAge, ops)
    ensures Answers(map[], ops) != Answers(map[], WithoutCleanup(ops))
  {
    hide Twins, Answers, CheckKey, WithoutCleanup, Swap, Fresh, Telling;
    var run := Telling(a, b, "k", maxAge);
    FreshBucketsTell(map[], a, b, "k", maxAge);
    TellingIsChecks(a, b, "k", maxAge);
    assert map[]["k" := Fresh(a, maxAge)] == map["k" := Fresh(a, maxAge)];
    ChecksStay(run, b, maxAge);
    MissingIsFresh(map[], "k", b, maxAge, run);
    ops := Swap(a, maxAge) + run;
    SwapWithCleanup(a, maxAge, run);
    SwapWithoutCleanup(a, maxAge, run);
    SwapShape(a, b, maxAge, run);
    var answer := CheckKey(map[], "k", a, 0.0).1;
    assert ([answer] + Answers(map[], run))[1..] == Answers(map[], run);
    assert ([answer] + Answers(map["k" := Fresh(a, maxAge)], run))[1..] == Answers(map["k" := Fresh(a, maxAge)], run);
  }

  lemma SwapShape(a: Config, b: Config, maxAge: real, run: seq<LimiterOp>)
    requires ChecksFrom(run, b, maxAge) && 0.0 <= maxAge
    ensures
      var ops := Swap(a, maxAge) + run;
      InOrder(0.0, ops) && Uses({a, b}, ops) && CleansAt(maxAge, ops)
  {
    var ops := Swap(a, maxAge) + run;
    assert ops[1..] == [Cleanup(maxAge, maxAge), LimiterOp.Reset("k", maxAge)] + run;
    assert ops[1..][1..] == [LimiterOp.Reset("k", maxAge)] + run && ops[1..][1..][1..] == run;
    assert InOrder(maxAge, ops[1..][1..]) && InOrder(0.0, ops[1..]);
  }

  function Checks(ops: seq<LimiterOp>): nat {
    if ops == [] then 0 else (if ops[0].Check? then 1 else 0) + Checks(ops[1..])
  }

  lemma {:induction false} ChecksAreKept(ops: seq<LimiterOp>)
    ensures Checks(WithoutCleanup(ops)) == Checks(ops)
    decreases |ops|
  {
    if ops != [] {
      var rest := WithoutCleanup(ops[1..]);
      ChecksAreKept(ops[1..]);
      assert ([ops[0]] + rest)[1..] == rest && [] + rest == rest;
    }
  }

  /** Empty, and it will stay so. */
  predicate Dead(b: Bucket) {
    b.tokens == 0.0 && 0.0 <= b.refillRate && Hopeless(LimitsOf(b))
  }

  lemma DeadStaysDead(b: Bucket, cfg: Config, now: real)
    requires Dead(b)
    ensures CheckBucket(b, cfg, now) == (b.(lastRefill := now), Panicked)
    ensures Dead(b.(lastRefill := now))
  {
    FlowNonNegative(b.refillRate, Elapsed(b.lastRefill, now));
    hide Flow;
  }

  /** Where all limits are hopeless, every check panics. */
  lemma {:induction false} HopelessPanics(c: Contents, ops: seq<LimiterOp>)
    requires forall k :: k in c ==> Dead(c[k])
    requires forall op <- ops :: op.Check? ==> Hopeless(op.config) && 0.0 <= op.config.refillRate
    ensures Answers(c, ops) == seq(Checks(ops), _ => Panicked)
    decreases |ops|
  {
    if ops != [] {
      var op := ops[0];
      assert op in ops;
      hide Hopeless, CheckBucket;
      if op.Check? {
        DeadStaysDead(BucketFor(c, op.key, op.config, op.at), op.config, op.at);
      }
      HopelessPanics(StepLimiter(c, op), ops[1..]);
      assert seq(Checks(ops), _ => Panicked)
          == (if op.Check? then [Panicked] else []) + seq(Checks(ops[1..]), _ => Panicked);
    }
  }

  lemma HopelessCleanupIsInvisible(configs: set<Config>, maxAge: real)
    requires forall cfg <- configs :: Hopeless(cfg) && 0.0 <= cfg.refillRate
    ensures CleanupIsInvisible(configs, maxAge)
  {
    forall start: real, ops: seq<LimiterOp> | InOrder(start, ops) && Uses(configs, ops) && CleansAt(maxAge, ops)
      ensures Answers(map[], ops) == Answers(map[], WithoutCleanup(ops))
    {
      hide Hopeless, InOrder;
      HopelessPanics(map[], ops);
      WithoutCleanupIsPart(ops);
      HopelessPanics(map[], WithoutCleanup(ops));
      ChecksAreKept(ops);
    }
  }

  lemma {:induction false} WithoutCleanupIsPart(ops: seq<LimiterOp>)
    ensures forall op <- WithoutCleanup(ops) :: op in ops
    decreases |ops|
  {
    if ops != [] {
      WithoutCleanupIsPart(ops[1..]);
    }
  }

  /** Fewer configurations, fewer ways to notice. */
  lemma InvisibleWithFewer(configs: set<Config>, some: set<Config>, maxAge: real)
    requires CleanupIsInvisible(configs, maxAge) && some <= configs
    ensures CleanupIsInvisible(some, maxAge)
  {
    forall start: real, ops: seq<LimiterOp> | InOrder(start, ops) && Uses(some, ops) && CleansAt(maxAge, ops)
      ensures Answers(map[], ops) == Answers(map[], WithoutCleanup(ops))
    {
      assert Uses(configs, ops);
    }
  }

  /**
   * Exactly when cleanup is safe. Whatever set of configurations the endpoints of a limiter have, nobody can ever tell
   * whether the limiter collects its garbage if and only if, for each of them, an empty bucket fills up within the age
   * at which it is collected, and no two of them differ (unless both have no capacity and a hint that panics).
   */
  lemma CleanupIsInvisibleExactly(configs: set<Config>, maxAge: real)
    requires configs != {} && (forall cfg <- configs :: 0.0 <= cfg.refillRate) && 0.0 <= maxAge
    ensures
      CleanupIsInvisible(configs, maxAge) <==>
        && (forall cfg <- configs :: maxAge * cfg.refillRate >= cfg.maxTokens as real)
        && (forall a, b :: a in configs && b in configs ==> Twins(a, b))
  {
    hide CleanupIsInvisible, Hopeless;
    if CleanupIsInvisible(configs, maxAge) {
      forall cfg <- configs ensures maxAge * cfg.refillRate >= cfg.maxTokens as real {
        InvisibleWithFewer(configs, {cfg}, maxAge);
        CleanupIsInvisibleForOne(cfg, maxAge);
      }
      forall a, b | a in configs && b in configs ensures Twins(a, b) {
        if !Twins(a, b) {
          InvisibleWithFewer(configs, {a, b}, maxAge);
          VisibleWithBoth(a, b, maxAge);
        }
      }
    } else {
      var a :| a in configs;
      if forall b <- configs :: b == a {
        assert configs == {a};
        CleanupIsInvisibleForOne(a, maxAge);
      } else {
        var b :| b in configs && b != a;
        if forall x, y :: x in configs && y in configs ==> Twins(x, y) {
          forall x <- configs ensures Hopeless(x) {
            assert Twins(a, b) && Twins(x, a) && Twins(x, b);
          }
          HopelessCleanupIsInvisible(configs, maxAge);
        }
      }
    }
  }

  lemma VisibleWithBoth(a: Config, b: Config, maxAge: real)
    requires !Twins(a, b) && 0.0 <= a.refillRate && 0.0 <= b.refillRate && 0.0 <= maxAge
    ensures !CleanupIsInvisible({a, b}, maxAge)
  {
    var ops := DifferentLimitsShow(a, b, maxAge);
    hide Answers, Uses, InOrder, CleansAt, Twins;
  }

  // ---------- whose limits govern a key ----------

  function WithLimits(c: Contents, key: string, cfg: Config): Contents {
    if key in c then c[key := c[key].(maxTokens := cfg.maxTokens, refillRate := cfg.refillRate)] else c
  }

  /** From now on everything is answered as if the key's bucket had the limits of this configuration. */
  ghost predicate Governs(c: Contents, key: string, cfg: Config, now: real) {
    forall ops :: InOrder(now, ops) ==> Answers(c, ops) == Answers(WithLimits(c, key, cfg), ops)
  }

  /** The two memories differ at most in the limits of one dead bucket. */
  predicate DeadAlike(c: Contents, d: Contents, key: string) {
    && c.Keys == d.Keys
    && (forall k :: k in c && k != key ==> c[k] == d[k])
    && (key in c ==> c[key] == d[key] || (Dead(c[key]) && Dead(d[key]) && c[key].lastRefill == d[key].lastRefill))
  }

  lemma FreshIsDead(cfg: Config, at: real)
    requires Hopeless(cfg) && 0.0 <= cfg.refillRate
    ensures Dead(Fresh(cfg, at))
  {
  }

  lemma StepStaysAlike(c: Contents, d: Contents, op: LimiterOp, key: string)
    requires DeadAlike(c, d, key)
    ensures DeadAlike(StepLimiter(c, op), StepLimiter(d, op), key)
    ensures op.Check? ==> CheckKey(c, op.key, op.config, op.at).1 == CheckKey(d, op.key, op.config, op.at).1
  {
    hide CheckBucket, Elapsed, Hopeless;
    match op
    case Check(k, cfg, at) =>
      if k == key && key in c && c[key] != d[key] {
        DeadStaysDead(c[key], cfg, at);
        DeadStaysDead(d[key], cfg, at);
      }
    case Reset(k, at) =>
      if k == key && key in c && c[key] != d[key] {
        FreshIsDead(LimitsOf(c[key]), at);
        FreshIsDead(LimitsOf(d[key]), at);
      }
    case Remove(k, at) =>
    case Cleanup(maxAge, at) =>
  }

  lemma {:induction false} AlikeAnswersAlike(c: Contents, d: Contents, ops: seq<LimiterOp>, key: string)
    requires DeadAlike(c, d, key)
    ensures Answers(c, ops) == Answers(d, ops)
    decreases |ops|
  {
    hide DeadAlike, StepLimiter, CheckKey;
    if ops != [] {
      StepStaysAlike(c, d, ops[0], key);
      AlikeAnswersAlike(StepLimiter(c, ops[0]), StepLimiter(d, ops[0]), ops[1..], key);
    }
  }

  lemma OtherLimitsShow(c: Contents, key: string, cfg: Config, now: real)
    requires key in c && 0.0 <= c[key].refillRate && 0.0 <= cfg.refillRate && !Twins(LimitsOf(c[key]), cfg)
    ensures !Governs(c, key, cfg, now)
  {
    hide Twins, Answers, Telling;
    var own := LimitsOf(c[key]);
    var run := Telling(own, cfg, key, now);
    FreshBucketsTell(c, own, cfg, key, now);
    TellingIsChecks(own, cfg, key, now);
    var ops := [LimiterOp.Reset(key, now)] + run;
    AnswersOneMore(c, LimiterOp.Reset(key, now), run);
    AnswersOneMore(WithLimits(c, key, cfg), LimiterOp.Reset(key, now), run);
    assert ResetKey(c, key, now) == c[key := Fresh(own, now)];
    assert ResetKey(WithLimits(c, key, cfg), key, now) == c[key := Fresh(cfg, now)];
    assert ops[1..] == run && InOrder(now, ops);
    assert Answers(c, ops) == Answers(c[key := Fresh(own, now)], run);
    assert Answers(WithLimits(c, key, cfg), ops) == Answers(c[key := Fresh(cfg, now)], run);
  }

  /**
   * Whose limits govern a key: no later run of any operations can tell the limits of an endpoint from those in force if
   * and only if the key has no bucket, or its bucket has these limits (or both are hopeless).
   */
  lemma EndpointLimitsGovernExactly(c: Contents, key: string, cfg: Config, now: real)
    requires (key in c ==> Valid(c[key])) && 0.0 <= cfg.refillRate
    ensures Governs(c, key, cfg, now) <==> key !in c || Twins(LimitsOf(c[key]), cfg)
  {
    if key in c && !Twins(LimitsOf(c[key]), cfg) {
      OtherLimitsShow(c, key, cfg, now);
    } else {
      hide Answers, Hopeless, InOrder;
      assert DeadAlike(c, WithLimits(c, key, cfg), key);
      forall ops | InOrder(now, ops) ensures Answers(c, ops) == Answers(WithLimits(c, key, cfg), ops) {
        AlikeAnswersAlike(c, WithLimits(c, key, cfg), ops, key);
      }
    }
  }
}
