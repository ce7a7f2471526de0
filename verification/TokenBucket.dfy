/**
 * The lazily refilled token bucket of src/rate_limit.rs.
 *
 * Instants and durations are reals in seconds and the f32 fields are reals: rounding is not modelled.
 */
module TokenBuckets {
  import opened Basics

  /** The fields of a bucket, as a value. */
  datatype Bucket = Bucket(maxTokens: nat, tokens: real, lastRefill: real, refillRate: real)

  /** `Instant::duration_since`, which saturates at zero. */
  function Elapsed(since: real, now: real): real {
    if now > since then now - since else 0.0
  }

  function Least(a: real, b: real): real {
    if a < b then a else b
  }

  /** The tokens that flow in over a duration. */
  function Flow(refillRate: real, duration: real): real {
    duration * refillRate
  }

  function NewBucket(maxTokens: nat, refillRate: real, now: real): Bucket {
    Bucket(maxTokens, maxTokens as real, now, refillRate)
  }

  function Refill(b: Bucket, now: real): Bucket {
    b.(tokens := Least(b.tokens + Flow(b.refillRate, Elapsed(b.lastRefill, now)), b.maxTokens as real),
       lastRefill := now)
  }

  /** The bucket after a request for n tokens, and whether the request was granted. */
  function Consume(b: Bucket, n: nat, now: real): (Bucket, bool) {
    var refilled := Refill(b, now);
    if refilled.tokens >= n as real then (refilled.(tokens := refilled.tokens - n as real), true) else (refilled, false)
  }

  /** Two to the 64th: a `Duration` counts its seconds in a u64. */
  const DURATION_LIMIT: real := 18_446_744_073_709_551_616.0

  /**
   * None when the conversion to a `Duration` panics: on an infinite or negative number of seconds, and on one that a
   * `Duration` cannot hold.
   */
  function TimeUntilToken(b: Bucket): Option<real> {
    if b.tokens >= 1.0 then Some(0.0)
    else if b.refillRate <= 0.0 then None
    else
      var seconds := (1.0 - b.tokens) / b.refillRate;
      if seconds < DURATION_LIMIT then Some(seconds) else None
  }

  /** The `as u32` cast of the token level. */
  function WholeTokens(b: Bucket): nat {
    if b.tokens <= 0.0 then 0 else b.tokens.Floor
  }

  /** What every operation keeps: the level lies between zero and the capacity. */
  predicate Valid(b: Bucket) {
    0.0 <= b.tokens <= b.maxTokens as real && 0.0 <= b.refillRate
  }

  class TokenBucket {
    const maxTokens: nat
    var tokens: real
    var lastRefill: real
    const refillRate: real

    function Value(): Bucket
      reads this
    {
      Bucket(maxTokens, tokens, lastRefill, refillRate)
    }

    constructor (maxTokens: nat, refillRate: real, now: real)
      ensures Value() == NewBucket(maxTokens, refillRate, now)
    {
      this.maxTokens := maxTokens;
      this.tokens := maxTokens as real;
      this.lastRefill := now;
      this.refillRate := refillRate;
    }

    method RefillNow(now: real)
      modifies this
      ensures Value() == Refill(old(Value()), now)
    {
      var elapsed := Elapsed(lastRefill, now);
      var newTokens := elapsed * refillRate;
      tokens := Least(tokens + newTokens, maxTokens as real);
      lastRefill := now;
    }

    method TryConsume(n: nat, now: real) returns (granted: bool)
      modifies this
      ensures (Value(), granted) == Consume(old(Value()), n, now)
    {
      RefillNow(now);
      if tokens >= n as real {
        tokens := tokens - n as real;
        granted := true;
      } else {
        granted := false;
      }
    }

    /** The two assignments `RateLimiter::reset` makes to a bucket. */
    method Reset(now: real)
      modifies this
      ensures Value() == NewBucket(maxTokens, refillRate, now)
    {
      tokens := maxTokens as real;
      lastRefill := now;
    }
  }

  // ---------- one call ----------

  lemma FlowAdds(rate: real, a: real, b: real)
    ensures Flow(rate, a + b) == Flow(rate, a) + Flow(rate, b)
  {
  }

  lemma FlowZero(rate: real)
    ensures Flow(rate, 0.0) == 0.0
  {
  }

  lemma FlowNonNegative(rate: real, a: real)
    requires 0.0 <= rate && 0.0 <= a
    ensures 0.0 <= Flow(rate, a)
  {
  }

  /** Lazy refills compose: refilling at `mid` and then at `now` is refilling at `now`. */
  lemma RefillComposes(b: Bucket, mid: real, now: real)
    requires 0.0 <= b.refillRate && b.lastRefill <= mid <= now
    ensures Refill(Refill(b, mid), now) == Refill(b, now)
  {
    hide Flow;
    FlowAdds(b.refillRate, mid - b.lastRefill, now - mid);
    FlowNonNegative(b.refillRate, now - mid);
    FlowZero(b.refillRate);
    assert mid - b.lastRefill + (now - mid) == now - b.lastRefill;
  }

  lemma RefillKeepsValid(b: Bucket, now: real)
    requires Valid(b)
    ensures Valid(Refill(b, now)) && (b.lastRefill <= now ==> Refill(b, now).tokens >= b.tokens)
  {
    hide Flow;
    FlowNonNegative(b.refillRate, Elapsed(b.lastRefill, now));
  }

  /**
   * When a request for n tokens is granted: exactly once the missing part has had time to flow in. A grant takes n
   * tokens out of the refilled level, a refusal takes nothing.
   */
  lemma GrantedExactlyWhenEnoughFlowedIn(b: Bucket, n: nat, now: real)
    requires Valid(b) && 0.0 < b.refillRate && n <= b.maxTokens && b.lastRefill <= now
    ensures Consume(b, n, now).1 <==> now - b.lastRefill >= (n as real - b.tokens) / b.refillRate
    ensures Consume(b, n, now).0.tokens + (if Consume(b, n, now).1 then n as real else 0.0) == Refill(b, now).tokens
  {
    var elapsed := now - b.lastRefill;
    FlowReaches(b.refillRate, n as real - b.tokens, elapsed);
    FlowZero(b.refillRate);
    hide Flow;
  }

  /** An amount has flowed in exactly when it has had the time to. */
  lemma FlowReaches(rate: real, amount: real, duration: real)
    requires 0.0 < rate
    ensures Flow(rate, duration) >= amount <==> duration >= amount / rate
  {
    var wait := amount / rate;
    assert Flow(rate, wait) == amount;
    FlowAdds(rate, wait, duration - wait);
    assert wait + (duration - wait) == duration;
    FlowSign(rate, duration - wait);
    hide Flow;
  }

  lemma FlowSign(rate: real, duration: real)
    requires 0.0 < rate
    ensures Flow(rate, duration) >= 0.0 <==> duration >= 0.0
  {
  }

  // ---------- runs ----------

  datatype BucketOp = Take(n: nat, at: real) | Reset(at: real)

  /** The bucket after one operation, and the number of tokens the operation handed out. */
  function Step(b: Bucket, op: BucketOp): (Bucket, nat) {
    match op
    case Take(n, at) => var (after, granted) := Consume(b, n, at); (after, if granted then n else 0)
    case Reset(at) => (NewBucket(b.maxTokens, b.refillRate, at), 0)
  }

  function After(b: Bucket, ops: seq<BucketOp>): Bucket
    decreases |ops|
  {
    if ops == [] then b else After(Step(b, ops[0]).0, ops[1..])
  }

  /** The tokens a run hands out. */
  function Granted(b: Bucket, ops: seq<BucketOp>): nat
    decreases |ops|
  {
    if ops == [] then 0 else Step(b, ops[0]).1 + Granted(Step(b, ops[0]).0, ops[1..])
  }

  /** One capacity for every reset in a run. */
  function ResetTokens(maxTokens: nat, ops: seq<BucketOp>): nat {
    if ops == [] then 0 else (if ops[0].Reset? then maxTokens else 0) + ResetTokens(maxTokens, ops[1..])
  }

  /** What flows into a bucket over a run, operation by operation. */
  function Inflow(refillRate: real, from: real, ops: seq<BucketOp>): real
    decreases |ops|
  {
    if ops == [] then 0.0
    else Flow(refillRate, Elapsed(from, ops[0].at)) + Inflow(refillRate, ops[0].at, ops[1..])
  }

  /** Time does not run backwards. */
  predicate Timely(from: real, ops: seq<BucketOp>)
    decreases |ops|
  {
    ops == [] || (from <= ops[0].at && Timely(ops[0].at, ops[1..]))
  }

  function EndOf(from: real, ops: seq<BucketOp>): real {
    if ops == [] then from else ops[|ops| - 1].at
  }

  lemma StepKeepsValid(b: Bucket, op: BucketOp)
    requires Valid(b)
    ensures Valid(Step(b, op).0) && Step(b, op).0.lastRefill == op.at
    ensures Step(b, op).0.maxTokens == b.maxTokens && Step(b, op).0.refillRate == b.refillRate
  {
    RefillKeepsValid(b, op.at);
  }

  lemma {:induction false} RunKeepsValid(b: Bucket, ops: seq<BucketOp>)
    requires Valid(b) && Timely(b.lastRefill, ops)
    ensures Valid(After(b, ops)) && After(b, ops).lastRefill == EndOf(b.lastRefill, ops)
    ensures After(b, ops).maxTokens == b.maxTokens && After(b, ops).refillRate == b.refillRate
    ensures b.lastRefill <= EndOf(b.lastRefill, ops)
    decreases |ops|
  {
    if ops != [] {
      StepKeepsValid(b, ops[0]);
      RunKeepsValid(Step(b, ops[0]).0, ops[1..]);
    }
  }

  lemma {:induction false} InflowTelescopes(refillRate: real, from: real, ops: seq<BucketOp>)
    requires Timely(from, ops)
    ensures Inflow(refillRate, from, ops) == Flow(refillRate, EndOf(from, ops) - from)
    decreases |ops|
  {
    hide Flow;
    FlowZero(refillRate);
    if ops != [] {
      var next := ops[0].at;
      InflowTelescopes(refillRate, next, ops[1..]);
      assert EndOf(next, ops[1..]) == EndOf(from, ops);
      FlowAdds(refillRate, next - from, EndOf(from, ops) - next);
      assert next - from + (EndOf(from, ops) - next) == EndOf(from, ops) - from;
    }
  }

  /** One operation never hands out and keeps more than was there, what flowed in, and a capacity for a reset. */
  lemma StepAccount(b: Bucket, op: BucketOp)
    requires Valid(b)
    ensures Step(b, op).1 as real + Step(b, op).0.tokens
         <= b.tokens + (if op.Reset? then b.maxTokens else 0) as real + Flow(b.refillRate, Elapsed(b.lastRefill, op.at))
  {
    hide Flow;
    FlowNonNegative(b.refillRate, Elapsed(b.lastRefill, op.at));
  }

  /**
   * The token account of a run: what was handed out and what is left never exceed what was there at the start, what
   * flowed in, and one capacity for every reset.
   */
  lemma {:induction false} TokenAccount(b: Bucket, ops: seq<BucketOp>)
    requires Valid(b)
    ensures Granted(b, ops) as real + After(b, ops).tokens
         <= b.tokens + ResetTokens(b.maxTokens, ops) as real + Inflow(b.refillRate, b.lastRefill, ops)
    decreases |ops|
  {
    hide Flow, Step;
    if ops != [] {
      StepKeepsValid(b, ops[0]);
      StepAccount(b, ops[0]);
      TokenAccount(Step(b, ops[0]).0, ops[1..]);
    }
  }

  lemma {:induction false} AfterConcat(b: Bucket, xs: seq<BucketOp>, ys: seq<BucketOp>)
    ensures After(b, xs + ys) == After(After(b, xs), ys)
    ensures Granted(b, xs + ys) == Granted(b, xs) + Granted(After(b, xs), ys)
    decreases |xs|
  {
    if xs == [] {
      assert xs + ys == ys;
    } else {
      assert (xs + ys)[1..] == xs[1..] + ys;
      AfterConcat(Step(b, xs[0]).0, xs[1..], ys);
    }
  }

  lemma {:induction false} TimelyConcat(from: real, xs: seq<BucketOp>, ys: seq<BucketOp>)
    requires Timely(from, xs + ys)
    ensures Timely(from, xs) && Timely(EndOf(from, xs), ys)
    decreases |xs|
  {
    if xs == [] {
      assert xs + ys == ys;
    } else {
      assert (xs + ys)[1..] == xs[1..] + ys;
      TimelyConcat(xs[0].at, xs[1..], ys);
    }
  }

  lemma StepStartsRefilled(c: Bucket, op: BucketOp)
    requires Valid(c) && c.lastRefill <= op.at
    ensures Step(Refill(c, op.at), op) == Step(c, op)
    ensures Refill(c, op.at).lastRefill == op.at
  {
    RefillComposes(c, op.at, op.at);
  }

  /** A stretch may as well start refilled: its first operation refills before it grants anything. */
  lemma StartsRefilled(c: Bucket, stretch: seq<BucketOp>)
    requires Valid(c) && Timely(c.lastRefill, stretch) && stretch != []
    ensures Granted(Refill(c, stretch[0].at), stretch) == Granted(c, stretch)
  {
    StepStartsRefilled(c, stretch[0]);
    hide Flow, Refill, Step;
  }

  /** What a stretch may hand out: a capacity, one more for every reset in it, and what flows in while it lasts. */
  function Allowance(maxTokens: nat, refillRate: real, stretch: seq<BucketOp>): real
    requires stretch != []
  {
    (maxTokens + ResetTokens(maxTokens, stretch)) as real + Flow(refillRate, stretch[|stretch| - 1].at - stretch[0].at)
  }

  lemma BurstOfRefilled(full: Bucket, stretch: seq<BucketOp>)
    requires Valid(full) && stretch != [] && full.lastRefill == stretch[0].at && Timely(full.lastRefill, stretch)
    ensures Granted(full, stretch) as real <= Allowance(full.maxTokens, full.refillRate, stretch)
  {
    RunStaysNonNegative(full, stretch);
    InflowTelescopes(full.refillRate, stretch[0].at, stretch);
    TokenAccount(full, stretch);
    hide Flow, Granted, After, ResetTokens, Inflow;
  }

  lemma BurstFrom(c: Bucket, stretch: seq<BucketOp>)
    requires Valid(c) && Timely(c.lastRefill, stretch) && stretch != []
    ensures Granted(c, stretch) as real <= Allowance(c.maxTokens, c.refillRate, stretch)
  {
    RefillKeepsValid(c, stretch[0].at);
    StartsRefilled(c, stretch);
    BurstOfRefilled(Refill(c, stretch[0].at), stretch);
    hide Flow, Granted, Allowance;
  }

  lemma RunStaysNonNegative(b: Bucket, ops: seq<BucketOp>)
    requires Valid(b)
    ensures After(b, ops).tokens >= 0.0
    decreases |ops|
  {
    if ops != [] {
      StepKeepsValid(b, ops[0]);
      RunStaysNonNegative(Step(b, ops[0]).0, ops[1..]);
    }
  }

  /**
   * The burst bound, over any stretch of any run: between its first and its last operation a bucket hands out at most
   * its capacity (once more for every reset in the stretch) plus the refill rate times the elapsed time.
   */
  lemma BurstBound(maxTokens: nat, refillRate: real, start: real, before: seq<BucketOp>, stretch: seq<BucketOp>)
    requires 0.0 <= refillRate && Timely(start, before + stretch) && stretch != []
    ensures
      var b := NewBucket(maxTokens, refillRate, start);
      (Granted(b, before + stretch) - Granted(b, before)) as real <= Allowance(maxTokens, refillRate, stretch)
  {
    hide Flow, After, Granted, Timely, Inflow, ResetTokens;
    var b := NewBucket(maxTokens, refillRate, start);
    AfterConcat(b, before, stretch);
    TimelyConcat(start, before, stretch);
    RunKeepsValid(b, before);
    BurstFrom(After(b, before), stretch);
  }

  /** Attempts that are all refused leave the bucket as one refill at the last of them does. */
  lemma {:induction false} RefusalsOnlyRefill(b: Bucket, tries: seq<BucketOp>)
    requires 0.0 <= b.refillRate && Timely(b.lastRefill, tries)
    requires forall op <- tries :: op.Take? && op.n > 0
    requires Granted(b, tries) == 0
    ensures tries != [] ==> After(b, tries) == Refill(b, EndOf(b.lastRefill, tries))
    decreases |tries|
  {
    if tries != [] {
      var next := Step(b, tries[0]).0;
      assert next == Refill(b, tries[0].at);
      RefusalsOnlyRefill(next, tries[1..]);
      if tries[1..] != [] {
        RunEndsLater(tries[0].at, tries[1..]);
        RefillComposes(b, tries[0].at, EndOf(b.lastRefill, tries));
      }
    }
  }

  lemma {:induction false} RunEndsLater(from: real, ops: seq<BucketOp>)
    requires Timely(from, ops)
    ensures from <= EndOf(from, ops)
    decreases |ops|
  {
    if ops != [] {
      RunEndsLater(ops[0].at, ops[1..]);
    }
  }

  /** The seconds a bucket needs until it holds a whole token. */
  function Lacking(b: Bucket): real
    requires 0.0 < b.refillRate
  {
    (1.0 - b.tokens) / b.refillRate
  }

  /**
   * The retry hint is exact: after a refusal at `at`, with any number of refused attempts since and nothing consumed,
   * a request for one token at `now` is granted if and only if the missing part has had time to flow in. The hint is
   * that time, unless a `Duration` cannot hold it, and then asking for the hint panics.
   */
  lemma RetryHintIsExact(b: Bucket, at: real, tries: seq<BucketOp>, now: real)
    requires Valid(b) && 0.0 < b.refillRate && 1 <= b.maxTokens && b.lastRefill <= at
    requires !Consume(b, 1, at).1
    requires Timely(at, tries) && EndOf(at, tries) <= now
    requires forall op <- tries :: op.Take? && op.n > 0
    requires Granted(Consume(b, 1, at).0, tries) == 0
    ensures
      var refused := Consume(b, 1, at).0;
      && TimeUntilToken(refused) == (if Lacking(refused) < DURATION_LIMIT then Some(Lacking(refused)) else None)
      && (Consume(After(refused, tries), 1, now).1 <==> now >= at + Lacking(refused))
  {
    hide Flow;
    var refused := Consume(b, 1, at).0;
    RefillKeepsValid(b, at);
    RefusalsOnlyRefill(refused, tries);
    RunEndsLater(at, tries);
    var end := EndOf(at, tries);
    RefillComposes(refused, end, now);
    assert Refill(After(refused, tries), now) == Refill(refused, now);
    GrantedExactlyWhenEnoughFlowedIn(refused, 1, now);
  }
}
