/** Recording of deterministic events and their lockstep replay (src/deterministic.rs). */
module Replays {
  import opened Basics

  datatype Event =
    | Syscall(name: string)
    | Signal(signal: string)
    | ThreadSchedule(threadId: nat)
    | NetworkIoBoundary(connectionId: string)
    | RandomnessSeed(seed: nat)

  /** Timestamps and metadata of an entry play no part in replay. */
  datatype LogEntry = LogEntry(sequence: nat, event: Event)

  function EventsOf(entries: seq<LogEntry>): seq<Event> {
    seq(|entries|, i requires 0 <= i < |entries| => entries[i].event)
  }

  /** The comparison of the source, case by case. */
  predicate EventsMatch(expected: Event, actual: Event) {
    match (expected, actual)
    case (Syscall(n1), Syscall(n2)) => n1 == n2
    case (Signal(s1), Signal(s2)) => s1 == s2
    case (ThreadSchedule(t1), ThreadSchedule(t2)) => t1 == t2
    case (NetworkIoBoundary(c1), NetworkIoBoundary(c2)) => c1 == c2
    case (RandomnessSeed(s1), RandomnessSeed(s2)) => s1 == s2
    case (_, _) => false
  }

  lemma MatchingIsEquality(expected: Event, actual: Event)
    ensures EventsMatch(expected, actual) <==> expected == actual
  {
  }

  // ---------- replay ----------

  datatype Verdict = Matched(matched: bool) | Divergence(expected: Event, actual: Event, position: nat) | EndOfLog {
    predicate IsError() {
      !Matched?
    }
  }

  /** The position after checking one event, and the verdict. */
  function Verify(log: seq<Event>, strict: bool, position: nat, actual: Event): (nat, Verdict) {
    if position >= |log| then (position, EndOfLog)
    else if EventsMatch(log[position], actual) then (position + 1, Matched(true))
    else if strict then (position, Divergence(log[position], actual, position))
    else (position, Matched(false))
  }

  predicate Complete(log: seq<Event>, position: nat) {
    position >= |log|
  }

  class ReplayEngine {
    const originalLog: seq<LogEntry>
    const strictMode: bool
    var currentPosition: nat

    ghost predicate Valid()
      reads this
    {
      currentPosition <= |originalLog|
    }

    constructor (events: seq<Event>, strictReplay: bool)
      ensures Valid() && currentPosition == 0 && strictMode == strictReplay
      ensures EventsOf(originalLog) == events
      ensures forall i :: 0 <= i < |originalLog| ==> originalLog[i].sequence == i
    {
      originalLog := seq(|events|, i requires 0 <= i < |events| => LogEntry(i, events[i]));
      strictMode := strictReplay;
      currentPosition := 0;
    }

    method Start()
      modifies this
      ensures Valid() && currentPosition == 0
    {
      currentPosition := 0;
    }

    method Advance() returns (sequence: Option<nat>)
      requires Valid()
      modifies this
      ensures Valid()
      ensures
        if old(currentPosition) < |originalLog| then
          currentPosition == old(currentPosition) + 1 && sequence == Some(originalLog[old(currentPosition)].sequence)
        else currentPosition == old(currentPosition) && sequence == None
    {
      if currentPosition < |originalLog| {
        sequence := Some(originalLog[currentPosition].sequence);
        currentPosition := currentPosition + 1;
      } else {
        sequence := None;
      }
    }

    method VerifyEvent(actual: Event) returns (verdict: Verdict)
      requires Valid()
      modifies this
      ensures Valid()
      ensures (currentPosition, verdict) == Verify(EventsOf(originalLog), strictMode, old(currentPosition), actual)
    {
      if currentPosition >= |originalLog| {
        return EndOfLog;
      }
      var expected := originalLog[currentPosition].event;
      var matches := EventsMatch(expected, actual);
      if !matches && strictMode {
        return Divergence(expected, actual, currentPosition);
      }
      if matches {
        var _ := Advance();
      }
      verdict := Matched(matches);
    }

    predicate IsComplete()
      reads this
      ensures IsComplete() <==> Complete(EventsOf(originalLog), currentPosition)
    {
      currentPosition >= |originalLog|
    }
  }

  // ---------- lenient replay ----------

  /** Where lenient replay stands after a stream of actual events; running off the log changes nothing. */
  function Position(log: seq<Event>, position: nat, stream: seq<Event>): nat
    decreases |stream|
  {
    if stream == [] then position else Position(log, Verify(log, false, position, stream[0]).0, stream[1..])
  }

  /** xs can be obtained from ys by leaving events out: `at` says where in ys each of its events comes from. */
  ghost predicate EmbedsAt(xs: seq<Event>, ys: seq<Event>, at: seq<nat>) {
    && |at| == |xs|
    && (forall i :: 0 <= i < |at| ==> at[i] < |ys| && ys[at[i]] == xs[i])
    && (forall i, j :: 0 <= i < j < |at| ==> at[i] < at[j])
  }

  ghost predicate IsSubsequence(xs: seq<Event>, ys: seq<Event>) {
    exists at :: EmbedsAt(xs, ys, at)
  }

  lemma {:induction false} PositionBounds(log: seq<Event>, position: nat, stream: seq<Event>)
    requires position <= |log|
    ensures position <= Position(log, position, stream) <= |log|
    decreases |stream|
  {
    if stream != [] {
      PositionBounds(log, Verify(log, false, position, stream[0]).0, stream[1..]);
    }
  }

  lemma SkipFirst(xs: seq<Event>, ys: seq<Event>, at: seq<nat>) returns (shifted: seq<nat>)
    requires ys != [] && EmbedsAt(xs, ys[1..], at)
    ensures EmbedsAt(xs, ys, shifted)
    ensures forall i :: 0 <= i < |shifted| ==> 0 < shifted[i]
  {
    shifted := seq(|at|, i requires 0 <= i < |at| => at[i] + 1);
    forall i | 0 <= i < |shifted| ensures shifted[i] < |ys| && ys[shifted[i]] == xs[i] {
      assert ys[shifted[i]] == ys[1..][at[i]];
    }
  }

  lemma UseFirst(x: Event, xs: seq<Event>, ys: seq<Event>, at: seq<nat>)
    requires ys != [] && ys[0] == x && EmbedsAt(xs, ys, at)
    requires forall i :: 0 <= i < |at| ==> 0 < at[i]
    ensures EmbedsAt([x] + xs, ys, [0] + at)
  {
  }

  /** The greedy matching is a matching. */
  lemma {:induction false} GreedyEmbeds(log: seq<Event>, position: nat, stream: seq<Event>) returns (at: seq<nat>)
    requires position <= |log|
    ensures position <= Position(log, position, stream) <= |log|
    ensures EmbedsAt(log[position..Position(log, position, stream)], stream, at)
    decreases |stream|
  {
    PositionBounds(log, position, stream);
    if stream == [] {
      at := [];
    } else {
      var next := Verify(log, false, position, stream[0]).0;
      var later := GreedyEmbeds(log, next, stream[1..]);
      var end := Position(log, position, stream);
      at := SkipFirst(log[next..end], stream, later);
      if next != position {
        MatchingIsEquality(log[position], stream[0]);
        hide EventsMatch, EmbedsAt, Position;
        UseFirst(log[position], log[next..end], stream, at);
        assert [log[position]] + log[next..end] == log[position..end];
        at := [0] + at;
      }
    }
  }

  /** And no matching gets further: whatever embeds, greedy replay has gone past it. */
  lemma {:induction false} GreedyIsFurthest(log: seq<Event>, position: nat, stream: seq<Event>, k: nat, at: seq<nat>)
    requires position <= k <= |log| && EmbedsAt(log[position..k], stream, at)
    ensures k <= Position(log, position, stream)
    decreases |stream|
  {
    assert at != [] ==> 0 <= at[0] < |stream|;
    if stream != [] {
      var next := Verify(log, false, position, stream[0]).0;
      PositionBounds(log, next, stream[1..]);
      MatchingIsEquality(if position < |log| then log[position] else stream[0], stream[0]);
      if k <= next {
      } else {
        hide EventsMatch;
        // Drop the first event of the embedding if greedy replay has consumed it, and shift the rest.
        var drop := next - position;
        var rest := log[next..k];
        var shifted: seq<nat> := seq(|rest|, i requires 0 <= i < |rest| => at[i + drop] - 1);
        forall i | 0 <= i < |rest| ensures shifted[i] < |stream[1..]| && stream[1..][shifted[i]] == rest[i] {
          assert stream[at[i + drop]] == log[position..k][i + drop];
        }
        GreedyIsFurthest(log, next, stream[1..], k, shifted);
      }
    }
  }

  /**
   * Lenient replay is optimal: after any stream of events, the position is the length of the longest prefix of the log
   * that is a subsequence of the stream.
   */
  lemma LenientReplayIsOptimal(log: seq<Event>, stream: seq<Event>)
    ensures
      var p := Position(log, 0, stream);
      && p <= |log| && IsSubsequence(log[..p], stream)
      && (forall k: nat :: k <= |log| && IsSubsequence(log[..k], stream) ==> k <= p)
  {
    var at := GreedyEmbeds(log, 0, stream);
    var p := Position(log, 0, stream);
    assert log[0..p] == log[..p];
    forall k: nat | k <= |log| && IsSubsequence(log[..k], stream) ensures k <= p {
      var other :| EmbedsAt(log[..k], stream, other);
      assert log[0..k] == log[..k];
      GreedyIsFurthest(log, 0, stream, k, other);
    }
  }

  // ---------- strict replay ----------

  /** The first error of a strict replay and the number of events accepted before it. */
  function FirstError(log: seq<Event>, position: nat, stream: seq<Event>): Option<(nat, Verdict)>
    decreases |stream|
  {
    if stream == [] then None
    else
      var (next, verdict) := Verify(log, true, position, stream[0]);
      if verdict.IsError() then Some((position, verdict)) else FirstError(log, next, stream[1..])
  }

  /** The length of the longest common prefix. */
  function CommonPrefix(xs: seq<Event>, ys: seq<Event>): (n: nat)
    ensures n <= |xs| && n <= |ys|
  {
    if xs == [] || ys == [] || xs[0] != ys[0] then 0 else 1 + CommonPrefix(xs[1..], ys[1..])
  }

  lemma {:induction false} CommonPrefixIsLongest(xs: seq<Event>, ys: seq<Event>)
    ensures
      var n := CommonPrefix(xs, ys);
      && n <= |xs| && n <= |ys| && xs[..n] == ys[..n]
      && (n < |xs| && n < |ys| ==> xs[n] != ys[n])
    decreases |xs|
  {
    if xs != [] && ys != [] && xs[0] == ys[0] {
      CommonPrefixIsLongest(xs[1..], ys[1..]);
      var n := CommonPrefix(xs, ys);
      assert xs[..n] == [xs[0]] + xs[1..][..n - 1] && ys[..n] == [ys[0]] + ys[1..][..n - 1];
    }
  }

  lemma {:induction false} FirstErrorFrom(log: seq<Event>, position: nat, stream: seq<Event>)
    requires position <= |log|
    ensures
      var n := CommonPrefix(log[position..], stream);
      FirstError(log, position, stream)
      == if n == |stream| then None
         else if position + n == |log| then Some((position + n, EndOfLog))
         else Some((position + n, Divergence(log[position + n], stream[n], position + n)))
    decreases |stream|
  {
    CommonPrefixIsLongest(log[position..], stream);
    if stream != [] && position < |log| {
      MatchingIsEquality(log[position], stream[0]);
      if log[position] == stream[0] {
        assert log[position..][1..] == log[position + 1..];
        FirstErrorFrom(log, position + 1, stream[1..]);
        CommonPrefixIsLongest(log[position + 1..], stream[1..]);
      }
    }
  }

  /**
   * Strict replay: no error if and only if the stream is a prefix of the log. Otherwise the first error comes right
   * after the longest common prefix; it is the end of the log if that is the whole log, and a divergence at that
   * position if it is not.
   */
  lemma StrictReplayFailsAtFirstDifference(log: seq<Event>, stream: seq<Event>)
    ensures FirstError(log, 0, stream) == None <==> stream <= log
    ensures
      var n := CommonPrefix(log, stream);
      FirstError(log, 0, stream).Some? ==>
        && n < |stream| && log[..n] == stream[..n]
        && FirstError(log, 0, stream).value
           == (n, if n == |log| then EndOfLog else Divergence(log[n], stream[n], n))
        && (n < |log| ==> log[n] != stream[n])
  {
    assert log[0..] == log;
    FirstErrorFrom(log, 0, stream);
    CommonPrefixIsLongest(log, stream);
    var n := CommonPrefix(log, stream);
    if n == |stream| {
      assert stream[..n] == stream;
    } else if |stream| <= |log| {
      assert log[..|stream|][n] == log[n] != stream[n];
    }
  }

  // ---------- verdicts ----------

  /** What a caller that checks a whole stream is told, event by event, going on after errors. */
  function Verdicts(log: seq<Event>, strict: bool, position: nat, stream: seq<Event>): seq<Verdict>
    decreases |stream|
  {
    if stream == [] then []
    else
      var (next, verdict) := Verify(log, strict, position, stream[0]);
      [verdict] + Verdicts(log, strict, next, stream[1..])
  }

  /** Where the engine stands after a whole stream. */
  function Standing(log: seq<Event>, strict: bool, position: nat, stream: seq<Event>): nat
    decreases |stream|
  {
    if stream == [] then position else Standing(log, strict, Verify(log, strict, position, stream[0]).0, stream[1..])
  }

  /** How many events have been told to match. */
  function Hits(verdicts: seq<Verdict>): nat {
    if verdicts == [] then 0 else (if verdicts[0] == Matched(true) then 1 else 0) + Hits(verdicts[1..])
  }

  /** What a caller is to be told about an event when this many have matched before. */
  function Told(log: seq<Event>, strict: bool, hits: nat, actual: Event): Verdict {
    if hits >= |log| then EndOfLog
    else if log[hits] == actual then Matched(true)
    else if strict then Divergence(log[hits], actual, hits)
    else Matched(false)
  }

  lemma HitsOfPrefix(verdict: Verdict, rest: seq<Verdict>, i: nat)
    requires 0 < i <= |rest| + 1
    ensures Hits(([verdict] + rest)[..i]) == (if verdict == Matched(true) then 1 else 0) + Hits(rest[..i - 1])
  {
    assert ([verdict] + rest)[..i] == [verdict] + rest[..i - 1];
    assert ([verdict] + rest[..i - 1])[1..] == rest[..i - 1];
  }

  lemma VerifyTells(log: seq<Event>, strict: bool, position: nat, actual: Event)
    ensures
      var (next, verdict) := Verify(log, strict, position, actual);
      && verdict == Told(log, strict, position, actual)
      && next == position + if verdict == Matched(true) then 1 else 0
  {
  }

  lemma {:induction false} VerdictsFrom(log: seq<Event>, strict: bool, position: nat, stream: seq<Event>, i: nat)
    requires i <= |stream|
    ensures
      var verdicts := Verdicts(log, strict, position, stream);
      && |verdicts| == |stream|
      && Standing(log, strict, position, stream[..i]) == position + Hits(verdicts[..i])
      && (i < |stream| ==> verdicts[i] == Told(log, strict, position + Hits(verdicts[..i]), stream[i]))
    decreases |stream|
  {
    if stream != [] {
      var (next, verdict) := Verify(log, strict, position, stream[0]);
      var rest := Verdicts(log, strict, next, stream[1..]);
      VerifyTells(log, strict, position, stream[0]);
      hide Verify, Told;
      VerdictsFrom(log, strict, next, stream[1..], if i == 0 then 0 else i - 1);
      if i > 0 {
        HitsOfPrefix(verdict, rest, i);
        assert stream[..i][0] == stream[0] && stream[..i][1..] == stream[1..][..i - 1];
        assert i < |stream| ==> stream[i] == stream[1..][i - 1];
      }
    }
  }

  /**
   * Every verdict, in both modes, in terms of those before it: with n events told to match so far, an event is told to
   * match exactly when the log has an event n that equals it; otherwise a strict replay diverges there and a lenient
   * one answers that it does not match; and once n is the length of the log, every answer is the end of the log. The
   * engine stands at the number of events told to match.
   */
  lemma VerdictsAreExact(log: seq<Event>, strict: bool, stream: seq<Event>, i: nat)
    requires i < |stream|
    ensures
      var verdicts := Verdicts(log, strict, 0, stream);
      && |verdicts| == |stream|
      && (var n := Hits(verdicts[..i]);
          && n <= |log|
          && (verdicts[i] == Matched(true) <==> n < |log| && log[n] == stream[i])
          && (verdicts[i] == Matched(false) <==> n < |log| && log[n] != stream[i] && !strict)
          && (verdicts[i].Divergence? <==> n < |log| && log[n] != stream[i] && strict)
          && (verdicts[i].Divergence? ==> verdicts[i] == Divergence(log[n], stream[i], n))
          && (verdicts[i] == EndOfLog <==> n == |log|))
      && Standing(log, strict, 0, stream) == Hits(verdicts) == Position(log, 0, stream)
  {
    VerdictsFrom(log, strict, 0, stream, i);
    VerdictsFrom(log, strict, 0, stream, |stream|);
    StandingIsPosition(log, strict, 0, stream);
    StandingIsPosition(log, strict, 0, stream[..i]);
    PositionBounds(log, 0, stream[..i]);
    assert stream[..|stream|] == stream;
    assert Verdicts(log, strict, 0, stream)[..|stream|] == Verdicts(log, strict, 0, stream);
    hide Verdicts, Standing, Position, Hits;
  }

  /** Both modes stand at the same position. */
  lemma {:induction false} StandingIsPosition(log: seq<Event>, strict: bool, position: nat, stream: seq<Event>)
    ensures Standing(log, strict, position, stream) == Position(log, position, stream)
    decreases |stream|
  {
    if stream != [] {
      StandingIsPosition(log, strict, Verify(log, strict, position, stream[0]).0, stream[1..]);
    }
  }
}
