/**
 * The event recorder of src/deterministic.rs: run by one caller, and with the three steps of every log call (test the
 * flag, take a number, push the entry) interleaved with those of other calls.
 */
module Recorders {
  import opened Basics
  import opened Replays

  /** The arguments of the log_* calls, as far as they reach the log. */
  datatype LogCall =
    | LogSyscall(syscallName: string)
    | LogSignal(signalName: string)
    | LogThreadSchedule(threadId: nat, cpuCore: nat)
    | LogNetworkIo(connectionId: string, bytesTransferred: nat)
    | LogRandomness(seed: nat, bytesRead: nat)
  {
    function ToEvent(): Event {
      match this
      case LogSyscall(name) => Syscall(name)
      case LogSignal(name) => Signal(name)
      case LogThreadSchedule(thread, _) => ThreadSchedule(thread)
      case LogNetworkIo(connection, _) => NetworkIoBoundary(connection)
      case LogRandomness(seed, _) => RandomnessSeed(seed)
    }
  }

  // ---------- one caller ----------

  datatype Recorder = Recorder(entries: seq<LogEntry>, sequence: nat, recording: bool)

  const FRESH := Recorder([], 0, true)

  datatype RecorderOp = Enable | Disable | Log(call: LogCall)

  /** The recorder after an operation, and what a log call returns. */
  function StepRecorder(r: Recorder, op: RecorderOp): (Recorder, nat) {
    match op
    case Enable => (r.(recording := true), 0)
    case Disable => (r.(recording := false), 0)
    case Log(call) =>
      if !r.recording then (r, 0)
      else
        (r.(sequence := r.sequence + 1, entries := r.entries + [LogEntry(r.sequence + 1, call.ToEvent())]),
         r.sequence + 1)
  }

  /** The projection of the entries that is handed out for replay. */
  function EventLog(r: Recorder): seq<Event> {
    EventsOf(r.entries)
  }

  class DeterministicLogger {
    var entries: seq<LogEntry>
    var sequence: nat
    var recording: bool

    function Value(): Recorder
      reads this
    {
      Recorder(entries, sequence, recording)
    }

    constructor ()
      ensures Value() == FRESH
    {
      entries := [];
      sequence := 0;
      recording := true;
    }

    method EnableRecording()
      modifies this
      ensures Value() == StepRecorder(old(Value()), Enable).0
    {
      recording := true;
    }

    method DisableRecording()
      modifies this
      ensures Value() == StepRecorder(old(Value()), Disable).0
    {
      recording := false;
    }

    /** The log_* calls, which differ only in how they make the event. */
    method LogEvent(call: LogCall) returns (number: nat)
      modifies this
      ensures (Value(), number) == StepRecorder(old(Value()), Log(call))
    {
      if !recording {
        return 0;
      }
      sequence := sequence + 1;
      number := sequence;
      entries := entries + [LogEntry(number, call.ToEvent())];
    }

    function GetEventLog(): (log: seq<Event>)
      reads this
      ensures log == EventLog(Value())
    {
      EventsOf(entries)
    }
  }

  function RunRecorder(r: Recorder, ops: seq<RecorderOp>): Recorder
    decreases |ops|
  {
    if ops == [] then r else RunRecorder(StepRecorder(r, ops[0]).0, ops[1..])
  }

  /** The events of the log calls made while recording was on. */
  function LoggedWhileOn(on: bool, ops: seq<RecorderOp>): seq<Event>
    decreases |ops|
  {
    if ops == [] then []
    else
      match ops[0]
      case Enable => LoggedWhileOn(true, ops[1..])
      case Disable => LoggedWhileOn(false, ops[1..])
      case Log(call) => (if on then [call.ToEvent()] else []) + LoggedWhileOn(on, ops[1..])
  }

  ghost predicate Numbered(r: Recorder) {
    r.sequence == |r.entries| && forall i :: 0 <= i < |r.entries| ==> r.entries[i].sequence == i + 1
  }

  lemma {:induction false} RunRecords(r: Recorder, ops: seq<RecorderOp>)
    requires Numbered(r)
    ensures
      var after := RunRecorder(r, ops);
      Numbered(after) && EventsOf(after.entries) == EventsOf(r.entries) + LoggedWhileOn(r.recording, ops)
    decreases |ops|
  {
    if ops == [] {
      assert EventsOf(r.entries) + [] == EventsOf(r.entries);
    } else {
      var next := StepRecorder(r, ops[0]).0;
      RunRecords(next, ops[1..]);
      if ops[0].Log? && r.recording {
        var event := ops[0].call.ToEvent();
        assert EventsOf(next.entries) == EventsOf(r.entries) + [event];
        assert EventsOf(r.entries) + [event] + LoggedWhileOn(true, ops[1..])
            == EventsOf(r.entries) + ([event] + LoggedWhileOn(true, ops[1..]));
      }
    }
  }

  /**
   * The replay guarantee. A recorder used by one caller logs precisely the events of the calls made while recording
   * was on, in order and numbered from one, and replaying these events against the log completes without an error,
   * strictly and leniently.
   */
  lemma RecordedRunReplays(ops: seq<RecorderOp>)
    ensures
      var r := RunRecorder(FRESH, ops);
      var log := EventLog(r);
      && Numbered(r) && log == LoggedWhileOn(true, ops)
      && FirstError(log, 0, log) == None && Complete(log, Position(log, 0, log))
  {
    RunRecords(FRESH, ops);
    var log := EventsOf(RunRecorder(FRESH, ops).entries);
    assert [] + LoggedWhileOn(true, ops) == LoggedWhileOn(true, ops);
    StrictReplayFailsAtFirstDifference(log, log);
    LenientReplayIsOptimal(log, log);
    assert log[..|log|] == log;
    assert EmbedsAt(log, log, seq(|log|, i => i));
    assert IsSubsequence(log[..|log|], log);
  }

  /** What the calls of a run return, zero for those that log nothing. */
  function LogAnswers(r: Recorder, ops: seq<RecorderOp>): seq<nat>
    decreases |ops|
  {
    if ops == [] then []
    else var (after, number) := StepRecorder(r, ops[0]); [number] + LogAnswers(after, ops[1..])
  }

  /** Whether recording is on after these operations. */
  function OnAfter(on: bool, ops: seq<RecorderOp>): bool
    decreases |ops|
  {
    if ops == [] then on
    else
      OnAfter(match ops[0] case Enable => true case Disable => false case Log(_) => on, ops[1..])
  }

  /** How many of these operations are log calls made while recording is on. */
  function CallsWhileOn(on: bool, ops: seq<RecorderOp>): nat
    decreases |ops|
  {
    if ops == [] then 0
    else
      (if ops[0].Log? && on then 1 else 0)
      + CallsWhileOn(match ops[0] case Enable => true case Disable => false case Log(_) => on, ops[1..])
  }

  /** The event tells of this call: its kind, and the one argument that replay compares. */
  predicate Tells(event: Event, call: LogCall) {
    match event
    case Syscall(name) => call.LogSyscall? && call.syscallName == name
    case Signal(signal) => call.LogSignal? && call.signalName == signal
    case ThreadSchedule(threadId) => call.LogThreadSchedule? && call.threadId == threadId
    case NetworkIoBoundary(connectionId) => call.LogNetworkIo? && call.connectionId == connectionId
    case RandomnessSeed(seed) => call.LogRandomness? && call.seed == seed
  }

  lemma StepLogs(r: Recorder, op: RecorderOp)
    requires Numbered(r)
    ensures
      var (after, number) := StepRecorder(r, op);
      && Numbered(after) && r.entries <= after.entries
      && after.recording == (match op case Enable => true case Disable => false case Log(_) => r.recording)
      && |after.entries| == |r.entries| + (if op.Log? && r.recording then 1 else 0)
      && (op.Log? && r.recording ==>
            && number == |r.entries| + 1 && after.entries[|r.entries|].sequence == number
            && Tells(after.entries[|r.entries|].event, op.call))
      && (!(op.Log? && r.recording) ==> number == 0)
  {
  }

  lemma {:induction false} EntriesGrow(r: Recorder, ops: seq<RecorderOp>)
    requires Numbered(r)
    ensures r.entries <= RunRecorder(r, ops).entries
    decreases |ops|
  {
    hide StepRecorder, Numbered, Tells;
    if ops != [] {
      StepLogs(r, ops[0]);
      EntriesGrow(StepRecorder(r, ops[0]).0, ops[1..]);
    }
  }

  lemma {:induction false} AnswersFrom(r: Recorder, ops: seq<RecorderOp>, i: nat)
    requires Numbered(r) && i < |ops| && ops[i].Log?
    ensures
      var answers, entries := LogAnswers(r, ops), RunRecorder(r, ops).entries;
      var n := |r.entries| + CallsWhileOn(r.recording, ops[..i]);
      && |answers| == |ops|
      && if OnAfter(r.recording, ops[..i]) then
           answers[i] == n + 1 && n < |entries| && entries[n].sequence == n + 1 && Tells(entries[n].event, ops[i].call)
         else answers[i] == 0
    decreases |ops|
  {
    var (after, number) := StepRecorder(r, ops[0]);
    StepLogs(r, ops[0]);
    hide StepRecorder, Numbered, Tells;
    AnswersLength(after, ops[1..]);
    if i == 0 {
      EntriesGrow(after, ops[1..]);
      assert ops[..0] == [];
    } else {
      assert ops[..i][0] == ops[0] && ops[..i][1..] == ops[1..][..i - 1];
      AnswersFrom(after, ops[1..], i - 1);
    }
  }

  lemma {:induction false} AnswersLength(r: Recorder, ops: seq<RecorderOp>)
    ensures |LogAnswers(r, ops)| == |ops|
    decreases |ops|
  {
    if ops != [] {
      AnswersLength(StepRecorder(r, ops[0]).0, ops[1..]);
    }
  }

  /**
   * What a log call returns: with n calls logged before it, and recording on, the number n + 1, under which the log
   * holds an event that tells of this call; and zero when recording is off.
   */
  lemma CallsReturnTheirNumbers(ops: seq<RecorderOp>, i: nat)
    requires i < |ops| && ops[i].Log?
    ensures
      var answers, entries := LogAnswers(FRESH, ops), RunRecorder(FRESH, ops).entries;
      var n := CallsWhileOn(true, ops[..i]);
      && |answers| == |ops|
      && if OnAfter(true, ops[..i]) then
           answers[i] == n + 1 && n < |entries| && entries[n].sequence == n + 1 && Tells(entries[n].event, ops[i].call)
         else answers[i] == 0
  {
    AnswersFrom(FRESH, ops, i);
  }

  // ---------- interleaved callers ----------

  /** How far a call in flight has come: past the test of the flag, or holding a number. */
  datatype Phase = Checked(event: Event) | Holding(event: Event, number: nat)

  datatype Shared = Shared(recording: bool, counter: nat, entries: seq<LogEntry>, inFlight: map<nat, Phase>)

  const START := Shared(true, 0, [], map[])

  datatype Action = Toggle(on: bool) | Begin(caller: nat, call: LogCall) | Take(caller: nat) | Push(caller: nat)

  predicate Enabled(s: Shared, a: Action) {
    match a
    case Toggle(_) => true
    case Begin(caller, _) => caller !in s.inFlight
    case Take(caller) => caller in s.inFlight && s.inFlight[caller].Checked?
    case Push(caller) => caller in s.inFlight && s.inFlight[caller].Holding?
  }

  function Act(s: Shared, a: Action): Shared
    requires Enabled(s, a)
  {
    match a
    case Toggle(on) => s.(recording := on)
    case Begin(caller, call) =>
      if s.recording then s.(inFlight := s.inFlight[caller := Checked(call.ToEvent())]) else s
    case Take(caller) =>
      s.(counter := s.counter + 1,
         inFlight := s.inFlight[caller := Holding(s.inFlight[caller].event, s.counter + 1)])
    case Push(caller) =>
      s.(entries := s.entries + [LogEntry(s.inFlight[caller].number, s.inFlight[caller].event)],
         inFlight := s.inFlight - {caller})
  }

  /** A call that is not interrupted does what the recorder of one caller does. */
  lemma UninterruptedCallLogs(s: Shared, caller: nat, call: LogCall)
    requires caller !in s.inFlight
    ensures
      var begun := Act(s, Begin(caller, call));
      var r := StepRecorder(Recorder(s.entries, s.counter, s.recording), Log(call)).0;
      if !s.recording then begun == s && r == Recorder(s.entries, s.counter, s.recording)
      else
        Enabled(begun, Take(caller)) &&
        var taken := Act(begun, Take(caller));
        && Enabled(taken, Push(caller))
        && Act(taken, Push(caller)) == Shared(r.recording, r.sequence, r.entries, s.inFlight)
  {
    if s.recording {
      var taken := Act(Act(s, Begin(caller, call)), Take(caller));
      assert taken.inFlight - {caller} == s.inFlight;
    }
  }

  ghost predicate Schedule(s: Shared, actions: seq<Action>)
    decreases |actions|
  {
    actions == [] || (Enabled(s, actions[0]) && Schedule(Act(s, actions[0]), actions[1..]))
  }

  function Execute(s: Shared, actions: seq<Action>): Shared
    requires Schedule(s, actions)
    decreases |actions|
  {
    if actions == [] then s else Execute(Act(s, actions[0]), actions[1..])
  }

  /** A call holds this number. */
  ghost predicate Held(s: Shared, number: nat) {
    exists caller :: caller in s.inFlight && s.inFlight[caller].Holding? && s.inFlight[caller].number == number
  }

  /** An entry carries this number. */
  ghost predicate Logged(s: Shared, number: nat) {
    exists i :: 0 <= i < |s.entries| && s.entries[i].sequence == number
  }

  /** Every number from one to the counter is either logged, once, or held, by one call; no other number is. */
  ghost predicate Accounted(s: Shared) {
    && (forall n: nat :: 1 <= n <= s.counter <==> Held(s, n) || Logged(s, n))
    && (forall n: nat :: !(Held(s, n) && Logged(s, n)))
    && (forall i, j :: 0 <= i < j < |s.entries| ==> s.entries[i].sequence != s.entries[j].sequence)
    && (forall a, b ::
          a in s.inFlight && b in s.inFlight && a != b && s.inFlight[a].Holding? && s.inFlight[b].Holding? ==>
          s.inFlight[a].number != s.inFlight[b].number)
  }

  lemma TakeAccounts(s: Shared, caller: nat)
    requires Accounted(s) && Enabled(s, Take(caller))
    ensures Accounted(Act(s, Take(caller)))
  {
    var after := Act(s, Take(caller));
    forall n: nat ensures Held(after, n) <==> Held(s, n) || n == s.counter + 1 {
      if Held(s, n) {
        var c :| c in s.inFlight && s.inFlight[c].Holding? && s.inFlight[c].number == n;
        assert c in after.inFlight && after.inFlight[c].Holding? && after.inFlight[c].number == n;
      }
      assert after.inFlight[caller].number == s.counter + 1;
    }
    forall n: nat ensures Logged(after, n) <==> Logged(s, n) {}
    forall c | c in s.inFlight && s.inFlight[c].Holding? ensures s.inFlight[c].number <= s.counter {
      assert Held(s, s.inFlight[c].number);
    }
    hide Held, Logged;
    assert !Held(s, s.counter + 1) && !Logged(s, s.counter + 1);
  }

  lemma PushAccounts(s: Shared, caller: nat)
    requires Accounted(s) && Enabled(s, Push(caller))
    ensures Accounted(Act(s, Push(caller)))
  {
    var after, number := Act(s, Push(caller)), s.inFlight[caller].number;
    assert Held(s, number);
    forall n: nat ensures Held(after, n) <==> Held(s, n) && n != number {
      if Held(s, n) && n != number {
        var c :| c in s.inFlight && s.inFlight[c].Holding? && s.inFlight[c].number == n;
        assert c in after.inFlight;
      }
    }
    forall n: nat ensures Logged(after, n) <==> Logged(s, n) || n == number {
      if Logged(s, n) {
        var i :| 0 <= i < |s.entries| && s.entries[i].sequence == n;
        assert after.entries[i].sequence == n;
      }
      assert after.entries[|s.entries|].sequence == number;
    }
    forall i | 0 <= i < |s.entries| ensures s.entries[i].sequence != number {
      assert Logged(s, s.entries[i].sequence);
    }
    hide Held, Logged;
  }

  lemma BeginAccounts(s: Shared, caller: nat, call: LogCall)
    requires Accounted(s) && Enabled(s, Begin(caller, call))
    ensures Accounted(Act(s, Begin(caller, call)))
  {
    var after := Act(s, Begin(caller, call));
    forall n: nat ensures Held(after, n) <==> Held(s, n) {
      if Held(s, n) {
        var c :| c in s.inFlight && s.inFlight[c].Holding? && s.inFlight[c].number == n;
        assert c in after.inFlight && after.inFlight[c] == s.inFlight[c];
      }
    }
    forall n: nat ensures Logged(after, n) <==> Logged(s, n) {}
    hide Held, Logged;
  }

  lemma ActAccounts(s: Shared, a: Action)
    requires Accounted(s) && Enabled(s, a)
    ensures Accounted(Act(s, a))
  {
    match a
    case Toggle(on) =>
      forall n: nat ensures (Held(Act(s, a), n) <==> Held(s, n)) && (Logged(Act(s, a), n) <==> Logged(s, n)) {}
      hide Held, Logged;
    case Begin(caller, call) => BeginAccounts(s, caller, call);
    case Take(caller) => TakeAccounts(s, caller);
    case Push(caller) => PushAccounts(s, caller);
  }

  lemma {:induction false} ExecuteAccounts(s: Shared, actions: seq<Action>)
    requires Accounted(s) && Schedule(s, actions)
    ensures Accounted(Execute(s, actions))
    decreases |actions|
  {
    hide Accounted, Act, Enabled;
    if actions != [] {
      ActAccounts(s, actions[0]);
      ExecuteAccounts(Act(s, actions[0]), actions[1..]);
    }
  }

  /**
   * Numbering survives every interleaving: sequence numbers in the log are always distinct and between one and the
   * counter, and once no call is in flight they are exactly the numbers from one to the counter.
   */
  lemma NumbersAreDistinctAndComplete(actions: seq<Action>)
    requires Schedule(START, actions)
    ensures
      var s := Execute(START, actions);
      && (forall i :: 0 <= i < |s.entries| ==> 1 <= s.entries[i].sequence <= s.counter)
      && (forall i, j :: 0 <= i < j < |s.entries| ==> s.entries[i].sequence != s.entries[j].sequence)
      && (s.inFlight == map[] ==>
            && |s.entries| == s.counter
            && forall n: nat :: 1 <= n <= s.counter ==> Logged(s, n))
  {
    var s := Execute(START, actions);
    assert Accounted(START);
    ExecuteAccounts(START, actions);
    forall i | 0 <= i < |s.entries| ensures 1 <= s.entries[i].sequence <= s.counter {
      assert Logged(s, s.entries[i].sequence);
    }
    if s.inFlight == map[] {
      forall n: nat | 1 <= n <= s.counter ensures Logged(s, n) {
        assert !Held(s, n);
      }
      CountNumbers(s);
    }
  }

  lemma CountNumbers(s: Shared)
    requires forall i, j :: 0 <= i < j < |s.entries| ==> s.entries[i].sequence != s.entries[j].sequence
    requires forall i :: 0 <= i < |s.entries| ==> 1 <= s.entries[i].sequence <= s.counter
    requires forall n: nat :: 1 <= n <= s.counter ==> Logged(s, n)
    ensures |s.entries| == s.counter
  {
    var numbers: seq<int> := seq(|s.entries|, i requires 0 <= i < |s.entries| => s.entries[i].sequence);
    DistinctFitsIn(numbers, Interval(1, s.counter + 1));
    var present := set i | 0 <= i < |numbers| :: numbers[i];
    forall n | n in Interval(1, s.counter + 1) ensures n in present {
      assert Logged(s, n);
      var i :| 0 <= i < |s.entries| && s.entries[i].sequence == n;
      assert numbers[i] == n;
    }
    SubsetSize(Interval(1, s.counter + 1), present);
    ImageSize(numbers);
  }

  lemma {:induction false} ImageSize(s: seq<int>)
    ensures |set i | 0 <= i < |s| :: s[i]| <= |s|
    decreases |s|
  {
    var image := set i | 0 <= i < |s| :: s[i];
    if s == [] {
      assert image == {};
    } else {
      var front := s[..|s| - 1];
      ImageSize(front);
      var smaller := set i | 0 <= i < |front| :: front[i];
      assert image == smaller + {s[|s| - 1]};
    }
  }

  // ---------- order ----------

  ghost predicate InNumberOrder(entries: seq<LogEntry>) {
    forall i, j :: 0 <= i < j < |entries| ==> entries[i].sequence < entries[j].sequence
  }

  /** Whoever pushes holds the smallest number in flight. */
  ghost predicate PushesSmallest(s: Shared, a: Action) {
    a.Push? && a.caller in s.inFlight && s.inFlight[a.caller].Holding? ==>
      forall c :: c in s.inFlight && s.inFlight[c].Holding? ==> s.inFlight[a.caller].number <= s.inFlight[c].number
  }

  ghost predicate AlwaysPushesSmallest(s: Shared, actions: seq<Action>)
    requires Schedule(s, actions)
    decreases |actions|
  {
    actions == [] || (PushesSmallest(s, actions[0]) && AlwaysPushesSmallest(Act(s, actions[0]), actions[1..]))
  }

  /** The log is in order and everything held comes later. */
  ghost predicate Orderly(s: Shared) {
    && InNumberOrder(s.entries)
    && (forall i :: 0 <= i < |s.entries| ==> s.entries[i].sequence <= s.counter)
    && (forall c :: c in s.inFlight && s.inFlight[c].Holding? ==> s.inFlight[c].number <= s.counter)
    && (forall i, c :: 0 <= i < |s.entries| && c in s.inFlight && s.inFlight[c].Holding? ==>
          s.entries[i].sequence < s.inFlight[c].number)
    && (forall a, b ::
          a in s.inFlight && b in s.inFlight && a != b && s.inFlight[a].Holding? && s.inFlight[b].Holding? ==>
          s.inFlight[a].number != s.inFlight[b].number)
  }

  lemma ActStaysOrderly(s: Shared, a: Action)
    requires Orderly(s) && Enabled(s, a) && PushesSmallest(s, a)
    ensures Orderly(Act(s, a))
  {
  }

  lemma {:induction false} SmallestFirstIsOrderly(s: Shared, actions: seq<Action>)
    requires Schedule(s, actions) && Orderly(s) && AlwaysPushesSmallest(s, actions)
    ensures InNumberOrder(Execute(s, actions).entries)
    decreases |actions|
  {
    if actions != [] {
      ActStaysOrderly(s, actions[0]);
      hide Orderly, Act, Enabled, PushesSmallest;
      SmallestFirstIsOrderly(Act(s, actions[0]), actions[1..]);
    }
  }

  /** A held number below a logged one ends up behind it. */
  lemma {:induction false} OvertakenStaysBehind(s: Shared, actions: seq<Action>, i: nat, caller: nat)
    requires Schedule(s, actions) && Execute(s, actions).inFlight == map[]
    requires i < |s.entries| && caller in s.inFlight && s.inFlight[caller].Holding?
    requires s.inFlight[caller].number < s.entries[i].sequence
    ensures !InNumberOrder(Execute(s, actions).entries)
    decreases |actions|
  {
    var a := actions[0];
    var next := Act(s, a);
    assert next.entries[i] == s.entries[i];
    if a == Push(caller) {
      LogOnlyGrows(next, actions[1..]);
      var final := Execute(next, actions[1..]).entries;
      assert final[i] == next.entries[i] && final[|s.entries|] == next.entries[|s.entries|];
    } else {
      OvertakenStaysBehind(next, actions[1..], i, caller);
    }
  }

  lemma {:induction false} LogOnlyGrows(s: Shared, actions: seq<Action>)
    requires Schedule(s, actions)
    ensures s.entries <= Execute(s, actions).entries
    decreases |actions|
  {
    if actions != [] {
      LogOnlyGrows(Act(s, actions[0]), actions[1..]);
    }
  }

  lemma {:induction false} OvertakingShows(s: Shared, actions: seq<Action>)
    requires Schedule(s, actions) && Execute(s, actions).inFlight == map[]
    requires InNumberOrder(Execute(s, actions).entries)
    ensures AlwaysPushesSmallest(s, actions)
    decreases |actions|
  {
    if actions != [] {
      var a := actions[0];
      OvertakingShows(Act(s, a), actions[1..]);
      if !PushesSmallest(s, a) {
        var c :| c in s.inFlight && s.inFlight[c].Holding? && s.inFlight[c].number < s.inFlight[a.caller].number;
        OvertakenStaysBehind(Act(s, a), actions[1..], |s.entries|, c);
      }
    }
  }

  /**
   * When the log really is "in sequence order" (src/deterministic.rs:163): for any interleaving that leaves no call
   * in flight, exactly when every push was made by the call that held the smallest number at the time.
   */
  lemma LogIsInOrderExactly(actions: seq<Action>)
    requires Schedule(START, actions) && Execute(START, actions).inFlight == map[]
    ensures InNumberOrder(Execute(START, actions).entries) <==> AlwaysPushesSmallest(START, actions)
  {
    if AlwaysPushesSmallest(START, actions) {
      SmallestFirstIsOrderly(START, actions);
    }
    if InNumberOrder(Execute(START, actions).entries) {
      OvertakingShows(START, actions);
    }
  }

  /** Two calls can overtake each other between taking a number and pushing. */
  lemma CallsCanOvertake()
    ensures
      var actions := [Begin(1, LogSignal("a")), Begin(2, LogSignal("b")), Take(1), Take(2), Push(2), Push(1)];
      && Schedule(START, actions)
      && Execute(START, actions).entries == [LogEntry(2, Signal("b")), LogEntry(1, Signal("a"))]
  {
    var actions := [Begin(1, LogSignal("a")), Begin(2, LogSignal("b")), Take(1), Take(2), Push(2), Push(1)];
    var s1 := Act(START, Begin(1, LogSignal("a")));
    var s2 := Act(s1, Begin(2, LogSignal("b")));
    var s3 := Act(s2, Take(1));
    var s4 := Act(s3, Take(2));
    var s5 := Act(s4, Push(2));
    var s6 := Act(s5, Push(1));
    Prepend(s5, Push(1), []);
    Prepend(s4, Push(2), [Push(1)]);
    Prepend(s3, Take(2), [Push(2), Push(1)]);
    Prepend(s2, Take(1), [Take(2), Push(2), Push(1)]);
    Prepend(s1, Begin(2, LogSignal("b")), [Take(1), Take(2), Push(2), Push(1)]);
    Prepend(START, Begin(1, LogSignal("a")), [Begin(2, LogSignal("b")), Take(1), Take(2), Push(2), Push(1)]);
    hide Schedule, Execute;
    assert s6.entries == [LogEntry(2, Signal("b")), LogEntry(1, Signal("a"))];
  }

  lemma Prepend(s: Shared, a: Action, rest: seq<Action>)
    requires Enabled(s, a) && Schedule(Act(s, a), rest)
    ensures Schedule(s, [a] + rest) && Execute(s, [a] + rest) == Execute(Act(s, a), rest)
  {
    assert ([a] + rest)[1..] == rest;
  }
}
