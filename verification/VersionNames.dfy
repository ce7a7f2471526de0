/**
 * Branches, tags and histories in src/state_versioning.rs, in terms of what callers have done and been answered.
 */
module VersionNames {
  import opened Basics
  import opened VersionGraphs

  /** A call and its answer. */
  datatype Event = Event(op: Op, outcome: Outcome)

  function Trace(v: Versions, ops: seq<Op>): seq<Event>
    decreases |ops|
  {
    if ops == [] then []
    else var (after, outcome) := Step(v, ops[0]); [Event(ops[0], outcome)] + Trace(after, ops[1..])
  }

  /** Where a branch was last created, if it has not been deleted since; calls that failed do not count. */
  function BranchIn(trace: seq<Event>, name: string): Option<Id> {
    if trace == [] then None
    else
      match trace[|trace| - 1]
      case Event(CreateBranchOp(n, at, _), Done) => if n == name then Some(at) else BranchIn(trace[..|trace| - 1], name)
      case Event(DeleteBranchOp(n), Done) => if n == name then None else BranchIn(trace[..|trace| - 1], name)
      case _ => BranchIn(trace[..|trace| - 1], name)
  }

  /** The same for a tag. */
  function TagIn(trace: seq<Event>, name: string): Option<Id> {
    if trace == [] then None
    else
      match trace[|trace| - 1]
      case Event(CreateTagOp(n, at), Done) => if n == name then Some(at) else TagIn(trace[..|trace| - 1], name)
      case Event(DeleteTagOp(n), Done) => if n == name then None else TagIn(trace[..|trace| - 1], name)
      case _ => TagIn(trace[..|trace| - 1], name)
  }

  /** What a call that succeeded has put on record. */
  function OnRecord(e: Event): Option<Entry> {
    match e
    case Event(RecordOp(id, parent, now, message, author), _) => Some(Entry(id, parent, now, message, author))
    case Event(CreateBranchOp(name, at, now), Done) => Some(Entry(at, None, now, "Branch: " + name, "system"))
    case Event(RollbackOp(to, newId, now), RolledBack(_)) => Some(Entry(newId, Some(to), now, "Rollback", "system"))
    case _ => None
  }

  /** All that is on record about a state, oldest first. */
  function RecordsIn(trace: seq<Event>, id: Id): seq<Entry> {
    if trace == [] then []
    else
      var entry := OnRecord(trace[|trace| - 1]);
      RecordsIn(trace[..|trace| - 1], id) + if entry.Some? && entry.value.stateId == id then [entry.value] else []
  }

  function EntriesOf(v: Versions, id: Id): seq<Entry> {
    if id in v.graph then v.graph[id].entries else []
  }

  /** The names and histories that are stored are those that calls and answers tell of. */
  ghost predicate Told(v: Versions, trace: seq<Event>) {
    && (forall name :: BranchOf(v, name) == BranchIn(trace, name) && TagOf(v, name) == TagIn(trace, name))
    && (forall id :: EntriesOf(v, id) == RecordsIn(trace, id) && (id in v.graph <==> RecordsIn(trace, id) != []))
  }

  lemma OneMoreEvent(trace: seq<Event>, e: Event, name: string, id: Id)
    ensures
      BranchIn(trace + [e], name) ==
        match e
        case Event(CreateBranchOp(n, at, _), Done) => if n == name then Some(at) else BranchIn(trace, name)
        case Event(DeleteBranchOp(n), Done) => if n == name then None else BranchIn(trace, name)
        case _ => BranchIn(trace, name)
    ensures
      TagIn(trace + [e], name) ==
        match e
        case Event(CreateTagOp(n, at), Done) => if n == name then Some(at) else TagIn(trace, name)
        case Event(DeleteTagOp(n), Done) => if n == name then None else TagIn(trace, name)
        case _ => TagIn(trace, name)
    ensures
      RecordsIn(trace + [e], id) ==
        RecordsIn(trace, id) + if OnRecord(e).Some? && OnRecord(e).value.stateId == id then [OnRecord(e).value] else []
  {
    assert (trace + [e])[..|trace + [e]| - 1] == trace;
    hide OnRecord;
  }

  lemma NamesAfter(v: Versions, op: Op, name: string)
    ensures
      BranchOf(Step(v, op).0, name) ==
        match Event(op, Step(v, op).1)
        case Event(CreateBranchOp(n, at, _), Done) => if n == name then Some(at) else BranchOf(v, name)
        case Event(DeleteBranchOp(n), Done) => if n == name then None else BranchOf(v, name)
        case _ => BranchOf(v, name)
    ensures
      TagOf(Step(v, op).0, name) ==
        match Event(op, Step(v, op).1)
        case Event(CreateTagOp(n, at), Done) => if n == name then Some(at) else TagOf(v, name)
        case Event(DeleteTagOp(n), Done) => if n == name then None else TagOf(v, name)
        case _ => TagOf(v, name)
  {
    hide Record;
  }

  lemma EntriesAfterRecord(g: Graph, e: Entry, id: Id)
    ensures
      var after := Record(g, e.stateId, e.parentId, e.timestamp, e.message, e.author);
      && after.Keys == g.Keys + {e.stateId}
      && (if id in after then after[id].entries else [])
         == (if id in g then g[id].entries else []) + (if e.stateId == id then [e] else [])
  {
  }

  lemma EntriesAfter(v: Versions, op: Op, id: Id)
    ensures
      var after, entry := Step(v, op).0, OnRecord(Event(op, Step(v, op).1));
      && EntriesOf(after, id)
         == EntriesOf(v, id) + (if entry.Some? && entry.value.stateId == id then [entry.value] else [])
      && (id in after.graph <==> id in v.graph || (entry.Some? && entry.value.stateId == id))
  {
    StepRecords(v, op);
    assert OnRecord(Event(op, Step(v, op).1)) == RecordingOf(v, op) by {
      hide Record;
    }
    hide Step, Record, OnRecord;
    if RecordingOf(v, op).Some? {
      EntriesAfterRecord(v.graph, RecordingOf(v, op).value, id);
    }
  }

  lemma StepIsTold(v: Versions, op: Op, trace: seq<Event>)
    requires Told(v, trace)
    ensures Told(Step(v, op).0, trace + [Event(op, Step(v, op).1)])
  {
    hide Step, OnRecord, BranchIn, TagIn, RecordsIn, BranchOf, TagOf, EntriesOf;
    var after, e := Step(v, op).0, Event(op, Step(v, op).1);
    forall name
      ensures BranchOf(after, name) == BranchIn(trace + [e], name) && TagOf(after, name) == TagIn(trace + [e], name)
    {
      NamesAfter(v, op, name);
      OneMoreEvent(trace, e, name, "");
    }
    forall id
      ensures EntriesOf(after, id) == RecordsIn(trace + [e], id)
      ensures id in after.graph <==> RecordsIn(trace + [e], id) != []
    {
      EntriesAfter(v, op, id);
      OneMoreEvent(trace, e, "", id);
    }
  }

  lemma {:induction false} RunIsTold(v: Versions, ops: seq<Op>, trace: seq<Event>)
    requires Told(v, trace)
    ensures Told(Run(v, ops), trace + Trace(v, ops))
    decreases |ops|
  {
    hide Told, Step;
    if ops == [] {
      assert trace + [] == trace;
    } else {
      var (after, outcome) := Step(v, ops[0]);
      StepIsTold(v, ops[0], trace);
      RunIsTold(after, ops[1..], trace + [Event(ops[0], outcome)]);
      assert trace + [Event(ops[0], outcome)] + Trace(after, ops[1..]) == trace + Trace(v, ops);
    }
  }

  lemma StartIsTold()
    ensures Told(EMPTY, [])
  {
  }

  /**
   * Branches and tags are what callers were told. After every run, a branch is where its last creation that was
   * answered Done put it, unless a deletion has been answered Done since; creating it again fails, and deleting it
   * succeeds, exactly while it is there. The same holds for tags.
   */
  lemma NamesAreWhatCallersWereTold(ops: seq<Op>, name: string, at: Id, now: int)
    ensures
      var v, trace := Run(EMPTY, ops), Trace(EMPTY, ops);
      && BranchOf(v, name) == BranchIn(trace, name)
      && Step(v, CreateBranchOp(name, at, now)).1 == (if BranchIn(trace, name).Some? then BranchExists(name) else Done)
      && Step(v, DeleteBranchOp(name)).1 == (if BranchIn(trace, name).Some? then Done else BranchNotFound(name))
      && TagOf(v, name) == TagIn(trace, name)
      && Step(v, CreateTagOp(name, at)).1 == (if TagIn(trace, name).Some? then TagExists(name) else Done)
      && Step(v, DeleteTagOp(name)).1 == (if TagIn(trace, name).Some? then Done else TagNotFound(name))
  {
    StartIsTold();
    RunIsTold(EMPTY, ops, []);
    assert [] + Trace(EMPTY, ops) == Trace(EMPTY, ops);
    hide Run, Trace, BranchIn, TagIn, RecordsIn, EntriesOf, Record;
  }

  /**
   * The history of a state is what calls that succeeded have put on record about it, in order; a rollback succeeds
   * exactly when something is on record about its target, and answers with the new state.
   */
  lemma HistoriesAreWhatIsOnRecord(ops: seq<Op>, id: Id, newId: Id, now: int)
    ensures
      var v, trace := Run(EMPTY, ops), Trace(EMPTY, ops);
      && EntriesOf(v, id) == RecordsIn(trace, id)
      && Step(v, RollbackOp(id, newId, now)).1
         == (if RecordsIn(trace, id) != [] then RolledBack(newId) else StateNotFound(id))
  {
    StartIsTold();
    RunIsTold(EMPTY, ops, []);
    assert [] + Trace(EMPTY, ops) == Trace(EMPTY, ops);
    hide Run, Trace, BranchIn, TagIn, RecordsIn, BranchOf, TagOf, Record, EntriesOf;
  }

  /** A rollback to a state makes a new one whose ancestry is that of its target, with itself in front. */
  lemma RollbackContinuesTheAncestry(v: Versions, to: Id, newId: Id, now: int, r: seq<Id>)
    requires Recorded(v.graph) && to in v.graph && newId !in v.graph
    requires IsChain(v.graph, to, r) && StopOf(v.graph, to, r) != Some(newId)
    ensures
      var (after, outcome) := Step(v, RollbackOp(to, newId, now));
      outcome == RolledBack(newId) && IsChain(after.graph, newId, [newId] + r)
  {
    var after := Step(v, RollbackOp(to, newId, now)).0.graph;
    RecordExtends(v.graph, newId, Some(to), now, "Rollback", "system");
    hide Record;
    ChainStays(v.graph, after, newId, Some(to), to, r);
    assert ([newId] + r)[1..] == r;
  }
}
