/** How long a state stored in src/state_store.rs can be read. */
module StateLifetime {
  import opened Basics
  import opened StateStores

  const TWO_TO_THE_63: nat := 0x8000_0000_0000_0000
  const TWO_TO_THE_64: nat := 0x1_0000_0000_0000_0000

  /**
   * The time a state stored at t stays protected until, if it has a time to live. The cast of the source to i64 turns
   * 2 to the 63rd seconds or more into a negative number.
   */
  predicate IsDeadline(ttlSeconds: Option<nat>, t: int, deadline: Option<int>) {
    match ttlSeconds
    case None => deadline == None
    case Some(ttl) =>
      ttl < TWO_TO_THE_64
      && deadline == Some(if ttl < TWO_TO_THE_63 then t + ttl else t + ttl - TWO_TO_THE_64)
  }

  /** The references to a state that was stored with one, after these operations. */
  function CountAfter(ops: seq<Op>, id: Id): nat {
    if ops == [] then 1
    else
      var count := CountAfter(ops[..|ops| - 1], id);
      match ops[|ops| - 1]
      case IncrementOp(x) => if x == id then count + 1 else count
      case DecrementOp(x) => if x == id && count > 0 then count - 1 else count
      case DeleteOp(x) => if x == id && count > 0 then count - 1 else count
      case _ => count
  }

  /** An operation that removes a state with this many references and this deadline. */
  predicate Ends(op: Op, id: Id, count: nat, deadline: Option<int>) {
    match op
    case CollectOp(now) => count == 0 && deadline.Some? && now > deadline.value
    case DeleteOp(x) => x == id && count <= 1
    case _ => false
  }

  /** No pass has found the state unreferenced and past its deadline, and nobody has deleted its last reference. */
  predicate NothingEnds(ops: seq<Op>, id: Id, deadline: Option<int>) {
    forall i :: 0 <= i < |ops| ==> !Ends(ops[i], id, CountAfter(ops[..i], id), deadline)
  }

  predicate StoresAgain(ops: seq<Op>, id: Id) {
    exists i :: 0 <= i < |ops| && ops[i].PutOp? && ops[i].state.stateId == id
  }

  lemma NothingEndsOneMore(ops: seq<Op>, op: Op, id: Id, deadline: Option<int>)
    ensures
      NothingEnds(ops + [op], id, deadline) <==>
        NothingEnds(ops, id, deadline) && !Ends(op, id, CountAfter(ops, id), deadline)
  {
    hide Ends, CountAfter;
    var grown := ops + [op];
    forall i | 0 <= i <= |ops| ensures grown[..i] == ops[..i] {
    }
    assert ops[..|ops|] == ops && grown[|ops|] == op;
    if NothingEnds(grown, id, deadline) {
      forall i | 0 <= i < |ops| ensures !Ends(ops[i], id, CountAfter(ops[..i], id), deadline) {
        assert grown[i] == ops[i];
      }
      assert !Ends(grown[|ops|], id, CountAfter(grown[..|ops|], id), deadline);
    }
  }

  lemma CountOneMore(ops: seq<Op>, op: Op, id: Id)
    ensures
      var count := CountAfter(ops, id);
      CountAfter(ops + [op], id) ==
        match op
        case IncrementOp(x) => if x == id then count + 1 else count
        case DecrementOp(x) => if x == id && count > 0 then count - 1 else count
        case DeleteOp(x) => if x == id && count > 0 then count - 1 else count
        case _ => count
  {
    assert (ops + [op])[..|ops + [op]| - 1] == ops;
  }

  /** One more operation, on the plain map. */
  lemma StepLives(codec: Codec, p: Plain, op: Op, state: State, count: nat, deadline: Option<int>)
    requires !(op.PutOp? && op.state.stateId == state.stateId)
    requires state.stateId in p.states ==> p.states[state.stateId] == PlainEntry(state, count, deadline)
    ensures
      var q := PlainStep(codec, p, op).0;
      && (state.stateId in q.states <==> state.stateId in p.states && !Ends(op, state.stateId, count, deadline))
      && (state.stateId in q.states ==>
            q.states[state.stateId] ==
              PlainEntry(state,
                         match op
                         case IncrementOp(x) => if x == state.stateId then count + 1 else count
                         case DecrementOp(x) => if x == state.stateId && count > 0 then count - 1 else count
                         case DeleteOp(x) => if x == state.stateId && count > 0 then count - 1 else count
                         case _ => count,
                         deadline))
  {
    hide IsState;
  }

  lemma {:induction false} PlainLives(codec: Codec, p: Plain, ops: seq<Op>, state: State, deadline: Option<int>)
    requires state.stateId in p.states && p.states[state.stateId] == PlainEntry(state, 1, deadline)
    requires !StoresAgain(ops, state.stateId)
    ensures
      var q := PlainRun(codec, p, ops);
      && (state.stateId in q.states <==> NothingEnds(ops, state.stateId, deadline))
      && (state.stateId in q.states ==>
            q.states[state.stateId] == PlainEntry(state, CountAfter(ops, state.stateId), deadline))
    decreases |ops|
  {
    if ops != [] {
      var front, op := ops[..|ops| - 1], ops[|ops| - 1];
      assert ops == front + [op];
      forall i | 0 <= i < |front| ensures !(front[i].PutOp? && front[i].state.stateId == state.stateId) {
        assert front[i] == ops[i];
      }
      assert !StoresAgain(front, state.stateId);
      PlainLives(codec, p, front, state, deadline);
      PlainRunConcat(codec, p, front, [op]);
      OnePlainStep(codec, PlainRun(codec, p, front), op);
      StepLives(codec, PlainRun(codec, p, front), op, state, CountAfter(front, state.stateId), deadline);
      NothingEndsOneMore(front, op, state.stateId, deadline);
      CountOneMore(front, op, state.stateId);
      hide PlainRun, PlainStep, CountAfter, Ends, NothingEnds, StoresAgain;
    }
  }

  lemma OnePlainStep(codec: Codec, p: Plain, op: Op)
    ensures PlainRun(codec, p, [op]) == PlainStep(codec, p, op).0
  {
    hide PlainStep;
    assert [op][1..] == [];
  }

  lemma PutLives(codec: Codec, p: Plain, state: State, t: int, deadline: Option<int>)
    requires IsDeadline(state.ttlSeconds, t, deadline)
    ensures
      var q := PlainStep(codec, p, PutOp(state, t)).0;
      state.stateId in q.states && q.states[state.stateId] == PlainEntry(state, 1, deadline)
  {
  }

  /**
   * How long a state can be read. After any run that stores it at t and does not store it again, it is read back if and
   * only if no collection has found it without references and past t plus its time to live, and no deletion has found
   * it with at most one reference. References are counted from one; a state without a time to live has no deadline.
   */
  lemma StateLivesExactly(codec: Codec, inPlay: set<Bytes>, limit: nat, before: seq<Op>, state: State, t: int,
                          after: seq<Op>, deadline: Option<int>)
    requires CollisionFree(codec, inPlay) && Faithful(codec)
    requires forall op <- before + ([PutOp(state, t)] + after) :: Honest(codec, inPlay, op)
    requires !StoresAgain(after, state.stateId) && IsDeadline(state.ttlSeconds, t, deadline)
    ensures
      var m := Run(EMPTY, codec, limit, before + ([PutOp(state, t)] + after));
      Get(m, codec, limit, state.stateId).1 ==
        if NothingEnds(after, state.stateId, deadline) then Ok(state) else NotFound
  {
    hide Refines, Faithful, CollisionFree, Get, Honest, PlainStep, StoresAgain, NothingEnds, IsDeadline;
    var put := PutOp(state, t);
    var ops := before + ([put] + after);
    var p := PlainRun(codec, NOTHING, before);
    assert ([put] + after)[1..] == after;
    PlainRunConcat(codec, NOTHING, before, [put] + after);
    assert PlainRun(codec, NOTHING, ops) == PlainRun(codec, PlainStep(codec, p, put).0, after);
    PutLives(codec, p, state, t, deadline);
    PlainLives(codec, PlainStep(codec, p, put).0, after, state, deadline);
    EmptyRefines(codec, inPlay, limit);
    RunRefines(codec, inPlay, limit, EMPTY, NOTHING, ops);
    GetRefines(codec, inPlay, limit, Run(EMPTY, codec, limit, ops), PlainRun(codec, NOTHING, ops), state.stateId);
  }

  /** What `store_state` reports about a state describes what can then be fetched. */
  lemma StoredDescribesTheState(m: Memory, codec: Codec, limit: nat, state: State, now: int, deadline: Option<int>)
    requires Faithful(codec) && IsDeadline(state.ttlSeconds, now, deadline)
    requires codec.hash(codec.serialize(state)) in m.cache ==>
      m.cache[codec.hash(codec.serialize(state))] == codec.serialize(state)
    ensures
      var (after, stored) := Put(m, codec, limit, state, now);
      var content := Fetch(after, limit, stored.contentHash).1;
      && content.Ok? && codec.deserialize(content.value) == Some(state)
      && codec.hash(content.value) == stored.contentHash
      && stored.sizeBytes == |content.value| && stored.stateId == state.stateId
      && stored.refCount == 1 && stored.createdAt == now && stored.expiresAt == deadline
  {
    assert codec.deserialize(codec.serialize(state)) == Some(state);
    hide Faithful;
  }

  /** While the cache has room, whatever is stored or fetched from the backend enters it. */
  lemma CacheFillsUp(m: Memory, codec: Codec, limit: nat, state: State, now: int, address: Address, data: Bytes)
    requires |m.cache| < limit
    ensures
      var content := codec.serialize(state);
      var after := Put(m, codec, limit, state, now).0.cache;
      codec.hash(content) in after && after[codec.hash(content)] == content
    ensures
      var after := PutPage(m, limit, address, data).cache;
      address in after && after[address] == data
    ensures
      address in m.backend && address !in m.cache ==>
        var after := Fetch(m, limit, address).0.cache;
        address in after && after[address] == m.backend[address]
  {
  }
}
