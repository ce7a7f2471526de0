/** The content-addressed state store of src/state_store.rs, over its in-memory backend. */
module StateStores {
  import opened Basics

  type Id = string
  type Address = string

  /** A VM state: its identifier, its time to live and everything else (`body`). */
  datatype State = State(stateId: Id, ttlSeconds: Option<nat>, body: string)

  /** The JSON serializer and SHA-256, both left uninterpreted. */
  datatype Codec = Codec(serialize: State -> Bytes, deserialize: Bytes -> Option<State>, hash: Bytes -> Address)

  datatype Stored = Stored(
    stateId: Id, contentHash: Address, refCount: nat, createdAt: int, expiresAt: Option<int>, sizeBytes: nat)

  datatype Answer<T> = Ok(value: T) | NotFound | Undecodable

  /** The memory of a store. */
  datatype Memory = Memory(index: map<Id, Stored>, cache: map<Address, Bytes>, backend: map<Address, Bytes>)

  /** The `as i64` cast of a u64. */
  function AsI64(n: nat): int {
    if n % 0x1_0000_0000_0000_0000 < 0x8000_0000_0000_0000 then n % 0x1_0000_0000_0000_0000
    else n % 0x1_0000_0000_0000_0000 - 0x1_0000_0000_0000_0000
  }

  /** The cache stops taking entries once it holds `limit` of them; nothing is evicted to make room. */
  function Cached(cache: map<Address, Bytes>, limit: nat, key: Address, content: Bytes): map<Address, Bytes> {
    if |cache| < limit then cache[key := content] else cache
  }

  function ExpiryOf(state: State, now: int): Option<int> {
    match state.ttlSeconds
    case Some(ttl) => Some(now + AsI64(ttl))
    case None => None
  }

  function Put(m: Memory, codec: Codec, limit: nat, state: State, now: int): (Memory, Stored) {
    var content := codec.serialize(state);
    var address := codec.hash(content);
    var stored := Stored(state.stateId, address, 1, now, ExpiryOf(state, now), |content|);
    (Memory(m.index[state.stateId := stored], Cached(m.cache, limit, address, content), m.backend[address := content]),
     stored)
  }

  /** Read through the cache. */
  function Fetch(m: Memory, limit: nat, address: Address): (Memory, Answer<Bytes>) {
    if address in m.cache then (m, Ok(m.cache[address]))
    else if address !in m.backend then (m, NotFound)
    else (m.(cache := Cached(m.cache, limit, address, m.backend[address])), Ok(m.backend[address]))
  }

  function Decoded(codec: Codec, content: Answer<Bytes>): Answer<State> {
    match content
    case Ok(bytes) => (match codec.deserialize(bytes) case Some(state) => Ok(state) case None => Undecodable)
    case NotFound => NotFound
    case Undecodable => Undecodable
  }

  function Get(m: Memory, codec: Codec, limit: nat, id: Id): (Memory, Answer<State>) {
    if id !in m.index then (m, NotFound)
    else var (after, content) := Fetch(m, limit, m.index[id].contentHash); (after, Decoded(codec, content))
  }

  function Delete(m: Memory, id: Id): Memory {
    if id !in m.index then m
    else if m.index[id].refCount <= 1 then
      Memory(m.index - {id}, m.cache - {m.index[id].contentHash}, m.backend - {m.index[id].contentHash})
    else m.(index := m.index[id := m.index[id].(refCount := m.index[id].refCount - 1)])
  }

  function Increment(m: Memory, id: Id): (Memory, bool) {
    if id in m.index then (m.(index := m.index[id := m.index[id].(refCount := m.index[id].refCount + 1)]), true)
    else (m, false)
  }

  function Decrement(m: Memory, id: Id): (Memory, bool) {
    if id !in m.index then (m, false)
    else if m.index[id].refCount > 0 then
      (m.(index := m.index[id := m.index[id].(refCount := m.index[id].refCount - 1)]), true)
    else (m, true)
  }

  /** A page is stored under whatever hash it carries. */
  function PutPage(m: Memory, limit: nat, pageHash: Address, data: Bytes): Memory {
    m.(backend := m.backend[pageHash := data], cache := Cached(m.cache, limit, pageHash, data))
  }

  predicate Expired(stored: Stored, now: int) {
    stored.expiresAt.Some? && now > stored.expiresAt.value && stored.refCount == 0
  }

  function ExpiredIds(index: map<Id, Stored>, now: int): set<Id> {
    set id | id in index && Expired(index[id], now)
  }

  function AddressesOf(index: map<Id, Stored>, ids: set<Id>): set<Address> {
    set id | id in ids && id in index :: index[id].contentHash
  }

  /** One pass of the collector, taken as one step. It does not touch the cache. */
  function Collect(m: Memory, now: int): Memory {
    var dead := ExpiredIds(m.index, now);
    m.(index := m.index - dead, backend := m.backend - AddressesOf(m.index, dead))
  }

  class MemoryBackend {
    var store: map<Address, Bytes>

    constructor ()
      ensures store == map[]
    {
      store := map[];
    }

    method Put(key: Address, data: Bytes)
      modifies this
      ensures store == old(store)[key := data]
    {
      store := store[key := data];
    }

    method Get(key: Address) returns (answer: Answer<Bytes>)
      ensures answer == if key in store then Ok(store[key]) else NotFound
    {
      answer := if key in store then Ok(store[key]) else NotFound;
    }

    method Delete(key: Address)
      modifies this
      ensures store == old(store) - {key}
    {
      store := store - {key};
    }
  }

  class StateStore {
    const codec: Codec
    const cacheSizeLimit: nat
    const backend: MemoryBackend
    var index: map<Id, Stored>
    var pageCache: map<Address, Bytes>

    function Value(): Memory
      reads this, backend
    {
      Memory(index, pageCache, backend.store)
    }

    constructor (codec: Codec, cacheSizeLimit: nat)
      ensures Value() == EMPTY && fresh(backend)
      ensures this.codec == codec && this.cacheSizeLimit == cacheSizeLimit
    {
      this.codec := codec;
      this.cacheSizeLimit := cacheSizeLimit;
      this.backend := new MemoryBackend();
      this.index := map[];
      this.pageCache := map[];
    }

    method StoreState(state: State, now: int) returns (stored: Stored)
      modifies this, backend
      ensures (Value(), stored) == Put(old(Value()), codec, cacheSizeLimit, state, now)
    {
      var content := codec.serialize(state);
      var contentHash := codec.hash(content);
      backend.Put(contentHash, content);
      var expiresAt := ExpiryOf(state, now);
      stored := Stored(state.stateId, contentHash, 1, now, expiresAt, |content|);
      index := index[state.stateId := stored];
      if |pageCache| < cacheSizeLimit {
        pageCache := pageCache[contentHash := content];
      }
    }

    method GetState(id: Id) returns (answer: Answer<State>)
      modifies this`pageCache
      ensures (Value(), answer) == Get(old(Value()), codec, cacheSizeLimit, id)
    {
      if id !in index {
        return NotFound;
      }
      var content := GetPage(index[id].contentHash);
      answer := Decoded(codec, content);
    }

    method DeleteState(id: Id)
      modifies this, backend
      ensures Value() == Delete(old(Value()), id)
    {
      if id in index {
        var stored := index[id];
        index := index - {id};
        if stored.refCount <= 1 {
          backend.Delete(stored.contentHash);
          pageCache := pageCache - {stored.contentHash};
        } else {
          index := index[id := stored.(refCount := stored.refCount - 1)];
        }
      }
    }

    method IncrementRef(id: Id) returns (found: bool)
      modifies this`index
      ensures (Value(), found) == Increment(old(Value()), id)
    {
      found := id in index;
      if found {
        index := index[id := index[id].(refCount := index[id].refCount + 1)];
      }
    }

    method DecrementRef(id: Id) returns (found: bool)
      modifies this`index
      ensures (Value(), found) == Decrement(old(Value()), id)
    {
      found := id in index;
      if found && index[id].refCount > 0 {
        index := index[id := index[id].(refCount := index[id].refCount - 1)];
      }
    }

    method StorePage(pageHash: Address, data: Bytes) returns (address: Address)
      modifies this`pageCache, backend
      ensures Value() == PutPage(old(Value()), cacheSizeLimit, pageHash, data) && address == pageHash
    {
      backend.Put(pageHash, data);
      if |pageCache| < cacheSizeLimit {
        pageCache := pageCache[pageHash := data];
      }
      address := pageHash;
    }

    method GetPage(address: Address) returns (answer: Answer<Bytes>)
      modifies this`pageCache
      ensures (Value(), answer) == Fetch(old(Value()), cacheSizeLimit, address)
    {
      if address in pageCache {
        return Ok(pageCache[address]);
      }
      answer := backend.Get(address);
      if answer.Ok? && |pageCache| < cacheSizeLimit {
        pageCache := pageCache[address := answer.value];
      }
    }

    /** The scan of a pass. */
    method FindExpired(now: int) returns (expiredIds: seq<Id>)
      ensures forall id :: id in expiredIds <==> id in ExpiredIds(index, now)
    {
      hide Expired;
      expiredIds := [];
      var unseen := index.Keys;
      while unseen != {}
        invariant unseen <= index.Keys
        invariant forall id :: id in expiredIds <==> id in index && id !in unseen && Expired(index[id], now)
        decreases |unseen|
      {
        var id :| id in unseen;
        unseen := unseen - {id};
        if Expired(index[id], now) {
          expiredIds := expiredIds + [id];
        }
      }
    }

    method CollectGarbage(now: int)
      modifies this`index, backend
      ensures Value() == Collect(old(Value()), now)
    {
      hide Expired, AddressesOf;
      ghost var before := index;
      var expiredIds := FindExpired(now);
      ghost var gone: set<Id> := {};
      NoneGone(before);
      for i := 0 to |expiredIds|
        invariant forall id :: id in gone <==> id in expiredIds[..i]
        invariant index == before - gone
        invariant backend.store == old(backend.store) - AddressesOf(before, gone)
      {
        var id := expiredIds[i];
        assert id in expiredIds && id in ExpiredIds(before, now);
        assert expiredIds[..i + 1] == expiredIds[..i] + [id];
        OneMoreGone(before, old(backend.store), gone, id);
        if id in index {
          var stored := index[id];
          index := index - {id};
          backend.Delete(stored.contentHash);
        }
        gone := gone + {id};
      }
      assert expiredIds[..|expiredIds|] == expiredIds;
      assert gone == ExpiredIds(before, now);
    }
  }

  lemma NoneGone(index: map<Id, Stored>)
    ensures AddressesOf(index, {}) == {}
  {
  }

  /** Taking one more entry away, together with its content. */
  lemma OneMoreGone(index: map<Id, Stored>, store: map<Address, Bytes>, gone: set<Id>, id: Id)
    requires id in index
    ensures index - (gone + {id}) == (index - gone) - {id}
    ensures
      store - AddressesOf(index, gone + {id}) == (store - AddressesOf(index, gone)) - {index[id].contentHash}
    ensures id in gone ==> gone + {id} == gone
  {
    assert AddressesOf(index, gone + {id}) == AddressesOf(index, gone) + {index[id].contentHash};
    hide AddressesOf;
  }

  // ---------- the plain map ----------

  datatype PlainEntry = PlainEntry(state: State, refCount: nat, expiresAt: Option<int>)

  /** What the store is for: a map from identifiers to states, and one from addresses to pages. No hashes, no cache. */
  datatype Plain = Plain(states: map<Id, PlainEntry>, pages: map<Address, Bytes>)

  const EMPTY := Memory(map[], map[], map[])
  const NOTHING := Plain(map[], map[])

  datatype Op =
    | PutOp(state: State, now: int)
    | GetOp(id: Id)
    | DeleteOp(id: Id)
    | IncrementOp(id: Id)
    | DecrementOp(id: Id)
    | PutPageOp(pageHash: Address, data: Bytes)
    | GetPageOp(address: Address)
    | CollectOp(now: int)

  /** What a caller sees. `Unspecified` stands for a page that the plain map does not hold. */
  datatype Reply =
    | Silent
    | StateReply(state: Answer<State>)
    | Found(found: bool)
    | PageReply(page: Answer<Bytes>)
    | Unspecified

  function Step(m: Memory, codec: Codec, limit: nat, op: Op): (Memory, Reply) {
    match op
    case PutOp(state, now) => (Put(m, codec, limit, state, now).0, Silent)
    case GetOp(id) => var (after, answer) := Get(m, codec, limit, id); (after, StateReply(answer))
    case DeleteOp(id) => (Delete(m, id), Silent)
    case IncrementOp(id) => var (after, found) := Increment(m, id); (after, Found(found))
    case DecrementOp(id) => var (after, found) := Decrement(m, id); (after, Found(found))
    case PutPageOp(pageHash, data) => (PutPage(m, limit, pageHash, data), Silent)
    case GetPageOp(address) => var (after, answer) := Fetch(m, limit, address); (after, PageReply(answer))
    case CollectOp(now) => (Collect(m, now), Silent)
  }

  function PlainCount(p: Plain, id: Id, refCount: nat): Plain
    requires id in p.states
  {
    p.(states := p.states[id := p.states[id].(refCount := refCount)])
  }

  function PlainPut(p: Plain, state: State, now: int): Plain {
    p.(states := p.states[state.stateId := PlainEntry(state, 1, ExpiryOf(state, now))])
  }

  function PlainDelete(p: Plain, id: Id): Plain {
    if id !in p.states then p
    else if p.states[id].refCount <= 1 then p.(states := p.states - {id})
    else PlainCount(p, id, p.states[id].refCount - 1)
  }

  function PlainIncrement(p: Plain, id: Id): Plain {
    if id in p.states then PlainCount(p, id, p.states[id].refCount + 1) else p
  }

  function PlainDecrement(p: Plain, id: Id): Plain {
    if id in p.states && p.states[id].refCount > 0 then PlainCount(p, id, p.states[id].refCount - 1) else p
  }

  function PlainCollect(p: Plain, now: int): Plain {
    p.(states := map id | id in p.states && !PlainExpired(p.states[id], now) :: p.states[id])
  }

  /** The bytes are those of some state. */
  ghost predicate IsState(codec: Codec, data: Bytes) {
    exists s :: codec.serialize(s) == data
  }

  /**
   * The plain map does not hold pages whose bytes are those of a state: they share the state's address and its fate.
   */
  ghost function PlainPutPage(codec: Codec, p: Plain, pageHash: Address, data: Bytes): Plain {
    if IsState(codec, data) then p else p.(pages := p.pages[pageHash := data])
  }

  ghost function PlainStep(codec: Codec, p: Plain, op: Op): (Plain, Reply) {
    match op
    case PutOp(state, now) => (PlainPut(p, state, now), Silent)
    case GetOp(id) => (p, StateReply(if id in p.states then Ok(p.states[id].state) else NotFound))
    case DeleteOp(id) => (PlainDelete(p, id), Silent)
    case IncrementOp(id) => (PlainIncrement(p, id), Found(id in p.states))
    case DecrementOp(id) => (PlainDecrement(p, id), Found(id in p.states))
    case PutPageOp(pageHash, data) => (PlainPutPage(codec, p, pageHash, data), Silent)
    case GetPageOp(address) => (p, if address in p.pages then PageReply(Ok(p.pages[address])) else Unspecified)
    case CollectOp(now) => (PlainCollect(p, now), Silent)
  }

  predicate PlainExpired(e: PlainEntry, now: int) {
    e.refCount == 0 && e.expiresAt.Some? && e.expiresAt.value < now
  }

  // ---------- refinement ----------

  /** What is read back is what was written. */
  ghost predicate Faithful(codec: Codec) {
    forall s :: codec.deserialize(codec.serialize(s)) == Some(s)
  }

  /** No two of the byte strings in play have the same hash. */
  ghost predicate CollisionFree(codec: Codec, inPlay: set<Bytes>) {
    forall a, b :: a in inPlay && b in inPlay && codec.hash(a) == codec.hash(b) ==> a == b
  }

  /** Pages carry the hash of their bytes. */
  ghost predicate Honest(codec: Codec, inPlay: set<Bytes>, op: Op) {
    match op
    case PutOp(state, _) => codec.serialize(state) in inPlay
    case PutPageOp(pageHash, data) => data in inPlay && pageHash == codec.hash(data)
    case _ => true
  }

  /** Every byte string is filed under its own hash. */
  ghost predicate Addressed(codec: Codec, inPlay: set<Bytes>, contents: map<Address, Bytes>) {
    forall a :: a in contents ==> contents[a] in inPlay && codec.hash(contents[a]) == a
  }

  ghost predicate Represents(codec: Codec, inPlay: set<Bytes>, id: Id, stored: Stored, e: PlainEntry) {
    && e.state.stateId == id
    && codec.serialize(e.state) in inPlay && stored.contentHash == codec.hash(codec.serialize(e.state))
    && stored.refCount == e.refCount && stored.expiresAt == e.expiresAt
  }

  ghost predicate Refines(codec: Codec, inPlay: set<Bytes>, limit: nat, m: Memory, p: Plain) {
    && |m.cache| <= limit
    && Addressed(codec, inPlay, m.cache) && Addressed(codec, inPlay, m.backend)
    && m.index.Keys == p.states.Keys
    && (forall id :: id in m.index ==>
          Represents(codec, inPlay, id, m.index[id], p.states[id]) && m.index[id].contentHash in m.backend)
    && (forall a :: a in p.pages ==>
          a in m.backend && m.backend[a] == p.pages[a] && !IsState(codec, p.pages[a]))
  }

  lemma CacheStaysAddressed(codec: Codec, inPlay: set<Bytes>, limit: nat, cache: map<Address, Bytes>, content: Bytes)
    requires Addressed(codec, inPlay, cache) && |cache| <= limit && content in inPlay
    ensures
      var after := Cached(cache, limit, codec.hash(content), content);
      Addressed(codec, inPlay, after) && |after| <= limit
  {
  }

  /** A cache with an address taken out is still in order. */
  lemma CacheWithout(codec: Codec, inPlay: set<Bytes>, limit: nat, m: Memory, p: Plain, gone: set<Address>)
    requires Refines(codec, inPlay, limit, m, p)
    ensures Addressed(codec, inPlay, m.cache - gone) && |m.cache - gone| <= limit
  {
    SubsetSize((m.cache - gone).Keys, m.cache.Keys);
    hide Represents;
  }

  /** A found address yields the one byte string in play that hashes to it, from cache or backend alike. */
  lemma FetchFindsContent(codec: Codec, inPlay: set<Bytes>, limit: nat, m: Memory, p: Plain, content: Bytes)
    requires Refines(codec, inPlay, limit, m, p) && CollisionFree(codec, inPlay) && content in inPlay
    requires codec.hash(content) in m.backend
    ensures Fetch(m, limit, codec.hash(content)).1 == Ok(content)
  {
  }

  lemma FetchKeepsRefinement(codec: Codec, inPlay: set<Bytes>, limit: nat, m: Memory, p: Plain, address: Address)
    requires Refines(codec, inPlay, limit, m, p)
    ensures Refines(codec, inPlay, limit, Fetch(m, limit, address).0, p)
  {
    hide Represents;
    if address !in m.cache && address in m.backend {
      CacheStaysAddressed(codec, inPlay, limit, m.cache, m.backend[address]);
    }
  }

  /** Different identifiers have different addresses, because the identifier is part of what is hashed. */
  lemma AddressesAreDistinct(codec: Codec, inPlay: set<Bytes>, limit: nat, m: Memory, p: Plain, a: Id, b: Id)
    requires Refines(codec, inPlay, limit, m, p) && CollisionFree(codec, inPlay) && Faithful(codec)
    requires a in m.index && b in m.index && m.index[a].contentHash == m.index[b].contentHash
    ensures a == b
  {
    var s, t := p.states[a].state, p.states[b].state;
    assert codec.serialize(s) == codec.serialize(t);
    assert codec.deserialize(codec.serialize(s)) == Some(s) && codec.deserialize(codec.serialize(t)) == Some(t);
  }

  /** And no page shares an address with a state. */
  lemma PagesAreNoStates(codec: Codec, inPlay: set<Bytes>, limit: nat, m: Memory, p: Plain, id: Id)
    requires Refines(codec, inPlay, limit, m, p) && CollisionFree(codec, inPlay) && Faithful(codec)
    requires id in m.index
    ensures m.index[id].contentHash !in p.pages
  {
    var a, s := m.index[id].contentHash, p.states[id].state;
    if a in p.pages {
      assert m.backend[a] == codec.serialize(s);
    }
  }

  /** What is kept stays where it is when the contents of other entries go. */
  lemma OthersKeepTheirAddress(codec: Codec, inPlay: set<Bytes>, limit: nat, m: Memory, p: Plain, dead: set<Id>)
    requires Refines(codec, inPlay, limit, m, p) && CollisionFree(codec, inPlay) && Faithful(codec)
    requires dead <= m.index.Keys
    ensures forall id :: id in m.index && id !in dead ==> m.index[id].contentHash !in AddressesOf(m.index, dead)
    ensures forall a :: a in p.pages ==> a !in AddressesOf(m.index, dead)
  {
    hide Refines, Faithful, CollisionFree;
    forall id | id in m.index && id !in dead ensures m.index[id].contentHash !in AddressesOf(m.index, dead) {
      forall d | d in dead ensures m.index[d].contentHash != m.index[id].contentHash {
        if m.index[d].contentHash == m.index[id].contentHash {
          AddressesAreDistinct(codec, inPlay, limit, m, p, d, id);
        }
      }
    }
    forall d | d in dead ensures m.index[d].contentHash !in p.pages {
      PagesAreNoStates(codec, inPlay, limit, m, p, d);
    }
  }

  /** Dropping some entries together with their contents breaks no other entry and no page. */
  lemma RemovalKeepsRefinement(codec: Codec, inPlay: set<Bytes>, limit: nat, m: Memory, p: Plain, dead: set<Id>,
                               cache: map<Address, Bytes>)
    requires Refines(codec, inPlay, limit, m, p) && CollisionFree(codec, inPlay) && Faithful(codec)
    requires dead <= m.index.Keys && Addressed(codec, inPlay, cache) && |cache| <= limit
    ensures
      Refines(codec, inPlay, limit, Memory(m.index - dead, cache, m.backend - AddressesOf(m.index, dead)),
              p.(states := p.states - dead))
  {
    OthersKeepTheirAddress(codec, inPlay, limit, m, p, dead);
    hide Represents, AddressesOf, Faithful, CollisionFree, IsState;
  }

  lemma PutKeepsRefinement(codec: Codec, inPlay: set<Bytes>, limit: nat, m: Memory, p: Plain, state: State, now: int)
    requires Refines(codec, inPlay, limit, m, p) && CollisionFree(codec, inPlay) && codec.serialize(state) in inPlay
    ensures Refines(codec, inPlay, limit, Put(m, codec, limit, state, now).0, PlainPut(p, state, now))
  {
    CacheStaysAddressed(codec, inPlay, limit, m.cache, codec.serialize(state));
  }

  /** What refinement says about one identifier. */
  lemma CountsAgree(codec: Codec, inPlay: set<Bytes>, limit: nat, m: Memory, p: Plain, id: Id)
    requires Refines(codec, inPlay, limit, m, p)
    ensures id in m.index <==> id in p.states
    ensures
      id in m.index ==>
        && m.index[id].refCount == p.states[id].refCount && m.index[id].expiresAt == p.states[id].expiresAt
        && m.index[id].contentHash == codec.hash(codec.serialize(p.states[id].state))
        && codec.serialize(p.states[id].state) in inPlay && m.index[id].contentHash in m.backend
  {
    hide Addressed;
  }

  lemma CountKeepsRefinement(codec: Codec, inPlay: set<Bytes>, limit: nat, m: Memory, p: Plain, id: Id, refCount: nat)
    requires Refines(codec, inPlay, limit, m, p) && id in m.index
    ensures
      Refines(codec, inPlay, limit, m.(index := m.index[id := m.index[id].(refCount := refCount)]),
              PlainCount(p, id, refCount))
  {
  }

  lemma DeleteKeepsRefinement(codec: Codec, inPlay: set<Bytes>, limit: nat, m: Memory, p: Plain, id: Id)
    requires Refines(codec, inPlay, limit, m, p) && CollisionFree(codec, inPlay) && Faithful(codec)
    ensures Refines(codec, inPlay, limit, Delete(m, id), PlainDelete(p, id))
  {
    hide Refines, Faithful, CollisionFree;
    CountsAgree(codec, inPlay, limit, m, p, id);
    if id in m.index {
      if m.index[id].refCount <= 1 {
        var cache := m.cache - {m.index[id].contentHash};
        CacheWithout(codec, inPlay, limit, m, p, {m.index[id].contentHash});
        RemovalKeepsRefinement(codec, inPlay, limit, m, p, {id}, cache);
        assert AddressesOf(m.index, {id}) == {m.index[id].contentHash};
      } else {
        CountKeepsRefinement(codec, inPlay, limit, m, p, id, m.index[id].refCount - 1);
      }
    }
  }

  lemma ExpiredAlike(index: map<Id, Stored>, p: Plain, id: Id, now: int)
    requires id in index <==> id in p.states
    requires id in index ==>
      index[id].refCount == p.states[id].refCount && index[id].expiresAt == p.states[id].expiresAt
    ensures id in ExpiredIds(index, now) <==> id in p.states && PlainExpired(p.states[id], now)
  {
  }

  lemma CollectKeepsRefinement(codec: Codec, inPlay: set<Bytes>, limit: nat, m: Memory, p: Plain, now: int)
    requires Refines(codec, inPlay, limit, m, p) && CollisionFree(codec, inPlay) && Faithful(codec)
    ensures Refines(codec, inPlay, limit, Collect(m, now), PlainCollect(p, now))
  {
    hide Refines, Faithful, CollisionFree, PlainExpired, Expired;
    var dead := ExpiredIds(m.index, now);
    forall id ensures id in dead <==> id in p.states && PlainExpired(p.states[id], now) {
      CountsAgree(codec, inPlay, limit, m, p, id);
      ExpiredAlike(m.index, p, id, now);
    }
    CacheWithout(codec, inPlay, limit, m, p, {});
    assert m.cache - {} == m.cache;
    RemovalKeepsRefinement(codec, inPlay, limit, m, p, dead, m.cache);
    assert p.states - dead == PlainCollect(p, now).states;
  }

  /** Filing bytes in play under their own hash disturbs nothing. */
  lemma BackendGains(codec: Codec, inPlay: set<Bytes>, limit: nat, m: Memory, p: Plain, data: Bytes,
                     cache: map<Address, Bytes>)
    requires Refines(codec, inPlay, limit, m, p) && CollisionFree(codec, inPlay) && data in inPlay
    requires Addressed(codec, inPlay, cache) && |cache| <= limit
    ensures Refines(codec, inPlay, limit, Memory(m.index, cache, m.backend[codec.hash(data) := data]), p)
  {
    hide Represents, IsState;
    StoreGains(codec, inPlay, m.backend, data);
    hide CollisionFree, Addressed;
  }

  lemma StoreGains(codec: Codec, inPlay: set<Bytes>, store: map<Address, Bytes>, data: Bytes)
    requires Addressed(codec, inPlay, store) && CollisionFree(codec, inPlay) && data in inPlay
    ensures
      var after := store[codec.hash(data) := data];
      Addressed(codec, inPlay, after) && forall a :: a in store ==> after[a] == store[a]
  {
    if codec.hash(data) in store {
      assert store[codec.hash(data)] in inPlay;
    }
  }

  lemma PutPageKeepsRefinement(codec: Codec, inPlay: set<Bytes>, limit: nat, m: Memory, p: Plain, data: Bytes)
    requires Refines(codec, inPlay, limit, m, p) && CollisionFree(codec, inPlay) && data in inPlay
    ensures
      Refines(codec, inPlay, limit, PutPage(m, limit, codec.hash(data), data),
              PlainPutPage(codec, p, codec.hash(data), data))
  {
    hide Represents, IsState, CollisionFree, Addressed;
    CacheStaysAddressed(codec, inPlay, limit, m.cache, data);
    BackendGains(codec, inPlay, limit, m, p, data, Cached(m.cache, limit, codec.hash(data), data));
    hide Cached;
  }

  lemma GetRefines(codec: Codec, inPlay: set<Bytes>, limit: nat, m: Memory, p: Plain, id: Id)
    requires Refines(codec, inPlay, limit, m, p) && CollisionFree(codec, inPlay) && Faithful(codec)
    ensures Refines(codec, inPlay, limit, Get(m, codec, limit, id).0, p)
    ensures Get(m, codec, limit, id).1 == if id in p.states then Ok(p.states[id].state) else NotFound
  {
    hide Refines, CollisionFree, Fetch;
    CountsAgree(codec, inPlay, limit, m, p, id);
    if id in m.index {
      var state := p.states[id].state;
      FetchFindsContent(codec, inPlay, limit, m, p, codec.serialize(state));
      FetchKeepsRefinement(codec, inPlay, limit, m, p, m.index[id].contentHash);
      assert codec.deserialize(codec.serialize(state)) == Some(state);
    }
  }

  lemma CountingRefines(codec: Codec, inPlay: set<Bytes>, limit: nat, m: Memory, p: Plain, id: Id)
    requires Refines(codec, inPlay, limit, m, p)
    ensures Refines(codec, inPlay, limit, Increment(m, id).0, PlainIncrement(p, id))
    ensures Refines(codec, inPlay, limit, Decrement(m, id).0, PlainDecrement(p, id))
    ensures Increment(m, id).1 == Decrement(m, id).1 == (id in p.states)
  {
    hide Refines;
    CountsAgree(codec, inPlay, limit, m, p, id);
    if id in m.index {
      CountKeepsRefinement(codec, inPlay, limit, m, p, id, m.index[id].refCount + 1);
      if m.index[id].refCount > 0 {
        CountKeepsRefinement(codec, inPlay, limit, m, p, id, m.index[id].refCount - 1);
      }
    }
  }

  /** One operation on both sides gives the same reply and keeps them together. */
  lemma StepRefines(codec: Codec, inPlay: set<Bytes>, limit: nat, m: Memory, p: Plain, op: Op)
    requires Refines(codec, inPlay, limit, m, p) && CollisionFree(codec, inPlay) && Faithful(codec)
    requires Honest(codec, inPlay, op)
    ensures Refines(codec, inPlay, limit, Step(m, codec, limit, op).0, PlainStep(codec, p, op).0)
    ensures PlainStep(codec, p, op).1 != Unspecified ==> Step(m, codec, limit, op).1 == PlainStep(codec, p, op).1
  {
    hide Refines, Faithful, CollisionFree, Fetch, Get, Put, PutPage, Delete, Collect, PlainPut, PlainDelete,
         PlainCollect, PlainPutPage, PlainIncrement, PlainDecrement, Increment, Decrement;
    match op
    case PutOp(state, now) => PutKeepsRefinement(codec, inPlay, limit, m, p, state, now);
    case GetOp(id) => GetRefines(codec, inPlay, limit, m, p, id);
    case DeleteOp(id) => DeleteKeepsRefinement(codec, inPlay, limit, m, p, id);
    case IncrementOp(id) => CountingRefines(codec, inPlay, limit, m, p, id);
    case DecrementOp(id) => CountingRefines(codec, inPlay, limit, m, p, id);
    case PutPageOp(pageHash, data) => PutPageKeepsRefinement(codec, inPlay, limit, m, p, data);
    case GetPageOp(address) =>
      FetchKeepsRefinement(codec, inPlay, limit, m, p, address);
      if address in p.pages {
        PageIsFetched(codec, inPlay, limit, m, p, address);
      }
    case CollectOp(now) => CollectKeepsRefinement(codec, inPlay, limit, m, p, now);
  }

  lemma PageIsFetched(codec: Codec, inPlay: set<Bytes>, limit: nat, m: Memory, p: Plain, address: Address)
    requires Refines(codec, inPlay, limit, m, p) && CollisionFree(codec, inPlay) && address in p.pages
    ensures Fetch(m, limit, address).1 == Ok(p.pages[address])
  {
    FetchFindsContent(codec, inPlay, limit, m, p, p.pages[address]);
  }

  function Replies(m: Memory, codec: Codec, limit: nat, ops: seq<Op>): seq<Reply>
    decreases |ops|
  {
    if ops == [] then []
    else var (after, reply) := Step(m, codec, limit, ops[0]); [reply] + Replies(after, codec, limit, ops[1..])
  }

  function Run(m: Memory, codec: Codec, limit: nat, ops: seq<Op>): Memory
    decreases |ops|
  {
    if ops == [] then m else Run(Step(m, codec, limit, ops[0]).0, codec, limit, ops[1..])
  }

  ghost function PlainReplies(codec: Codec, p: Plain, ops: seq<Op>): seq<Reply>
    decreases |ops|
  {
    if ops == [] then []
    else var (after, reply) := PlainStep(codec, p, ops[0]); [reply] + PlainReplies(codec, after, ops[1..])
  }

  ghost function PlainRun(codec: Codec, p: Plain, ops: seq<Op>): Plain
    decreases |ops|
  {
    if ops == [] then p else PlainRun(codec, PlainStep(codec, p, ops[0]).0, ops[1..])
  }

  lemma {:induction false} RunRefines(codec: Codec, inPlay: set<Bytes>, limit: nat, m: Memory, p: Plain, ops: seq<Op>)
    requires Refines(codec, inPlay, limit, m, p) && CollisionFree(codec, inPlay) && Faithful(codec)
    requires forall op <- ops :: Honest(codec, inPlay, op)
    ensures |Replies(m, codec, limit, ops)| == |PlainReplies(codec, p, ops)| == |ops|
    ensures
      forall i :: 0 <= i < |ops| && PlainReplies(codec, p, ops)[i] != Unspecified ==>
        Replies(m, codec, limit, ops)[i] == PlainReplies(codec, p, ops)[i]
    ensures Refines(codec, inPlay, limit, Run(m, codec, limit, ops), PlainRun(codec, p, ops))
    decreases |ops|
  {
    hide Step, PlainStep, Refines, Faithful, CollisionFree;
    if ops != [] {
      StepRefines(codec, inPlay, limit, m, p, ops[0]);
      RunRefines(codec, inPlay, limit, Step(m, codec, limit, ops[0]).0, PlainStep(codec, p, ops[0]).0, ops[1..]);
    }
  }

  /** A page that is handed out has the hash it was asked for by. */
  predicate RightPage(codec: Codec, op: Op, reply: Reply) {
    op.GetPageOp? && reply.PageReply? && reply.page.Ok? ==> codec.hash(reply.page.value) == op.address
  }

  lemma FetchGivesTheRightPage(codec: Codec, inPlay: set<Bytes>, limit: nat, m: Memory, p: Plain, op: Op)
    requires Refines(codec, inPlay, limit, m, p)
    ensures RightPage(codec, op, Step(m, codec, limit, op).1)
  {
    hide Represents, IsState;
  }

  lemma {:induction false} RunGivesRightPages(codec: Codec, inPlay: set<Bytes>, limit: nat, m: Memory, p: Plain,
                                              ops: seq<Op>)
    requires Refines(codec, inPlay, limit, m, p) && CollisionFree(codec, inPlay) && Faithful(codec)
    requires forall op <- ops :: Honest(codec, inPlay, op)
    ensures
      |Replies(m, codec, limit, ops)| == |ops|
      && forall i :: 0 <= i < |ops| ==> RightPage(codec, ops[i], Replies(m, codec, limit, ops)[i])
    decreases |ops|
  {
    hide Step, PlainStep, Refines, Faithful, CollisionFree, RightPage;
    if ops != [] {
      var next := Step(m, codec, limit, ops[0]).0;
      FetchGivesTheRightPage(codec, inPlay, limit, m, p, ops[0]);
      StepRefines(codec, inPlay, limit, m, p, ops[0]);
      RunGivesRightPages(codec, inPlay, limit, next, PlainStep(codec, p, ops[0]).0, ops[1..]);
      var replies := Replies(m, codec, limit, ops);
      assert replies == [Step(m, codec, limit, ops[0]).1] + Replies(next, codec, limit, ops[1..]);
      forall i | 0 <= i < |ops| ensures RightPage(codec, ops[i], replies[i]) {
        assert i > 0 ==> ops[i] == ops[1..][i - 1] && replies[i] == Replies(next, codec, limit, ops[1..])[i - 1];
      }
    }
  }

  /**
   * The store is a plain map. In every run, whatever the cache happens to hold and however small it is, every reply
   * about a state, and about a page that is not a serialized state, is the one the plain map gives, no page is handed
   * out that does not have the hash asked for, deleting or collecting one state never affects another, and the cache
   * never holds more entries than its limit.
   */
  lemma StoreIsAPlainMap(codec: Codec, inPlay: set<Bytes>, limit: nat, ops: seq<Op>)
    requires CollisionFree(codec, inPlay) && Faithful(codec)
    requires forall op <- ops :: Honest(codec, inPlay, op)
    ensures |Replies(EMPTY, codec, limit, ops)| == |PlainReplies(codec, NOTHING, ops)| == |ops|
    ensures
      forall i :: 0 <= i < |ops| && PlainReplies(codec, NOTHING, ops)[i] != Unspecified ==>
        Replies(EMPTY, codec, limit, ops)[i] == PlainReplies(codec, NOTHING, ops)[i]
    ensures forall i :: 0 <= i < |ops| ==> RightPage(codec, ops[i], Replies(EMPTY, codec, limit, ops)[i])
    ensures |Run(EMPTY, codec, limit, ops).cache| <= limit
  {
    RunRefines(codec, inPlay, limit, EMPTY, NOTHING, ops);
    RunGivesRightPages(codec, inPlay, limit, EMPTY, NOTHING, ops);
    hide RightPage;
  }

  // ---------- which pages survive ----------

  /** The memory after some operations, storing a page under its own hash, and some more operations. */
  function WithPage(codec: Codec, limit: nat, before: seq<Op>, data: Bytes, after: seq<Op>): Memory {
    Run(EMPTY, codec, limit, before + ([PutPageOp(codec.hash(data), data)] + after))
  }

  /** Once stored, the page can be fetched at the end of every run. */
  ghost predicate Survives(codec: Codec, inPlay: set<Bytes>, limit: nat, data: Bytes) {
    forall before, after ::
      (forall op <- before + after :: Honest(codec, inPlay, op)) ==>
        Fetch(WithPage(codec, limit, before, data, after), limit, codec.hash(data)).1 == Ok(data)
  }

  lemma {:induction false} PlainRunConcat(codec: Codec, p: Plain, xs: seq<Op>, ys: seq<Op>)
    ensures PlainRun(codec, p, xs + ys) == PlainRun(codec, PlainRun(codec, p, xs), ys)
    decreases |xs|
  {
    hide PlainStep;
    if xs == [] {
      assert xs + ys == ys;
    } else {
      assert (xs + ys)[1..] == xs[1..] + ys;
      PlainRunConcat(codec, PlainStep(codec, p, xs[0]).0, xs[1..], ys);
    }
  }

  lemma {:induction false} PlainPageStays(codec: Codec, inPlay: set<Bytes>, p: Plain, data: Bytes, ops: seq<Op>)
    requires CollisionFree(codec, inPlay) && data in inPlay && forall op <- ops :: Honest(codec, inPlay, op)
    requires codec.hash(data) in p.pages && p.pages[codec.hash(data)] == data
    ensures
      var pages := PlainRun(codec, p, ops).pages;
      codec.hash(data) in pages && pages[codec.hash(data)] == data
    decreases |ops|
  {
    if ops != [] {
      assert Honest(codec, inPlay, ops[0]);
      PlainPageStays(codec, inPlay, PlainStep(codec, p, ops[0]).0, data, ops[1..]);
    }
  }

  lemma PageSurvivesRun(codec: Codec, inPlay: set<Bytes>, limit: nat, data: Bytes, before: seq<Op>, after: seq<Op>)
    requires CollisionFree(codec, inPlay) && Faithful(codec) && data in inPlay && !IsState(codec, data)
    requires forall op <- before + after :: Honest(codec, inPlay, op)
    ensures Fetch(WithPage(codec, limit, before, data, after), limit, codec.hash(data)).1 == Ok(data)
  {
    hide Refines, Faithful, CollisionFree, IsState, Fetch;
    var put := PutPageOp(codec.hash(data), data);
    var ops := before + ([put] + after);
    forall op | op in ops ensures Honest(codec, inPlay, op) {
      assert op == put || op in before + after;
    }
    var p := PlainRun(codec, NOTHING, before);
    assert ([put] + after)[1..] == after;
    PlainRunConcat(codec, NOTHING, before, [put] + after);
    forall op | op in after ensures Honest(codec, inPlay, op) {
      assert op in before + after;
    }
    PlainPageStays(codec, inPlay, PlainStep(codec, p, put).0, data, after);
    EmptyRefines(codec, inPlay, limit);
    RunRefines(codec, inPlay, limit, EMPTY, NOTHING, ops);
    PageIsFetched(codec, inPlay, limit, Run(EMPTY, codec, limit, ops), PlainRun(codec, NOTHING, ops), codec.hash(data));
  }

  lemma EmptyRefines(codec: Codec, inPlay: set<Bytes>, limit: nat)
    ensures Refines(codec, inPlay, limit, EMPTY, NOTHING)
  {
  }

  /** A page with the bytes of a state goes away with the state, although nobody deleted it. */
  lemma PageGoesWithItsState(codec: Codec, limit: nat, state: State)
    ensures
      var data := codec.serialize(state);
      var m := WithPage(codec, limit, [], data, [PutOp(state, 0), DeleteOp(state.stateId)]);
      Fetch(m, limit, codec.hash(data)).1 == NotFound
  {
    var data := codec.serialize(state);
    var ops := [] + ([PutPageOp(codec.hash(data), data)] + [PutOp(state, 0), DeleteOp(state.stateId)]);
    assert ops == [PutPageOp(codec.hash(data), data), PutOp(state, 0), DeleteOp(state.stateId)];
    var one := Step(EMPTY, codec, limit, ops[0]).0;
    var two := Step(one, codec, limit, ops[1]).0;
    var three := Step(two, codec, limit, ops[2]).0;
    assert Run(two, codec, limit, ops[2..]) == three;
    assert ops[1..][1..] == ops[2..] && Run(one, codec, limit, ops[1..]) == three;
    assert Run(EMPTY, codec, limit, ops) == three;
  }

  /**
   * Which pages survive: with any cache limit, a page stored under its own hash can be fetched after every run if and
   * only if its bytes are not those of a state.
   */
  lemma PageSurvivesExactly(codec: Codec, inPlay: set<Bytes>, limit: nat, data: Bytes)
    requires CollisionFree(codec, inPlay) && Faithful(codec) && data in inPlay
    ensures Survives(codec, inPlay, limit, data) <==> !IsState(codec, data)
  {
    hide Fetch, WithPage, Faithful, CollisionFree;
    if IsState(codec, data) {
      var state :| codec.serialize(state) == data;
      var ops := [PutOp(state, 0), DeleteOp(state.stateId)];
      assert [] + ops == ops;
      PageGoesWithItsState(codec, limit, state);
    } else {
      forall before, after | forall op <- before + after :: Honest(codec, inPlay, op)
        ensures Fetch(WithPage(codec, limit, before, data, after), limit, codec.hash(data)).1 == Ok(data)
      {
        PageSurvivesRun(codec, inPlay, limit, data, before, after);
      }
    }
  }
}
