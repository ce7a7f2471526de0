/** The hash-chained audit log of src/audit.rs, without a log file. */
module Audits {
  import opened Basics
  import opened Model
  import opened BigEndian

  /** `timestamp` and `event` are in the textual form that is hashed: RFC 3339 and JSON. */
  datatype AuditEntry = AuditEntry(
    id: nat, timestamp: Text, event: Text, actor: Text, resource: Text, previousHash: Text, entryHash: Text,
    metadata: Option<Text>)

  type Hash = Bytes -> Text

  /** A SHA-256 digest in hexadecimal. */
  const DIGEST_LENGTH: nat := 64

  ghost predicate IsDigest(hash: Hash) {
    forall bytes :: |hash(bytes)| == DIGEST_LENGTH
  }

  /** What is hashed: the fields one after another without separators; the metadata is not among them. */
  function HashedBytes(e: AuditEntry): Bytes {
    ToBytes(e.id, 8) + e.timestamp + e.event + e.actor + e.resource + e.previousHash
  }

  /** Whether a list of entries verifies, starting from the expected previous hash. */
  predicate VerifiesFrom(hash: Hash, expected: Text, entries: seq<AuditEntry>)
    decreases |entries|
  {
    entries == [] ||
    (&& entries[0].previousHash == expected
     && hash(HashedBytes(entries[0])) == entries[0].entryHash
     && VerifiesFrom(hash, entries[0].entryHash, entries[1..]))
  }

  /** `verify_integrity`. */
  predicate Verifies(hash: Hash, entries: seq<AuditEntry>) {
    VerifiesFrom(hash, [], entries)
  }

  /** The arguments of a log call, and the time it is made. */
  datatype Request = Request(timestamp: Text, event: Text, actor: Text, resource: Text, metadata: Option<Text>)

  datatype Log = Log(entries: seq<AuditEntry>, entryId: nat, lastHash: Text)

  const EMPTY := Log([], 0, [])

  function NewEntry(hash: Hash, id: nat, previousHash: Text, r: Request): AuditEntry {
    var draft := AuditEntry(id, r.timestamp, r.event, r.actor, r.resource, previousHash, [], r.metadata);
    draft.(entryHash := hash(HashedBytes(draft)))
  }

  function Newest(entries: seq<AuditEntry>, limit: nat): seq<AuditEntry> {
    if |entries| > limit then entries[|entries| - limit..] else entries
  }

  function Append(hash: Hash, limit: nat, log: Log, r: Request): Log {
    var entry := NewEntry(hash, log.entryId + 1, log.lastHash, r);
    Log(Newest(log.entries + [entry], limit), log.entryId + 1, entry.entryHash)
  }

  class AuditLogger {
    const hash: Hash
    const maxMemoryEntries: nat
    var entries: seq<AuditEntry>
    var entryId: nat
    var lastHash: Text

    function Value(): Log
      reads this
    {
      Log(entries, entryId, lastHash)
    }

    constructor (hash: Hash, maxMemoryEntries: nat)
      ensures Value() == EMPTY && this.hash == hash && this.maxMemoryEntries == maxMemoryEntries
    {
      this.hash := hash;
      this.maxMemoryEntries := maxMemoryEntries;
      entries := [];
      entryId := 0;
      lastHash := [];
    }

    method LogEvent(r: Request) returns (id: nat)
      modifies this
      ensures Value() == Append(hash, maxMemoryEntries, old(Value()), r) && id == old(entryId) + 1
    {
      hide HashedBytes;
      var previousHash := lastHash;
      entryId := entryId + 1;
      id := entryId;
      var entry := AuditEntry(id, r.timestamp, r.event, r.actor, r.resource, previousHash, [], r.metadata);
      entry := entry.(entryHash := hash(HashedBytes(entry)));
      lastHash := entry.entryHash;
      entries := entries + [entry];
      Trim();
    }

    /** The loop that drops the oldest entries. */
    method Trim()
      modifies this`entries
      ensures entries == Newest(old(entries), maxMemoryEntries)
    {
      while |entries| > maxMemoryEntries
        invariant |entries| <= |old(entries)| && entries == old(entries)[|old(entries)| - |entries|..]
        invariant |entries| >= maxMemoryEntries || entries == old(entries)
        decreases |entries|
      {
        entries := entries[1..];
      }
    }

    method VerifyIntegrity() returns (ok: bool)
      ensures ok == Verifies(hash, entries)
    {
      var expectedHash: Text := [];
      for i := 0 to |entries|
        invariant VerifiesFrom(hash, expectedHash, entries[i..]) == Verifies(hash, entries)
      {
        var entry := entries[i];
        assert entries[i..][0] == entry && entries[i..][1..] == entries[i + 1..];
        if entry.previousHash != expectedHash {
          return false;
        }
        var calculated := hash(HashedBytes(entry));
        if calculated != entry.entryHash {
          return false;
        }
        expectedHash := entry.entryHash;
      }
      ok := true;
    }
  }

  // ---------- runs ----------

  function Run(hash: Hash, limit: nat, log: Log, requests: seq<Request>): Log
    decreases |requests|
  {
    if requests == [] then log else Run(hash, limit, Append(hash, limit, log, requests[0]), requests[1..])
  }

  /** Linked entries: each previous hash is the hash of the entry before, ids count up, and hashes are right. */
  ghost predicate Linked(hash: Hash, entries: seq<AuditEntry>) {
    && (forall i :: 0 <= i < |entries| ==> hash(HashedBytes(entries[i])) == entries[i].entryHash)
    && (forall i, j :: 0 <= i < |entries| && j == i + 1 < |entries| ==>
          entries[j].previousHash == entries[i].entryHash && entries[j].id == entries[i].id + 1)
  }

  /** A log in memory is the newest part of everything that was ever logged. */
  ghost predicate Remembers(hash: Hash, limit: nat, log: Log, history: seq<AuditEntry>) {
    && log.entries == Newest(history, limit)
    && log.entryId == |history|
    && log.lastHash == (if history == [] then [] else history[|history| - 1].entryHash)
    && Linked(hash, history)
    && (history != [] ==> history[0].previousHash == [] && history[0].id == 1)
  }

  lemma NewestOfNewest(history: seq<AuditEntry>, entry: AuditEntry, limit: nat)
    ensures Newest(Newest(history, limit) + [entry], limit) == Newest(history + [entry], limit)
  {
  }

  lemma NewEntryHash(hash: Hash, id: nat, previousHash: Text, r: Request)
    ensures
      var entry := NewEntry(hash, id, previousHash, r);
      && entry.id == id && entry.previousHash == previousHash
      && entry.entryHash == hash(HashedBytes(entry))
  {
    hide ToBytes;
  }

  lemma OneMoreLinked(hash: Hash, history: seq<AuditEntry>, entry: AuditEntry)
    requires Linked(hash, history) && hash(HashedBytes(entry)) == entry.entryHash
    requires history != [] ==>
      entry.previousHash == history[|history| - 1].entryHash && entry.id == history[|history| - 1].id + 1
    ensures Linked(hash, history + [entry])
  {
    hide HashedBytes;
  }

  lemma AppendRemembers(hash: Hash, limit: nat, log: Log, history: seq<AuditEntry>, r: Request)
    requires Remembers(hash, limit, log, history) && (history != [] ==> history[|history| - 1].id == |history|)
    ensures
      var grown := history + [NewEntry(hash, log.entryId + 1, log.lastHash, r)];
      Remembers(hash, limit, Append(hash, limit, log, r), grown) && grown[|grown| - 1].id == |grown|
  {
    hide HashedBytes, Newest, Linked, NewEntry;
    var entry := NewEntry(hash, log.entryId + 1, log.lastHash, r);
    NewEntryHash(hash, log.entryId + 1, log.lastHash, r);
    NewestOfNewest(history, entry, limit);
    OneMoreLinked(hash, history, entry);
  }

  lemma {:induction false} RunRemembers(hash: Hash, limit: nat, log: Log, history: seq<AuditEntry>,
                                        requests: seq<Request>) returns (all: seq<AuditEntry>)
    requires Remembers(hash, limit, log, history) && (history != [] ==> history[|history| - 1].id == |history|)
    ensures Remembers(hash, limit, Run(hash, limit, log, requests), all) && |all| == |history| + |requests|
    ensures all != [] ==> all[|all| - 1].id == |all|
    decreases |requests|
  {
    hide Remembers, Append, NewEntry;
    if requests == [] {
      all := history;
    } else {
      var grown := history + [NewEntry(hash, log.entryId + 1, log.lastHash, requests[0])];
      AppendRemembers(hash, limit, log, history, requests[0]);
      all := RunRemembers(hash, limit, Append(hash, limit, log, requests[0]), grown, requests[1..]);
    }
  }

  /** Trimming keeps neighbours linked and ids consecutive, and leaves the newest entries. */
  lemma TrimmedLogStaysLinked(hash: Hash, limit: nat, requests: seq<Request>)
    ensures
      var log := Run(hash, limit, EMPTY, requests);
      && Linked(hash, log.entries)
      && |log.entries| == (if |requests| < limit then |requests| else limit)
      && (forall i :: 0 <= i < |log.entries| ==> log.entries[i].id == |requests| - |log.entries| + i + 1)
  {
    var log := Run(hash, limit, EMPTY, requests);
    var all := RunRemembers(hash, limit, EMPTY, [], requests);
    hide HashedBytes;
    LinkedSuffix(hash, all, |all| - |log.entries|);
    forall i | 0 <= i < |all| ensures all[i].id == i + 1 {
      IdsCount(hash, all, i);
    }
  }

  lemma LinkedSuffix(hash: Hash, entries: seq<AuditEntry>, cut: nat)
    requires Linked(hash, entries) && cut <= |entries|
    ensures Linked(hash, entries[cut..])
  {
    hide HashedBytes;
    var rest := entries[cut..];
    forall i, j | 0 <= i < |rest| && j == i + 1 < |rest|
      ensures rest[j].previousHash == rest[i].entryHash && rest[j].id == rest[i].id + 1
    {
      assert rest[i] == entries[cut + i] && rest[j] == entries[cut + j];
    }
  }

  lemma {:induction false} IdsCount(hash: Hash, entries: seq<AuditEntry>, i: nat)
    requires Linked(hash, entries) && i < |entries|
    ensures entries[i].id == entries[0].id + i
    decreases i
  {
    hide HashedBytes;
    if i > 0 {
      IdsCount(hash, entries, i - 1);
      assert entries[i].id == entries[i - 1].id + 1;
    }
  }

  lemma {:induction false} LinkedVerifies(hash: Hash, expected: Text, entries: seq<AuditEntry>)
    requires Linked(hash, entries) && (entries != [] ==> entries[0].previousHash == expected)
    ensures VerifiesFrom(hash, expected, entries)
    decreases |entries|
  {
    hide HashedBytes;
    if entries != [] {
      LinkedSuffix(hash, entries, 1);
      if |entries| > 1 {
        assert entries[1].previousHash == entries[0].entryHash;
      }
      LinkedVerifies(hash, entries[0].entryHash, entries[1..]);
    }
  }

  /**
   * When a log kept by one caller verifies: exactly while nothing has been evicted. (A limit of zero keeps nothing,
   * and an empty log always verifies.)
   */
  lemma VerifiesExactlyWhileComplete(hash: Hash, limit: nat, requests: seq<Request>)
    requires IsDigest(hash)
    ensures
      Verifies(hash, Run(hash, limit, EMPTY, requests).entries) <==> |requests| <= limit || limit == 0
  {
    var log := Run(hash, limit, EMPTY, requests);
    var all := RunRemembers(hash, limit, EMPTY, [], requests);
    hide HashedBytes, Run;
    if |requests| <= limit {
      LinkedVerifies(hash, [], all);
    } else if limit > 0 {
      var first := |all| - limit;
      assert log.entries[0] == all[first];
      assert all[first].previousHash == all[first - 1].entryHash == hash(HashedBytes(all[first - 1]));
    }
  }

  // ---------- what a final hash binds ----------

  /** No two different byte strings hashed in the two chains have the same digest. */
  ghost predicate NoCollision(hash: Hash, xs: seq<AuditEntry>, ys: seq<AuditEntry>) {
    forall i, j :: 0 <= i < |xs| && 0 <= j < |ys| && hash(HashedBytes(xs[i])) == hash(HashedBytes(ys[j])) ==>
      HashedBytes(xs[i]) == HashedBytes(ys[j])
  }

  lemma {:induction false} VerifiedEntries(hash: Hash, expected: Text, entries: seq<AuditEntry>, i: nat)
    requires VerifiesFrom(hash, expected, entries) && i < |entries|
    ensures hash(HashedBytes(entries[i])) == entries[i].entryHash
    ensures entries[i].previousHash == if i == 0 then expected else entries[i - 1].entryHash
    decreases i
  {
    hide HashedBytes;
    if i > 0 {
      VerifiedEntries(hash, entries[0].entryHash, entries[1..], i - 1);
    }
  }

  /** The digest of the previous entry can be read off the end of the hashed bytes. */
  lemma SameBytesSamePrevious(a: AuditEntry, b: AuditEntry)
    requires HashedBytes(a) == HashedBytes(b) && |a.previousHash| == |b.previousHash|
    ensures a.previousHash == b.previousHash
  {
    var n := |HashedBytes(a)| - |a.previousHash|;
    hide ToBytes;
    assert HashedBytes(a)[n..] == a.previousHash && HashedBytes(b)[n..] == b.previousHash;
  }

  /** And the id off their beginning. */
  lemma SameBytesSameId(a: AuditEntry, b: AuditEntry)
    requires HashedBytes(a) == HashedBytes(b) && a.id < Range(8) && b.id < Range(8)
    ensures a.id == b.id
  {
    assert HashedBytes(a)[..8] == ToBytes(a.id, 8) && HashedBytes(b)[..8] == ToBytes(b.id, 8);
    FromTo(a.id, 8);
    FromTo(b.id, 8);
    hide ToBytes, FromBytes;
  }

  /** Where two verified chains hold the same hash, they have hashed the same bytes. */
  lemma SameHashSameBytes(hash: Hash, xs: seq<AuditEntry>, ys: seq<AuditEntry>, i: nat, j: nat)
    requires Verifies(hash, xs) && Verifies(hash, ys) && NoCollision(hash, xs, ys)
    requires i < |xs| && j < |ys| && xs[i].entryHash == ys[j].entryHash
    ensures HashedBytes(xs[i]) == HashedBytes(ys[j])
  {
    hide HashedBytes, VerifiesFrom;
    VerifiedEntries(hash, [], xs, i);
    VerifiedEntries(hash, [], ys, j);
  }

  /** Read backwards from the same final hash, two verified chains agree as long as both go on. */
  lemma {:induction false} ChainsAgreeBackwards(hash: Hash, xs: seq<AuditEntry>, ys: seq<AuditEntry>, back: nat)
    requires IsDigest(hash) && Verifies(hash, xs) && Verifies(hash, ys) && NoCollision(hash, xs, ys)
    requires back < |xs| && back < |ys| && xs[|xs| - 1].entryHash == ys[|ys| - 1].entryHash
    ensures HashedBytes(xs[|xs| - 1 - back]) == HashedBytes(ys[|ys| - 1 - back])
    decreases back
  {
    hide HashedBytes, Verifies, NoCollision, IsDigest;
    var i, j := |xs| - 1 - back, |ys| - 1 - back;
    if back > 0 {
      ChainsAgreeBackwards(hash, xs, ys, back - 1);
      SamePrevious(hash, xs, ys, i, j);
    }
    SameHashSameBytes(hash, xs, ys, i, j);
  }

  lemma SamePrevious(hash: Hash, xs: seq<AuditEntry>, ys: seq<AuditEntry>, i: nat, j: nat)
    requires IsDigest(hash) && Verifies(hash, xs) && Verifies(hash, ys)
    requires i + 1 < |xs| && j + 1 < |ys| && HashedBytes(xs[i + 1]) == HashedBytes(ys[j + 1])
    ensures xs[i].entryHash == ys[j].entryHash
  {
    hide HashedBytes, VerifiesFrom;
    VerifiedEntries(hash, [], xs, i);
    VerifiedEntries(hash, [], ys, j);
    VerifiedEntries(hash, [], xs, i + 1);
    VerifiedEntries(hash, [], ys, j + 1);
    SameBytesSamePrevious(xs[i + 1], ys[j + 1]);
  }

  ghost predicate Consecutive(entries: seq<AuditEntry>) {
    && (forall i :: 0 <= i < |entries| ==> entries[i].id < Range(8))
    && (forall i :: 0 <= i < |entries| ==> entries[i].id == entries[0].id + i)
  }

  /**
   * What a final hash binds. Two verified chains with consecutive u64 ids that end in the same hash agree, from the
   * end backwards, entry by entry on the hashed bytes; they are equally long if and only if their first ids are
   * equal, as those of a logger without a log file always are.
   */
  lemma FinalHashBindsTheChain(hash: Hash, xs: seq<AuditEntry>, ys: seq<AuditEntry>)
    requires IsDigest(hash) && Verifies(hash, xs) && Verifies(hash, ys) && NoCollision(hash, xs, ys)
    requires xs != [] && ys != [] && xs[|xs| - 1].entryHash == ys[|ys| - 1].entryHash
    requires Consecutive(xs) && Consecutive(ys)
    ensures |xs| == |ys| <==> xs[0].id == ys[0].id
    ensures forall i, j :: 0 <= i < |xs| && 0 <= j < |ys| && |xs| - i == |ys| - j ==>
      HashedBytes(xs[i]) == HashedBytes(ys[j])
  {
    hide VerifiesFrom, HashedBytes, Range;
    forall i, j | 0 <= i < |xs| && 0 <= j < |ys| && |xs| - i == |ys| - j
      ensures HashedBytes(xs[i]) == HashedBytes(ys[j])
    {
      ChainsAgreeBackwards(hash, xs, ys, |xs| - 1 - i);
    }
    var back := if |xs| <= |ys| then |xs| - 1 else |ys| - 1;
    ChainsAgreeBackwards(hash, xs, ys, back);
    SameBytesSameId(xs[|xs| - 1 - back], ys[|ys| - 1 - back]);
  }

  /** A verified chain of consecutive entries from id one on that ends in a given hash. */
  ghost predicate CompleteChain(hash: Hash, entries: seq<AuditEntry>, lastHash: Text) {
    && Verifies(hash, entries) && Consecutive(entries)
    && entries != [] && entries[0].id == 1 && entries[|entries| - 1].entryHash == lastHash
  }

  lemma LoggedChain(hash: Hash, limit: nat, requests: seq<Request>)
    requires IsDigest(hash) && 0 < |requests| <= limit && limit < Range(8)
    ensures
      var log := Run(hash, limit, EMPTY, requests);
      CompleteChain(hash, log.entries, log.lastHash) && |log.entries| == |requests|
  {
    hide Run, HashedBytes, Linked, Verifies, Range, IsDigest;
    VerifiesExactlyWhileComplete(hash, limit, requests);
    TrimmedLogStaysLinked(hash, limit, requests);
    LastHashIsKept(hash, limit, requests);
  }

  lemma LastHashIsKept(hash: Hash, limit: nat, requests: seq<Request>)
    requires 0 < |requests| <= limit
    ensures
      var log := Run(hash, limit, EMPTY, requests);
      log.entries != [] && log.entries[|log.entries| - 1].entryHash == log.lastHash
  {
    hide HashedBytes, Run;
    assert Remembers(hash, limit, EMPTY, []);
    var all := RunRemembers(hash, limit, EMPTY, [], requests);
  }

  lemma CompleteChainsAgree(hash: Hash, xs: seq<AuditEntry>, ys: seq<AuditEntry>, lastHash: Text)
    requires IsDigest(hash) && NoCollision(hash, xs, ys)
    requires CompleteChain(hash, xs, lastHash) && CompleteChain(hash, ys, lastHash)
    ensures |xs| == |ys| && forall i :: 0 <= i < |xs| ==> HashedBytes(xs[i]) == HashedBytes(ys[i])
  {
    hide HashedBytes, Verifies, Consecutive, NoCollision, IsDigest;
    FinalHashBindsTheChain(hash, xs, ys);
  }

  /**
   * Two loggers that have evicted nothing and end in the same hash have logged equally many entries with the same
   * hashed bytes.
   */
  lemma LoggersWithOneFinalHash(hash: Hash, limit: nat, xs: seq<Request>, ys: seq<Request>)
    requires IsDigest(hash) && 0 < |xs| <= limit && 0 < |ys| <= limit && limit < Range(8)
    requires Run(hash, limit, EMPTY, xs).lastHash == Run(hash, limit, EMPTY, ys).lastHash
    requires NoCollision(hash, Run(hash, limit, EMPTY, xs).entries, Run(hash, limit, EMPTY, ys).entries)
    ensures
      var a, b := Run(hash, limit, EMPTY, xs).entries, Run(hash, limit, EMPTY, ys).entries;
      |a| == |b| == |xs| == |ys| && forall i :: 0 <= i < |a| ==> HashedBytes(a[i]) == HashedBytes(b[i])
  {
    hide Run, HashedBytes, CompleteChain, NoCollision, IsDigest, Range;
    var a, b := Run(hash, limit, EMPTY, xs), Run(hash, limit, EMPTY, ys);
    LoggedChain(hash, limit, xs);
    LoggedChain(hash, limit, ys);
    CompleteChainsAgree(hash, a.entries, b.entries, a.lastHash);
  }

  /** Metadata is not bound: exchanging it in any entry never changes whether a log verifies. */
  lemma {:induction false} MetadataIsNotBound(hash: Hash, expected: Text, entries: seq<AuditEntry>, i: nat,
                                              metadata: Option<Text>)
    requires i < |entries|
    ensures
      VerifiesFrom(hash, expected, entries[i := entries[i].(metadata := metadata)]) <==>
        VerifiesFrom(hash, expected, entries)
    decreases i
  {
    var changed := entries[i := entries[i].(metadata := metadata)];
    assert HashedBytes(changed[i]) == HashedBytes(entries[i]);
    hide HashedBytes;
    if i == 0 {
      assert changed[1..] == entries[1..];
    } else {
      assert changed[1..] == entries[1..][i - 1 := entries[1..][i - 1].(metadata := metadata)];
      MetadataIsNotBound(hash, entries[0].entryHash, entries[1..], i - 1, metadata);
    }
  }

  /**
   * Verification alone does not fix the length of a chain: it does not look at the ids, and the resource and the
   * previous hash are hashed without a separator. Whatever two requests r and s are logged, a single entry, with the
   * first digest at the end of its resource, verifies and ends in the same hash.
   */
  lemma LengthIsNotBoundWithoutIds(hash: Hash, r: Request, s: Request)
    ensures
      var first := NewEntry(hash, 1, [], r);
      var second := NewEntry(hash, 2, first.entryHash, s);
      var alone := NewEntry(hash, 2, [], s.(resource := s.resource + first.entryHash));
      && Verifies(hash, [first, second]) && Verifies(hash, [alone])
      && second.entryHash == alone.entryHash
  {
    var first := NewEntry(hash, 1, [], r);
    var second := NewEntry(hash, 2, first.entryHash, s);
    var joined := s.(resource := s.resource + first.entryHash);
    var alone := NewEntry(hash, 2, [], joined);
    NewEntryHash(hash, 1, [], r);
    NewEntryHash(hash, 2, first.entryHash, s);
    NewEntryHash(hash, 2, [], joined);
    var front := ToBytes(2, 8) + s.timestamp + s.event + s.actor;
    assert HashedBytes(second) == front + s.resource + first.entryHash;
    assert HashedBytes(alone) == front + (s.resource + first.entryHash);
    assert HashedBytes(second) == HashedBytes(alone);
    hide HashedBytes, NewEntry;
    assert [first, second][1..] == [second] && [second][1..] == [] && [alone][1..] == [];
    assert VerifiesFrom(hash, first.entryHash, [second]);
  }
}
