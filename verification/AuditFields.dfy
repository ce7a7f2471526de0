/** Which fields of an audit entry the hash chain of src/audit.rs binds. */
module AuditFields {
  import opened Basics
  import opened Model
  import opened BigEndian
  import opened Audits

  /** The texts of an entry that are hashed behind its id, in this order and without separators. */
  function Joined(e: AuditEntry): Text {
    e.timestamp + e.event + e.actor + e.resource
  }

  /** The hash has no collision on what the two entries hash. */
  predicate NoClash(hash: Hash, a: AuditEntry, b: AuditEntry) {
    hash(HashedBytes(a)) == hash(HashedBytes(b)) ==> HashedBytes(a) == HashedBytes(b)
  }

  lemma HashedIsJoined(e: AuditEntry)
    ensures HashedBytes(e) == ToBytes(e.id, 8) + (Joined(e) + e.previousHash)
  {
    hide ToBytes;
    var head := ToBytes(e.id, 8);
    assert head + e.timestamp + e.event + e.actor + e.resource + e.previousHash
        == head + (e.timestamp + e.event + e.actor + e.resource + e.previousHash);
  }

  lemma SameEnds(front: Text, front': Text, back: Text, back': Text)
    requires front + back == front' + back' && |front| == |front'|
    ensures front == front' && back == back'
  {
    assert (front + back)[..|front|] == front && (front' + back')[..|front|] == front';
    assert (front + back)[|front|..] == back && (front' + back')[|front|..] == back';
  }

  /** With one previous hash, exactly the id and the joined texts decide what is hashed. */
  lemma HashedExactly(a: AuditEntry, b: AuditEntry)
    requires a.id < Range(8) && b.id < Range(8) && a.previousHash == b.previousHash
    ensures HashedBytes(a) == HashedBytes(b) <==> a.id == b.id && Joined(a) == Joined(b)
  {
    HashedIsJoined(a);
    HashedIsJoined(b);
    if HashedBytes(a) == HashedBytes(b) {
      SameBytesSameId(a, b);
      hide HashedBytes, ToBytes, Range, Joined;
      SameEnds(ToBytes(a.id, 8), ToBytes(b.id, 8), Joined(a) + a.previousHash, Joined(b) + b.previousHash);
      assert |Joined(a)| == |Joined(b)|;
      SameEnds(Joined(a), Joined(b), a.previousHash, b.previousHash);
    }
  }

  /**
   * What verification notices about an entry that is exchanged, its own hash kept: everything but a shift of letters
   * between neighbouring texts (and the metadata). The log still verifies if and only if the previous hash, the id and
   * the concatenation of timestamp, event, actor and resource are the same.
   */
  lemma ExchangeIsNoticedExactly(hash: Hash, entries: seq<AuditEntry>, i: nat, changed: AuditEntry)
    requires Verifies(hash, entries) && i < |entries| && changed.entryHash == entries[i].entryHash
    requires entries[i].id < Range(8) && changed.id < Range(8) && NoClash(hash, entries[i], changed)
    ensures
      var e := entries[i];
      Verifies(hash, entries[i := changed]) <==>
        && changed.previousHash == e.previousHash && changed.id == e.id
        && changed.timestamp + changed.event + changed.actor + changed.resource
           == e.timestamp + e.event + e.actor + e.resource
  {
    hide HashedBytes, Range, VerifiesFrom;
    VerifiedEntries(hash, [], entries, i);
    ExchangedVerifies(hash, [], entries, i, changed);
    if changed.previousHash == entries[i].previousHash {
      HashedExactly(changed, entries[i]);
    }
  }

  /** Exchanging an entry and keeping its hash leaves the rest of the chain as it was. */
  lemma {:induction false} ExchangedVerifies(hash: Hash, expected: Text, entries: seq<AuditEntry>, i: nat,
                                             changed: AuditEntry)
    requires VerifiesFrom(hash, expected, entries) && i < |entries| && changed.entryHash == entries[i].entryHash
    ensures
      VerifiesFrom(hash, expected, entries[i := changed]) <==>
        changed.previousHash == entries[i].previousHash && hash(HashedBytes(changed)) == changed.entryHash
    decreases i
  {
    hide HashedBytes;
    var exchanged := entries[i := changed];
    if i == 0 {
      assert exchanged[1..] == entries[1..];
    } else {
      assert exchanged[1..] == entries[1..][i - 1 := changed];
      ExchangedVerifies(hash, entries[0].entryHash, entries[1..], i - 1, changed);
    }
  }

  /** The two entries differ in exactly one of the hashed fields. */
  predicate DifferInOne(a: AuditEntry, b: AuditEntry) {
    || (a.id != b.id && SameButFor(a, b.(id := a.id)))
    || (a.timestamp != b.timestamp && SameButFor(a, b.(timestamp := a.timestamp)))
    || (a.event != b.event && SameButFor(a, b.(event := a.event)))
    || (a.actor != b.actor && SameButFor(a, b.(actor := a.actor)))
    || (a.resource != b.resource && SameButFor(a, b.(resource := a.resource)))
    || (a.previousHash != b.previousHash && SameButFor(a, b.(previousHash := a.previousHash)))
  }

  predicate SameButFor(a: AuditEntry, b: AuditEntry) {
    && a.id == b.id && a.timestamp == b.timestamp && a.event == b.event && a.actor == b.actor
    && a.resource == b.resource && a.previousHash == b.previousHash
  }

  lemma MiddleIsBound(front: Text, x: Text, y: Text, back: Text)
    requires front + x + back == front + y + back
    ensures x == y
  {
    assert |x| == |y|;
    assert (front + x + back)[|front|..|front| + |x|] == x && (front + y + back)[|front|..|front| + |y|] == y;
  }

  /** Exchanging a single hashed field of any entry of a verified log makes it fail. */
  lemma EveryFieldIsBound(hash: Hash, entries: seq<AuditEntry>, i: nat, changed: AuditEntry)
    requires Verifies(hash, entries) && i < |entries| && changed.entryHash == entries[i].entryHash
    requires entries[i].id < Range(8) && changed.id < Range(8) && NoClash(hash, entries[i], changed)
    requires DifferInOne(entries[i], changed)
    ensures !Verifies(hash, entries[i := changed])
  {
    var e := entries[i];
    ExchangeIsNoticedExactly(hash, entries, i, changed);
    hide Range, Verifies, NoClash;
    if Joined(changed) == Joined(e) && changed.id == e.id && changed.previousHash == e.previousHash {
      JoinedDiffer(e, changed);
    }
  }

  lemma JoinedDiffer(a: AuditEntry, b: AuditEntry)
    requires DifferInOne(a, b) && a.id == b.id && a.previousHash == b.previousHash
    ensures Joined(a) != Joined(b)
  {
    if Joined(a) == Joined(b) {
      OneFieldOfJoined(a, b);
    }
  }

  /** Where three of the joined texts agree, so does the fourth. */
  lemma OneFieldOfJoined(a: AuditEntry, b: AuditEntry)
    requires Joined(a) == Joined(b)
    ensures a.event == b.event && a.actor == b.actor && a.resource == b.resource ==> a.timestamp == b.timestamp
    ensures a.timestamp == b.timestamp && a.actor == b.actor && a.resource == b.resource ==> a.event == b.event
    ensures a.timestamp == b.timestamp && a.event == b.event && a.resource == b.resource ==> a.actor == b.actor
    ensures a.timestamp == b.timestamp && a.event == b.event && a.actor == b.actor ==> a.resource == b.resource
  {
    if a.event == b.event && a.actor == b.actor && a.resource == b.resource {
      var back := a.event + a.actor + a.resource;
      assert Joined(a) == [] + a.timestamp + back && Joined(b) == [] + b.timestamp + back;
      MiddleIsBound([], a.timestamp, b.timestamp, back);
    }
    if a.timestamp == b.timestamp && a.actor == b.actor && a.resource == b.resource {
      assert Joined(a) == a.timestamp + a.event + (a.actor + a.resource);
      assert Joined(b) == a.timestamp + b.event + (a.actor + a.resource);
      MiddleIsBound(a.timestamp, a.event, b.event, a.actor + a.resource);
    }
    if a.timestamp == b.timestamp && a.event == b.event && a.resource == b.resource {
      MiddleIsBound(a.timestamp + a.event, a.actor, b.actor, a.resource);
    }
    if a.timestamp == b.timestamp && a.event == b.event && a.actor == b.actor {
      var front := a.timestamp + a.event + a.actor;
      assert Joined(a) == front + a.resource + [] && Joined(b) == front + b.resource + [];
      MiddleIsBound(front, a.resource, b.resource, []);
    }
  }

  // ---------- loggers ----------

  /** The entry records the request. */
  predicate Records(e: AuditEntry, r: Request) {
    && e.timestamp == r.timestamp && e.event == r.event && e.actor == r.actor && e.resource == r.resource
    && e.metadata == r.metadata
  }

  lemma NewEntryRecords(hash: Hash, id: nat, previousHash: Text, r: Request)
    ensures Records(NewEntry(hash, id, previousHash, r), r)
  {
    hide HashedBytes;
  }

  /** The newest entries record the newest requests. */
  ghost predicate RecordsNewest(entries: seq<AuditEntry>, requests: seq<Request>) {
    && |entries| <= |requests|
    && forall i, j :: 0 <= i < |entries| && j == |requests| - |entries| + i ==> Records(entries[i], requests[j])
  }

  lemma AppendRecords(hash: Hash, limit: nat, log: Log, requests: seq<Request>, r: Request)
    requires RecordsNewest(log.entries, requests)
    ensures RecordsNewest(Append(hash, limit, log, r).entries, requests + [r])
  {
    NewEntryRecords(hash, log.entryId + 1, log.lastHash, r);
    hide NewEntry, Records;
    var after := Append(hash, limit, log, r).entries;
    var entry := NewEntry(hash, log.entryId + 1, log.lastHash, r);
    var grown := log.entries + [entry];
    forall i, j | 0 <= i < |after| && j == |requests + [r]| - |after| + i
      ensures Records(after[i], (requests + [r])[j])
    {
      var k := |grown| - |after| + i;
      assert after[i] == grown[k];
      if k < |log.entries| {
        assert Records(log.entries[k], requests[|requests| - |log.entries| + k]);
      }
    }
  }

  lemma {:induction false} RunRecordsFrom(hash: Hash, limit: nat, log: Log, before: seq<Request>,
                                          requests: seq<Request>)
    requires RecordsNewest(log.entries, before)
    ensures RecordsNewest(Run(hash, limit, log, requests).entries, before + requests)
    decreases |requests|
  {
    hide Append, Records, RecordsNewest;
    if requests == [] {
      assert before + [] == before;
    } else {
      AppendRecords(hash, limit, log, before, requests[0]);
      RunRecordsFrom(hash, limit, Append(hash, limit, log, requests[0]), before + [requests[0]], requests[1..]);
      assert before + [requests[0]] + requests[1..] == before + requests;
    }
  }

  /** What a log holds after any run: the newest requests, in order, each with all that was asked to be logged. */
  lemma LogRecordsTheRequests(hash: Hash, limit: nat, requests: seq<Request>, i: nat)
    requires i < |Run(hash, limit, EMPTY, requests).entries|
    ensures
      var entries := Run(hash, limit, EMPTY, requests).entries;
      |entries| <= |requests| && Records(entries[i], requests[|requests| - |entries| + i])
  {
    hide Run, Records;
    RunRecordsFrom(hash, limit, EMPTY, [], requests);
    assert [] + requests == requests;
    var entries := Run(hash, limit, EMPTY, requests).entries;
    assert Records(entries[i], requests[|requests| - |entries| + i]);
  }

  /** At most one of the four hashed texts of the requests differs. */
  predicate AgreeButForOne(r: Request, s: Request) {
    || (r.event == s.event && r.actor == s.actor && r.resource == s.resource)
    || (r.timestamp == s.timestamp && r.actor == s.actor && r.resource == s.resource)
    || (r.timestamp == s.timestamp && r.event == s.event && r.resource == s.resource)
    || (r.timestamp == s.timestamp && r.event == s.event && r.actor == s.actor)
  }

  lemma SameJoinedSameRequest(a: AuditEntry, b: AuditEntry, r: Request, s: Request)
    requires Joined(a) == Joined(b) && Records(a, r) && Records(b, s) && AgreeButForOne(r, s)
    ensures r.timestamp == s.timestamp && r.event == s.event && r.actor == s.actor && r.resource == s.resource
  {
    OneFieldOfJoined(a, b);
    hide Joined;
  }

  /**
   * What two loggers with one final hash have in common, when nothing has been evicted: they logged equally many
   * requests, and wherever two requests differ in at most one of timestamp, event, actor and resource, they do not
   * differ at all.
   */
  lemma OneFinalHashOneHistory(hash: Hash, limit: nat, xs: seq<Request>, ys: seq<Request>, i: nat)
    requires IsDigest(hash) && 0 < |xs| <= limit && 0 < |ys| <= limit && limit < Range(8)
    requires Run(hash, limit, EMPTY, xs).lastHash == Run(hash, limit, EMPTY, ys).lastHash
    requires NoCollision(hash, Run(hash, limit, EMPTY, xs).entries, Run(hash, limit, EMPTY, ys).entries)
    requires i < |xs| && i < |ys| && AgreeButForOne(xs[i], ys[i])
    ensures |xs| == |ys|
    ensures
      xs[i].timestamp == ys[i].timestamp && xs[i].event == ys[i].event && xs[i].actor == ys[i].actor
      && xs[i].resource == ys[i].resource
  {
    var a, b := Run(hash, limit, EMPTY, xs).entries, Run(hash, limit, EMPTY, ys).entries;
    hide Run, Range, HashedBytes, NoCollision, Records, AgreeButForOne, Joined;
    LoggersWithOneFinalHash(hash, limit, xs, ys);
    LogRecordsTheRequests(hash, limit, xs, i);
    LogRecordsTheRequests(hash, limit, ys, i);
    SameHashedSameJoined(hash, limit, xs, ys, i);
    SameJoinedSameRequest(a[i], b[i], xs[i], ys[i]);
  }

  lemma SameHashedSameJoined(hash: Hash, limit: nat, xs: seq<Request>, ys: seq<Request>, i: nat)
    requires IsDigest(hash) && i < |xs| == |ys| <= limit && limit < Range(8)
    requires
      var a, b := Run(hash, limit, EMPTY, xs).entries, Run(hash, limit, EMPTY, ys).entries;
      |a| == |b| == |xs| && forall k :: 0 <= k < |a| ==> HashedBytes(a[k]) == HashedBytes(b[k])
    ensures Joined(Run(hash, limit, EMPTY, xs).entries[i]) == Joined(Run(hash, limit, EMPTY, ys).entries[i])
  {
    var a, b := Run(hash, limit, EMPTY, xs).entries, Run(hash, limit, EMPTY, ys).entries;
    hide Run, HashedBytes, Range, Joined;
    VerifiesExactlyWhileComplete(hash, limit, xs);
    VerifiesExactlyWhileComplete(hash, limit, ys);
    TrimmedLogStaysLinked(hash, limit, xs);
    TrimmedLogStaysLinked(hash, limit, ys);
    hide IsDigest, Verifies, Linked;
    VerifiedEntries(hash, [], a, i);
    VerifiedEntries(hash, [], b, i);
    if i > 0 {
      VerifiedEntries(hash, [], a, i - 1);
      VerifiedEntries(hash, [], b, i - 1);
    }
    assert a[i].previousHash == b[i].previousHash;
    HashedExactly(a[i], b[i]);
  }
}
