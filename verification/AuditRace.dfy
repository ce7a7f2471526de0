/**
 * Concurrent calls of the audit logger of src/audit.rs. A call copies the last hash before it takes the lock on the
 * entry id, which it then holds until it is done; so it is two steps, between which others may come.
 */
module AuditRaces {
  import opened Basics
  import opened Model
  import opened BigEndian
  import opened Audits

  /** What a call has read, and (for the statements below) how many entries had been logged by then. */
  datatype Reading = Reading(previousHash: Text, after: nat)

  datatype Shared = Shared(log: Log, readings: map<nat, Reading>)

  datatype Action =
    | ReadHash(caller: nat)
    | Commit(caller: nat, request: Request)

  const START := Shared(EMPTY, map[])

  predicate Enabled(s: Shared, a: Action) {
    a.Commit? <==> a.caller in s.readings
  }

  /** The second half of a call chains its entry to the hash that its first half has read. */
  function Act(hash: Hash, limit: nat, s: Shared, a: Action): Shared
    requires Enabled(s, a)
  {
    match a
    case ReadHash(caller) => s.(readings := s.readings[caller := Reading(s.log.lastHash, s.log.entryId)])
    case Commit(caller, request) =>
      var entry := NewEntry(hash, s.log.entryId + 1, s.readings[caller].previousHash, request);
      Shared(Log(Newest(s.log.entries + [entry], limit), s.log.entryId + 1, entry.entryHash), s.readings - {caller})
  }

  ghost predicate Schedule(hash: Hash, limit: nat, s: Shared, actions: seq<Action>)
    decreases |actions|
  {
    actions == [] || (Enabled(s, actions[0]) && Schedule(hash, limit, Act(hash, limit, s, actions[0]), actions[1..]))
  }

  function Execute(hash: Hash, limit: nat, s: Shared, actions: seq<Action>): Shared
    requires Schedule(hash, limit, s, actions)
    decreases |actions|
  {
    if actions == [] then s else Execute(hash, limit, Act(hash, limit, s, actions[0]), actions[1..])
  }

  // ---------- what is logged, kept or not ----------

  /** The entries a schedule logs, in order, including those that are evicted on the way. */
  function Logged(hash: Hash, limit: nat, s: Shared, actions: seq<Action>): seq<AuditEntry>
    requires Schedule(hash, limit, s, actions)
    decreases |actions|
  {
    if actions == [] then []
    else
      var rest := Logged(hash, limit, Act(hash, limit, s, actions[0]), actions[1..]);
      match actions[0]
      case ReadHash(_) => rest
      case Commit(caller, r) => [NewEntry(hash, s.log.entryId + 1, s.readings[caller].previousHash, r)] + rest
  }

  /** For each of these entries, how many had been logged when its call read the last hash. */
  function ReadAfter(hash: Hash, limit: nat, s: Shared, actions: seq<Action>): seq<nat>
    requires Schedule(hash, limit, s, actions)
    decreases |actions|
  {
    if actions == [] then []
    else
      var rest := ReadAfter(hash, limit, Act(hash, limit, s, actions[0]), actions[1..]);
      match actions[0]
      case ReadHash(_) => rest
      case Commit(caller, r) => [s.readings[caller].after] + rest
  }

  /** The last hash when k entries had been logged. */
  function HashAfter(entries: seq<AuditEntry>, k: nat): Text
    requires k <= |entries|
  {
    if k == 0 then [] else entries[k - 1].entryHash
  }

  /** Each entry is numbered, hashes right, and is chained to what was the last hash when its call read it. */
  ghost predicate Chained(hash: Hash, entries: seq<AuditEntry>, afters: seq<nat>) {
    |entries| == |afters| && forall i :: 0 <= i < |entries| ==>
      && entries[i].id == i + 1 && entries[i].entryHash == hash(HashedBytes(entries[i]))
      && afters[i] <= i && entries[i].previousHash == HashAfter(entries, afters[i])
  }

  /** How the state of the logger relates to everything that was ever logged. */
  ghost predicate Tracks(hash: Hash, limit: nat, s: Shared, entries: seq<AuditEntry>, afters: seq<nat>) {
    && Chained(hash, entries, afters)
    && s.log.entryId == |entries| && s.log.lastHash == HashAfter(entries, |entries|)
    && s.log.entries == Newest(entries, limit)
    && (forall c :: c in s.readings ==>
          && s.readings[c].after <= |entries|
          && s.readings[c].previousHash == HashAfter(entries, s.readings[c].after))
  }

  lemma OneMoreChained(hash: Hash, entries: seq<AuditEntry>, afters: seq<nat>, e: AuditEntry, after: nat)
    requires Chained(hash, entries, afters) && after <= |entries| && e.id == |entries| + 1
    requires e.entryHash == hash(HashedBytes(e)) && e.previousHash == HashAfter(entries, after)
    ensures Chained(hash, entries + [e], afters + [after])
  {
    hide HashedBytes;
    var grown := entries + [e];
    forall k | 0 <= k <= |entries| ensures HashAfter(grown, k) == HashAfter(entries, k) {
    }
  }

  lemma HashAfterStays(entries: seq<AuditEntry>, e: AuditEntry, k: nat)
    requires k <= |entries|
    ensures HashAfter(entries + [e], k) == HashAfter(entries, k)
  {
  }

  lemma CommitTracks(hash: Hash, limit: nat, s: Shared, caller: nat, r: Request, entries: seq<AuditEntry>,
                     afters: seq<nat>)
    requires Tracks(hash, limit, s, entries, afters) && caller in s.readings
    ensures
      var e := NewEntry(hash, s.log.entryId + 1, s.readings[caller].previousHash, r);
      Tracks(hash, limit, Act(hash, limit, s, Commit(caller, r)), entries + [e], afters + [s.readings[caller].after])
  {
    hide HashedBytes, NewEntry, Chained, Newest, HashAfter;
    var e := NewEntry(hash, s.log.entryId + 1, s.readings[caller].previousHash, r);
    NewEntryHash(hash, s.log.entryId + 1, s.readings[caller].previousHash, r);
    OneMoreChained(hash, entries, afters, e, s.readings[caller].after);
    NewestOfNewest(entries, e, limit);
    LastHashIs(entries, e);
    forall c | c in s.readings
      ensures HashAfter(entries + [e], s.readings[c].after) == HashAfter(entries, s.readings[c].after)
    {
      HashAfterStays(entries, e, s.readings[c].after);
    }
  }

  lemma LastHashIs(entries: seq<AuditEntry>, e: AuditEntry)
    ensures HashAfter(entries + [e], |entries + [e]|) == e.entryHash
  {
  }

  lemma ReadTracks(hash: Hash, limit: nat, s: Shared, caller: nat, entries: seq<AuditEntry>, afters: seq<nat>)
    requires Tracks(hash, limit, s, entries, afters)
    requires caller !in s.readings
    ensures Tracks(hash, limit, Act(hash, limit, s, ReadHash(caller)), entries, afters)
  {
    hide Chained, Newest, HashAfter;
  }

  lemma {:induction false} RunTracks(hash: Hash, limit: nat, s: Shared, actions: seq<Action>, entries: seq<AuditEntry>,
                                     afters: seq<nat>)
    requires Tracks(hash, limit, s, entries, afters) && Schedule(hash, limit, s, actions)
    ensures
      Tracks(hash, limit, Execute(hash, limit, s, actions), entries + Logged(hash, limit, s, actions),
             afters + ReadAfter(hash, limit, s, actions))
    decreases |actions|
  {
    hide Tracks, Act, NewEntry;
    if actions == [] {
      assert entries + [] == entries && afters + [] == afters;
    } else {
      var next, rest := Act(hash, limit, s, actions[0]), actions[1..];
      var all, behind := Logged(hash, limit, next, rest), ReadAfter(hash, limit, next, rest);
      match actions[0]
      case ReadHash(caller) =>
        ReadTracks(hash, limit, s, caller, entries, afters);
        RunTracks(hash, limit, next, rest, entries, afters);
      case Commit(caller, r) =>
        var e := NewEntry(hash, s.log.entryId + 1, s.readings[caller].previousHash, r);
        var after := s.readings[caller].after;
        CommitTracks(hash, limit, s, caller, r, entries, afters);
        RunTracks(hash, limit, next, rest, entries + [e], afters + [after]);
        assert entries + [e] + all == entries + ([e] + all);
        assert afters + [after] + behind == afters + ([after] + behind);
    }
  }

  // ---------- which logs verify ----------

  /** Different numbers of entries leave different last hashes, because the number is part of what is hashed. */
  lemma HashesAreDistinct(hash: Hash, entries: seq<AuditEntry>, afters: seq<nat>, j: nat, k: nat)
    requires IsDigest(hash) && NoCollision(hash, entries, entries) && |entries| < Range(8)
    requires Chained(hash, entries, afters) && j <= k <= |entries| && HashAfter(entries, j) == HashAfter(entries, k)
    ensures j == k
  {
    hide HashedBytes, Range;
    if 0 < j {
      assert HashedBytes(entries[j - 1]) == HashedBytes(entries[k - 1]);
      SameBytesSameId(entries[j - 1], entries[k - 1]);
    }
  }

  /** Entry i hashes right and is chained to the one before it, or to `expected`. */
  predicate Links(hash: Hash, expected: Text, entries: seq<AuditEntry>, i: nat)
    requires i < |entries|
  {
    && hash(HashedBytes(entries[i])) == entries[i].entryHash
    && entries[i].previousHash == if i == 0 then expected else entries[i - 1].entryHash
  }

  lemma LinksOfRest(hash: Hash, expected: Text, entries: seq<AuditEntry>, i: nat)
    requires i + 1 < |entries|
    ensures Links(hash, entries[0].entryHash, entries[1..], i) <==> Links(hash, expected, entries, i + 1)
  {
    hide HashedBytes;
    assert entries[1..][i] == entries[i + 1];
  }

  lemma {:induction false} VerifiesLinkByLink(hash: Hash, expected: Text, entries: seq<AuditEntry>)
    ensures
      VerifiesFrom(hash, expected, entries) <==>
        forall i :: 0 <= i < |entries| ==> Links(hash, expected, entries, i)
    decreases |entries|
  {
    if entries != [] {
      var rest := entries[1..];
      assert Links(hash, expected, entries, 0) <==>
        hash(HashedBytes(entries[0])) == entries[0].entryHash && entries[0].previousHash == expected;
      hide HashedBytes, Links;
      VerifiesLinkByLink(hash, entries[0].entryHash, rest);
      forall i | 0 <= i < |rest|
        ensures Links(hash, entries[0].entryHash, rest, i) <==> Links(hash, expected, entries, i + 1)
      {
        LinksOfRest(hash, expected, entries, i);
      }
      if forall i :: 0 <= i < |rest| ==> Links(hash, entries[0].entryHash, rest, i) {
        forall j | 1 <= j < |entries| ensures Links(hash, expected, entries, j) {
          assert Links(hash, entries[0].entryHash, rest, j - 1);
        }
      }
    }
  }

  /** The number of entries that entry i must have been chained behind, if the log is to verify from `first` on. */
  function Wanted(first: nat, i: nat): nat {
    if i == first then 0 else i
  }

  /** From `first` on: the first entry was chained to no entry, and each other one to the one before it. */
  predicate InSequence(afters: seq<nat>, first: nat) {
    forall i :: first <= i < |afters| ==> afters[i] == Wanted(first, i)
  }

  lemma ChainedAt(hash: Hash, entries: seq<AuditEntry>, afters: seq<nat>, i: nat)
    requires Chained(hash, entries, afters) && i < |entries|
    ensures |entries| == |afters| && afters[i] <= i
    ensures entries[i].entryHash == hash(HashedBytes(entries[i]))
    ensures entries[i].previousHash == HashAfter(entries, afters[i])
  {
    hide HashedBytes, HashAfter;
  }

  lemma LinkIsLastHash(hash: Hash, entries: seq<AuditEntry>, afters: seq<nat>, first: nat, i: nat)
    requires Chained(hash, entries, afters) && first <= i < |entries|
    ensures |entries| == |afters| && afters[i] <= i
    ensures
      Links(hash, [], entries[first..], i - first) <==>
        HashAfter(entries, afters[i]) == HashAfter(entries, Wanted(first, i))
  {
    hide HashedBytes, Chained;
    ChainedAt(hash, entries, afters, i);
    var kept := entries[first..];
    assert kept[i - first] == entries[i] && (i > first ==> kept[i - first - 1] == entries[i - 1]);
    assert HashAfter(entries, Wanted(first, i)) == if i == first then [] else entries[i - 1].entryHash;
    var wanted := HashAfter(entries, Wanted(first, i));
    var had := HashAfter(entries, afters[i]);
    hide HashAfter;
    assert Links(hash, [], kept, i - first) <==> had == wanted;
  }

  lemma LinksExactly(hash: Hash, entries: seq<AuditEntry>, afters: seq<nat>, first: nat, i: nat)
    requires IsDigest(hash) && NoCollision(hash, entries, entries) && |entries| < Range(8)
    requires Chained(hash, entries, afters) && first <= i < |entries|
    ensures |entries| == |afters|
    ensures Links(hash, [], entries[first..], i - first) <==> afters[i] == Wanted(first, i)
  {
    hide Range, IsDigest, NoCollision, Chained, Links, HashAfter;
    LinkIsLastHash(hash, entries, afters, first, i);
    var wanted := Wanted(first, i);
    if HashAfter(entries, afters[i]) == HashAfter(entries, wanted) {
      if afters[i] <= wanted {
        HashesAreDistinct(hash, entries, afters, afters[i], wanted);
      } else {
        HashesAreDistinct(hash, entries, afters, wanted, afters[i]);
      }
    }
  }

  lemma SuffixVerifiesExactly(hash: Hash, entries: seq<AuditEntry>, afters: seq<nat>, first: nat)
    requires IsDigest(hash) && NoCollision(hash, entries, entries) && |entries| < Range(8)
    requires Chained(hash, entries, afters) && first <= |entries|
    ensures Verifies(hash, entries[first..]) <==> InSequence(afters, first)
  {
    assert |entries| == |afters|;
    hide Chained, NoCollision, IsDigest, Links, Range, VerifiesFrom;
    var kept := entries[first..];
    VerifiesLinkByLink(hash, [], kept);
    forall i | first <= i < |entries| ensures Links(hash, [], kept, i - first) <==> afters[i] == Wanted(first, i) {
      LinksExactly(hash, entries, afters, first, i);
    }
    if InSequence(afters, first) {
      forall j | 0 <= j < |kept| ensures Links(hash, [], kept, j) {
        assert afters[first + j] == Wanted(first, first + j);
      }
    }
    if Verifies(hash, kept) {
      forall i | first <= i < |afters| ensures afters[i] == Wanted(first, i) {
        assert Links(hash, [], kept, i - first);
      }
    }
  }

  lemma SameLengths(hash: Hash, entries: seq<AuditEntry>, afters: seq<nat>)
    requires Chained(hash, entries, afters)
    ensures |entries| == |afters|
  {
  }

  lemma StartTracks(hash: Hash, limit: nat)
    ensures Tracks(hash, limit, START, [], [])
  {
  }

  /**
   * Which concurrent uses of the logger still verify, evictions included. In memory are the newest entries; they verify
   * if and only if the call of the oldest of them had read the hash before anything was logged, and no other of their
   * calls had an entry logged between its two halves.
   */
  lemma ConcurrentLogVerifiesExactly(hash: Hash, limit: nat, actions: seq<Action>)
    requires Schedule(hash, limit, START, actions)
    requires
      var all := Logged(hash, limit, START, actions);
      IsDigest(hash) && NoCollision(hash, all, all) && |all| < Range(8)
    ensures
      var all, afters := Logged(hash, limit, START, actions), ReadAfter(hash, limit, START, actions);
      var first := if |all| > limit then |all| - limit else 0;
      && |all| == |afters| && Execute(hash, limit, START, actions).log.entries == all[first..]
      && (Verifies(hash, all[first..]) <==> InSequence(afters, first))
  {
    hide Logged, ReadAfter, Execute, Range, IsDigest, NoCollision, Verifies, Chained, HashAfter, InSequence;
    StartTracks(hash, limit);
    var all, afters := Logged(hash, limit, START, actions), ReadAfter(hash, limit, START, actions);
    var first := if |all| > limit then |all| - limit else 0;
    RunTracks(hash, limit, START, actions, [], []);
    SameLengths(hash, [] + all, [] + afters);
    assert [] + all == all && [] + afters == afters && all[0..] == all;
    SuffixVerifiesExactly(hash, all, afters, first);
  }

  /** A call that is not interrupted does what the sequential logger does. */
  lemma UninterruptedCallAppends(hash: Hash, limit: nat, s: Shared, caller: nat, r: Request)
    requires caller !in s.readings
    ensures
      var read := Act(hash, limit, s, ReadHash(caller));
      && Enabled(read, Commit(caller, r))
      && Act(hash, limit, read, Commit(caller, r)) == Shared(Append(hash, limit, s.log, r), s.readings)
  {
    assert s.readings[caller := Reading(s.log.lastHash, s.log.entryId)] - {caller} == s.readings;
  }
}
