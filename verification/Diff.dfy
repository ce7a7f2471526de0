/** Deltas between VM states and how they are applied (src/state_diff.rs). */
module Diffs {
  import opened Basics
  import opened Model
  import opened BigEndian

  /** The parts of a state that deltas look at; `cpu`, `fds` and `sockets` hold the serialized values. */
  datatype State = State(
    stateId: Text, cpu: Bytes, fds: seq<Bytes>, sockets: seq<Bytes>, manifest: seq<MemoryRegion>)

  datatype Delta = Delta(
    fromState: Text, toState: Text,
    addedRegions: seq<MemoryRegion>, removedRegions: seq<MemoryRegion>, modifiedRegions: seq<MemoryRegion>,
    addedPages: map<Text, Bytes>, removedPages: set<Text>,
    cpuChanged: bool, fdChanged: bool, socketChanged: bool)
  {
    /** Note that the removed pages are not looked at. */
    predicate IsEmpty() {
      && !cpuChanged && !fdChanged && !socketChanged
      && addedRegions == [] && removedRegions == [] && modifiedRegions == []
      && addedPages.Keys == {}
    }
  }

  datatype Result<T> = Ok(value: T) | StateMismatch(expected: Text, got: Text)

  type Hash = Bytes -> Text

  type Regions = map<Text, MemoryRegion>

  /** Collecting a manifest into a map: a later region replaces an earlier one with the same identifier. */
  function RegionMap(manifest: seq<MemoryRegion>): Regions {
    if manifest == [] then map[]
    else
      var last := manifest[|manifest| - 1];
      RegionMap(manifest[..|manifest| - 1])[last.regionId := last]
  }

  /** What a region's page hash is computed from. */
  function KeyBytes(r: MemoryRegion): Bytes {
    r.regionId + ToBytes(r.baseAddr, 8) + ToBytes(r.size, 8)
  }

  function PageHashes(hash: Hash, manifest: seq<MemoryRegion>): set<Text> {
    set r | r in manifest :: hash(KeyBytes(r))
  }

  /** Identifiers with their address ranges. */
  function Geometry(manifest: seq<MemoryRegion>): map<Text, (nat, nat)> {
    var regions := RegionMap(manifest);
    map id | id in regions :: (regions[id].baseAddr, regions[id].size)
  }

  predicate TablesDiffer(hash: Hash, from: seq<Bytes>, to: seq<Bytes>) {
    |from| != |to| || exists i :: 0 <= i < |from| && hash(from[i]) != hash(to[i])
  }

  /** s lists, in some order, each of the selected regions of a map once. */
  ghost predicate Lists(s: seq<MemoryRegion>, regions: Regions, ids: set<Text>) {
    && UniqueIds(s)
    && (forall r :: r in s <==> r.regionId in ids && r.regionId in regions && regions[r.regionId] == r)
  }

  /** The deltas `compute_delta` may return; they differ only in the order of their region lists. */
  ghost predicate IsDelta(hash: Hash, pageLevel: bool, delta: Delta, from: State, to: State) {
    var fromRegions, toRegions := RegionMap(from.manifest), RegionMap(to.manifest);
    var fromPages, toPages := PageHashes(hash, from.manifest), PageHashes(hash, to.manifest);
    && delta.fromState == from.stateId && delta.toState == to.stateId
    && (delta.cpuChanged <==> hash(from.cpu) != hash(to.cpu))
    && (delta.fdChanged <==> TablesDiffer(hash, from.fds, to.fds))
    && (delta.socketChanged <==> TablesDiffer(hash, from.sockets, to.sockets))
    && Lists(delta.addedRegions, toRegions, toRegions.Keys - fromRegions.Keys)
    && Lists(delta.removedRegions, fromRegions, fromRegions.Keys - toRegions.Keys)
    && delta.addedPages.Keys == (if pageLevel then toPages - fromPages else {})
    && delta.removedPages == (if pageLevel then fromPages - toPages else {})
    && Lists(delta.modifiedRegions, toRegions,
             if pageLevel && toPages <= fromPages then {} else toRegions.Keys * fromRegions.Keys)
  }

  lemma {:induction false} RegionMapIds(manifest: seq<MemoryRegion>)
    ensures forall id :: id in RegionMap(manifest) <==> exists r :: r in manifest && r.regionId == id
    ensures
      forall id :: id in RegionMap(manifest) ==>
        RegionMap(manifest)[id].regionId == id && RegionMap(manifest)[id] in manifest
    decreases |manifest|
  {
    if manifest != [] {
      var front, last := manifest[..|manifest| - 1], manifest[|manifest| - 1];
      RegionMapIds(front);
      assert manifest == front + [last];
      forall id | exists r :: r in manifest && r.regionId == id ensures id in RegionMap(manifest) {
        var r :| r in manifest && r.regionId == id;
        assert r == last || r in front;
      }
    }
  }

  lemma NothingLeft(a: set<Text>, b: set<Text>)
    ensures a - b == {} <==> a <= b
  {
    if a - b == {} {
      forall x | x in a ensures x in b {
        assert x in b || x in a - b;
      }
    }
  }

  lemma NothingListed(regions: Regions)
    ensures Lists([], regions, {})
  {
  }

  class StateDiffer {
    const hash: Hash
    const pageLevelDiff: bool

    constructor (hash: Hash, pageLevelDiff: bool)
      ensures this.hash == hash && this.pageLevelDiff == pageLevelDiff
    {
      this.hash := hash;
      this.pageLevelDiff := pageLevelDiff;
    }

    /** The loops of the differ: walk a hash map, in whatever order, and push the selected regions. */
    static method Push(regions: Regions, ids: set<Text>) returns (pushed: seq<MemoryRegion>)
      requires forall id :: id in regions ==> regions[id].regionId == id
      ensures Lists(pushed, regions, ids)
    {
      pushed := [];
      var unseen := regions.Keys;
      while unseen != {}
        invariant unseen <= regions.Keys
        invariant Lists(pushed, regions, ids - unseen)
        decreases |unseen|
      {
        var id :| id in unseen;
        unseen := unseen - {id};
        if id in ids {
          pushed := pushed + [regions[id]];
        }
      }
    }

    method BuildPageHashes(state: State) returns (pages: set<Text>)
      ensures pages == PageHashes(hash, state.manifest)
    {
      pages := {};
      for i := 0 to |state.manifest|
        invariant pages == PageHashes(hash, state.manifest[..i])
      {
        assert state.manifest[..i + 1] == state.manifest[..i] + [state.manifest[i]];
        pages := pages + {hash(KeyBytes(state.manifest[i]))};
      }
      assert state.manifest[..|state.manifest|] == state.manifest;
    }

    method ComputeDelta(from: State, to: State) returns (delta: Delta)
      ensures IsDelta(hash, pageLevelDiff, delta, from, to)
    {
      var cpuChanged := hash(from.cpu) != hash(to.cpu);
      var fdChanged := TablesDiffer(hash, from.fds, to.fds);
      var socketChanged := TablesDiffer(hash, from.sockets, to.sockets);
      var fromRegions, toRegions := RegionMap(from.manifest), RegionMap(to.manifest);
      RegionMapIds(from.manifest);
      RegionMapIds(to.manifest);
      NothingListed(toRegions);
      hide RegionMap, TablesDiffer, PageHashes, Lists;
      var added := Push(toRegions, toRegions.Keys - fromRegions.Keys);
      var removed := Push(fromRegions, fromRegions.Keys - toRegions.Keys);
      var modified: seq<MemoryRegion> := [];
      var addedPages: set<Text>, removedPages: set<Text> := {}, {};
      if pageLevelDiff {
        var fromPages := BuildPageHashes(from);
        var toPages := BuildPageHashes(to);
        addedPages := toPages - fromPages;
        removedPages := fromPages - toPages;
        NothingLeft(toPages, fromPages);
        if addedPages != {} {
          modified := Push(toRegions, toRegions.Keys * fromRegions.Keys);
        }
      } else {
        modified := Push(toRegions, toRegions.Keys * fromRegions.Keys);
      }
      delta := Delta(from.stateId, to.stateId, added, removed, modified, map h | h in addedPages :: [], removedPages,
                     cpuChanged, fdChanged, socketChanged);
      assert delta.addedPages.Keys == addedPages;
      assert Lists(delta.modifiedRegions, toRegions,
                   if pageLevelDiff && PageHashes(hash, to.manifest) <= PageHashes(hash, from.manifest) then {}
                   else toRegions.Keys * fromRegions.Keys);
    }
  }

  // ---------- patches ----------

  predicate HasId(regions: seq<MemoryRegion>, id: Text) {
    exists r :: r in regions && r.regionId == id
  }

  function Retained(manifest: seq<MemoryRegion>, removed: seq<MemoryRegion>): seq<MemoryRegion> {
    if manifest == [] then []
    else (if HasId(removed, manifest[0].regionId) then [] else [manifest[0]]) + Retained(manifest[1..], removed)
  }

  function WithAdded(manifest: seq<MemoryRegion>, added: seq<MemoryRegion>): seq<MemoryRegion>
    decreases |added|
  {
    if added == [] then manifest
    else WithAdded(if HasId(manifest, added[0].regionId) then manifest else manifest + [added[0]], added[1..])
  }

  /** Overwrites the first region with the identifier of r. */
  function ReplaceFirst(manifest: seq<MemoryRegion>, r: MemoryRegion): seq<MemoryRegion> {
    if manifest == [] then []
    else if manifest[0].regionId == r.regionId then [r] + manifest[1..]
    else [manifest[0]] + ReplaceFirst(manifest[1..], r)
  }

  function WithModified(manifest: seq<MemoryRegion>, modified: seq<MemoryRegion>): seq<MemoryRegion>
    decreases |modified|
  {
    if modified == [] then manifest else WithModified(ReplaceFirst(manifest, modified[0]), modified[1..])
  }

  function Patched(manifest: seq<MemoryRegion>, delta: Delta): seq<MemoryRegion> {
    WithModified(WithAdded(Retained(manifest, delta.removedRegions), delta.addedRegions), delta.modifiedRegions)
  }

  /** The descriptor and socket tables are left as they are, changed or not. */
  function Apply(from: State, delta: Delta, toCpu: Option<Bytes>): Result<State> {
    if delta.fromState != from.stateId then StateMismatch(from.stateId, delta.fromState)
    else
      Ok(from.(stateId := delta.toState,
               cpu := if delta.cpuChanged && toCpu.Some? then toCpu.value else from.cpu,
               manifest := Patched(from.manifest, delta)))
  }

  class StatePatcher {
    constructor () {
    }

    method ApplyMemoryPatches(manifest: seq<MemoryRegion>, delta: Delta) returns (patched: seq<MemoryRegion>)
      ensures patched == Patched(manifest, delta)
    {
      patched := Retained(manifest, delta.removedRegions);
      ghost var retained := patched;
      for i := 0 to |delta.addedRegions|
        invariant WithAdded(patched, delta.addedRegions[i..]) == WithAdded(retained, delta.addedRegions)
      {
        var region := delta.addedRegions[i];
        assert delta.addedRegions[i..][0] == region && delta.addedRegions[i..][1..] == delta.addedRegions[i + 1..];
        if !(exists r :: r in patched && r.regionId == region.regionId) {
          patched := patched + [region];
        }
      }
      ghost var extended := patched;
      for i := 0 to |delta.modifiedRegions|
        invariant WithModified(patched, delta.modifiedRegions[i..]) == WithModified(extended, delta.modifiedRegions)
      {
        var modified := delta.modifiedRegions[i];
        assert delta.modifiedRegions[i..][0] == modified
            && delta.modifiedRegions[i..][1..] == delta.modifiedRegions[i + 1..];
        patched := ReplaceFirst(patched, modified);
      }
    }

    method ApplyDelta(from: State, delta: Delta, toCpu: Option<Bytes>) returns (result: Result<State>)
      ensures result == Apply(from, delta, toCpu)
    {
      if delta.fromState != from.stateId {
        return StateMismatch(from.stateId, delta.fromState);
      }
      var state := from.(stateId := delta.toState);
      if delta.cpuChanged && toCpu.Some? {
        state := state.(cpu := toCpu.value);
      }
      var manifest := ApplyMemoryPatches(state.manifest, delta);
      result := Ok(state.(manifest := manifest));
    }
  }

  // ---------- patches, region by region ----------

  lemma {:induction false} UniqueRegionMap(manifest: seq<MemoryRegion>)
    requires UniqueIds(manifest)
    ensures forall r :: r in manifest <==> r.regionId in RegionMap(manifest) && RegionMap(manifest)[r.regionId] == r
    decreases |manifest|
  {
    if manifest != [] {
      var front, last := manifest[..|manifest| - 1], manifest[|manifest| - 1];
      UniqueRegionMap(front);
      RegionMapIds(manifest);
      assert manifest == front + [last];
      forall r | r in front ensures r.regionId != last.regionId {
        var i :| 0 <= i < |front| && front[i] == r;
        assert manifest[i] == r;
      }
    }
  }

  lemma {:induction false} RetainedIsExact(manifest: seq<MemoryRegion>, removed: seq<MemoryRegion>, r: MemoryRegion)
    ensures r in Retained(manifest, removed) <==> r in manifest && !HasId(removed, r.regionId)
    decreases |manifest|
  {
    hide HasId;
    if manifest != [] {
      RetainedIsExact(manifest[1..], removed, r);
      assert manifest == [manifest[0]] + manifest[1..];
    }
  }

  lemma {:induction false} RetainedIsUnique(manifest: seq<MemoryRegion>, removed: seq<MemoryRegion>)
    requires UniqueIds(manifest)
    ensures UniqueIds(Retained(manifest, removed))
    decreases |manifest|
  {
    hide HasId;
    if manifest != [] {
      var rest := Retained(manifest[1..], removed);
      RetainedIsUnique(manifest[1..], removed);
      forall r | r in rest ensures r.regionId != manifest[0].regionId {
        RetainedIsExact(manifest[1..], removed, r);
        var i :| 0 <= i < |manifest[1..]| && manifest[1..][i] == r;
        assert manifest[i + 1] == r;
      }
      OneInFront(manifest[0], rest);
    }
  }

  lemma OneInFront(r: MemoryRegion, rest: seq<MemoryRegion>)
    requires UniqueIds(rest) && forall x :: x in rest ==> x.regionId != r.regionId
    ensures UniqueIds([r] + rest)
  {
    var all := [r] + rest;
    forall i, j | 0 <= i < j < |all| ensures all[i].regionId != all[j].regionId {
      assert all[j] == rest[j - 1] && rest[j - 1] in rest;
    }
  }

  lemma OneBehind(rest: seq<MemoryRegion>, r: MemoryRegion)
    requires UniqueIds(rest) && !HasId(rest, r.regionId)
    ensures UniqueIds(rest + [r])
  {
    var all := rest + [r];
    forall i, j | 0 <= i < j < |all| ensures all[i].regionId != all[j].regionId {
      assert all[i] in rest;
    }
  }

  lemma {:induction false} AddedIsExact(manifest: seq<MemoryRegion>, added: seq<MemoryRegion>)
    requires UniqueIds(manifest) && UniqueIds(added)
    ensures
      var after := WithAdded(manifest, added);
      UniqueIds(after) && forall r :: r in after <==> r in manifest || (r in added && !HasId(manifest, r.regionId))
    decreases |added|
  {
    if added != [] {
      var first, rest := added[0], added[1..];
      assert added == [first] + rest;
      forall r | r in rest ensures r.regionId != first.regionId {
        var i :| 0 <= i < |rest| && rest[i] == r;
        assert added[i + 1] == r;
      }
      if HasId(manifest, first.regionId) {
        AddedIsExact(manifest, rest);
      } else {
        OneBehind(manifest, first);
        AddedIsExact(manifest + [first], rest);
        forall id ensures HasId(manifest + [first], id) <==> HasId(manifest, id) || id == first.regionId {
          assert first in manifest + [first];
          if HasId(manifest, id) {
            var r :| r in manifest && r.regionId == id;
            assert r in manifest + [first];
          }
        }
      }
    }
  }

  lemma {:induction false} ReplacedIsExact(manifest: seq<MemoryRegion>, m: MemoryRegion)
    requires UniqueIds(manifest)
    ensures
      var after := ReplaceFirst(manifest, m);
      && |after| == |manifest|
      && (forall i :: 0 <= i < |manifest| ==>
            after[i] == if manifest[i].regionId == m.regionId then m else manifest[i])
      && UniqueIds(after)
    decreases |manifest|
  {
    if manifest != [] {
      var rest := manifest[1..];
      if manifest[0].regionId == m.regionId {
        forall i | 1 <= i < |manifest| ensures manifest[i].regionId != m.regionId {}
      } else {
        ReplacedIsExact(rest, m);
      }
      var after := ReplaceFirst(manifest, m);
      forall i | 0 <= i < |manifest|
        ensures after[i] == if manifest[i].regionId == m.regionId then m else manifest[i]
      {
        assert i == 0 || manifest[i] == rest[i - 1];
      }
      forall i | 0 <= i < |manifest| ensures after[i].regionId == manifest[i].regionId {}
    }
  }

  lemma ReplacedMembers(manifest: seq<MemoryRegion>, m: MemoryRegion, r: MemoryRegion)
    requires UniqueIds(manifest)
    ensures
      r in ReplaceFirst(manifest, m) <==>
        (r in manifest && r.regionId != m.regionId) || (r == m && HasId(manifest, m.regionId))
  {
    ReplacedIsExact(manifest, m);
    var after := ReplaceFirst(manifest, m);
    hide ReplaceFirst;
    if r in manifest && r.regionId != m.regionId {
      var i :| 0 <= i < |manifest| && manifest[i] == r;
      assert after[i] == r;
    }
    if r == m && HasId(manifest, m.regionId) {
      var x :| x in manifest && x.regionId == m.regionId;
      var i :| 0 <= i < |manifest| && manifest[i] == x;
      assert after[i] == m;
    }
    if r in after {
      var i :| 0 <= i < |after| && after[i] == r;
      assert manifest[i] in manifest;
    }
  }

  lemma {:induction false} ModifiedIsExact(manifest: seq<MemoryRegion>, modified: seq<MemoryRegion>)
    requires UniqueIds(manifest) && UniqueIds(modified)
    ensures
      var after := WithModified(manifest, modified);
      && UniqueIds(after)
      && forall r :: r in after <==>
           (r in manifest && !HasId(modified, r.regionId)) || (r in modified && HasId(manifest, r.regionId))
    decreases |modified|
  {
    if modified != [] {
      var first, rest := modified[0], modified[1..];
      assert modified == [first] + rest;
      var one := ReplaceFirst(manifest, first);
      ReplacedIsExact(manifest, first);
      ModifiedIsExact(one, rest);
      forall r ensures
        r in one <==> (r in manifest && r.regionId != first.regionId) || (r == first && HasId(manifest, first.regionId))
      {
        ReplacedMembers(manifest, first, r);
      }
      hide ReplaceFirst;
      forall id ensures HasId(one, id) <==> HasId(manifest, id) {
        ReplacingKeepsIds(manifest, first, one, id);
      }
      forall id ensures HasId(modified, id) <==> id == first.regionId || HasId(rest, id) {
        assert first in modified;
      }
      forall r | r in rest ensures r.regionId != first.regionId {
        var i :| 0 <= i < |rest| && rest[i] == r;
        assert modified[i + 1] == r;
      }
    }
  }

  lemma ReplacingKeepsIds(manifest: seq<MemoryRegion>, m: MemoryRegion, after: seq<MemoryRegion>, id: Text)
    requires |after| == |manifest|
    requires forall i :: 0 <= i < |manifest| ==>
      after[i] == if manifest[i].regionId == m.regionId then m else manifest[i]
    ensures HasId(after, id) <==> HasId(manifest, id)
  {
    if HasId(manifest, id) {
      var r :| r in manifest && r.regionId == id;
      var i :| 0 <= i < |manifest| && manifest[i] == r;
      assert after[i] in after;
    }
    if HasId(after, id) {
      var r :| r in after && r.regionId == id;
      var i :| 0 <= i < |after| && after[i] == r;
      assert manifest[i] in manifest;
    }
  }

  /** What is in a patched manifest, region by region. */
  lemma PatchedIsExact(manifest: seq<MemoryRegion>, delta: Delta)
    requires UniqueIds(manifest) && UniqueIds(delta.addedRegions) && UniqueIds(delta.modifiedRegions)
    ensures
      var kept := Retained(manifest, delta.removedRegions);
      var extended := WithAdded(kept, delta.addedRegions);
      var patched := Patched(manifest, delta);
      && UniqueIds(patched)
      && (forall r :: r in kept <==> r in manifest && !HasId(delta.removedRegions, r.regionId))
      && (forall r :: r in extended <==> r in kept || (r in delta.addedRegions && !HasId(kept, r.regionId)))
      && (forall r :: r in patched <==>
            || (r in extended && !HasId(delta.modifiedRegions, r.regionId))
            || (r in delta.modifiedRegions && HasId(extended, r.regionId)))
  {
    RetainedIsUnique(manifest, delta.removedRegions);
    forall r ensures
      r in Retained(manifest, delta.removedRegions) <==> r in manifest && !HasId(delta.removedRegions, r.regionId)
    {
      RetainedIsExact(manifest, delta.removedRegions, r);
    }
    AddedIsExact(Retained(manifest, delta.removedRegions), delta.addedRegions);
    ModifiedIsExact(WithAdded(Retained(manifest, delta.removedRegions), delta.addedRegions), delta.modifiedRegions);
    hide Retained, WithAdded, WithModified, HasId;
  }

  // ---------- deltas reproduce manifests ----------

  /** Addresses and sizes are u64, and no two different region keys of the two manifests have the same hash. */
  ghost predicate Distinguishes(hash: Hash, from: seq<MemoryRegion>, to: seq<MemoryRegion>) {
    && (forall r :: r in from || r in to ==> r.baseAddr < Range(8) && r.size < Range(8))
    && (forall a, b :: a in from && b in to && hash(KeyBytes(a)) == hash(KeyBytes(b)) ==> KeyBytes(a) == KeyBytes(b))
  }

  /** Equal keys are keys of the same identifier and address range. */
  lemma KeyIsGeometry(a: MemoryRegion, b: MemoryRegion)
    requires KeyBytes(a) == KeyBytes(b)
    requires a.baseAddr < Range(8) && a.size < Range(8) && b.baseAddr < Range(8) && b.size < Range(8)
    ensures a.regionId == b.regionId && a.baseAddr == b.baseAddr && a.size == b.size
  {
    var ka, kb := KeyBytes(a), KeyBytes(b);
    var n := |ka| - 16;
    hide Range;
    assert ka[..n] == a.regionId && kb[..n] == b.regionId;
    assert ka[n..n + 8] == ToBytes(a.baseAddr, 8) && kb[n..n + 8] == ToBytes(b.baseAddr, 8);
    assert ka[n + 8..] == ToBytes(a.size, 8) && kb[n + 8..] == ToBytes(b.size, 8);
    FromTo(a.baseAddr, 8);
    FromTo(b.baseAddr, 8);
    FromTo(a.size, 8);
    FromTo(b.size, 8);
    hide ToBytes, FromBytes;
  }

  /** A region whose page hash is known keeps its place and size. */
  lemma KnownPageSameGeometry(hash: Hash, from: seq<MemoryRegion>, to: seq<MemoryRegion>, f: MemoryRegion,
                              t: MemoryRegion)
    requires UniqueIds(from) && Distinguishes(hash, from, to)
    requires t in to && hash(KeyBytes(t)) in PageHashes(hash, from) && f in from && f.regionId == t.regionId
    ensures f.baseAddr == t.baseAddr && f.size == t.size
  {
    var x :| x in from && hash(KeyBytes(x)) == hash(KeyBytes(t));
    KeyIsGeometry(x, t);
    hide KeyBytes;
    var i :| 0 <= i < |from| && from[i] == x;
    var j :| 0 <= j < |from| && from[j] == f;
    assert i == j;
  }

  lemma HasIdIsMembership(manifest: seq<MemoryRegion>, id: Text)
    ensures HasId(manifest, id) <==> id in RegionMap(manifest)
  {
    RegionMapIds(manifest);
    hide RegionMap;
  }

  /** What the lists of a delta say about one identifier. */
  lemma ListsAt(s: seq<MemoryRegion>, regions: Regions, ids: set<Text>, id: Text)
    requires Lists(s, regions, ids) && forall id :: id in regions ==> regions[id].regionId == id
    ensures HasId(s, id) <==> id in ids && id in regions
    ensures id in ids && id in regions ==> regions[id] in s
    ensures forall r :: r in s && r.regionId == id ==> id in regions && r == regions[id]
  {
  }

  /** The region that patching leaves under an identifier of the target: the target's, or in page mode one's own. */
  function PatchedRegion(hash: Hash, pageLevel: bool, from: State, to: State, manifest: seq<MemoryRegion>,
                         id: Text): MemoryRegion
    requires id in RegionMap(to.manifest)
  {
    var ours := RegionMap(manifest);
    if pageLevel && PageHashes(hash, to.manifest) <= PageHashes(hash, from.manifest) && id in ours then ours[id]
    else RegionMap(to.manifest)[id]
  }

  /** Every region of the target is in the source, in the same place and of the same size. */
  predicate NothingMoves(from: seq<MemoryRegion>, to: seq<MemoryRegion>) {
    var fromR, toR := RegionMap(from), RegionMap(to);
    forall id :: id in toR ==>
      id in fromR && fromR[id].baseAddr == toR[id].baseAddr && fromR[id].size == toR[id].size
  }

  /** All page hashes of the target are known exactly when nothing moves. */
  lemma PagesKnownExactly(hash: Hash, from: seq<MemoryRegion>, to: seq<MemoryRegion>)
    requires UniqueIds(from) && UniqueIds(to) && Distinguishes(hash, from, to)
    ensures PageHashes(hash, to) <= PageHashes(hash, from) <==> NothingMoves(from, to)
  {
    hide RegionMap, PageHashes, UniqueIds, Distinguishes, NothingMoves;
    if PageHashes(hash, to) <= PageHashes(hash, from) {
      KnownPagesDoNotMove(hash, from, to);
    }
    if NothingMoves(from, to) {
      UnmovedPagesAreKnown(hash, from, to);
    }
  }

  lemma KnownPagesDoNotMove(hash: Hash, from: seq<MemoryRegion>, to: seq<MemoryRegion>)
    requires UniqueIds(from) && UniqueIds(to) && Distinguishes(hash, from, to)
    requires PageHashes(hash, to) <= PageHashes(hash, from)
    ensures NothingMoves(from, to)
  {
    hide RegionMap, Distinguishes, UniqueIds;
    var fromR, toR := RegionMap(from), RegionMap(to);
    RegionMapIds(from);
    RegionMapIds(to);
    forall id | id in toR
      ensures id in fromR && fromR[id].baseAddr == toR[id].baseAddr && fromR[id].size == toR[id].size
    {
      assert hash(KeyBytes(toR[id])) in PageHashes(hash, to);
      KnownPageIsThere(hash, from, to, toR[id]);
      KnownPageSameGeometry(hash, from, to, fromR[id], toR[id]);
    }
  }

  lemma KnownPageIsThere(hash: Hash, from: seq<MemoryRegion>, to: seq<MemoryRegion>, t: MemoryRegion)
    requires Distinguishes(hash, from, to) && t in to && hash(KeyBytes(t)) in PageHashes(hash, from)
    ensures t.regionId in RegionMap(from)
  {
    RegionMapIds(from);
    hide RegionMap;
    var x :| x in from && hash(KeyBytes(x)) == hash(KeyBytes(t));
    KeyIsGeometry(x, t);
    hide KeyBytes;
  }

  lemma UnmovedPagesAreKnown(hash: Hash, from: seq<MemoryRegion>, to: seq<MemoryRegion>)
    requires UniqueIds(from) && UniqueIds(to) && NothingMoves(from, to)
    ensures PageHashes(hash, to) <= PageHashes(hash, from)
  {
    hide RegionMap, UniqueIds;
    RegionMapIds(from);
    UniqueRegionMap(to);
    forall r | r in to ensures hash(KeyBytes(r)) in PageHashes(hash, from) {
      var f := RegionMap(from)[r.regionId];
      assert KeyBytes(f) == KeyBytes(r) && f in from;
    }
  }

  /** The region a patched manifest has under an identifier, if any, is the right one. */
  lemma PatchedAt(hash: Hash, pageLevel: bool, delta: Delta, from: State, to: State, manifest: seq<MemoryRegion>,
                  id: Text)
    requires UniqueIds(from.manifest) && UniqueIds(to.manifest) && UniqueIds(manifest)
    requires IsDelta(hash, pageLevel, delta, from, to) && Distinguishes(hash, from.manifest, to.manifest)
    requires Geometry(manifest) == Geometry(from.manifest)
    ensures
      var patched, regions := Patched(manifest, delta), RegionMap(to.manifest);
      && (HasId(patched, id) <==> id in regions)
      && (forall r :: r in patched && r.regionId == id && id in regions ==>
            && r.baseAddr == regions[id].baseAddr && r.size == regions[id].size
            && r == PatchedRegion(hash, pageLevel, from, to, manifest, id))
  {
    var fromR, toR, ours := RegionMap(from.manifest), RegionMap(to.manifest), RegionMap(manifest);
    RegionMapIds(from.manifest);
    RegionMapIds(to.manifest);
    RegionMapIds(manifest);
    UniqueRegionMap(manifest);
    assert ours.Keys == Geometry(manifest).Keys == fromR.Keys;
    assert id in ours ==> Geometry(manifest)[id] == Geometry(from.manifest)[id];
    var fromPages, toPages := PageHashes(hash, from.manifest), PageHashes(hash, to.manifest);
    var common := if pageLevel && toPages <= fromPages then {} else toR.Keys * fromR.Keys;
    ListsAt(delta.addedRegions, toR, toR.Keys - fromR.Keys, id);
    ListsAt(delta.removedRegions, fromR, fromR.Keys - toR.Keys, id);
    ListsAt(delta.modifiedRegions, toR, common, id);
    PatchedIsExact(manifest, delta);
    HasIdIsMembership(manifest, id);
    if id in toR && id in fromR && common == {} {
      assert toR[id] in to.manifest && hash(KeyBytes(toR[id])) in toPages;
      KnownPageSameGeometry(hash, from.manifest, to.manifest, fromR[id], toR[id]);
    }
    hide Lists, RegionMap, Retained, WithAdded, Patched, PageHashes, Distinguishes, TablesDiffer;
    PatchCases(manifest, delta, Retained(manifest, delta.removedRegions),
               WithAdded(Retained(manifest, delta.removedRegions), delta.addedRegions), Patched(manifest, delta), id);
  }

  /** Membership in a patched manifest, for one identifier. */
  lemma PatchCases(manifest: seq<MemoryRegion>, delta: Delta, kept: seq<MemoryRegion>, extended: seq<MemoryRegion>,
                   patched: seq<MemoryRegion>, id: Text)
    requires forall r :: r in kept <==> r in manifest && !HasId(delta.removedRegions, r.regionId)
    requires forall r :: r in extended <==> r in kept || (r in delta.addedRegions && !HasId(kept, r.regionId))
    requires forall r :: r in patched <==>
      || (r in extended && !HasId(delta.modifiedRegions, r.regionId))
      || (r in delta.modifiedRegions && HasId(extended, r.regionId))
    ensures HasId(kept, id) <==> HasId(manifest, id) && !HasId(delta.removedRegions, id)
    ensures HasId(extended, id) <==> HasId(kept, id) || HasId(delta.addedRegions, id)
    ensures HasId(patched, id) <==> HasId(extended, id)
    ensures
      forall r :: r in patched && r.regionId == id ==>
        if HasId(delta.modifiedRegions, id) then r in delta.modifiedRegions
        else if HasId(kept, id) then r in manifest
        else r in delta.addedRegions
  {
  }

  /**
   * Patching reproduces the target. A delta from one manifest to another, applied to any manifest with the geometry of
   * the first, yields unique identifiers and the geometry of the second. It yields exactly the regions of the second,
   * flags and temperatures included, if and only if page-level diffing is off, or some region of the second is new or
   * has moved, or the flags and temperatures agreed already.
   */
  lemma PatchReproducesTarget(hash: Hash, pageLevel: bool, delta: Delta, from: State, to: State,
                              manifest: seq<MemoryRegion>)
    requires UniqueIds(from.manifest) && UniqueIds(to.manifest) && UniqueIds(manifest)
    requires IsDelta(hash, pageLevel, delta, from, to) && Distinguishes(hash, from.manifest, to.manifest)
    requires Geometry(manifest) == Geometry(from.manifest)
    ensures UniqueIds(Patched(manifest, delta))
    ensures Geometry(Patched(manifest, delta)) == Geometry(to.manifest)
    ensures
      RegionMap(Patched(manifest, delta)) == RegionMap(to.manifest) <==>
        || !pageLevel || !NothingMoves(from.manifest, to.manifest)
        || AgreeOnCommon(RegionMap(manifest), RegionMap(to.manifest))
  {
    hide RegionMap, Patched, IsDelta, Distinguishes, Retained, WithAdded, HasId, Geometry, NothingMoves, PatchedRegion;
    var patched := Patched(manifest, delta);
    PatchedUnique(hash, pageLevel, delta, from, to, manifest);
    RegionMapIds(patched);
    forall id ensures SameAt(RegionMap(patched), RegionMap(to.manifest), id) {
      HasIdIsMembership(patched, id);
      PatchedAt(hash, pageLevel, delta, from, to, manifest, id);
    }
    SameEverywhere(patched, to.manifest);
    forall id | id in RegionMap(to.manifest)
      ensures RegionMap(patched)[id] == PatchedRegion(hash, pageLevel, from, to, manifest, id)
    {
      PatchedAt(hash, pageLevel, delta, from, to, manifest, id);
    }
    PagesKnownExactly(hash, from.manifest, to.manifest);
    SameRegionsExactly(hash, pageLevel, from, to, manifest, RegionMap(patched));
  }

  predicate AgreeOnCommon(a: Regions, b: Regions) {
    forall id :: id in a && id in b ==> a[id] == b[id]
  }

  /** When the regions that patching leaves are those of the target. */
  lemma SameRegionsExactly(hash: Hash, pageLevel: bool, from: State, to: State, manifest: seq<MemoryRegion>,
                           patched: Regions)
    requires patched.Keys == RegionMap(to.manifest).Keys
    requires forall id :: id in RegionMap(to.manifest) ==>
      patched[id] == PatchedRegion(hash, pageLevel, from, to, manifest, id)
    ensures
      patched == RegionMap(to.manifest) <==>
        || !(pageLevel && PageHashes(hash, to.manifest) <= PageHashes(hash, from.manifest))
        || AgreeOnCommon(RegionMap(manifest), RegionMap(to.manifest))
  {
    hide RegionMap, PageHashes;
    var toR := RegionMap(to.manifest);
    if patched == toR {
      assert forall id :: id in toR ==> toR[id] == PatchedRegion(hash, pageLevel, from, to, manifest, id);
    } else {
      var id :| id in toR && patched[id] != toR[id];
    }
  }

  lemma PatchedUnique(hash: Hash, pageLevel: bool, delta: Delta, from: State, to: State, manifest: seq<MemoryRegion>)
    requires UniqueIds(manifest) && IsDelta(hash, pageLevel, delta, from, to)
    ensures UniqueIds(Patched(manifest, delta))
  {
    PatchedIsExact(manifest, delta);
  }

  /** Two maps hold the same address range, or nothing, under an identifier. */
  predicate SameAt(a: Regions, b: Regions, id: Text) {
    && (id in a <==> id in b)
    && (id in a && id in b ==> a[id].baseAddr == b[id].baseAddr && a[id].size == b[id].size)
  }

  lemma SameEverywhere(a: seq<MemoryRegion>, b: seq<MemoryRegion>)
    requires forall id :: SameAt(RegionMap(a), RegionMap(b), id)
    ensures Geometry(a) == Geometry(b) && RegionMap(a).Keys == RegionMap(b).Keys
  {
    hide RegionMap;
    forall id
      ensures id in Geometry(a) <==> id in Geometry(b)
      ensures id in Geometry(a) ==> Geometry(a)[id] == Geometry(b)[id]
      ensures id in RegionMap(a) <==> id in RegionMap(b)
    {
      assert SameAt(RegionMap(a), RegionMap(b), id);
    }
  }

  /** Applying deltas one after another, stopping at the first that does not fit. */
  function ApplyAll(state: State, deltas: seq<Delta>): Result<State>
    decreases |deltas|
  {
    if deltas == [] then Ok(state)
    else
      match Apply(state, deltas[0], None)
      case Ok(next) => ApplyAll(next, deltas[1..])
      case mismatch => mismatch
  }

  /** delta i leads from state i to state i + 1. */
  ghost predicate IsDeltaChain(hash: Hash, modes: seq<bool>, deltas: seq<Delta>, states: seq<State>) {
    && |states| == |deltas| + 1 && |modes| == |deltas|
    && (forall i :: 0 <= i < |states| ==> UniqueIds(states[i].manifest))
    && (forall i, j :: 0 <= i < |deltas| && j == i + 1 ==>
          && IsDelta(hash, modes[i], deltas[i], states[i], states[j])
          && Distinguishes(hash, states[i].manifest, states[j].manifest))
  }

  /**
   * Chains of deltas. From any state that has the first state's identifier and geometry, applying the deltas of a
   * chain, of whatever modes, succeeds and arrives at the last state's identifier and geometry.
   */
  lemma {:induction false} ChainReachesTarget(hash: Hash, modes: seq<bool>, deltas: seq<Delta>, states: seq<State>,
                                              start: State)
    requires IsDeltaChain(hash, modes, deltas, states)
    requires start.stateId == states[0].stateId && UniqueIds(start.manifest)
    requires Geometry(start.manifest) == Geometry(states[0].manifest)
    ensures
      var last := states[|deltas|];
      var result := ApplyAll(start, deltas);
      result.Ok? && result.value.stateId == last.stateId && Geometry(result.value.manifest) == Geometry(last.manifest)
    decreases |deltas|
  {
    if deltas != [] {
      assert IsDelta(hash, modes[0], deltas[0], states[0], states[0 + 1]);
      var next := Apply(start, deltas[0], None).value;
      PatchReproducesTarget(hash, modes[0], deltas[0], states[0], states[0 + 1], start.manifest);
      hide Geometry, Patched, Distinguishes;
      ChainTail(hash, modes, deltas, states);
      hide IsDelta, UniqueIds;
      ChainReachesTarget(hash, modes[1..], deltas[1..], states[1..], next);
    }
  }

  lemma ChainTail(hash: Hash, modes: seq<bool>, deltas: seq<Delta>, states: seq<State>)
    requires IsDeltaChain(hash, modes, deltas, states) && deltas != []
    ensures IsDeltaChain(hash, modes[1..], deltas[1..], states[1..])
  {
    hide IsDelta, Distinguishes, UniqueIds;
    forall i, j | 0 <= i < |deltas[1..]| && j == i + 1
      ensures IsDelta(hash, modes[1..][i], deltas[1..][i], states[1..][i], states[1..][j])
      ensures Distinguishes(hash, states[1..][i].manifest, states[1..][j].manifest)
    {
      assert deltas[1..][i] == deltas[i + 1] && states[1..][i] == states[i + 1] && states[1..][j] == states[j + 1];
    }
  }

  // ---------- empty deltas ----------

  lemma ListsNothing(s: seq<MemoryRegion>, regions: Regions, ids: set<Text>)
    requires Lists(s, regions, ids) && forall id :: id in regions ==> regions[id].regionId == id
    ensures s == [] <==> ids * regions.Keys == {}
  {
    if s != [] {
      assert s[0] in s;
      assert s[0].regionId in ids * regions.Keys;
    }
    if ids * regions.Keys != {} {
      var id :| id in ids * regions.Keys;
      assert regions[id] in s;
    }
  }

  /** Among manifests with the same identifiers, nothing moves exactly when the geometries are equal. */
  lemma UnmovedIsSameGeometry(from: seq<MemoryRegion>, to: seq<MemoryRegion>)
    requires RegionMap(from).Keys == RegionMap(to).Keys
    ensures NothingMoves(from, to) <==> Geometry(from) == Geometry(to)
  {
    hide RegionMap;
    if Geometry(from) == Geometry(to) {
      forall id | id in RegionMap(to) ensures Geometry(from)[id] == Geometry(to)[id] {
      }
    }
  }

  /**
   * What an empty delta means. With page-level diffing: exactly that nothing visible changed and the two manifests
   * have the same geometry, although `is_empty` does not look at the removed pages. Without it: exactly that nothing
   * visible changed and both manifests are empty, so equal non-empty manifests never give an empty delta.
   */
  lemma EmptyDeltaMeans(hash: Hash, pageLevel: bool, delta: Delta, from: State, to: State)
    requires UniqueIds(from.manifest) && UniqueIds(to.manifest)
    requires IsDelta(hash, pageLevel, delta, from, to) && Distinguishes(hash, from.manifest, to.manifest)
    ensures
      delta.IsEmpty() <==>
        && hash(from.cpu) == hash(to.cpu)
        && !TablesDiffer(hash, from.fds, to.fds) && !TablesDiffer(hash, from.sockets, to.sockets)
        && (if pageLevel then Geometry(from.manifest) == Geometry(to.manifest)
            else from.manifest == [] && to.manifest == [])
  {
    RegionListsEmpty(hash, pageLevel, delta, from, to);
    EmptyMap(from.manifest);
    EmptyMap(to.manifest);
    SameKeys(from.manifest, to.manifest);
    if RegionMap(from.manifest).Keys == RegionMap(to.manifest).Keys {
      PagesKnownExactly(hash, from.manifest, to.manifest);
      UnmovedIsSameGeometry(from.manifest, to.manifest);
    }
    PagesListEmpty(hash, pageLevel, delta, from, to);
    BothEmpty(RegionMap(from.manifest).Keys, RegionMap(to.manifest).Keys);
    TablesListed(hash, pageLevel, delta, from, to);
    hide RegionMap, PageHashes, TablesDiffer, UniqueIds, Distinguishes, Geometry, IsDelta, NothingMoves;
  }

  lemma TablesListed(hash: Hash, pageLevel: bool, delta: Delta, from: State, to: State)
    requires IsDelta(hash, pageLevel, delta, from, to)
    ensures delta.cpuChanged <==> hash(from.cpu) != hash(to.cpu)
    ensures delta.fdChanged <==> TablesDiffer(hash, from.fds, to.fds)
    ensures delta.socketChanged <==> TablesDiffer(hash, from.sockets, to.sockets)
  {
  }

  lemma PagesListEmpty(hash: Hash, pageLevel: bool, delta: Delta, from: State, to: State)
    requires IsDelta(hash, pageLevel, delta, from, to)
    ensures
      delta.addedPages.Keys == {}
      <==> !pageLevel || PageHashes(hash, to.manifest) <= PageHashes(hash, from.manifest)
  {
    NothingLeft(PageHashes(hash, to.manifest), PageHashes(hash, from.manifest));
    hide PageHashes, RegionMap, Lists, TablesDiffer;
  }

  lemma BothEmpty(a: set<Text>, b: set<Text>)
    ensures a == b && b * a == {} <==> a == {} && b == {}
  {
    if a == b {
      assert b * a == a;
    }
  }

  lemma RegionListsEmpty(hash: Hash, pageLevel: bool, delta: Delta, from: State, to: State)
    requires IsDelta(hash, pageLevel, delta, from, to)
    ensures
      var fromR, toR := RegionMap(from.manifest), RegionMap(to.manifest);
      var known := pageLevel && PageHashes(hash, to.manifest) <= PageHashes(hash, from.manifest);
      && (delta.addedRegions == [] && delta.removedRegions == [] <==> fromR.Keys == toR.Keys)
      && (delta.modifiedRegions == [] <==> known || toR.Keys * fromR.Keys == {})
  {
    var fromR, toR := RegionMap(from.manifest), RegionMap(to.manifest);
    var known := pageLevel && PageHashes(hash, to.manifest) <= PageHashes(hash, from.manifest);
    RegionMapIds(from.manifest);
    RegionMapIds(to.manifest);
    hide RegionMap, PageHashes, TablesDiffer;
    ListsNothing(delta.addedRegions, toR, toR.Keys - fromR.Keys);
    ListsNothing(delta.removedRegions, fromR, fromR.Keys - toR.Keys);
    ListsNothing(delta.modifiedRegions, toR, if known then {} else toR.Keys * fromR.Keys);
    hide Lists;
  }

  lemma SameKeys(a: seq<MemoryRegion>, b: seq<MemoryRegion>)
    ensures Geometry(a) == Geometry(b) ==> RegionMap(a).Keys == RegionMap(b).Keys
  {
    assert RegionMap(a).Keys == Geometry(a).Keys && RegionMap(b).Keys == Geometry(b).Keys;
    hide RegionMap;
  }

  lemma EmptyMap(manifest: seq<MemoryRegion>)
    ensures RegionMap(manifest).Keys == {} <==> manifest == []
  {
    RegionMapIds(manifest);
    if manifest != [] {
      var r := manifest[0];
      assert r in manifest;
      assert r.regionId in RegionMap(manifest);
    }
  }

  // ---------- what deltas say and carry ----------

  /**
   * Applying a delta to a state of its source's identifier succeeds and carries the identifier, and the CPU of its
   * target when that is given (or did not change); the tables stay. To any other state it does not apply.
   */
  lemma DeltasCarryTheCpu(hash: Hash, pageLevel: bool, delta: Delta, from: State, to: State, state: State)
    requires IsDelta(hash, pageLevel, delta, from, to)
    requires hash(from.cpu) == hash(to.cpu) ==> from.cpu == to.cpu
    ensures
      state.stateId != from.stateId ==>
        forall cpu :: Apply(state, delta, cpu) == StateMismatch(state.stateId, from.stateId)
    ensures
      state.stateId == from.stateId && state.cpu == from.cpu ==>
        var (given, kept) := (Apply(state, delta, Some(to.cpu)), Apply(state, delta, None));
        && given.Ok? && given.value.stateId == to.stateId && given.value.cpu == to.cpu
        && given.value.fds == state.fds && given.value.sockets == state.sockets
        && kept == Ok(given.value.(cpu := from.cpu))
  {
    hide Patched, RegionMap, PageHashes, Lists, TablesDiffer;
  }

  /** Without a collision, a delta marks a table or the CPU exactly when it differs. */
  lemma DeltasMarkWhatDiffers(hash: Hash, pageLevel: bool, delta: Delta, from: State, to: State)
    requires IsDelta(hash, pageLevel, delta, from, to)
    requires hash(from.cpu) == hash(to.cpu) ==> from.cpu == to.cpu
    requires NoClash(hash, from.fds, to.fds) && NoClash(hash, from.sockets, to.sockets)
    ensures delta.cpuChanged <==> from.cpu != to.cpu
    ensures delta.fdChanged <==> from.fds != to.fds
    ensures delta.socketChanged <==> from.sockets != to.sockets
  {
    TablesListed(hash, pageLevel, delta, from, to);
    hide IsDelta;
    TablesDifferExactly(hash, from.fds, to.fds);
    TablesDifferExactly(hash, from.sockets, to.sockets);
  }

  predicate NoClash(hash: Hash, a: seq<Bytes>, b: seq<Bytes>) {
    forall i :: 0 <= i < |a| && i < |b| && hash(a[i]) == hash(b[i]) ==> a[i] == b[i]
  }

  lemma TablesDifferExactly(hash: Hash, a: seq<Bytes>, b: seq<Bytes>)
    requires NoClash(hash, a, b)
    ensures TablesDiffer(hash, a, b) <==> a != b
  {
  }

  /** The delta back says the reverse: what one adds the other removes, and the same things change. */
  lemma DeltasReverse(hash: Hash, pageLevel: bool, there: Delta, back: Delta, from: State, to: State)
    requires IsDelta(hash, pageLevel, there, from, to) && IsDelta(hash, pageLevel, back, to, from)
    ensures there.fromState == back.toState == from.stateId && there.toState == back.fromState == to.stateId
    ensures forall r :: r in there.addedRegions <==> r in back.removedRegions
    ensures forall r :: r in there.removedRegions <==> r in back.addedRegions
    ensures there.addedPages.Keys == back.removedPages && there.removedPages == back.addedPages.Keys
    ensures there.cpuChanged == back.cpuChanged
  {
    hide RegionMap, PageHashes, TablesDiffer;
  }
}
