/**
 * The version graph of src/state_versioning.rs: a forest stored twice, as the parent of every state's first history
 * entry and as lists of children.
 */
module VersionGraphs {
  import opened Basics

  type Id = string

  datatype Entry = Entry(stateId: Id, parentId: Option<Id>, timestamp: int, message: string, author: string)

  datatype History = History(stateId: Id, entries: seq<Entry>, children: seq<Id>)

  type Graph = map<Id, History>

  datatype Outcome =
    | Done
    | RolledBack(id: Id)
    | BranchExists(name: string)
    | BranchNotFound(name: string)
    | TagExists(name: string)
    | TagNotFound(name: string)
    | StateNotFound(id: Id)

  /** The parent the upward walk follows: the one of the first entry. */
  function FirstParent(g: Graph, id: Id): Option<Id> {
    if id in g && g[id].entries != [] then g[id].entries[0].parentId else None
  }

  /** The first step of recording: the entry. */
  function WithEntry(g: Graph, id: Id, entry: Entry): Graph {
    var history := if id in g then g[id] else History(id, [], []);
    g[id := history.(entries := history.entries + [entry])]
  }

  /** The second: the parent's list of children. */
  function WithChild(g: Graph, id: Id, parent: Option<Id>): Graph {
    match parent
    case None => g
    case Some(p) => if p in g then g[p := g[p].(children := g[p].children + [id])] else g
  }

  function Record(g: Graph, id: Id, parent: Option<Id>, now: int, message: string, author: string): Graph {
    WithChild(WithEntry(g, id, Entry(id, parent, now, message, author)), id, parent)
  }

  /** r is what the upward walk from s visits. There is no such r when the walk never ends. */
  ghost predicate IsChain(g: Graph, s: Id, r: seq<Id>)
    decreases |r|
  {
    if s !in g then r == []
    else
      && r != [] && r[0] == s
      && match FirstParent(g, s)
         case None => |r| == 1
         case Some(p) => IsChain(g, p, r[1..])
  }

  ghost predicate WalkEnds(g: Graph, s: Id) {
    exists r :: IsChain(g, s, r)
  }

  /** The first element of xs that also occurs in ys. */
  function FirstCommon(xs: seq<Id>, ys: seq<Id>): Option<Id> {
    if xs == [] then None
    else if xs[0] in ys then Some(xs[0])
    else FirstCommon(xs[1..], ys)
  }

  ghost predicate ChildEdge(g: Graph, p: Id, c: Id) {
    p in g && c in g[p].children
  }

  /** A walk down the child lists. */
  ghost predicate ChildPath(g: Graph, p: seq<Id>) {
    p != [] && forall i :: 0 <= i < |p| - 1 ==> ChildEdge(g, p[i], p[i + 1])
  }

  lemma SubPath(g: Graph, p: seq<Id>, lo: nat, hi: nat)
    requires ChildPath(g, p) && lo < hi <= |p|
    ensures ChildPath(g, p[lo..hi])
  {
    var q := p[lo..hi];
    forall i | 0 <= i < |q| - 1 ensures ChildEdge(g, q[i], q[i + 1]) {
      assert ChildEdge(g, p[lo + i], p[lo + i + 1]);
    }
  }

  /** d can be reached from s by one or more child edges. */
  ghost predicate Reaches(g: Graph, s: Id, d: Id) {
    exists p :: ChildPath(g, p) && |p| >= 2 && p[0] == s && p[|p| - 1] == d
  }

  class StateVersionControl {
    var history: Graph
    var branches: map<string, Id>
    var tags: map<string, Id>

    ghost function Value(): Versions
      reads this
    {
      Versions(history, branches, tags)
    }

    constructor ()
      ensures Value() == EMPTY
    {
      history := map[];
      branches := map[];
      tags := map[];
    }

    method RecordState(id: Id, parent: Option<Id>, now: int, message: string, author: string)
      modifies this`history
      ensures history == Record(old(history), id, parent, now, message, author)
    {
      var entry := Entry(id, parent, now, message, author);
      if id !in history {
        history := history[id := History(id, [], [])];
      }
      history := history[id := history[id].(entries := history[id].entries + [entry])];
      if parent.Some? {
        var p := parent.value;
        if p in history {
          history := history[p := history[p].(children := history[p].children + [id])];
        }
      }
    }

    method CreateBranch(name: string, at: Id, now: int) returns (outcome: Outcome)
      modifies this
      ensures (Value(), outcome) == Step(old(Value()), CreateBranchOp(name, at, now))
    {
      if name in branches {
        return BranchExists(name);
      }
      branches := branches[name := at];
      RecordState(at, None, now, "Branch: " + name, "system");
      outcome := Done;
    }

    method DeleteBranch(name: string) returns (outcome: Outcome)
      modifies this
      ensures (Value(), outcome) == Step(old(Value()), DeleteBranchOp(name))
    {
      if name !in branches {
        return BranchNotFound(name);
      }
      branches := branches - {name};
      outcome := Done;
    }

    method CreateTag(name: string, at: Id) returns (outcome: Outcome)
      modifies this
      ensures (Value(), outcome) == Step(old(Value()), CreateTagOp(name, at))
    {
      if name in tags {
        return TagExists(name);
      }
      tags := tags[name := at];
      outcome := Done;
    }

    method DeleteTag(name: string) returns (outcome: Outcome)
      modifies this
      ensures (Value(), outcome) == Step(old(Value()), DeleteTagOp(name))
    {
      if name !in tags {
        return TagNotFound(name);
      }
      tags := tags - {name};
      outcome := Done;
    }

    method GetBranch(name: string) returns (at: Option<Id>)
      ensures at == BranchOf(Value(), name)
    {
      at := if name in branches then Some(branches[name]) else None;
    }

    method GetTag(name: string) returns (at: Option<Id>)
      ensures at == TagOf(Value(), name)
    {
      at := if name in tags then Some(tags[name]) else None;
    }

    /** `newId` is the random identifier the source draws. */
    method Rollback(to: Id, newId: Id, now: int) returns (outcome: Outcome)
      modifies this
      ensures (Value(), outcome) == Step(old(Value()), RollbackOp(to, newId, now))
    {
      if to !in history {
        return StateNotFound(to);
      }
      RecordState(newId, Some(to), now, "Rollback", "system");
      outcome := RolledBack(newId);
    }

    /** The loop of the source ends only if the walk does, which is all it demands. */
    method GetAncestry(s: Id) returns (ancestry: seq<Id>)
      requires WalkEnds(history, s)
      ensures IsChain(history, s, ancestry)
    {
      ghost var whole :| IsChain(history, s, whole);
      ghost var rest := whole;
      ancestry := [];
      var current: Option<Id> := Some(s);
      while current.Some?
        invariant whole == ancestry + rest
        invariant if current.Some? then IsChain(history, current.value, rest) else rest == []
        decreases |rest|, current.Some?
      {
        var id := current.value;
        if id in history {
          ancestry := ancestry + [id];
          var entries := history[id].entries;
          current := if entries != [] then entries[0].parentId else None;
          rest := rest[1..];
        } else {
          break;
        }
      }
      assert rest == [] && ancestry == whole;
    }

    /** Ends on every graph, cyclic ones included. */
    method GetDescendants(s: Id) returns (descendants: seq<Id>)
      ensures NoDuplicates(descendants)
      ensures forall d :: d in descendants <==> Reaches(history, s, d)
    {
      descendants := [];
      var toVisit := [s];
      while toVisit != []
        invariant Explored(history, s, descendants, toVisit)
        decreases |ChildrenIn(history)| - |descendants|, |toVisit|
      {
        var id := toVisit[|toVisit| - 1];
        toVisit := toVisit[..|toVisit| - 1];
        ghost var size, pending := |descendants|, |toVisit|;
        if id in history {
          var children := history[id].children;
          for i := 0 to |children|
            invariant Discovered(history, s, descendants, toVisit)
            invariant forall x ::
              x == s || x in descendants ==> x == id || x in toVisit || ChildrenListed(history, x, descendants)
            invariant forall k :: 0 <= k < i ==> children[k] in descendants
            invariant id == s || id in descendants
            invariant |descendants| > size || (|descendants| == size && |toVisit| == pending)
          {
            var child := children[i];
            if child !in descendants {
              ExtendReach(history, s, id, child);
              descendants := descendants + [child];
              toVisit := toVisit + [child];
            }
          }
        }
        DiscoveredFits(history, s, descendants, toVisit);
      }
      forall d | Reaches(history, s, d) ensures d in descendants {
        var p :| ChildPath(history, p) && |p| >= 2 && p[0] == s && p[|p| - 1] == d;
        ClosedUnderPaths(history, s, descendants, p);
      }
    }

    method FindCommonAncestor(a: Id, b: Id) returns (ancestor: Option<Id>)
      requires WalkEnds(history, a) && WalkEnds(history, b)
      ensures forall xs, ys :: IsChain(history, a, xs) && IsChain(history, b, ys) ==> ancestor == FirstCommon(xs, ys)
    {
      var ancestryA := GetAncestry(a);
      var ancestryB := GetAncestry(b);
      forall xs, ys | IsChain(history, a, xs) && IsChain(history, b, ys) ensures xs == ancestryA && ys == ancestryB {
        ChainIsUnique(history, a, xs, ancestryA);
        ChainIsUnique(history, b, ys, ancestryB);
      }
      for i := 0 to |ancestryA|
        invariant FirstCommon(ancestryA, ancestryB) == FirstCommon(ancestryA[i..], ancestryB)
      {
        if ancestryA[i] in ancestryB {
          return Some(ancestryA[i]);
        }
      }
      ancestor := None;
    }
  }

  // ---------- the search for descendants ----------

  ghost predicate ChildrenListed(g: Graph, x: Id, found: seq<Id>) {
    x in g ==> forall c :: c in g[x].children ==> c in found
  }

  /** Only reachable states are found, each once, and only found ones (or the start) wait. */
  ghost predicate Discovered(g: Graph, s: Id, found: seq<Id>, waiting: seq<Id>) {
    && NoDuplicates(found)
    && (forall d :: d in found ==> Reaches(g, s, d))
    && (forall x :: x in waiting ==> x == s || x in found)
  }

  /** And whatever does not wait has all its children found. */
  ghost predicate Explored(g: Graph, s: Id, found: seq<Id>, waiting: seq<Id>) {
    && Discovered(g, s, found, waiting)
    && (forall x :: x == s || x in found ==> x in waiting || ChildrenListed(g, x, found))
  }

  ghost function ChildrenIn(g: Graph): set<Id> {
    set x, c | x in g && c in g[x].children :: c
  }

  lemma ReachedIsAChild(g: Graph, s: Id, d: Id)
    requires Reaches(g, s, d)
    ensures d in ChildrenIn(g)
  {
    var p :| ChildPath(g, p) && |p| >= 2 && p[0] == s && p[|p| - 1] == d;
    var i := |p| - 2;
    assert ChildEdge(g, p[i], p[i + 1]);
  }

  lemma DiscoveredFits(g: Graph, s: Id, found: seq<Id>, waiting: seq<Id>)
    requires Discovered(g, s, found, waiting)
    ensures |found| <= |ChildrenIn(g)|
  {
    forall x | x in found ensures x in ChildrenIn(g) {
      ReachedIsAChild(g, s, x);
    }
    DistinctFitsIn(found, ChildrenIn(g));
  }

  lemma ExtendReach(g: Graph, s: Id, x: Id, child: Id)
    requires x == s || Reaches(g, s, x)
    requires ChildEdge(g, x, child)
    ensures Reaches(g, s, child)
  {
    if x == s && !Reaches(g, s, x) {
      assert ChildPath(g, [s, child]);
    } else {
      var p :| ChildPath(g, p) && |p| >= 2 && p[0] == s && p[|p| - 1] == x;
      var q := p + [child];
      forall i | 0 <= i < |q| - 1 ensures ChildEdge(g, q[i], q[i + 1]) {
        assert i == |p| - 1 || ChildEdge(g, p[i], p[i + 1]);
      }
      assert ChildPath(g, q);
    }
  }

  lemma {:induction false} ClosedUnderPaths(g: Graph, s: Id, found: seq<Id>, p: seq<Id>)
    requires forall x :: x == s || x in found ==> ChildrenListed(g, x, found)
    requires ChildPath(g, p) && |p| >= 2 && (p[0] == s || p[0] in found)
    ensures p[|p| - 1] in found
    decreases |p|
  {
    assert ChildEdge(g, p[0], p[0 + 1]);
    assert ChildrenListed(g, p[0], found);
    if |p| > 2 {
      SubPath(g, p, 1, |p|);
      ClosedUnderPaths(g, s, found, p[1..]);
    }
  }

  // ---------- chains ----------

  lemma {:induction false} ChainIsUnique(g: Graph, s: Id, xs: seq<Id>, ys: seq<Id>)
    requires IsChain(g, s, xs) && IsChain(g, s, ys)
    ensures xs == ys
    decreases |xs|
  {
    if s in g {
      if FirstParent(g, s).Some? {
        ChainIsUnique(g, FirstParent(g, s).value, xs[1..], ys[1..]);
      }
      assert xs == [s] + xs[1..] && ys == [s] + ys[1..];
    }
  }

  /** From any of its elements on, a chain is that element's chain. */
  lemma {:induction false} ChainSuffix(g: Graph, s: Id, r: seq<Id>, i: nat)
    requires IsChain(g, s, r) && i < |r|
    ensures r[i] in g && IsChain(g, r[i], r[i..])
    decreases i
  {
    if i > 0 {
      ChainSuffix(g, FirstParent(g, s).value, r[1..], i - 1);
      assert r[1..][i - 1..] == r[i..];
    } else {
      assert r[0..] == r;
    }
  }

  /** A chain does not visit a state twice: its suffixes would be the same chain with different lengths. */
  lemma ChainHasNoDuplicates(g: Graph, s: Id, r: seq<Id>)
    requires IsChain(g, s, r)
    ensures NoDuplicates(r)
  {
    forall i, j | 0 <= i < j < |r| ensures r[i] != r[j] {
      ChainSuffix(g, s, r, i);
      ChainSuffix(g, s, r, j);
      if r[i] == r[j] {
        ChainIsUnique(g, r[i], r[i..], r[j..]);
      }
    }
  }

  lemma {:induction false} FirstCommonFound(xs: seq<Id>, ys: seq<Id>) returns (i: nat)
    requires FirstCommon(xs, ys).Some?
    ensures i < |xs| && FirstCommon(xs, ys) == Some(xs[i]) && xs[i] in ys
    ensures forall k :: 0 <= k < i ==> xs[k] !in ys
    decreases |xs|
  {
    if xs[0] in ys {
      i := 0;
    } else {
      var j := FirstCommonFound(xs[1..], ys);
      i := j + 1;
      forall k | 0 <= k < i ensures xs[k] !in ys {
        assert k == 0 || xs[k] == xs[1..][k - 1];
      }
    }
  }

  lemma {:induction false} FirstCommonNone(xs: seq<Id>, ys: seq<Id>)
    ensures FirstCommon(xs, ys) == None <==> forall x :: x in xs ==> x !in ys
    decreases |xs|
  {
    if xs != [] {
      FirstCommonNone(xs[1..], ys);
      assert xs == [xs[0]] + xs[1..];
    }
  }

  /**
   * What `find_common_ancestor` finds, on any graph on which both walks end: nothing exactly when the chains are
   * disjoint; otherwise the deepest common ancestor, that is, a state on both chains on whose own chain every other
   * common ancestor lies.
   */
  lemma DeepestCommonAncestor(g: Graph, a: Id, b: Id, xs: seq<Id>, ys: seq<Id>)
    requires IsChain(g, a, xs) && IsChain(g, b, ys)
    ensures FirstCommon(xs, ys) == None <==> forall x :: x in xs ==> x !in ys
    ensures
      FirstCommon(xs, ys).Some? ==>
        var c := FirstCommon(xs, ys).value;
        && c in xs && c in ys
        && (forall zs, x :: IsChain(g, c, zs) && x in xs && x in ys ==> x in zs)
  {
    FirstCommonNone(xs, ys);
    if FirstCommon(xs, ys).Some? {
      var i := FirstCommonFound(xs, ys);
      ChainSuffix(g, a, xs, i);
      forall zs, x | IsChain(g, xs[i], zs) && x in xs && x in ys ensures x in zs {
        ChainIsUnique(g, xs[i], zs, xs[i..]);
        var k :| 0 <= k < |xs| && xs[k] == x;
        assert xs[i..][k - i] == x;
      }
    }
  }

  /** Both orders of asking give the same ancestor. */
  lemma CommonAncestorIsSymmetric(g: Graph, a: Id, b: Id, xs: seq<Id>, ys: seq<Id>)
    requires IsChain(g, a, xs) && IsChain(g, b, ys)
    ensures FirstCommon(xs, ys) == FirstCommon(ys, xs)
  {
    FirstCommonNone(xs, ys);
    FirstCommonNone(ys, xs);
    if FirstCommon(xs, ys).Some? && FirstCommon(ys, xs).Some? {
      var c, d := FirstCommon(xs, ys).value, FirstCommon(ys, xs).value;
      DeepestCommonAncestor(g, a, b, xs, ys);
      DeepestCommonAncestor(g, b, a, ys, xs);
      var i := FirstCommonFound(xs, ys);
      var j := FirstCommonFound(ys, xs);
      ChainSuffix(g, a, xs, i);
      ChainSuffix(g, b, ys, j);
      // Each of the two lies on the other's chain, so both chains are equally long.
      Above(g, c, xs[i..], d, ys[j..]);
      Above(g, d, ys[j..], c, xs[i..]);
    }
  }

  lemma Above(g: Graph, c: Id, cs: seq<Id>, d: Id, ds: seq<Id>)
    requires IsChain(g, c, cs) && IsChain(g, d, ds) && d in cs
    ensures |ds| <= |cs| && (|ds| == |cs| ==> c == d)
  {
    var k :| 0 <= k < |cs| && cs[k] == d;
    ChainSuffix(g, c, cs, k);
    ChainIsUnique(g, d, ds, cs[k..]);
  }

  // ---------- the recording discipline ----------

  datatype Versions = Versions(graph: Graph, branches: map<string, Id>, tags: map<string, Id>)

  const EMPTY := Versions(map[], map[], map[])

  function BranchOf(v: Versions, name: string): Option<Id> {
    if name in v.branches then Some(v.branches[name]) else None
  }

  function TagOf(v: Versions, name: string): Option<Id> {
    if name in v.tags then Some(v.tags[name]) else None
  }

  datatype Op =
    | RecordOp(id: Id, parent: Option<Id>, now: int, message: string, author: string)
    | CreateBranchOp(name: string, at: Id, now: int)
    | DeleteBranchOp(name: string)
    | CreateTagOp(name: string, at: Id)
    | DeleteTagOp(name: string)
    | RollbackOp(to: Id, newId: Id, now: int)

  function Step(v: Versions, op: Op): (Versions, Outcome) {
    match op
    case RecordOp(id, parent, now, message, author) =>
      (v.(graph := Record(v.graph, id, parent, now, message, author)), Done)
    case CreateBranchOp(name, at, now) =>
      if name in v.branches then (v, BranchExists(name))
      else
        (v.(graph := Record(v.graph, at, None, now, "Branch: " + name, "system"),
            branches := v.branches[name := at]), Done)
    case DeleteBranchOp(name) =>
      if name in v.branches then (v.(branches := v.branches - {name}), Done) else (v, BranchNotFound(name))
    case CreateTagOp(name, at) =>
      if name in v.tags then (v, TagExists(name)) else (v.(tags := v.tags[name := at]), Done)
    case DeleteTagOp(name) =>
      if name in v.tags then (v.(tags := v.tags - {name}), Done) else (v, TagNotFound(name))
    case RollbackOp(to, newId, now) =>
      if to !in v.graph then (v, StateNotFound(to))
      else (v.(graph := Record(v.graph, newId, Some(to), now, "Rollback", "system")), RolledBack(newId))
  }

  /** States are recorded under fresh ids and after their parents; branches may be put anywhere. */
  predicate Disciplined(v: Versions, op: Op) {
    match op
    case RecordOp(id, parent, _, _, _) => id !in v.graph && (parent.Some? ==> parent.value in v.graph)
    case RollbackOp(to, newId, _) => newId !in v.graph
    case _ => true
  }

  function Run(v: Versions, ops: seq<Op>): Versions
    decreases |ops|
  {
    if ops == [] then v else Run(Step(v, ops[0]).0, ops[1..])
  }

  predicate DisciplinedRun(v: Versions, ops: seq<Op>)
    decreases |ops|
  {
    ops == [] || (Disciplined(v, ops[0]) && DisciplinedRun(Step(v, ops[0]).0, ops[1..]))
  }

  /** Depth falls along parent links, which stay inside the graph. */
  ghost predicate Falling(g: Graph, depth: map<Id, nat>) {
    && depth.Keys == g.Keys
    && (forall id :: id in g && FirstParent(g, id).Some? ==>
          FirstParent(g, id).value in g && depth[FirstParent(g, id).value] < depth[id])
  }

  /** The child lists say, without repetition, what the parent links say. */
  ghost predicate Linked(g: Graph) {
    && (forall p, c :: p in g ==> (c in g[p].children <==> c in g && FirstParent(g, c) == Some(p)))
    && (forall p :: p in g ==> NoDuplicates(g[p].children))
  }

  /** Every state has been recorded, the two representations agree, and depth falls along parent links. */
  ghost predicate Forest(g: Graph, depth: map<Id, nat>) {
    (forall id :: id in g ==> g[id].entries != []) && Falling(g, depth) && Linked(g)
  }

  /** What recording a fresh state changes: one new leaf, listed last among its parent's children. */
  lemma FreshRecordAddsALeaf(g: Graph, id: Id, parent: Option<Id>, now: int, message: string, author: string)
    requires id !in g && (parent.Some? ==> parent.value in g)
    ensures
      var after := Record(g, id, parent, now, message, author);
      AddsLeaf(g, id, parent, after) && after[id].entries == [Entry(id, parent, now, message, author)]
  {
  }

  /** `after` is g with one new state, a leaf under `parent`. */
  ghost predicate AddsLeaf(g: Graph, id: Id, parent: Option<Id>, after: Graph) {
    && id !in g && (parent.Some? ==> parent.value in g)
    && after.Keys == g.Keys + {id} && after[id].children == []
    && after[id].entries != [] && after[id].entries[0].parentId == parent
    && (forall x :: x in g ==>
          after[x] == g[x].(children := if parent == Some(x) then g[x].children + [id] else g[x].children))
  }

  lemma LeafParents(g: Graph, id: Id, parent: Option<Id>, after: Graph)
    requires AddsLeaf(g, id, parent, after)
    ensures FirstParent(after, id) == parent
    ensures forall x :: x in g ==> FirstParent(after, x) == FirstParent(g, x)
  {
  }

  lemma LeafKeepsLink(g: Graph, id: Id, parent: Option<Id>, after: Graph, p: Id, c: Id)
    requires Linked(g) && AddsLeaf(g, id, parent, after) && p in after
    requires c in g && FirstParent(g, c).Some? ==> FirstParent(g, c).value in g
    ensures c in after[p].children <==> c in after && FirstParent(after, c) == Some(p)
  {
    LeafParents(g, id, parent, after);
    hide FirstParent;
    if p != id && c != id {
      assert c in g[p].children <==> c in g && FirstParent(g, c) == Some(p);
      assert after[p].children == g[p].children || after[p].children == g[p].children + [id];
    } else if p != id {
      assert id !in g[p].children;
    }
  }

  lemma LeafKeepsLinked(g: Graph, id: Id, parent: Option<Id>, after: Graph)
    requires Linked(g) && AddsLeaf(g, id, parent, after)
    requires forall x :: x in g && FirstParent(g, x).Some? ==> FirstParent(g, x).value in g
    ensures Linked(after)
  {
    forall p, c | p in after ensures c in after[p].children <==> c in after && FirstParent(after, c) == Some(p) {
      LeafKeepsLink(g, id, parent, after, p, c);
    }
    hide FirstParent;
    forall p | p in after ensures NoDuplicates(after[p].children) {
      if p != id {
        assert id !in g[p].children && NoDuplicates(g[p].children);
        assert after[p].children == g[p].children || after[p].children == g[p].children + [id];
      }
    }
  }

  lemma FreshRecordKeepsForest(g: Graph, depth: map<Id, nat>, id: Id, parent: Option<Id>, now: int, message: string,
                               author: string) returns (deeper: map<Id, nat>)
    requires Forest(g, depth) && id !in g && (parent.Some? ==> parent.value in g)
    ensures Forest(Record(g, id, parent, now, message, author), deeper)
  {
    hide Forest, Record;
    FreshRecordAddsALeaf(g, id, parent, now, message, author);
    deeper := LeafKeepsForest(g, depth, id, parent, Record(g, id, parent, now, message, author));
  }

  lemma LeafKeepsForest(g: Graph, depth: map<Id, nat>, id: Id, parent: Option<Id>, after: Graph)
    returns (deeper: map<Id, nat>)
    requires Forest(g, depth) && AddsLeaf(g, id, parent, after)
    ensures Forest(after, deeper)
  {
    hide FirstParent, Linked;
    deeper := depth[id := if parent.Some? then depth[parent.value] + 1 else 0];
    LeafParents(g, id, parent, after);
    LeafKeepsLinked(g, id, parent, after);
  }

  /** Branching at a known state adds an entry behind the first, which neither representation looks at. */
  lemma BranchKeepsLinks(g: Graph, at: Id, now: int, message: string, author: string)
    requires at in g && g[at].entries != []
    ensures
      var after := Record(g, at, None, now, message, author);
      && after.Keys == g.Keys
      && (forall x :: x in g ==>
            && FirstParent(after, x) == FirstParent(g, x) && after[x].children == g[x].children
            && |after[x].entries| >= |g[x].entries|)
  {
  }

  /** `Linked` only looks at parents and child lists. */
  lemma SameLinks(g: Graph, after: Graph)
    requires Linked(g) && after.Keys == g.Keys
    requires forall x :: x in g ==> FirstParent(after, x) == FirstParent(g, x) && after[x].children == g[x].children
    ensures Linked(after)
  {
    hide FirstParent;
    forall p, c | p in after ensures c in after[p].children <==> c in after && FirstParent(after, c) == Some(p) {
      assert c in g[p].children <==> c in g && FirstParent(g, c) == Some(p);
    }
  }

  lemma BranchKeepsForest(g: Graph, depth: map<Id, nat>, at: Id, now: int, message: string, author: string)
    requires Forest(g, depth) && at in g
    ensures Forest(Record(g, at, None, now, message, author), depth)
  {
    BranchKeepsLinks(g, at, now, message, author);
    SameLinks(g, Record(g, at, None, now, message, author));
    hide FirstParent, Record, Linked;
  }

  lemma StepKeepsForest(v: Versions, depth: map<Id, nat>, op: Op) returns (deeper: map<Id, nat>)
    requires Forest(v.graph, depth) && Disciplined(v, op)
    ensures Forest(Step(v, op).0.graph, deeper)
  {
    deeper := depth;
    match op
    case RecordOp(id, parent, now, message, author) =>
      deeper := FreshRecordKeepsForest(v.graph, depth, id, parent, now, message, author);
    case CreateBranchOp(name, at, now) =>
      if name !in v.branches {
        if at in v.graph {
          BranchKeepsForest(v.graph, depth, at, now, "Branch: " + name, "system");
        } else {
          deeper := FreshRecordKeepsForest(v.graph, depth, at, None, now, "Branch: " + name, "system");
        }
      }
    case RollbackOp(to, newId, now) =>
      if to in v.graph {
        deeper := FreshRecordKeepsForest(v.graph, depth, newId, Some(to), now, "Rollback", "system");
      }
    case DeleteBranchOp(_) =>
    case CreateTagOp(_, _) =>
    case DeleteTagOp(_) =>
  }

  lemma {:induction false} RunKeepsForest(v: Versions, depth: map<Id, nat>, ops: seq<Op>)
    returns (deeper: map<Id, nat>)
    requires Forest(v.graph, depth) && DisciplinedRun(v, ops)
    ensures Forest(Run(v, ops).graph, deeper)
    decreases |ops|
  {
    hide Step, Forest, Disciplined;
    if ops == [] {
      deeper := depth;
    } else {
      var next := StepKeepsForest(v, depth, ops[0]);
      deeper := RunKeepsForest(Step(v, ops[0]).0, next, ops[1..]);
    }
  }

  /** In a forest every upward walk ends. */
  lemma {:induction false} ForestWalkEnds(g: Graph, depth: map<Id, nat>, s: Id) returns (r: seq<Id>)
    requires Forest(g, depth)
    ensures IsChain(g, s, r)
    decreases if s in g then depth[s] + 1 else 0
  {
    if s !in g {
      r := [];
    } else if FirstParent(g, s) == None {
      r := [s];
    } else {
      var rest := ForestWalkEnds(g, depth, FirstParent(g, s).value);
      r := [s] + rest;
      assert r[1..] == rest;
    }
  }

  /** A path of child edges is a stretch of the lower end's chain, read backwards. */
  lemma {:induction false} PathClimbsTheChain(g: Graph, p: seq<Id>, r: seq<Id>)
    requires Linked(g) && ChildPath(g, p) && |p| >= 2 && IsChain(g, p[|p| - 1], r)
    ensures |r| >= |p| && r[|p| - 1] == p[0]
    decreases |p|
  {
    hide ChildPath, Linked;
    var n := |p|;
    LastEdgeIsParent(g, p);
    if n > 2 {
      SubPath(g, p, 0, n - 1);
      PathClimbsTheChain(g, p[0..n - 1], r[1..]);
    }
  }

  lemma LastEdgeIsParent(g: Graph, p: seq<Id>)
    requires Linked(g) && ChildPath(g, p) && |p| >= 2
    ensures FirstParent(g, p[|p| - 1]) == Some(p[|p| - 2]) && p[|p| - 1] in g && p[|p| - 2] in g
  {
    var i := |p| - 2;
    assert ChildEdge(g, p[i], p[i + 1]);
  }

  lemma {:induction false} ChainDescends(g: Graph, d: Id, r: seq<Id>, k: nat)
    requires Linked(g) && IsChain(g, d, r) && 1 <= k < |r|
    ensures Reaches(g, r[k], d)
    decreases k
  {
    var parent := FirstParent(g, d).value;
    assert r[1] == parent && d in g[parent].children;
    if k == 1 {
      assert ChildPath(g, [parent, d]);
    } else {
      ChainDescends(g, parent, r[1..], k - 1);
      ExtendReach(g, r[k], parent, d);
    }
  }

  /**
   * When the child lists say what the parent links say, d can be reached from s exactly when s is a proper ancestor of
   * d, for every d whose walk ends.
   */
  lemma LinkedAgrees(g: Graph, s: Id, d: Id, r: seq<Id>)
    requires Linked(g) && IsChain(g, d, r)
    ensures Reaches(g, s, d) <==> d != s && s in r
  {
    ChainHasNoDuplicates(g, d, r);
    if Reaches(g, s, d) {
      var p :| ChildPath(g, p) && |p| >= 2 && p[0] == s && p[|p| - 1] == d;
      PathClimbsTheChain(g, p, r);
    }
    if d != s && s in r {
      var k :| 0 <= k < |r| && r[k] == s;
      ChainDescends(g, d, r, k);
    }
  }

  /**
   * In every state a disciplined run can reach, branches and rollbacks included, every upward walk ends and the two
   * representations agree: d is among the descendants of s if and only if d differs from s and s is in d's ancestry.
   */
  lemma LinksAndListsAgree(ops: seq<Op>, s: Id, d: Id)
    requires DisciplinedRun(EMPTY, ops)
    ensures
      var g := Run(EMPTY, ops).graph;
      && WalkEnds(g, d)
      && (forall r :: IsChain(g, d, r) ==> (Reaches(g, s, d) <==> d != s && s in r))
  {
    var g := Run(EMPTY, ops).graph;
    var depth := RunKeepsForest(EMPTY, map[], ops);
    var chain := ForestWalkEnds(g, depth, d);
    forall r | IsChain(g, d, r) ensures Reaches(g, s, d) <==> d != s && s in r {
      LinkedAgrees(g, s, d, r);
    }
  }

  // ---------- without the discipline ----------

  /** Every state in the graph has been recorded, as in every graph a run reaches. */
  ghost predicate Recorded(g: Graph) {
    forall id :: id in g ==> g[id].entries != []
  }

  function ChildrenOf(g: Graph, id: Id): seq<Id> {
    if id in g then g[id].children else []
  }

  /** What recording does to both representations: existing parent links stay, and one child list may grow. */
  ghost predicate Extends(g: Graph, after: Graph, id: Id, parent: Option<Id>) {
    && after.Keys == g.Keys + {id}
    && (forall x :: x in g ==> FirstParent(after, x) == FirstParent(g, x))
    && (id !in g ==> FirstParent(after, id) == parent)
    && (forall x :: x in after ==>
          after[x].children == if parent == Some(x) then ChildrenOf(g, x) + [id] else ChildrenOf(g, x))
  }

  lemma WithEntryExtends(g: Graph, id: Id, entry: Entry)
    requires Recorded(g)
    ensures
      var after := WithEntry(g, id, entry);
      && Recorded(after) && after.Keys == g.Keys + {id}
      && (forall x :: x in g ==> FirstParent(after, x) == FirstParent(g, x))
      && (id !in g ==> FirstParent(after, id) == entry.parentId)
      && (forall x :: x in after ==> after[x].children == ChildrenOf(g, x))
  {
  }

  lemma WithChildExtends(g: Graph, id: Id, parent: Option<Id>)
    requires Recorded(g)
    ensures
      var after := WithChild(g, id, parent);
      && Recorded(after) && after.Keys == g.Keys
      && (forall x :: x in g ==>
            && FirstParent(after, x) == FirstParent(g, x)
            && after[x].children == if parent == Some(x) then g[x].children + [id] else g[x].children)
  {
  }

  lemma RecordExtends(g: Graph, id: Id, parent: Option<Id>, now: int, message: string, author: string)
    requires Recorded(g)
    ensures
      var after := Record(g, id, parent, now, message, author);
      Recorded(after) && Extends(g, after, id, parent)
  {
    hide WithEntry, WithChild, FirstParent, Recorded, ChildrenOf;
    var entry := Entry(id, parent, now, message, author);
    WithEntryExtends(g, id, entry);
    WithChildExtends(WithEntry(g, id, entry), id, parent);
  }

  /**
   * The guard under which recording keeps the two representations in agreement: an old state gets no known parent, and
   * a new one is not yet anybody's parent.
   */
  predicate RecordKeepsLists(g: Graph, id: Id, parent: Option<Id>) {
    if id in g then parent.None? || parent.value !in g
    else forall c :: c in g ==> FirstParent(g, c) != Some(id)
  }

  lemma GuardKeepsLink(g: Graph, after: Graph, id: Id, parent: Option<Id>, p: Id, c: Id)
    requires Linked(g) && Extends(g, after, id, parent) && RecordKeepsLists(g, id, parent) && p in after
    ensures c in after[p].children <==> c in after && FirstParent(after, c) == Some(p)
  {
    hide FirstParent;
    assert p in g ==> (c in g[p].children <==> c in g && FirstParent(g, c) == Some(p));
  }

  lemma GuardKeepsLinks(g: Graph, after: Graph, id: Id, parent: Option<Id>)
    requires Linked(g) && Extends(g, after, id, parent) && RecordKeepsLists(g, id, parent)
    ensures Linked(after)
  {
    hide FirstParent;
    forall p, c | p in after ensures c in after[p].children <==> c in after && FirstParent(after, c) == Some(p) {
      GuardKeepsLink(g, after, id, parent, p, c);
    }
    forall p | p in after ensures NoDuplicates(after[p].children) {
      if parent == Some(p) && p in g {
        assert id !in g[p].children && NoDuplicates(g[p].children);
      }
    }
  }

  lemma OnlyGuardKeepsLinks(g: Graph, after: Graph, id: Id, parent: Option<Id>)
    requires Linked(g) && Extends(g, after, id, parent) && !RecordKeepsLists(g, id, parent)
    ensures !Linked(after)
  {
    hide FirstParent;
    if id in g {
      var p := parent.value;
      if id in g[p].children {
        var k :| 0 <= k < |g[p].children| && g[p].children[k] == id;
        assert after[p].children[k] == id == after[p].children[|g[p].children|];
        assert !NoDuplicates(after[p].children);
      } else {
        assert id in after[p].children && FirstParent(after, id) != Some(p);
      }
    } else {
      var c :| c in g && FirstParent(g, c) == Some(id);
      assert c !in after[id].children && FirstParent(after, c) == Some(id);
    }
  }

  /** Recording keeps child lists and parent links in agreement exactly when its guard holds. */
  lemma RecordKeepsListsExactly(g: Graph, id: Id, parent: Option<Id>, now: int, message: string, author: string)
    requires Recorded(g) && Linked(g)
    ensures Linked(Record(g, id, parent, now, message, author)) <==> RecordKeepsLists(g, id, parent)
  {
    var after := Record(g, id, parent, now, message, author);
    RecordExtends(g, id, parent, now, message, author);
    hide Linked, Extends, RecordKeepsLists, Record;
    if RecordKeepsLists(g, id, parent) {
      GuardKeepsLinks(g, after, id, parent);
    } else {
      OnlyGuardKeepsLinks(g, after, id, parent);
    }
  }

  /** The id behind the end of a chain: none, or one that has not been recorded. */
  function StopOf(g: Graph, s: Id, chain: seq<Id>): Option<Id> {
    if chain == [] then Some(s) else FirstParent(g, chain[|chain| - 1])
  }

  /** The upward walk from s runs out of the graph at id. */
  ghost predicate StopsAt(g: Graph, s: Id, id: Id) {
    exists r :: IsChain(g, s, r) && StopOf(g, s, r) == Some(id)
  }

  ghost predicate AllWalksEnd(g: Graph) {
    forall s :: WalkEnds(g, s)
  }

  /** The guard under which recording closes no cycle. */
  ghost predicate RecordKeepsWalks(g: Graph, id: Id, parent: Option<Id>) {
    id in g || parent.None? || !StopsAt(g, parent.value, id)
  }

  /** A chain that runs out elsewhere stays as it is. */
  lemma {:induction false} ChainStays(g: Graph, after: Graph, id: Id, parent: Option<Id>, s: Id, r: seq<Id>)
    requires Extends(g, after, id, parent) && IsChain(g, s, r) && (id in g || StopOf(g, s, r) != Some(id))
    ensures IsChain(after, s, r)
    decreases |r|
  {
    hide FirstParent;
    if s in g && FirstParent(g, s).Some? {
      var p := FirstParent(g, s).value;
      assert r[1..] != [] ==> r[1..][|r[1..]| - 1] == r[|r| - 1];
      ChainStays(g, after, id, parent, p, r[1..]);
    }
  }

  /** A chain that ran out at the new state goes on with the new state's own. */
  lemma {:induction false} ChainGrows(g: Graph, after: Graph, id: Id, parent: Option<Id>, s: Id, r: seq<Id>, t: seq<Id>)
    requires Extends(g, after, id, parent) && id !in g && IsChain(g, s, r) && StopOf(g, s, r) == Some(id)
    requires IsChain(after, id, t)
    ensures IsChain(after, s, r + t)
    decreases |r|
  {
    hide FirstParent;
    if s !in g {
      assert r + t == t;
    } else {
      var p := FirstParent(g, s).value;
      assert r[1..] != [] ==> r[1..][|r[1..]| - 1] == r[|r| - 1];
      ChainGrows(g, after, id, parent, p, r[1..], t);
      assert (r + t)[1..] == r[1..] + t;
    }
  }

  /** And only so. */
  lemma {:induction false} ChainPasses(g: Graph, after: Graph, id: Id, parent: Option<Id>, s: Id, r: seq<Id>,
                                       t: seq<Id>)
    requires Extends(g, after, id, parent) && id !in g && IsChain(g, s, r) && StopOf(g, s, r) == Some(id)
    requires IsChain(after, s, t)
    ensures |r| <= |t| && IsChain(after, id, t[|r|..])
    decreases |r|
  {
    hide FirstParent;
    if s !in g {
      assert t[0..] == t;
    } else {
      var p := FirstParent(g, s).value;
      assert r[1..] != [] ==> r[1..][|r[1..]| - 1] == r[|r| - 1];
      ChainPasses(g, after, id, parent, p, r[1..], t[1..]);
      assert t[1..][|r[1..]|..] == t[|r|..];
    }
  }

  /** Walks that never ended go on never ending. */
  lemma {:induction false} ChainWas(g: Graph, after: Graph, id: Id, parent: Option<Id>, s: Id, t: seq<Id>)
    requires Extends(g, after, id, parent) && IsChain(after, s, t)
    ensures WalkEnds(g, s)
    decreases |t|
  {
    hide FirstParent;
    if s !in g {
      assert IsChain(g, s, []);
    } else if FirstParent(g, s).None? {
      assert IsChain(g, s, [s]);
    } else {
      var p := FirstParent(g, s).value;
      ChainWas(g, after, id, parent, p, t[1..]);
      var r :| IsChain(g, p, r);
      assert ([s] + r)[1..] == r;
      assert IsChain(g, s, [s] + r);
    }
  }

  /** The walk from a state recorded under the guard ends. */
  lemma NewWalkEnds(g: Graph, after: Graph, id: Id, parent: Option<Id>) returns (t: seq<Id>)
    requires Extends(g, after, id, parent) && AllWalksEnd(g) && id !in g && RecordKeepsWalks(g, id, parent)
    ensures IsChain(after, id, t)
  {
    t := [id];
    if parent.Some? {
      assert WalkEnds(g, parent.value);
      var r :| IsChain(g, parent.value, r);
      ChainStays(g, after, id, parent, parent.value, r);
      t := [id] + r;
      assert t[1..] == r;
    }
  }

  lemma GuardKeepsWalks(g: Graph, after: Graph, id: Id, parent: Option<Id>)
    requires Extends(g, after, id, parent) && AllWalksEnd(g) && RecordKeepsWalks(g, id, parent)
    ensures AllWalksEnd(after)
  {
    forall s ensures WalkEnds(after, s) {
      assert WalkEnds(g, s);
      var r :| IsChain(g, s, r);
      if id in g || StopOf(g, s, r) != Some(id) {
        ChainStays(g, after, id, parent, s, r);
      } else {
        var t := NewWalkEnds(g, after, id, parent);
        ChainGrows(g, after, id, parent, s, r, t);
      }
    }
  }

  lemma OnlyGuardKeepsWalks(g: Graph, after: Graph, id: Id, parent: Option<Id>)
    requires Extends(g, after, id, parent) && !RecordKeepsWalks(g, id, parent)
    ensures !WalkEnds(after, id)
  {
    var r :| IsChain(g, parent.value, r) && StopOf(g, parent.value, r) == Some(id);
    forall t ensures !IsChain(after, id, t) {
      if IsChain(after, id, t) {
        ChainPasses(g, after, id, parent, parent.value, r, t[1..]);
        ChainIsUnique(after, id, t, t[1..][|r|..]);
      }
    }
  }

  /**
   * Recording leaves every upward walk ending exactly when all of them ended before and its guard holds. In particular
   * a cycle, once closed, is never opened again.
   */
  lemma RecordKeepsWalksExactly(g: Graph, id: Id, parent: Option<Id>, now: int, message: string, author: string)
    requires Recorded(g)
    ensures
      AllWalksEnd(Record(g, id, parent, now, message, author)) <==> AllWalksEnd(g) && RecordKeepsWalks(g, id, parent)
  {
    var after := Record(g, id, parent, now, message, author);
    RecordExtends(g, id, parent, now, message, author);
    hide Extends, Record, RecordKeepsWalks, IsChain;
    if AllWalksEnd(after) {
      forall s ensures WalkEnds(g, s) {
        assert WalkEnds(after, s);
        var t :| IsChain(after, s, t);
        ChainWas(g, after, id, parent, s, t);
      }
      if !RecordKeepsWalks(g, id, parent) {
        OnlyGuardKeepsWalks(g, after, id, parent);
      }
    } else if AllWalksEnd(g) && RecordKeepsWalks(g, id, parent) {
      GuardKeepsWalks(g, after, id, parent);
    }
  }

  /** What an operation records, if anything. */
  function RecordingOf(v: Versions, op: Op): Option<Entry> {
    match op
    case RecordOp(id, parent, now, message, author) => Some(Entry(id, parent, now, message, author))
    case CreateBranchOp(name, at, now) =>
      if name in v.branches then None else Some(Entry(at, None, now, "Branch: " + name, "system"))
    case RollbackOp(to, newId, now) =>
      if to in v.graph then Some(Entry(newId, Some(to), now, "Rollback", "system")) else None
    case _ => None
  }

  predicate StepKeepsLists(v: Versions, op: Op) {
    match RecordingOf(v, op)
    case None => true
    case Some(e) => RecordKeepsLists(v.graph, e.stateId, e.parentId)
  }

  ghost predicate StepKeepsWalks(v: Versions, op: Op) {
    match RecordingOf(v, op)
    case None => true
    case Some(e) => RecordKeepsWalks(v.graph, e.stateId, e.parentId)
  }

  predicate RunKeepsLists(v: Versions, ops: seq<Op>)
    decreases |ops|
  {
    ops == [] || (StepKeepsLists(v, ops[0]) && RunKeepsLists(Step(v, ops[0]).0, ops[1..]))
  }

  ghost predicate RunKeepsWalks(v: Versions, ops: seq<Op>)
    decreases |ops|
  {
    ops == [] || (StepKeepsWalks(v, ops[0]) && RunKeepsWalks(Step(v, ops[0]).0, ops[1..]))
  }

  /** The representations agree at every point of a run. */
  ghost predicate LinkedThroughout(v: Versions, ops: seq<Op>)
    decreases |ops|
  {
    Linked(v.graph) && (ops == [] || LinkedThroughout(Step(v, ops[0]).0, ops[1..]))
  }

  lemma StepRecords(v: Versions, op: Op)
    ensures
      Step(v, op).0.graph ==
        match RecordingOf(v, op)
        case None => v.graph
        case Some(e) => Record(v.graph, e.stateId, e.parentId, e.timestamp, e.message, e.author)
  {
    hide Record;
  }

  lemma StepKeepsBothExactly(v: Versions, op: Op)
    requires Recorded(v.graph)
    ensures
      var after := Step(v, op).0.graph;
      && Recorded(after)
      && (Linked(v.graph) ==> (Linked(after) <==> StepKeepsLists(v, op)))
      && (AllWalksEnd(after) <==> AllWalksEnd(v.graph) && StepKeepsWalks(v, op))
  {
    StepRecords(v, op);
    hide Step, Record, RecordingOf, Linked, Recorded, RecordKeepsLists, RecordKeepsWalks, AllWalksEnd;
    match RecordingOf(v, op)
    case None =>
    case Some(e) =>
      RecordExtends(v.graph, e.stateId, e.parentId, e.timestamp, e.message, e.author);
      RecordKeepsWalksExactly(v.graph, e.stateId, e.parentId, e.timestamp, e.message, e.author);
      if Linked(v.graph) {
        RecordKeepsListsExactly(v.graph, e.stateId, e.parentId, e.timestamp, e.message, e.author);
      }
  }

  lemma {:induction false} RunKeepsBothExactly(v: Versions, ops: seq<Op>)
    requires Recorded(v.graph)
    ensures Linked(v.graph) ==> (LinkedThroughout(v, ops) <==> RunKeepsLists(v, ops))
    ensures AllWalksEnd(Run(v, ops).graph) <==> AllWalksEnd(v.graph) && RunKeepsWalks(v, ops)
    decreases |ops|
  {
    hide Step, Linked, Recorded, StepKeepsLists, StepKeepsWalks, AllWalksEnd;
    if ops != [] {
      StepKeepsBothExactly(v, ops[0]);
      RunKeepsBothExactly(Step(v, ops[0]).0, ops[1..]);
    }
  }

  /**
   * Exactly which runs keep the version graph sound. Child lists and parent links agree at every point of a run if and
   * only if no operation gives an old state a known parent or records a state that is already somebody's parent; and
   * every upward walk ends, at the end of a run and at every point before, if and only if no operation records a new
   * state under a walk that runs out at that very state.
   */
  lemma SoundExactly(ops: seq<Op>)
    ensures LinkedThroughout(EMPTY, ops) <==> RunKeepsLists(EMPTY, ops)
    ensures AllWalksEnd(Run(EMPTY, ops).graph) <==> RunKeepsWalks(EMPTY, ops)
  {
    forall s ensures WalkEnds(EMPTY.graph, s) {
      assert IsChain(EMPTY.graph, s, []);
    }
    RunKeepsBothExactly(EMPTY, ops);
  }

  /** A child recorded before its parent can close a cycle, and then the upward walk never ends. */
  lemma CycleWithoutDiscipline()
    ensures
      var ops := [RecordOp("a", Some("b"), 0, "", ""), RecordOp("b", Some("a"), 1, "", "")];
      !WalkEnds(Run(EMPTY, ops).graph, "a")
  {
    var ops := [RecordOp("a", Some("b"), 0, "", ""), RecordOp("b", Some("a"), 1, "", "")];
    var one := Step(EMPTY, ops[0]).0;
    var two := Step(one, ops[1]).0;
    assert ops[1..] == [ops[1]] && ops[1..][1..] == [];
    assert Run(EMPTY, ops) == Run(one, ops[1..]) == two;
    assert FirstParent(two.graph, "a") == Some("b") && FirstParent(two.graph, "b") == Some("a");
    forall r ensures !IsChain(two.graph, "a", r) {
      NoChainOnCycle(two.graph, "a", "b", r);
    }
  }

  lemma {:induction false} NoChainOnCycle(g: Graph, a: Id, b: Id, r: seq<Id>)
    requires a in g && b in g && FirstParent(g, a) == Some(b) && FirstParent(g, b) == Some(a)
    ensures !IsChain(g, a, r)
    decreases |r|
  {
    if r != [] {
      NoChainOnCycle(g, b, a, r[1..]);
    }
  }

  /** Recording a state again under another parent makes the two representations disagree. */
  lemma RerecordingDisagrees()
    ensures
      var ops := [RecordOp("a", None, 0, "", ""), RecordOp("b", None, 1, "", ""), RecordOp("c", Some("a"), 2, "", ""),
                  RecordOp("c", Some("b"), 3, "", "")];
      var g := Run(EMPTY, ops).graph;
      IsChain(g, "c", ["c", "a"]) && Reaches(g, "b", "c")
  {
    var ops := [RecordOp("a", None, 0, "", ""), RecordOp("b", None, 1, "", ""), RecordOp("c", Some("a"), 2, "", ""),
                RecordOp("c", Some("b"), 3, "", "")];
    var v1 := Step(EMPTY, ops[0]).0;
    var v2 := Step(v1, ops[1]).0;
    var v3 := Step(v2, ops[2]).0;
    var v4 := Step(v3, ops[3]).0;
    assert Run(v3, ops[3..]) == v4;
    assert ops[2..][1..] == ops[3..] && Run(v2, ops[2..]) == v4;
    assert ops[1..][1..] == ops[2..] && Run(v1, ops[1..]) == v4;
    assert Run(EMPTY, ops) == v4;
    var g := v4.graph;
    assert IsChain(g, "a", ["a"]);
    assert ["c", "a"][1..] == ["a"];
    assert ChildPath(g, ["b", "c"]);
  }
}
