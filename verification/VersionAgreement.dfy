/**
 * When the two answers about ancestry in src/state_versioning.rs agree: get_descendants, which follows the child lists,
 * and get_ancestry, which follows the parent links.
 */
module VersionAgreement {
  import opened Basics
  import opened VersionGraphs

  /** d is among the descendants of s if and only if s is a proper ancestor of d, wherever the walk from d ends. */
  ghost predicate Agrees(g: Graph) {
    forall s, d, r :: IsChain(g, d, r) ==> (Reaches(g, s, d) <==> d != s && s in r)
  }

  ghost predicate ProperAncestor(g: Graph, s: Id, d: Id) {
    s != d && exists r :: IsChain(g, d, r) && s in r
  }

  /**
   * The guard under which recording keeps the answers in agreement: an old state gets no known parent but one of its
   * proper ancestors, and a new state is not yet anybody's parent.
   */
  ghost predicate RecordKeepsAnswers(g: Graph, id: Id, parent: Option<Id>) {
    if id in g then parent.None? || parent.value !in g || ProperAncestor(g, parent.value, id)
    else forall c :: c in g ==> FirstParent(g, c) != Some(id)
  }

  // ---------- paths ----------

  lemma OneEdge(g: Graph, p: Id, c: Id)
    requires ChildEdge(g, p, c)
    ensures Reaches(g, p, c)
  {
    assert ChildPath(g, [p, c]);
  }

  lemma ReachesOn(g: Graph, a: Id, b: Id, c: Id)
    requires Reaches(g, a, b) && Reaches(g, b, c)
    ensures Reaches(g, a, c)
  {
    var p :| ChildPath(g, p) && |p| >= 2 && p[0] == a && p[|p| - 1] == b;
    var q :| ChildPath(g, q) && |q| >= 2 && q[0] == b && q[|q| - 1] == c;
    var both := p + q[1..];
    forall i | 0 <= i < |both| - 1 ensures ChildEdge(g, both[i], both[i + 1]) {
      if i < |p| - 1 {
        assert ChildEdge(g, p[i], p[i + 1]);
      } else {
        var j := i - (|p| - 1);
        assert both[i] == q[j] && both[i + 1] == q[j + 1] && ChildEdge(g, q[j], q[j + 1]);
      }
    }
    assert ChildPath(g, both);
  }

  /** Graphs whose edges are reachable in another one reach no more than that one. */
  lemma {:induction false} PathReaches(g: Graph, h: Graph, p: seq<Id>)
    requires forall x, y :: ChildEdge(g, x, y) ==> Reaches(h, x, y)
    requires ChildPath(g, p) && |p| >= 2
    ensures Reaches(h, p[0], p[|p| - 1])
    decreases |p|
  {
    hide Reaches;
    var n := |p|;
    assert ChildEdge(g, p[n - 2], p[n - 2 + 1]);
    if n > 2 {
      SubPath(g, p, 0, n - 1);
      PathReaches(g, h, p[0..n - 1]);
      ReachesOn(h, p[0], p[n - 2], p[n - 1]);
    }
  }

  lemma ReachesNoMore(g: Graph, h: Graph, s: Id, d: Id)
    requires forall x, y :: ChildEdge(g, x, y) ==> Reaches(h, x, y)
    requires Reaches(g, s, d)
    ensures Reaches(h, s, d)
  {
    var p :| ChildPath(g, p) && |p| >= 2 && p[0] == s && p[|p| - 1] == d;
    PathReaches(g, h, p);
  }

  /** The last edge of a path. */
  lemma LastEdge(g: Graph, s: Id, d: Id) returns (x: Id)
    requires Reaches(g, s, d)
    ensures ChildEdge(g, x, d) && (s == x || Reaches(g, s, x))
  {
    var p :| ChildPath(g, p) && |p| >= 2 && p[0] == s && p[|p| - 1] == d;
    var n := |p|;
    x := p[n - 2];
    assert ChildEdge(g, p[n - 2], p[n - 2 + 1]);
    if n > 2 {
      SubPath(g, p, 0, n - 1);
      assert p[0..n - 1][n - 2] == x;
    }
  }

  lemma FirstEdge(g: Graph, s: Id, d: Id)
    requires Reaches(g, s, d)
    ensures s in g && g[s].children != []
  {
    var p :| ChildPath(g, p) && |p| >= 2 && p[0] == s && p[|p| - 1] == d;
    assert ChildEdge(g, p[0], p[0 + 1]);
  }

  // ---------- edges after recording ----------

  /** Recording adds at most the edge from the parent. */
  lemma EdgesAfter(g: Graph, after: Graph, id: Id, parent: Option<Id>, x: Id, y: Id)
    requires Extends(g, after, id, parent)
    ensures ChildEdge(after, x, y) <==> ChildEdge(g, x, y) || (parent == Some(x) && x in after && y == id)
  {
  }

  /** Nothing that was reachable is lost. */
  lemma ReachesStays(g: Graph, after: Graph, id: Id, parent: Option<Id>, s: Id, d: Id)
    requires Extends(g, after, id, parent) && Reaches(g, s, d)
    ensures Reaches(after, s, d)
  {
    forall x, y | ChildEdge(g, x, y) ensures Reaches(after, x, y) {
      EdgesAfter(g, after, id, parent, x, y);
      OneEdge(after, x, y);
    }
    hide Reaches, Extends, ChildEdge;
    ReachesNoMore(g, after, s, d);
  }

  // ---------- recording an old state again ----------

  lemma OldChainsStay(g: Graph, after: Graph, id: Id, parent: Option<Id>, d: Id, r: seq<Id>)
    requires Extends(g, after, id, parent) && id in g && AllWalksEnd(g) && IsChain(after, d, r)
    ensures IsChain(g, d, r)
  {
    hide IsChain, Extends;
    assert WalkEnds(g, d);
    var t :| IsChain(g, d, t);
    ChainStays(g, after, id, parent, d, t);
    ChainIsUnique(after, d, r, t);
  }

  lemma OldGuardKeeps(g: Graph, after: Graph, id: Id, parent: Option<Id>)
    requires Extends(g, after, id, parent) && id in g && AllWalksEnd(g) && Agrees(g)
    requires RecordKeepsAnswers(g, id, parent)
    ensures Agrees(after)
  {
    forall x, y | ChildEdge(after, x, y) ensures Reaches(g, x, y) {
      EdgesAfter(g, after, id, parent, x, y);
      if ChildEdge(g, x, y) {
        OneEdge(g, x, y);
      } else {
        var r :| IsChain(g, id, r) && x in r;
      }
    }
    hide Reaches, Extends, ChildEdge, IsChain, RecordKeepsAnswers;
    forall s, d, r | IsChain(after, d, r) ensures Reaches(after, s, d) <==> d != s && s in r {
      OldChainsStay(g, after, id, parent, d, r);
      if Reaches(after, s, d) {
        ReachesNoMore(after, g, s, d);
      }
      if Reaches(g, s, d) {
        ReachesStays(g, after, id, parent, s, d);
      }
    }
  }

  lemma OnlyOldGuardKeeps(g: Graph, after: Graph, id: Id, parent: Option<Id>)
    requires Extends(g, after, id, parent) && id in g && AllWalksEnd(g) && Agrees(after)
    ensures RecordKeepsAnswers(g, id, parent)
  {
    if parent.Some? && parent.value in g {
      EdgesAfter(g, after, id, parent, parent.value, id);
      OneEdge(after, parent.value, id);
      assert WalkEnds(g, id);
      var r :| IsChain(g, id, r);
      ChainStays(g, after, id, parent, id, r);
    }
  }

  // ---------- recording a new state ----------

  /** An unrecorded state has no incoming edges. */
  lemma NoEdgeToUnknown(g: Graph, x: Id, id: Id)
    requires Agrees(g) && id !in g
    ensures !ChildEdge(g, x, id)
  {
    if ChildEdge(g, x, id) {
      OneEdge(g, x, id);
      assert IsChain(g, id, []);
    }
  }

  /** When nobody has the new state as parent, no chain runs out at it. */
  lemma StopsElsewhere(g: Graph, id: Id, d: Id, r: seq<Id>)
    requires id !in g && (forall c :: c in g ==> FirstParent(g, c) != Some(id)) && IsChain(g, d, r) && d != id
    ensures StopOf(g, d, r) != Some(id)
  {
    if r != [] {
      ChainMembers(g, d, r);
    }
  }

  lemma {:induction false} ChainMembers(g: Graph, d: Id, r: seq<Id>)
    requires IsChain(g, d, r)
    ensures forall x :: x in r ==> x in g
    decreases |r|
  {
    hide FirstParent;
    if r != [] {
      if |r| > 1 {
        ChainMembers(g, FirstParent(g, d).value, r[1..]);
      }
      assert r == [r[0]] + r[1..];
    }
  }

  lemma UnknownStopsAtItself(g: Graph, id: Id)
    requires id !in g
    ensures StopsAt(g, id, id)
  {
    assert IsChain(g, id, []) && StopOf(g, id, []) == Some(id);
  }

  /** The parent of a new state is not the new state itself, or its walk would not end. */
  lemma ParentIsNotNew(g: Graph, id: Id, parent: Option<Id>)
    requires id !in g && RecordKeepsWalks(g, id, parent)
    ensures parent != Some(id)
  {
    UnknownStopsAtItself(g, id);
    hide StopsAt;
  }

  /** What is reachable after recording a new state. */
  lemma NewReaches(g: Graph, after: Graph, id: Id, parent: Option<Id>, s: Id, d: Id)
    requires Extends(g, after, id, parent) && id !in g && parent != Some(id) && Agrees(g)
    ensures
      Reaches(after, s, d) <==>
        if d == id then parent.Some? && parent.value in g && (s == parent.value || Reaches(g, s, parent.value))
        else Reaches(g, s, d)
  {
    if Reaches(after, s, d) {
      NewReachesOnly(g, after, id, parent, s, d);
    }
    if d == id && parent.Some? && parent.value in g {
      EdgesAfter(g, after, id, parent, parent.value, id);
      OneEdge(after, parent.value, id);
    }
    hide Reaches, Extends, ChildEdge, Agrees;
    if d != id && Reaches(g, s, d) {
      ReachesStays(g, after, id, parent, s, d);
    }
    if d == id && parent.Some? && parent.value in g && Reaches(g, s, parent.value) {
      ReachesStays(g, after, id, parent, s, parent.value);
      ReachesOn(after, s, parent.value, id);
    }
  }

  /** A path that does not end in the new state does not visit it, since it has no children. */
  lemma PathAvoidsNew(g: Graph, after: Graph, id: Id, parent: Option<Id>, s: Id, d: Id)
    requires Extends(g, after, id, parent) && id !in g && parent != Some(id) && d != id && Reaches(after, s, d)
    ensures Reaches(g, s, d)
  {
    var p :| ChildPath(after, p) && |p| >= 2 && p[0] == s && p[|p| - 1] == d;
    forall i | 0 <= i < |p| - 1 ensures ChildEdge(g, p[i], p[i + 1]) {
      assert ChildEdge(after, p[i], p[i + 1]);
      EdgesAfter(g, after, id, parent, p[i], p[i + 1]);
      if p[i + 1] == id {
        assert i + 1 < |p| - 1 && ChildEdge(after, p[i + 1], p[i + 1 + 1]);
        assert after[id].children == [];
      }
    }
    assert ChildPath(g, p);
  }

  lemma NewReachesOnly(g: Graph, after: Graph, id: Id, parent: Option<Id>, s: Id, d: Id)
    requires Extends(g, after, id, parent) && id !in g && parent != Some(id) && Agrees(g) && Reaches(after, s, d)
    ensures
      if d == id then parent.Some? && parent.value in g && (s == parent.value || Reaches(g, s, parent.value))
      else Reaches(g, s, d)
  {
    if d != id {
      PathAvoidsNew(g, after, id, parent, s, d);
    } else {
      var x := LastEdge(after, s, id);
      EdgesAfter(g, after, id, parent, x, id);
      NoEdgeToUnknown(g, x, id);
      if s != x {
        PathAvoidsNew(g, after, id, parent, s, x);
      }
    }
  }

  /** The other states keep their chains. */
  lemma OthersKeepChains(g: Graph, after: Graph, id: Id, parent: Option<Id>, d: Id, r: seq<Id>)
    requires Extends(g, after, id, parent) && id !in g && AllWalksEnd(g) && RecordKeepsAnswers(g, id, parent)
    requires d != id && IsChain(after, d, r)
    ensures IsChain(g, d, r)
  {
    hide IsChain, Extends;
    assert WalkEnds(g, d);
    var t :| IsChain(g, d, t);
    StopsElsewhere(g, id, d, t);
    ChainStays(g, after, id, parent, d, t);
    ChainIsUnique(after, d, r, t);
  }

  /** The chain of the new state is its parent's with itself in front. */
  lemma NewChain(g: Graph, after: Graph, id: Id, parent: Option<Id>, r: seq<Id>)
    requires Extends(g, after, id, parent) && id !in g && AllWalksEnd(g) && RecordKeepsAnswers(g, id, parent)
    requires parent != Some(id) && IsChain(after, id, r)
    ensures r != [] && r[0] == id
    ensures if parent.Some? then IsChain(g, parent.value, r[1..]) else r[1..] == []
  {
    if parent.Some? {
      OthersKeepChains(g, after, id, parent, parent.value, r[1..]);
    }
  }

  lemma NewGuardKeepsAt(g: Graph, after: Graph, id: Id, parent: Option<Id>, s: Id, d: Id, r: seq<Id>)
    requires Extends(g, after, id, parent) && id !in g && AllWalksEnd(g) && Agrees(g) && parent != Some(id)
    requires RecordKeepsAnswers(g, id, parent) && IsChain(after, d, r)
    ensures Reaches(after, s, d) <==> d != s && s in r
  {
    hide Reaches, Extends, IsChain;
    NewReaches(g, after, id, parent, s, d);
    if d != id {
      OthersKeepChains(g, after, id, parent, d, r);
    } else {
      NewChain(g, after, id, parent, r);
      assert r == [id] + r[1..];
      if parent.Some? {
        ChainMembers(g, parent.value, r[1..]);
        ChainStartsWith(g, parent.value, r[1..]);
      }
    }
  }

  lemma ChainStartsWith(g: Graph, d: Id, r: seq<Id>)
    requires IsChain(g, d, r)
    ensures d in r <==> d in g
  {
    if d in r {
      ChainMembers(g, d, r);
    }
  }

  lemma NewGuardKeeps(g: Graph, after: Graph, id: Id, parent: Option<Id>)
    requires Extends(g, after, id, parent) && id !in g && AllWalksEnd(g) && Agrees(g) && parent != Some(id)
    requires RecordKeepsAnswers(g, id, parent)
    ensures Agrees(after)
  {
    forall s, d, r | IsChain(after, d, r) ensures Reaches(after, s, d) <==> d != s && s in r {
      NewGuardKeepsAt(g, after, id, parent, s, d, r);
    }
  }

  lemma OnlyNewGuardKeeps(g: Graph, after: Graph, id: Id, parent: Option<Id>)
    requires Extends(g, after, id, parent) && id !in g && AllWalksEnd(after) && parent != Some(id) && Agrees(after)
    ensures RecordKeepsAnswers(g, id, parent)
  {
    forall c | c in g ensures FirstParent(g, c) != Some(id) {
      if FirstParent(g, c) == Some(id) {
        assert WalkEnds(after, id);
        var t :| IsChain(after, id, t);
        assert ([c] + t)[1..] == t && t[0] == id;
        assert IsChain(after, c, [c] + t) && id in [c] + t;
        FirstEdge(after, id, c);
      }
    }
  }

  // ---------- the exact condition ----------

  /**
   * Recording keeps descendants and ancestry in agreement, where they agreed and all walks end, exactly when its guard
   * holds.
   */
  lemma RecordKeepsAnswersExactly(g: Graph, id: Id, parent: Option<Id>, now: int, message: string, author: string)
    requires Recorded(g) && AllWalksEnd(g) && Agrees(g) && RecordKeepsWalks(g, id, parent)
    ensures Agrees(Record(g, id, parent, now, message, author)) <==> RecordKeepsAnswers(g, id, parent)
  {
    var after := Record(g, id, parent, now, message, author);
    RecordExtends(g, id, parent, now, message, author);
    RecordKeepsWalksExactly(g, id, parent, now, message, author);
    if id !in g {
      ParentIsNotNew(g, id, parent);
    }
    hide Record, Extends, Agrees, AllWalksEnd, RecordKeepsAnswers, RecordKeepsWalks, Recorded;
    if RecordKeepsAnswers(g, id, parent) {
      if id in g {
        OldGuardKeeps(g, after, id, parent);
      } else {
        NewGuardKeeps(g, after, id, parent);
      }
    }
    if Agrees(after) {
      if id in g {
        OnlyOldGuardKeeps(g, after, id, parent);
      } else {
        OnlyNewGuardKeeps(g, after, id, parent);
      }
    }
  }

  ghost predicate StepKeepsAnswers(v: Versions, op: Op) {
    match RecordingOf(v, op)
    case None => true
    case Some(e) =>
      RecordKeepsWalks(v.graph, e.stateId, e.parentId) && RecordKeepsAnswers(v.graph, e.stateId, e.parentId)
  }

  ghost predicate RunKeepsAnswers(v: Versions, ops: seq<Op>)
    decreases |ops|
  {
    ops == [] || (StepKeepsAnswers(v, ops[0]) && RunKeepsAnswers(Step(v, ops[0]).0, ops[1..]))
  }

  /** All walks end, and both answers agree. */
  ghost predicate Sound(g: Graph) {
    AllWalksEnd(g) && Agrees(g)
  }

  ghost predicate SoundThroughout(v: Versions, ops: seq<Op>)
    decreases |ops|
  {
    Sound(v.graph) && (ops == [] || SoundThroughout(Step(v, ops[0]).0, ops[1..]))
  }

  lemma StepStaysSoundExactly(v: Versions, op: Op)
    requires Recorded(v.graph) && Sound(v.graph)
    ensures
      var after := Step(v, op).0.graph;
      Recorded(after) && (Sound(after) <==> StepKeepsAnswers(v, op))
  {
    StepRecords(v, op);
    hide Step, Record, RecordingOf, Recorded, Agrees, AllWalksEnd, RecordKeepsWalks, RecordKeepsAnswers;
    match RecordingOf(v, op)
    case None =>
    case Some(e) =>
      RecordExtends(v.graph, e.stateId, e.parentId, e.timestamp, e.message, e.author);
      RecordKeepsWalksExactly(v.graph, e.stateId, e.parentId, e.timestamp, e.message, e.author);
      if RecordKeepsWalks(v.graph, e.stateId, e.parentId) {
        RecordKeepsAnswersExactly(v.graph, e.stateId, e.parentId, e.timestamp, e.message, e.author);
      }
  }

  lemma {:induction false} RunStaysSoundExactly(v: Versions, ops: seq<Op>)
    requires Recorded(v.graph) && Sound(v.graph)
    ensures SoundThroughout(v, ops) <==> RunKeepsAnswers(v, ops)
    decreases |ops|
  {
    hide Step, Recorded, Sound, StepKeepsAnswers;
    if ops != [] {
      StepStaysSoundExactly(v, ops[0]);
      if Sound(Step(v, ops[0]).0.graph) {
        RunStaysSoundExactly(Step(v, ops[0]).0, ops[1..]);
      }
    }
  }

  /**
   * Exactly which runs keep ancestry and descendants in agreement, branches and rollbacks included: those in which no
   * operation closes a cycle, gives an old state a known parent that is not one of its proper ancestors, or records a
   * state that is already somebody's parent.
   */
  lemma SoundRunsAgree(ops: seq<Op>)
    ensures SoundThroughout(EMPTY, ops) <==> RunKeepsAnswers(EMPTY, ops)
  {
    forall s ensures WalkEnds(EMPTY.graph, s) {
      assert IsChain(EMPTY.graph, s, []);
    }
    forall s, d | Reaches(EMPTY.graph, s, d) ensures false {
      FirstEdge(EMPTY.graph, s, d);
    }
    hide Reaches;
    RunStaysSoundExactly(EMPTY, ops);
  }

  /** The stricter guards of `SoundExactly`, which also keep child lists free of repetitions, are among these. */
  lemma {:induction false} StricterRunsAgree(v: Versions, ops: seq<Op>)
    requires RunKeepsLists(v, ops) && RunKeepsWalks(v, ops)
    ensures RunKeepsAnswers(v, ops)
    decreases |ops|
  {
    hide Step, RecordKeepsWalks, ProperAncestor;
    if ops != [] {
      StricterRunsAgree(Step(v, ops[0]).0, ops[1..]);
    }
  }
}
