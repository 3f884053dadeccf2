/**
 What an answered page leaves behind, whoever sent it: a continuation that was used is used up for good,
 the others go on, exactly the pages that fit are answered, and what an agent is shown is bounded.
 */
module Completion {
  import opened Basics
  import opened ObjectGraph
  import opened Projection
  import opened SemanticTree
  import opened ManagerState
  import opened Reassembly
  import Pipeline
  import opened Issued

  /** The continuation a prepared page resumed from. */
  function SourceOf(kind: Kind): (source: Option<nat>)
  {
    if kind.RootKind? then None else kind.source
  }

  /** Neither a tree call nor a search may go on from the continuation. */
  ghost predicate StaleIn(t: Tree, continuation: nat)
  {
    && (forall maxNodes, maxDepth ::
          PrepareOn(Some(t), TreeCall(None, Some(continuation), maxNodes, maxDepth)) == Bad(StaleTree(t.generation)))
    && (forall query, maxResults ::
          PrepareOn(Some(t), FindCall(query, Some(continuation), maxResults)) == Bad(StaleTree(t.generation)))
  }

  lemma StaleExactly(t: Tree, continuation: nat)
    ensures StaleIn(t, continuation) <==> continuation !in t.continuations
  {
    if continuation in t.continuations {
      var cursor := t.continuations[continuation];
      if cursor.TreeCursor? {
        assert PrepareOn(Some(t), TreeCall(None, Some(continuation), 1, 0)).Good?;
      } else {
        assert PrepareOn(Some(t), FindCall(cursor.query, Some(continuation), 1)).Good?;
      }
    }
  }

  /** The tree after an answered reply moved on from the page's own cursor. */
  lemma AnsweredMovesOn(fold: Text -> Text, s: Trees, key: Key, kind: Kind, m: Match)
    requires AllWellFormed(s) && Fits(s, Complete(key, kind, m))
    requires !kind.RootKind? && !Reply(fold, s, key, kind, m).Refused?
    ensures var s' := Apply(fold, s, Complete(key, kind, m));
            && key in s && key in s' && s[key].generation == kind.generation
            && MovesOn(s[key], s'[key], SourceOf(kind), CursorOf(kind, m), ContinuationOf(Reply(fold, s, key, kind, m)))
  {
    hide CompleteTree, CompleteSearch, MovesOn, WellFormed;
    assert key in s;
    match kind
    case TreeKind(generation, request, source) =>
      AnsweredTreeMovesOn(s[key], generation, request, source, m);
      AnsweredInItsGeneration(fold, s[key], kind, m);
    case SearchKind(generation, request, source) =>
      AnsweredSearchMovesOn(fold, s[key], generation, request, source, m);
      AnsweredInItsGeneration(fold, s[key], kind, m);
  }

  lemma AnsweredInItsGeneration(fold: Text -> Text, t: Tree, kind: Kind, m: Match)
    requires !kind.RootKind? && !CompleteOn(fold, Some(t), kind, m).1.Refused?
    ensures t.generation == kind.generation && t.root == m.root.id
  {
    hide ValidProjection, ValidSearch, NameNodes, NameMatches, IssueNext, Retire;
  }

  /**
   Once a page that resumed from an issued continuation is answered, the continuation is stale, and it is
   stale after every later run of that generation without a forget.
   */
  lemma UsedIsUsedUp(fold: Text -> Text, s: Trees, key: Key, kind: Kind, m: Match, continuation: nat, ops: seq<Op>)
    requires AllWellFormed(s) && Fits(s, Complete(key, kind, m))
    requires !Reply(fold, s, key, kind, m).Refused?
    requires SourceOf(kind) == Some(continuation) && key in s && continuation < s[key].nextContinuation
    requires RunFits(fold, Apply(fold, s, Complete(key, kind, m)), ops) && forall op :: op in ops ==> !Forgets(op, key)
    ensures var s' := Run(fold, Apply(fold, s, Complete(key, kind, m)), ops);
            key in s' && (s'[key].generation == kind.generation ==> StaleIn(s'[key], continuation))
  {
    var answered := Apply(fold, s, Complete(key, kind, m));
    AnsweredMovesOn(fold, s, key, kind, m);
    assert continuation !in answered[key].continuations && continuation < answered[key].nextContinuation;
    hide Apply, Run, RunFits, MovesOn, Fits;
    StepKeeps(fold, s, Complete(key, kind, m));
    RunMovesForward(fold, answered, ops, key);
    StaleExactly(Run(fold, answered, ops)[key], continuation);
  }

  /**
   No continuation is served twice: a call that was prepared from one and answered, however much happened in
   between, leaves it stale for as long as that generation lasts without a forget.
   */
  lemma ServedOnce(fold: Text -> Text, s: Trees, key: Key, call: Call, continuation: nat, between: seq<Op>, m: Match,
                   later: seq<Op>)
    requires AllWellFormed(s) && key in s && (call.TreeCall? || call.FindCall?) && call.continuation == Some(continuation)
    requires PrepareOn(Some(s[key]), call).Good?
    requires RunFits(fold, s, between) && forall op :: op in between + later ==> !Forgets(op, key)
    requires var kind := PrepareOn(Some(s[key]), call).value;
             var s1 := Run(fold, s, between);
             && Fits(s1, Complete(key, kind, m)) && !Reply(fold, s1, key, kind, m).Refused?
             && RunFits(fold, Apply(fold, s1, Complete(key, kind, m)), later)
    ensures var kind := PrepareOn(Some(s[key]), call).value;
            var s' := Run(fold, Apply(fold, Run(fold, s, between), Complete(key, kind, m)), later);
            key in s' && (s'[key].generation == s[key].generation ==> StaleIn(s'[key], continuation))
  {
    var kind := PrepareOn(Some(s[key]), call).value;
    var s1 := Run(fold, s, between);
    assert forall op :: op in between ==> op in between + later;
    assert forall op :: op in later ==> op in between + later;
    PreparedFromLive(s[key], call, continuation);
    hide Apply, Run, RunFits, Fits, PrepareOn, Reply;
    RunMovesForward(fold, s, between, key);
    RunKeepsWellFormed(fold, s, between);
    AnsweredMovesOn(fold, s1, key, kind, m);
    assert Extends(s[key], s1[key]);
    UsedIsUsedUp(fold, s1, key, kind, m, continuation, later);
  }

  lemma PreparedFromLive(t: Tree, call: Call, continuation: nat)
    requires WellFormed(t) && (call.TreeCall? || call.FindCall?) && call.continuation == Some(continuation)
    requires PrepareOn(Some(t), call).Good?
    ensures var kind := PrepareOn(Some(t), call).value;
            !kind.RootKind? && SourceOf(kind) == Some(continuation) && kind.generation == t.generation
            && continuation < t.nextContinuation
  {
  }

  /** Answering a page from a live continuation costs no other one its place. */
  lemma LiveSourceEvictsNothing(t: Tree, t': Tree, continuation: nat, next: Option<Cursor>, issued: Option<nat>)
    requires WellFormed(t) && continuation in t.continuations && MovesOn(t, t', Some(continuation), next, issued)
    ensures forall k :: k in t.continuations && k != continuation ==>
              k in t'.continuations && t'.continuations[k] == t.continuations[k]
  {
    var spared := Spared(t, Some(continuation));
    assert spared <= t.continuations.Keys - {continuation};
    SubsetSize(spared, t.continuations.Keys - {continuation});
    assert |t.continuations| == |t.continuations.Keys|;
    assert forall k :: !GivesWay(t, Some(continuation), k);
  }

  // ------------------------------------------- continuations across trees

  /**
   A kept continuation that resumes anything but what it was issued for has outlived its tree: the tree was
   forgotten or a later generation took its place.
   */
  lemma AliasingTakesANewTree(fold: Text -> Text, s: Trees, key: Key, kind: Kind, m: Match, continuation: nat, ops: seq<Op>,
                              size: nat, maxDepth: nat)
    requires AllWellFormed(s) && Fits(s, Complete(key, kind, m)) && kind.TreeKind?
    requires ContinuationOf(Reply(fold, s, key, kind, m)) == Some(continuation)
    requires RunFits(fold, Apply(fold, s, Complete(key, kind, m)), ops)
    requires var answer := PrepareOn(Lookup(Run(fold, Apply(fold, s, Complete(key, kind, m)), ops), key),
                                     TreeCall(None, Some(continuation), size, maxDepth));
             answer.Good? && (m.next.None? || answer.value.projection
                              != ProjectionRequest(kind.projection.root, m.next.value, size, kind.projection.maxDepth))
    ensures var s' := Run(fold, Apply(fold, s, Complete(key, kind, m)), ops);
            || (exists op :: op in ops && Forgets(op, key))
            || (key in s' && s'[key].generation > kind.generation)
  {
    var answered := Apply(fold, s, Complete(key, kind, m));
    AfterReply(fold, s, key, kind, m);
    AnsweredMovesOn(fold, s, key, kind, m);
    hide Apply, Run, RunFits, Fits, CompleteOn, AllWellFormed;
    if forall op :: op in ops ==> !Forgets(op, key) {
      RunMovesForward(fold, answered, ops, key);
      if Run(fold, answered, ops)[key].generation == kind.generation {
        IssuedContinuationLifetime(fold, s, key, kind, m, continuation, ops, size, maxDepth, Query(None, [], []));
      }
    }
  }

  /** The first page of a fresh tree, one node long, with more to come. */
  function FirstPage(key: Key, generation: nat, root: Root): (op: Op)
  {
    Complete(key, TreeKind(generation, ProjectionRequest(root.id, 0, 1, 16), None),
             Match(root, [Node(root.id, None, 0, root.role, None, [], None, 1)], Some(1)))
  }

  lemma FirstPageIssuesOne(t: Tree, root: Root)
    requires t == NewTree(t.generation, root.id)
    ensures var op := FirstPage(Key(0, 0), t.generation, root);
            var t' := CompleteTree(t, t.generation, op.kind.projection, None, op.m).0;
            t'.generation == t.generation && t'.root == root.id && t'.continuations == map[1 := TreeCursor(root.id, 1, 16)]
  {
    var p := ProjectionRequest(root.id, 0, 1, 16);
    var node := Node(root.id, None, 0, root.role, None, [], None, 1);
    var nodes := [node];
    assert nodes[..0] == [];
    assert Steps(nodes, 0, 0, 16);
    assert ValidProjection(p, Match(root, nodes, Some(1)));
    assert NameNodes(t, []) == (t, Some([]));
    assert WithPublic(t, root.id) == t;
    assert NameNodes(t, nodes).0 == t && NameNodes(t, nodes).1.Some?;
  }

  /**
   Rooting a client again starts continuation numbers over without a forget: continuation 1 first resumes the
   walk of object 7 and later, from the next tree, that of object 9.
   */
  lemma ContinuationsAliasAcrossRoots(fold: Text -> Text, key: Key, size: nat, maxDepth: nat)
    ensures var first := Run(fold, map[], [Complete(key, RootKind, Match(DEMO_ROOT, [], None)), FirstPage(key, 1, DEMO_ROOT)]);
            var again := Run(fold, first, [Complete(key, RootKind, Match(OTHER_ROOT, [], None)), FirstPage(key, 2, OTHER_ROOT)]);
            && PrepareOn(Lookup(first, key), TreeCall(None, Some(1), size, maxDepth))
               == Good(TreeKind(1, ProjectionRequest(7, 1, size, 16), Some(1)))
            && PrepareOn(Lookup(again, key), TreeCall(None, Some(1), size, maxDepth))
               == Good(TreeKind(2, ProjectionRequest(9, 1, size, 16), Some(1)))
  {
    var first := RootAndPage(fold, map[], key, DEMO_ROOT, 1);
    var again := RootAndPage(fold, first, key, OTHER_ROOT, 2);
  }

  lemma RootAndPage(fold: Text -> Text, s: Trees, key: Key, root: Root, generation: nat) returns (s': Trees)
    requires generation == if key in s then SaturatingNext(s[key].generation) else 1
    ensures s' == Run(fold, s, [Complete(key, RootKind, Match(root, [], None)), FirstPage(key, generation, root)])
    ensures key in s' && s'[key].generation == generation && s'[key].continuations == map[1 := TreeCursor(root.id, 1, 16)]
  {
    var rooted := Complete(key, RootKind, Match(root, [], None));
    var page := FirstPage(key, generation, root);
    var middle := Apply(fold, s, rooted);
    assert middle == s[key := NewTree(generation, root.id)];
    FirstPageIssuesOne(NewTree(generation, root.id), root);
    hide CompleteTree;
    s' := Apply(fold, middle, page);
    assert [rooted, page][1..] == [page] && [page][1..] == [];
    assert Run(fold, s, [rooted, page]) == Run(fold, middle, [page]);
    assert Run(fold, middle, [page]) == Run(fold, s', []);
  }

  // ------------------------------------------------ which pages are answered

  /** A page that could be a stretch of the requested walk, as far as the page itself can tell. */
  ghost predicate FitsRequest(p: ProjectionRequest, m: Match)
  {
    && 1 <= |m.nodes| <= p.maxNodes && p.offset + |m.nodes| <= 4096
    && (m.next.Some? ==> m.next.value == p.offset + |m.nodes| && |m.nodes| == p.maxNodes)
    && (forall i :: 0 <= i < |m.nodes| ==> m.nodes[i].depth <= p.maxDepth)
    && (p.offset == 0 ==> m.nodes[0].id == p.root && m.nodes[0].parent == None && m.nodes[0].depth == 0)
    && (forall i :: 0 <= i < |m.nodes| && p.offset + i > 0 ==> m.nodes[i].parent.Some? && m.nodes[i].depth > 0)
    && (forall i, j :: 0 <= j < i < |m.nodes| && m.nodes[i].parent == Some(m.nodes[j].id) ==>
          m.nodes[i].depth == m.nodes[j].depth + 1)
  }

  /** The manager's page check passes exactly the pages that fit. */
  lemma ValidProjectionExactly(p: ProjectionRequest, m: Match)
    requires DistinctIds(m.nodes)
    ensures ValidProjection(p, m) <==> FitsRequest(p, m)
  {
    forall i | 0 <= i < |m.nodes|
      ensures Steps(m.nodes, i, p.offset, p.maxDepth) <==>
                && m.nodes[i].depth <= p.maxDepth
                && (p.offset + i > 0 ==> m.nodes[i].parent.Some? && m.nodes[i].depth > 0)
                && ParentsAbove(m.nodes, i)
    {
      StepsExactly(m.nodes, i, p.offset, p.maxDepth);
    }
    hide Steps, DistinctIds;
    if ValidProjection(p, m) {
      forall i, j | 0 <= j < i < |m.nodes| && m.nodes[i].parent == Some(m.nodes[j].id)
        ensures m.nodes[i].depth == m.nodes[j].depth + 1
      {
        assert ParentsAbove(m.nodes, i);
      }
    }
  }

  /** Whatever of the node's parents stands earlier on the page is exactly one level up. */
  ghost predicate ParentsAbove(nodes: seq<Node>, i: nat)
    requires i < |nodes|
  {
    forall j :: 0 <= j < i && nodes[i].parent == Some(nodes[j].id) ==> nodes[i].depth == nodes[j].depth + 1
  }

  lemma StepsExactly(nodes: seq<Node>, i: nat, offset: nat, maxDepth: nat)
    requires DistinctIds(nodes) && i < |nodes|
    ensures Steps(nodes, i, offset, maxDepth) <==>
              && nodes[i].depth <= maxDepth
              && (offset + i > 0 ==> nodes[i].parent.Some? && nodes[i].depth > 0)
              && ParentsAbove(nodes, i)
  {
    var front := nodes[..i];
    forall j | 0 <= j < i
      ensures front[j] == nodes[j] && nodes[j].id in DepthsOf(front) && DepthsOf(front)[nodes[j].id] == nodes[j].depth
    {
      Pipeline.DepthIsRecorded(front, j);
    }
    assert forall id :: id in DepthsOf(front) ==> exists j :: 0 <= j < i && nodes[j].id == id;
    hide DepthsOf, DistinctIds;
  }

  /** A page is named through exactly when each of its parents is known already or stands earlier on it. */
  lemma {:induction false} NamesExactlyKnownParents(t: Tree, nodes: seq<Node>)
    requires WellFormed(t) && t.nextNode + |nodes| < U64_MAX
    ensures NameNodes(t, nodes).1.Some? <==> ParentsKnown(t, nodes)
    decreases |nodes|
  {
    hide WellFormed, RevealsAll, KeepsParents, SameNames, OnlyNames, ParentsKnown, IdsOf;
    if ParentsKnown(t, nodes) {
      NamingSucceeds(t, nodes);
    } else {
      SomeParentUnknown(t, nodes);
      var front := nodes[..|nodes| - 1];
      NamesExactlyKnownParents(t, front);
      if ParentsKnown(t, front) {
        NamedNodesAreRevealed(t, front);
      }
    }
  }

  lemma SomeParentUnknown(t: Tree, nodes: seq<Node>)
    requires !ParentsKnown(t, nodes)
    ensures nodes != []
    ensures var front, node := nodes[..|nodes| - 1], nodes[|nodes| - 1];
            ParentsKnown(t, front) ==> node.parent.Some? && node.parent.value !in t.publicOf.Keys + IdsOf(front)
  {
    if nodes != [] {
      var front := nodes[..|nodes| - 1];
      assert forall i :: 0 <= i < |front| ==> front[..i] == nodes[..i] && front[i] == nodes[i];
    }
  }

  /** A tree page is answered exactly when it is for the tree as it is, fits the request and hangs together. */
  lemma TreePageAnsweredExactly(t: Tree, generation: nat, p: ProjectionRequest, source: Option<nat>, m: Match)
    requires WellFormed(t) && Roomy(t, |m.nodes|) && DistinctIds(m.nodes)
    ensures CompleteTree(t, generation, p, source, m).1.TreePageReply?
       <==> && generation == t.generation && m.root.id == t.root && p.root in t.publicOf
            && FitsRequest(p, m) && ParentsKnown(t, m.nodes)
    ensures !CompleteTree(t, generation, p, source, m).1.MatchesReply?
  {
    hide ValidProjection, NameNodes, IssueNext, FitsRequest, ParentsKnown, WellFormed, DistinctIds;
    ValidProjectionExactly(p, m);
    NamesExactlyKnownParents(t, m.nodes);
  }

  /** A search page is answered exactly when it is for the tree as it is, fits, and holds only what was asked for. */
  lemma SearchPageAnsweredExactly(fold: Text -> Text, t: Tree, generation: nat, request: SearchRequest, source: Option<nat>,
                                  m: Match)
    ensures CompleteSearch(fold, t, generation, request, source, m).1.MatchesReply?
       <==> && generation == t.generation && m.root.id == t.root
            && |m.nodes| <= request.maxResults
            && (m.next.Some? ==> request.offset < m.next.value <= 4096 && |m.nodes| == request.maxResults)
            && (forall i :: 0 <= i < |m.nodes| ==> Asked(fold, request.query, m.nodes[i]))
    ensures !CompleteSearch(fold, t, generation, request, source, m).1.TreePageReply?
  {
    hide Matches, Asked, NameMatches, IssueNext;
    forall i | 0 <= i < |m.nodes| ensures Matches(fold, request.query, m.nodes[i]) <==> Asked(fold, request.query, m.nodes[i]) {
      MatchesExactly(fold, request.query, m.nodes[i]);
    }
    if ValidSearch(fold, request, m) {
      assert forall i :: 0 <= i < |m.nodes| ==> m.nodes[i] in m.nodes;
    }
  }

  // ---------------------------------------------- what an agent is shown

  /** Short names, states each once and in order, nonempty bounds, no deeper than 16. */
  ghost predicate Bounded(wire: WireNode)
  {
    && (wire.name.Some? ==> |wire.name.value| <= 512)
    && (forall i, j :: 0 <= i < j < |wire.states| ==> Rank(wire.states[i]) < Rank(wire.states[j]))
    && (wire.bounds.Some? ==> wire.bounds.value.width > 0 && wire.bounds.value.height > 0)
    && wire.depth <= 16
  }

  lemma {:induction false} OrderedStatesAscend(states: seq<NodeState>, i: nat, j: nat)
    requires OrderedStates(states) && i < j < |states|
    ensures Rank(states[i]) < Rank(states[j])
    decreases j
  {
    hide Rank;
    assert Rank(states[j - 1]) < Rank(states[j - 1 + 1]);
    if i < j - 1 {
      OrderedStatesAscend(states, i, j - 1);
    }
  }

  lemma RevealedIsBounded(t: Tree, wire: WireNode, node: Node)
    requires Reveals(t, wire, node) && ValidNode(node)
    ensures Bounded(wire)
  {
    hide Rank;
    forall i, j | 0 <= i < j < |wire.states| ensures Rank(wire.states[i]) < Rank(wire.states[j]) {
      OrderedStatesAscend(wire.states, i, j);
    }
  }

  /** A reply shows at most 128 nodes, each bounded and each behind a handle of its own. */
  ghost predicate BoundedReply(wires: seq<WireNode>)
  {
    && |wires| <= 128
    && (forall i :: 0 <= i < |wires| ==> Bounded(wires[i]))
    && (forall i, j :: 0 <= i < j < |wires| ==> wires[i].handle != wires[j].handle)
  }

  lemma RevealedAreBounded(t: Tree, wires: seq<WireNode>, nodes: seq<Node>)
    requires RevealsAll(t, wires, nodes) && ValidNodes(nodes)
    ensures BoundedReply(wires)
  {
    hide ValidNode, Bounded;
    forall i | 0 <= i < |wires| ensures Bounded(wires[i]) {
      assert Reveals(t, wires[i], nodes[i]);
      RevealedIsBounded(t, wires[i], nodes[i]);
    }
    forall i, j | 0 <= i < j < |wires| ensures wires[i].handle != wires[j].handle {
      assert Reveals(t, wires[i], nodes[i]) && Reveals(t, wires[j], nodes[j]);
      assert nodes[i].id != nodes[j].id;
    }
  }

  /** Whatever parses of a helper's answer, what reaches the agent is bounded. */
  lemma RepliesAreBounded(fold: Text -> Text, t: Option<Tree>, kind: Kind, m: Match)
    requires ParseAccepts(m) && (t.Some? ==> WellFormed(t.value) && Roomy(t.value, |m.nodes|))
    ensures match CompleteOn(fold, t, kind, m).1
            case TreePageReply(_, _, wires, _) => BoundedReply(wires)
            case MatchesReply(_, wires, _) => BoundedReply(wires)
            case Refused(_) => true
  {
    RepliesAreGrounded(fold, t, kind, m);
    var (t', outcome) := CompleteOn(fold, t, kind, m);
    hide CompleteTree, CompleteSearch, ValidNodes, BoundedReply, WellFormed;
    if kind.RootKind? {
      RootReplyIsBounded(t, m);
    } else if outcome.TreePageReply? {
      RevealedAreBounded(t'.value, outcome.nodes, m.nodes);
    } else if outcome.MatchesReply? {
      RevealedAreBounded(t'.value, outcome.matches, m.nodes);
    }
  }

  /** The root reply shows the root record itself, as node 1 of the new tree. */
  lemma RootReplyIsBounded(t: Option<Tree>, m: Match)
    requires ParseAccepts(m)
    ensures var outcome := CompleteRoot(t, m).1;
            && !outcome.MatchesReply?
            && (outcome.TreePageReply? <==> m.nodes == [] && m.next == None)
            && (outcome.TreePageReply? ==>
                  && BoundedReply(outcome.nodes) && |outcome.nodes| == 1 && outcome.continuation == None
                  && var wire := outcome.nodes[0];
                     && wire.handle == outcome.root == Handle(outcome.generation, 1) && wire.parent == None && wire.depth == 0
                     && wire.role == m.root.role && wire.name == m.root.name && wire.states == m.root.states
                     && wire.bounds == Some(m.root.bounds) && wire.childCount == m.root.childCount)
  {
    hide Rank;
    forall i, j | 0 <= i < j < |m.root.states| ensures Rank(m.root.states[i]) < Rank(m.root.states[j]) {
      OrderedStatesAscend(m.root.states, i, j);
    }
  }
}
