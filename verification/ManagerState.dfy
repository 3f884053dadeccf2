/**
 The manager's semantic state across sessions and clients: what any run of completions, root
 refreshes and forgettings does to issued handles and continuations, and the classes that hold it.
 */
module ManagerState {
  import opened Basics
  import opened ObjectGraph
  import opened Projection
  import opened SemanticTree

  datatype Key = Key(session: nat, client: nat)
  type Trees = map<Key, Tree>

  datatype Op =
    | Complete(key: Key, kind: Kind, m: Match)
    | ForgetClient(client: nat)
    | ForgetSession(session: nat)

  function Lookup(s: Trees, key: Key): (tree: Option<Tree>)
  {
    if key in s then Some(s[key]) else None
  }

  function Store(s: Trees, key: Key, tree: Option<Tree>): (s': Trees)
  {
    if tree.None? then s else s[key := tree.value]
  }

  function Apply(fold: Text -> Text, s: Trees, op: Op): (s': Trees)
  {
    match op
    case Complete(key, kind, m) => Store(s, key, CompleteOn(fold, Lookup(s, key), kind, m).0)
    case ForgetClient(client) => map key | key in s && key.client != client :: s[key]
    case ForgetSession(session) => map key | key in s && key.session != session :: s[key]
  }

  function Run(fold: Text -> Text, s: Trees, ops: seq<Op>): (s': Trees)
    decreases |ops|
  {
    if ops == [] then s else Run(fold, Apply(fold, s, ops[0]), ops[1..])
  }

  ghost predicate AllWellFormed(s: Trees)
  {
    forall key :: key in s ==> WellFormed(s[key])
  }

  /** The step leaves every 64-bit counter short of its bound. */
  ghost predicate Fits(s: Trees, op: Op)
  {
    op.Complete? && op.key in s ==> Roomy(s[op.key], |op.m.nodes|)
  }

  ghost predicate RunFits(fold: Text -> Text, s: Trees, ops: seq<Op>)
    decreases |ops|
  {
    ops != [] ==> Fits(s, ops[0]) && RunFits(fold, Apply(fold, s, ops[0]), ops[1..])
  }

  predicate Forgets(op: Op, key: Key)
  {
    match op
    case Complete(_, _, _) => false
    case ForgetClient(client) => key.client == client
    case ForgetSession(session) => key.session == session
  }

  // ----------------------------------------------- what one step does

  /** Time passing on one tree: the same generation extended, or a later generation. */
  ghost predicate Later(older: Tree, newer: Tree)
  {
    || Extends(older, newer)
    || newer.generation > older.generation
  }

  lemma NextKeeps(t: Tree, cursor: Option<Cursor>)
    requires WellFormed(t) && t.nextContinuation < U64_MAX
    ensures WellFormed(IssueNext(t, cursor).0) && Extends(t, IssueNext(t, cursor).0)
  {
    if cursor.Some? {
      IssueKeeps(t, cursor.value);
    }
  }

  lemma CompleteTreeKeeps(t: Tree, generation: nat, request: ProjectionRequest, source: Option<nat>, m: Match)
    requires WellFormed(t) && Roomy(t, |m.nodes|)
    ensures var t' := CompleteTree(t, generation, request, source, m).0; WellFormed(t') && Later(t, t')
  {
    hide WellFormed, Extends, NameNodes, IssueNext, ValidProjection;
    LaterSelf(t);
    NameNodesKeeps(t, m.nodes);
    var named := NameNodes(t, m.nodes).0;
    RetireKeeps(named, source);
    NextKeeps(Retire(named, source), TreeNext(request, m.next));
    ExtendsTransitive(t, named, Retire(named, source));
    ExtendsTransitive(t, Retire(named, source), IssueNext(Retire(named, source), TreeNext(request, m.next)).0);
  }

  lemma CompleteSearchKeeps(fold: Text -> Text, t: Tree, generation: nat, request: SearchRequest, source: Option<nat>,
                            m: Match)
    requires WellFormed(t) && Roomy(t, |m.nodes|)
    ensures var t' := CompleteSearch(fold, t, generation, request, source, m).0; WellFormed(t') && Later(t, t')
  {
    hide WellFormed, Extends, NameMatches, IssueNext, ValidSearch;
    LaterSelf(t);
    NameMatchesKeeps(t, m.nodes);
    var named := NameMatches(t, m.nodes).0;
    RetireKeeps(named, source);
    NextKeeps(Retire(named, source), SearchNext(request, m.next));
    ExtendsTransitive(t, named, Retire(named, source));
    ExtendsTransitive(t, Retire(named, source), IssueNext(Retire(named, source), SearchNext(request, m.next)).0);
  }

  lemma StepKeeps(fold: Text -> Text, s: Trees, op: Op)
    requires AllWellFormed(s) && Fits(s, op)
    ensures AllWellFormed(Apply(fold, s, op))
    ensures forall key :: key in s && !Forgets(op, key) ==> key in Apply(fold, s, op) && Later(s[key], Apply(fold, s, op)[key])
  {
    hide Extends, WellFormed, CompleteTree, CompleteSearch;
    forall key | key in s ensures Later(s[key], s[key]) {
      LaterSelf(s[key]);
    }
    if op.Complete? && op.key in s {
      var t := s[op.key];
      match op.kind
      case RootKind =>
      case TreeKind(generation, request, source) => CompleteTreeKeeps(t, generation, request, source, op.m);
      case SearchKind(generation, request, source) => CompleteSearchKeeps(fold, t, generation, request, source, op.m);
    }
  }

  lemma LaterSelf(t: Tree)
    ensures Later(t, t)
  {
  }

  lemma LaterTransitive(a: Tree, b: Tree, c: Tree)
    requires Later(a, b) && Later(b, c)
    ensures Later(a, c)
  {
  }

  // ------------------------------------------------------- whole runs

  /** Every tree of every run keeps its maps inverse and its cursors bounded. */
  lemma {:induction false} RunKeepsWellFormed(fold: Text -> Text, s: Trees, ops: seq<Op>)
    requires AllWellFormed(s) && RunFits(fold, s, ops)
    ensures AllWellFormed(Run(fold, s, ops))
    decreases |ops|
  {
    if ops != [] {
      StepKeeps(fold, s, ops[0]);
      RunKeepsWellFormed(fold, Apply(fold, s, ops[0]), ops[1..]);
    }
  }

  lemma {:induction false} RunMovesForward(fold: Text -> Text, s: Trees, ops: seq<Op>, key: Key)
    requires AllWellFormed(s) && RunFits(fold, s, ops) && key in s
    requires forall op :: op in ops ==> !Forgets(op, key)
    ensures key in Run(fold, s, ops) && Later(s[key], Run(fold, s, ops)[key])
    decreases |ops|
  {
    hide Extends, WellFormed, CompleteOn;
    if ops != [] {
      StepKeeps(fold, s, ops[0]);
      var s' := Apply(fold, s, ops[0]);
      RunMovesForward(fold, s', ops[1..], key);
      LaterTransitive(s[key], s'[key], Run(fold, s', ops[1..])[key]);
    } else {
      LaterSelf(s[key]);
    }
  }

  /**
   Until its key is forgotten, an issued handle resolves to the object it was issued for while its
   generation is current, and to a refusal naming the current generation afterwards.
   */
  lemma HandleLifetime(fold: Text -> Text, s: Trees, ops: seq<Op>, key: Key, handle: Handle, maxNodes: nat, maxDepth: nat)
    requires AllWellFormed(s) && RunFits(fold, s, ops)
    requires key in s && handle.tree == s[key].generation && handle.node in s[key].internalOf
    requires forall op :: op in ops ==> !Forgets(op, key)
    ensures key in Run(fold, s, ops)
    ensures var t := Run(fold, s, ops)[key];
            var answer := PrepareOn(Some(t), TreeCall(Some(handle), None, maxNodes, maxDepth));
            var meant := s[key].internalOf[handle.node];
            && (t.generation == handle.tree ==>
                  answer == Good(TreeKind(handle.tree, ProjectionRequest(meant, 0, maxNodes, maxDepth), None)))
            && (t.generation != handle.tree ==> answer == Bad(StaleTree(t.generation)))
  {
    RunMovesForward(fold, s, ops, key);
  }

  /**
   Within one generation a continuation resolves to exactly the cursor it was issued for, by a call of
   its own kind, or is stale.
   */
  lemma ContinuationLifetime(fold: Text -> Text, s: Trees, ops: seq<Op>, key: Key, continuation: nat, size: nat,
                             maxDepth: nat, query: Query)
    requires AllWellFormed(s) && RunFits(fold, s, ops)
    requires key in s && continuation in s[key].continuations
    requires forall op :: op in ops ==> !Forgets(op, key)
    requires key in Run(fold, s, ops) ==> Run(fold, s, ops)[key].generation == s[key].generation
    ensures key in Run(fold, s, ops)
    ensures var t := Run(fold, s, ops)[key];
            var cursor := s[key].continuations[continuation];
            var live := continuation in t.continuations;
            var tree := PrepareOn(Some(t), TreeCall(None, Some(continuation), size, maxDepth));
            var found := PrepareOn(Some(t), FindCall(query, Some(continuation), size));
            && (live && cursor.TreeCursor? ==>
                  && tree == Good(TreeKind(t.generation, ProjectionRequest(cursor.root, cursor.offset, size, cursor.maxDepth),
                                           Some(continuation)))
                  && found == Bad(StaleTree(t.generation)))
            && (live && cursor.SearchCursor? ==>
                  && found == Good(SearchKind(t.generation, SearchRequest(cursor.offset, size, cursor.query), Some(continuation)))
                  && tree == Bad(StaleTree(t.generation)))
            && (!live ==> tree == found == Bad(StaleTree(t.generation)))
  {
    RunMovesForward(fold, s, ops, key);
  }

  const DEMO_ROOT := Root(7, 0, None, [], Rect(0, 0, 1, 1), 0)
  const OTHER_ROOT := Root(9, 0, None, [], Rect(0, 0, 1, 1), 0)

  /**
   Forgetting restarts generations, so a handle kept across it can name another object: handle (1, 1)
   first stands for object 7 and, after the client is forgotten and rooted again, for object 9.
   */
  lemma ForgottenHandleAliases(fold: Text -> Text, key: Key)
    ensures var first := Run(fold, map[], [Complete(key, RootKind, Match(DEMO_ROOT, [], None))]);
            var again := Run(fold, first, [ForgetClient(key.client), Complete(key, RootKind, Match(OTHER_ROOT, [], None))]);
            && key in first && key in again
            && first[key].generation == again[key].generation == 1
            && first[key] == NewTree(1, 7) && again[key] == NewTree(1, 9)
            && PrepareOn(Lookup(first, key), TreeCall(Some(Handle(1, 1)), None, 1, 0))
               == Good(TreeKind(1, ProjectionRequest(7, 0, 1, 0), None))
            && PrepareOn(Lookup(again, key), TreeCall(Some(Handle(1, 1)), None, 1, 0))
               == Good(TreeKind(1, ProjectionRequest(9, 0, 1, 0), None))
  {
    var root := Complete(key, RootKind, Match(DEMO_ROOT, [], None));
    var first := Apply(fold, map[], root);
    assert Run(fold, map[], [root]) == Run(fold, first, []);
    var forget, next := ForgetClient(key.client), Complete(key, RootKind, Match(OTHER_ROOT, [], None));
    var gone := Apply(fold, first, forget);
    assert Run(fold, first, [forget, next]) == Run(fold, gone, [next]) by {
      assert [forget, next][1..] == [next];
    }
    assert Run(fold, gone, [next]) == Run(fold, Apply(fold, gone, next), []);
  }

  // ------------------------------------------------------- the objects

  /** One client's tree as the manager holds and updates it. */
  class LiveTree {
    var generation: nat
    var root: Id
    var publicOf: map<Id, nat>
    var internalOf: map<nat, Id>
    var nextNode: nat
    var continuations: map<nat, Cursor>
    var nextContinuation: nat

    ghost function View(): Tree
      reads this
    {
      Tree(generation, root, publicOf, internalOf, nextNode, continuations, nextContinuation)
    }

    constructor (generation: nat, root: Id)
      ensures View() == NewTree(generation, root)
    {
      this.generation, this.root := generation, root;
      publicOf, internalOf, nextNode := map[root := 1], map[1 := root], 2;
      continuations, nextContinuation := map[], 1;
    }

    /** Starts the tree over in place. */
    method Reset(generation: nat, root: Id)
      modifies this
      ensures View() == NewTree(generation, root)
    {
      this.generation, this.root := generation, root;
      publicOf, internalOf, nextNode := map[root := 1], map[1 := root], 2;
      continuations, nextContinuation := map[], 1;
    }

    method PublicId(internal: Id) returns (id: nat)
      modifies this
      ensures View() == WithPublic(old(View()), internal)
      ensures id == View().publicOf[internal]
    {
      if internal in publicOf {
        return publicOf[internal];
      }
      id := nextNode;
      nextNode := SaturatingNext(nextNode);
      publicOf := publicOf[internal := id];
      internalOf := internalOf[id := internal];
    }

    method IssueContinuation(cursor: Cursor) returns (key: nat)
      modifies this
      ensures (View(), key) == Issue(old(View()), cursor)
    {
      if nextContinuation == U64_MAX {
        continuations := map[];
        nextContinuation := 1;
      }
      if |continuations| >= MAX_CONTINUATIONS {
        var oldest := Oldest(continuations.Keys);
        continuations := continuations - {oldest};
      }
      key := nextContinuation;
      nextContinuation := SaturatingNext(nextContinuation);
      continuations := continuations[key := cursor];
    }

    method RetireSource(source: Option<nat>)
      modifies this
      ensures View() == Retire(old(View()), source)
    {
      if source.Some? {
        continuations := continuations - {source.value};
      }
    }

    /** Names a page's nodes in order; gives up at a parent nobody has named. */
    method NamePage(nodes: seq<Node>) returns (wires: Option<seq<WireNode>>)
      modifies this
      ensures (View(), wires) == NameNodes(old(View()), nodes)
    {
      var translated: seq<WireNode> := [];
      ghost var start := View();
      for i := 0 to |nodes|
        invariant (View(), Some(translated)) == NameNodes(start, nodes[..i])
      {
        var node := nodes[i];
        assert nodes[..i + 1][..i] == nodes[..i];
        var parent := None;
        if node.parent.Some? && node.parent.value in publicOf {
          parent := Some(Handle(generation, publicOf[node.parent.value]));
        }
        if node.parent.Some? && parent.None? {
          NameNodesStops(start, nodes, i + 1);
          return None;
        }
        var id := PublicId(node.id);
        translated := translated + [WireOf(node, Handle(generation, id), parent)];
      }
      assert nodes[..|nodes|] == nodes;
      wires := Some(translated);
    }

    method NameResults(nodes: seq<Node>) returns (wires: seq<WireNode>)
      modifies this
      ensures (View(), wires) == NameMatches(old(View()), nodes)
    {
      wires := [];
      ghost var start := View();
      for i := 0 to |nodes|
        invariant (View(), wires) == NameMatches(start, nodes[..i])
      {
        var node := nodes[i];
        assert nodes[..i + 1][..i] == nodes[..i];
        var parent := None;
        if node.parent.Some? && node.parent.value in publicOf {
          parent := Some(Handle(generation, publicOf[node.parent.value]));
        }
        var id := PublicId(node.id);
        wires := wires + [WireOf(node, Handle(generation, id), parent)];
      }
      assert nodes[..|nodes|] == nodes;
    }

    /** Completes a tree page: checks it, names its nodes and moves the cursor on. */
    method FinishTree(generation: nat, request: ProjectionRequest, source: Option<nat>, m: Match)
      returns (outcome: Outcome)
      modifies this
      ensures (View(), outcome) == CompleteTree(old(View()), generation, request, source, m)
      ensures var next := if m.next.Some? then Some(TreeCursor(request.root, m.next.value, request.maxDepth)) else None;
              CursorsMove(old(View()), View(), generation, source, next, m.root.id, outcome)
    {
      hide ValidProjection, NameNodes, CursorsMove;
      TreeMovesCursors(View(), generation, request, source, m);
      if this.generation != generation {
        return Refused(StaleTree(this.generation));
      }
      if this.root != m.root.id {
        var next := SaturatingNext(this.generation);
        Reset(next, m.root.id);
        return Refused(StaleTree(next));
      }
      var valid := CheckProjection(request, m);
      if !valid || request.root !in publicOf {
        return Refused(Unavailable);
      }
      var handle := Handle(this.generation, publicOf[request.root]);
      var wires := NamePage(m.nodes);
      if wires.None? {
        return Refused(Unavailable);
      }
      RetireSource(source);
      var continuation := None;
      if m.next.Some? {
        var issued := IssueContinuation(TreeCursor(request.root, m.next.value, request.maxDepth));
        continuation := Some(issued);
      }
      outcome := TreePageReply(this.generation, handle, wires.value, continuation);
    }

    /** Completes a search page. */
    method FinishSearch(fold: Text -> Text, generation: nat, request: SearchRequest, source: Option<nat>, m: Match)
      returns (outcome: Outcome)
      modifies this
      ensures (View(), outcome) == CompleteSearch(fold, old(View()), generation, request, source, m)
      ensures var next := if m.next.Some? then Some(SearchCursor(m.next.value, request.query)) else None;
              CursorsMove(old(View()), View(), generation, source, next, m.root.id, outcome)
    {
      hide Matches, ValidSearch, NameMatches, CursorsMove;
      SearchMovesCursors(fold, View(), generation, request, source, m);
      if this.generation != generation {
        return Refused(StaleTree(this.generation));
      }
      if this.root != m.root.id {
        var next := SaturatingNext(this.generation);
        Reset(next, m.root.id);
        return Refused(StaleTree(next));
      }
      if !ValidSearch(fold, request, m) {
        return Refused(Unavailable);
      }
      var wires := NameResults(m.nodes);
      RetireSource(source);
      var continuation := None;
      if m.next.Some? {
        var issued := IssueContinuation(SearchCursor(m.next.value, request.query));
        continuation := Some(issued);
      }
      outcome := MatchesReply(this.generation, wires, continuation);
    }
  }

  lemma {:induction false} NameNodesStops(t: Tree, nodes: seq<Node>, i: nat)
    requires i <= |nodes| && NameNodes(t, nodes[..i]).1.None?
    ensures NameNodes(t, nodes) == NameNodes(t, nodes[..i])
    decreases |nodes|
  {
    if i == |nodes| {
      assert nodes[..i] == nodes;
    } else {
      var front := nodes[..|nodes| - 1];
      assert front[..i] == nodes[..i];
      NameNodesStops(t, front, i);
    }
  }

  lemma StepsMeans(nodes: seq<Node>, i: nat, offset: nat, maxDepth: nat)
    requires i < |nodes|
    ensures Steps(nodes, i, offset, maxDepth) <==>
              && nodes[i].depth <= maxDepth
              && ((offset == 0 && i == 0) || (nodes[i].parent.Some? && nodes[i].depth != 0))
              && !(nodes[i].parent.Some? && nodes[i].parent.value in DepthsOf(nodes[..i])
                   && DepthsOf(nodes[..i])[nodes[i].parent.value] + 1 != nodes[i].depth)
  {
  }

  /** The helper-page check as the manager runs it, filling a map of depths as it goes. */
  method CheckProjection(request: ProjectionRequest, m: Match) returns (valid: bool)
    ensures valid == ValidProjection(request, m)
  {
    hide Steps;
    if m.nodes == [] || |m.nodes| > request.maxNodes {
      return false;
    }
    if |m.nodes| > U16_MAX || request.offset + |m.nodes| > U16_MAX {
      return false;
    }
    var expected := request.offset + |m.nodes|;
    if expected > MAX_SEMANTIC_SCAN_NODES
      || (m.next.Some? && (m.next.value != expected || |m.nodes| != request.maxNodes))
      || (request.offset == 0
          && !(m.nodes[0].id == request.root && m.nodes[0].parent.None? && m.nodes[0].depth == 0))
    {
      return false;
    }
    var depths: map<Id, nat> := map[];
    for i := 0 to |m.nodes|
      invariant depths == DepthsOf(m.nodes[..i])
      invariant forall k :: 0 <= k < i ==> Steps(m.nodes, k, request.offset, request.maxDepth)
    {
      var node := m.nodes[i];
      var steps := node.depth <= request.maxDepth
        && ((request.offset == 0 && i == 0) || (node.parent.Some? && node.depth != 0))
        && !(node.parent.Some? && node.parent.value in depths && depths[node.parent.value] + 1 != node.depth);
      StepsMeans(m.nodes, i, request.offset, request.maxDepth);
      if !steps {
        return false;
      }
      assert m.nodes[..i + 1][..i] == m.nodes[..i];
      depths := depths[node.id := node.depth];
    }
    valid := true;
  }

  /** The parse-time check of a node list, collecting the identities already seen. */
  method CheckNodes(nodes: seq<Node>) returns (valid: bool)
    ensures valid == ValidNodes(nodes)
  {
    if |nodes| > MAX_SEMANTIC_NODES {
      return false;
    }
    var ids: set<Id> := {};
    for i := 0 to |nodes|
      invariant forall id :: id in ids <==> exists k :: 0 <= k < i && nodes[k].id == id
      invariant forall k :: 0 <= k < i ==> ValidNode(nodes[k])
      invariant DistinctIds(nodes[..i])
    {
      if !ValidNode(nodes[i]) {
        return false;
      }
      if nodes[i].id in ids {
        var k :| 0 <= k < i && nodes[k].id == nodes[i].id;
        return false;
      }
      ids := ids + {nodes[i].id};
      assert forall k :: 0 <= k < i ==> nodes[..i + 1][k] == nodes[k];
    }
    assert nodes[..|nodes|] == nodes;
    valid := true;
  }

  /** Session-local identities and continuations for every client a session has inspected. */
  class SemanticState {
    var trees: map<Key, LiveTree>

    ghost predicate Valid()
      reads this
    {
      forall a, b :: a in trees && b in trees && a != b ==> trees[a] != trees[b]
    }

    ghost function View(): Trees
      reads this, trees.Values
    {
      map key | key in trees :: trees[key].View()
    }

    constructor ()
      ensures Valid() && trees == map[] && View() == map[]
    {
      trees := map[];
    }

    /** Checks a call against what earlier pages issued; changes nothing. */
    method Prepare(key: Key, call: Call) returns (r: Result2<Kind>)
      requires Valid()
      ensures r == PrepareOn(Lookup(View(), key), call)
    {
      match call {
        case RootCall => r := Good(RootKind);
        case OtherCall => r := Bad(InvalidArgument);
        case TreeCall(root, continuation, maxNodes, maxDepth) =>
          if key !in trees {
            return Bad(Unavailable);
          }
          var tree := trees[key];
          var internal, offset, depth := tree.root, 0, maxDepth;
          if continuation.Some? {
            if continuation.value !in tree.continuations || !tree.continuations[continuation.value].TreeCursor? {
              return Bad(StaleTree(tree.generation));
            }
            var cursor := tree.continuations[continuation.value];
            internal, offset, depth := cursor.root, cursor.offset, cursor.maxDepth;
          } else if root.Some? {
            if root.value.tree != tree.generation || root.value.node !in tree.internalOf {
              return Bad(StaleTree(tree.generation));
            }
            internal := tree.internalOf[root.value.node];
          }
          r := Good(TreeKind(tree.generation, ProjectionRequest(internal, offset, maxNodes, depth), continuation));
        case FindCall(query, continuation, maxResults) =>
          if key !in trees {
            return Bad(Unavailable);
          }
          var tree := trees[key];
          var offset, asked := 0, query;
          if continuation.Some? {
            if continuation.value !in tree.continuations || !tree.continuations[continuation.value].SearchCursor? {
              return Bad(StaleTree(tree.generation));
            }
            offset, asked := tree.continuations[continuation.value].offset, tree.continuations[continuation.value].query;
          }
          r := Good(SearchKind(tree.generation, SearchRequest(offset, maxResults, asked), continuation));
      }
    }

    /** Revalidates and translates one matched helper result. */
    method Finish(fold: Text -> Text, key: Key, kind: Kind, m: Match) returns (outcome: Outcome)
      requires Valid()
      modifies this, trees.Values
      ensures Valid() && fresh(trees.Values - old(trees.Values))
      ensures View() == Apply(fold, old(View()), Complete(key, kind, m))
      ensures outcome == CompleteOn(fold, Lookup(old(View()), key), kind, m).1
    {
      hide CompleteTree, CompleteSearch;
      if kind.RootKind? {
        outcome := FinishRoot(key, m);
      } else if key !in trees {
        outcome := Refused(Unavailable);
      } else {
        outcome := FinishPage(fold, key, kind, m);
      }
    }

    /** Roots the tree anew, one generation later if there was one. */
    method FinishRoot(key: Key, m: Match) returns (outcome: Outcome)
      requires Valid()
      modifies this
      ensures Valid() && fresh(trees.Values - old(trees.Values))
      ensures View() == Store(old(View()), key, CompleteRoot(Lookup(old(View()), key), m).0)
      ensures outcome == CompleteRoot(Lookup(old(View()), key), m).1
    {
      if m.nodes != [] || m.next.Some? {
        return Refused(Unavailable);
      }
      var generation := 1;
      if key in trees {
        generation := SaturatingNext(trees[key].generation);
      }
      var tree := new LiveTree(generation, m.root.id);
      trees := trees[key := tree];
      ghost var rooted := NewTree(generation, m.root.id);
      assert tree.View() == rooted;
      hide NewTree;
      assert View() == old(View())[key := rooted];
      var root := WireNode(Handle(generation, 1), None, 0, m.root.role, m.root.name, m.root.states,
                           Some(m.root.bounds), m.root.childCount);
      outcome := TreePageReply(generation, Handle(generation, 1), [root], None);
    }

    method FinishPage(fold: Text -> Text, key: Key, kind: Kind, m: Match) returns (outcome: Outcome)
      requires Valid() && key in trees && !kind.RootKind?
      modifies trees[key]
      ensures View() == Store(old(View()), key, CompleteOn(fold, Some(old(View()[key])), kind, m).0)
      ensures outcome == CompleteOn(fold, Some(old(View()[key])), kind, m).1
    {
      hide CompleteTree, CompleteSearch;
      var tree := trees[key];
      match kind {
        case TreeKind(generation, request, source) =>
          outcome := tree.FinishTree(generation, request, source, m);
        case SearchKind(generation, request, source) =>
          outcome := tree.FinishSearch(fold, generation, request, source, m);
      }
      assert View() == old(View())[key := tree.View()];
    }

    method Forget(client: nat)
      requires Valid()
      modifies this
      ensures Valid() && View() == Apply(x => x, old(View()), ForgetClient(client))
    {
      trees := map key | key in trees && key.client != client :: trees[key];
    }

    method ForgetAll(session: nat)
      requires Valid()
      modifies this
      ensures Valid() && View() == Apply(x => x, old(View()), ForgetSession(session))
    {
      trees := map key | key in trees && key.session != session :: trees[key];
    }
  }
}
