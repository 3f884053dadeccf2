/**
 What the manager remembers about one client's semantic tree: opaque node ids, cursors, generations,
 and the checks it repeats on every page a helper returns. Everything here is a value; the classes of
 module ManagerState carry it.
 */
module SemanticTree {
  import opened Basics
  import opened ObjectGraph
  import opened Projection

  const MAX_SEMANTIC_NODES: nat := 128
  const MAX_SEMANTIC_SCAN_NODES: nat := 4096
  const MAX_SEMANTIC_DEPTH: nat := 16
  const MAX_SEMANTIC_NAME_LEN: nat := 512
  const MAX_SEMANTIC_QUERY_LEN: nat := 256
  const MAX_SEMANTIC_FILTER_ITEMS: nat := 16
  const MAX_CONTINUATIONS: nat := 64

  datatype Handle = Handle(tree: nat, node: nat)

  datatype Call =
    | RootCall
    | TreeCall(root: Option<Handle>, continuation: Option<nat>, maxNodes: nat, maxDepth: nat)
    | FindCall(query: Query, continuation: Option<nat>, maxResults: nat)
    | OtherCall

  datatype Cursor = TreeCursor(root: Id, offset: nat, maxDepth: nat) | SearchCursor(offset: nat, query: Query)

  datatype Kind =
    | RootKind
    | TreeKind(generation: nat, projection: ProjectionRequest, source: Option<nat>)
    | SearchKind(generation: nat, search: SearchRequest, source: Option<nat>)

  datatype Root = Root(id: Id, role: nat, name: Option<Text>, states: seq<NodeState>, bounds: Rect, childCount: nat)
  datatype Match = Match(root: Root, nodes: seq<Node>, next: Option<nat>)

  datatype WireNode = WireNode(handle: Handle, parent: Option<Handle>, depth: nat, role: nat, name: Option<Text>,
                               states: seq<NodeState>, bounds: Option<Rect>, childCount: nat)

  datatype Error = Unavailable | StaleTree(generation: nat) | InvalidArgument

  datatype Outcome =
    | TreePageReply(generation: nat, root: Handle, nodes: seq<WireNode>, continuation: Option<nat>)
    | MatchesReply(generation: nat, matches: seq<WireNode>, continuation: Option<nat>)
    | Refused(error: Error)

  datatype Tree = Tree(
    generation: nat,
    root: Id,
    publicOf: map<Id, nat>,
    internalOf: map<nat, Id>,
    nextNode: nat,
    continuations: map<nat, Cursor>,
    nextContinuation: nat)

  // ------------------------------------------------- checks on a page

  predicate BoundedNameLength(name: Option<Text>)
  {
    name.Some? ==> |name.value| <= MAX_SEMANTIC_NAME_LEN
  }

  predicate ValidRoot(root: Root)
  {
    && root.id != 0
    && BoundedNameLength(root.name)
    && OrderedStates(root.states)
    && root.bounds.width > 0 && root.bounds.height > 0
  }

  predicate ValidNode(node: Node)
  {
    && node.id != 0
    && node.parent != Some(node.id)
    && node.depth <= MAX_SEMANTIC_DEPTH
    && BoundedNameLength(node.name)
    && OrderedStates(node.states)
    && (node.bounds.Some? ==> node.bounds.value.width > 0 && node.bounds.value.height > 0)
  }

  predicate DistinctIds(nodes: seq<Node>)
  {
    forall i, j :: 0 <= i < j < |nodes| ==> nodes[i].id != nodes[j].id
  }

  predicate ValidNodes(nodes: seq<Node>)
  {
    && |nodes| <= MAX_SEMANTIC_NODES
    && (forall i :: 0 <= i < |nodes| ==> ValidNode(nodes[i]))
    && DistinctIds(nodes)
  }

  /** Whether a decoded helper answer survives translation. */
  predicate ParseAccepts(m: Match)
  {
    && ValidRoot(m.root)
    && ValidNodes(m.nodes)
    && (m.next.Some? ==> 1 <= m.next.value <= MAX_SEMANTIC_SCAN_NODES)
  }

  /** The depth recorded last for each identity. */
  function DepthsOf(nodes: seq<Node>): (depths: map<Id, nat>)
    ensures forall id :: id in depths <==> exists i :: 0 <= i < |nodes| && nodes[i].id == id
  {
    if nodes == [] then map[]
    else
      var last := |nodes| - 1;
      DepthsOf(nodes[..last])[nodes[last].id := nodes[last].depth]
  }

  /** One node against the page so far: within the bound, below a parent exactly one level up. */
  predicate Steps(nodes: seq<Node>, i: nat, offset: nat, maxDepth: nat)
    requires i < |nodes|
  {
    var node := nodes[i];
    var depths := DepthsOf(nodes[..i]);
    && node.depth <= maxDepth
    && (offset > 0 || i > 0 ==> node.parent.Some? && node.depth > 0)
    && (node.parent.Some? && node.parent.value in depths ==> node.depth == depths[node.parent.value] + 1)
  }

  predicate ValidProjection(request: ProjectionRequest, m: Match)
  {
    var next := request.offset + |m.nodes|;
    && 0 < |m.nodes| <= request.maxNodes
    && |m.nodes| <= U16_MAX
    && next <= MAX_SEMANTIC_SCAN_NODES
    && (m.next.Some? ==> m.next.value == next && |m.nodes| == request.maxNodes)
    && (request.offset == 0 ==> m.nodes[0].id == request.root && m.nodes[0].parent.None? && m.nodes[0].depth == 0)
    && (forall i :: 0 <= i < |m.nodes| ==> Steps(m.nodes, i, request.offset, request.maxDepth))
  }

  predicate ValidSearch(fold: Text -> Text, request: SearchRequest, m: Match)
  {
    && |m.nodes| <= request.maxResults
    && (m.next.Some? ==> request.offset < m.next.value <= MAX_SEMANTIC_SCAN_NODES && |m.nodes| == request.maxResults)
    && (forall node :: node in m.nodes ==> Matches(fold, request.query, node))
  }

  // ------------------------------------------------- identities and cursors

  function NewTree(generation: nat, root: Id): (t: Tree)
    ensures WellFormed(t)
  {
    Tree(generation, root, map[root := 1], map[1 := root], 2, map[], 1)
  }

  function WithPublic(t: Tree, internal: Id): (t': Tree)
    ensures internal in t'.publicOf
  {
    if internal in t.publicOf then t
    else t.(publicOf := t.publicOf[internal := t.nextNode],
            internalOf := t.internalOf[t.nextNode := internal],
            nextNode := SaturatingNext(t.nextNode))
  }

  /** The smallest key, which is where an ordered map's iteration starts. */
  function Oldest(keys: set<nat>): (oldest: nat)
    requires keys != {}
    ensures oldest in keys && forall k :: k in keys ==> oldest <= k
  {
    HasOldest(keys);
    var oldest :| oldest in keys && forall k :: k in keys ==> oldest <= k;
    oldest
  }

  lemma HasOldest(keys: set<nat>)
    requires keys != {}
    ensures exists oldest :: oldest in keys && forall k :: k in keys ==> oldest <= k
  {
    var k :| k in keys;
    OldestUpTo(keys, k);
  }

  lemma {:induction false} OldestUpTo(keys: set<nat>, key: nat)
    requires key in keys
    ensures exists oldest :: oldest in keys && forall k :: k in keys ==> oldest <= k
    decreases key
  {
    if k :| k in keys && k < key {
      OldestUpTo(keys, k);
    }
  }

  /** Evicts the oldest cursor when 64 are live, and starts over at the numeric bound. */
  function MakeRoom(t: Tree): (t': Tree)
  {
    if t.nextContinuation == U64_MAX then t.(continuations := map[], nextContinuation := 1)
    else if |t.continuations| >= MAX_CONTINUATIONS
    then t.(continuations := t.continuations - {Oldest(t.continuations.Keys)})
    else t
  }

  function Issue(t: Tree, cursor: Cursor): (issued: (Tree, nat))
  {
    var room := MakeRoom(t);
    (room.(continuations := room.continuations[room.nextContinuation := cursor],
           nextContinuation := SaturatingNext(room.nextContinuation)),
     room.nextContinuation)
  }

  function Retire(t: Tree, source: Option<nat>): (t': Tree)
  {
    if source.Some? then t.(continuations := t.continuations - {source.value}) else t
  }

  function HandleOf(t: Tree, internal: Id): (handle: Option<Handle>)
  {
    if internal in t.publicOf then Some(Handle(t.generation, t.publicOf[internal])) else None
  }

  function ParentHandle(t: Tree, parent: Option<Id>): (handle: Option<Handle>)
  {
    if parent.Some? then HandleOf(t, parent.value) else None
  }

  function WireOf(node: Node, handle: Handle, parent: Option<Handle>): (wire: WireNode)
  {
    WireNode(handle, parent, node.depth, node.role, node.name, node.states, node.bounds, node.childCount)
  }

  /** Translates a node that the tree already names. */
  function Translate(t: Tree, node: Node, parent: Option<Handle>): (wire: WireNode)
    requires node.id in t.publicOf
  {
    WireOf(node, Handle(t.generation, t.publicOf[node.id]), parent)
  }

  /**
   Names and translates the nodes of a tree page in order. A parent nobody has named stops the page,
   and what was named before it stays named.
   */
  function NameNodes(t: Tree, nodes: seq<Node>): (named: (Tree, Option<seq<WireNode>>))
    decreases |nodes|
  {
    if nodes == [] then (t, Some([]))
    else
      var last := |nodes| - 1;
      var (before, wires) := NameNodes(t, nodes[..last]);
      var parent := ParentHandle(before, nodes[last].parent);
      if wires.None? || (nodes[last].parent.Some? && parent.None?) then (before, None)
      else
        var after := WithPublic(before, nodes[last].id);
        (after, Some(wires.value + [Translate(after, nodes[last], parent)]))
  }

  /** Names and translates search results; a match's parent may stay unnamed. */
  function NameMatches(t: Tree, nodes: seq<Node>): (named: (Tree, seq<WireNode>))
    decreases |nodes|
  {
    if nodes == [] then (t, [])
    else
      var last := |nodes| - 1;
      var (before, wires) := NameMatches(t, nodes[..last]);
      var after := WithPublic(before, nodes[last].id);
      (after, wires + [Translate(after, nodes[last], ParentHandle(before, nodes[last].parent))])
  }

  // ------------------------------------------------- one call on one tree

  /** The helper request a call turns into, given the tree it names. */
  function PrepareOn(t: Option<Tree>, call: Call): (r: Result2<Kind>)
  {
    match call
    case RootCall => Good(RootKind)
    case OtherCall => Bad(InvalidArgument)
    case TreeCall(root, continuation, maxNodes, maxDepth) =>
      if t.None? then Bad(Unavailable)
      else
        var tree := t.value;
        if continuation.Some? then
          var key := continuation.value;
          if key !in tree.continuations || !tree.continuations[key].TreeCursor? then Bad(StaleTree(tree.generation))
          else
            var cursor := tree.continuations[key];
            Good(TreeKind(tree.generation, ProjectionRequest(cursor.root, cursor.offset, maxNodes, cursor.maxDepth),
                          Some(key)))
        else if root.Some? then
          if root.value.tree != tree.generation || root.value.node !in tree.internalOf then Bad(StaleTree(tree.generation))
          else Good(TreeKind(tree.generation,
                             ProjectionRequest(tree.internalOf[root.value.node], 0, maxNodes, maxDepth), None))
        else Good(TreeKind(tree.generation, ProjectionRequest(tree.root, 0, maxNodes, maxDepth), None))
    case FindCall(query, continuation, maxResults) =>
      if t.None? then Bad(Unavailable)
      else
        var tree := t.value;
        if continuation.Some? then
          var key := continuation.value;
          if key !in tree.continuations || !tree.continuations[key].SearchCursor? then Bad(StaleTree(tree.generation))
          else
            var cursor := tree.continuations[key];
            Good(SearchKind(tree.generation, SearchRequest(cursor.offset, maxResults, cursor.query), Some(key)))
        else Good(SearchKind(tree.generation, SearchRequest(0, maxResults, query), None))
  }

  datatype Result2<+T> = Good(value: T) | Bad(error: Error)

  function TreeNext(request: ProjectionRequest, next: Option<nat>): (cursor: Option<Cursor>)
  {
    if next.None? then None else Some(TreeCursor(request.root, next.value, request.maxDepth))
  }

  function SearchNext(request: SearchRequest, next: Option<nat>): (cursor: Option<Cursor>)
  {
    if next.None? then None else Some(SearchCursor(next.value, request.query))
  }

  function IssueNext(t: Tree, cursor: Option<Cursor>): (issued: (Tree, Option<nat>))
  {
    if cursor.None? then (t, None)
    else
      var (t', key) := Issue(t, cursor.value);
      (t', Some(key))
  }

  function CompleteRoot(t: Option<Tree>, m: Match): (done: (Option<Tree>, Outcome))
  {
    if m.nodes != [] || m.next.Some? then (t, Refused(Unavailable))
    else
      var generation := if t.None? then 1 else SaturatingNext(t.value.generation);
      var handle := Handle(generation, 1);
      var root := m.root;
      (Some(NewTree(generation, root.id)),
       TreePageReply(generation, handle,
                     [WireNode(handle, None, 0, root.role, root.name, root.states, Some(root.bounds), root.childCount)],
                     None))
  }

  /** A refreshed root invalidates everything the old tree issued. */
  function Refresh(t: Tree, m: Match): (done: (Tree, Outcome))
  {
    var generation := SaturatingNext(t.generation);
    (NewTree(generation, m.root.id), Refused(StaleTree(generation)))
  }

  function CompleteTree(t: Tree, generation: nat, request: ProjectionRequest, source: Option<nat>, m: Match)
    : (done: (Tree, Outcome))
  {
    if t.generation != generation then (t, Refused(StaleTree(t.generation)))
    else if t.root != m.root.id then Refresh(t, m)
    else if !ValidProjection(request, m) || request.root !in t.publicOf then (t, Refused(Unavailable))
    else
      var root := Handle(t.generation, t.publicOf[request.root]);
      var (named, wires) := NameNodes(t, m.nodes);
      if wires.None? then (named, Refused(Unavailable))
      else
        var (t', key) := IssueNext(Retire(named, source), TreeNext(request, m.next));
        (t', TreePageReply(t'.generation, root, wires.value, key))
  }

  function CompleteSearch(fold: Text -> Text, t: Tree, generation: nat, request: SearchRequest, source: Option<nat>,
                          m: Match): (done: (Tree, Outcome))
  {
    if t.generation != generation then (t, Refused(StaleTree(t.generation)))
    else if t.root != m.root.id then Refresh(t, m)
    else if !ValidSearch(fold, request, m) then (t, Refused(Unavailable))
    else
      var (named, wires) := NameMatches(t, m.nodes);
      var (t', key) := IssueNext(Retire(named, source), SearchNext(request, m.next));
      (t', MatchesReply(t'.generation, wires, key))
  }

  /** The tree and the answer after a helper's match for an earlier request. */
  function CompleteOn(fold: Text -> Text, t: Option<Tree>, kind: Kind, m: Match): (done: (Option<Tree>, Outcome))
  {
    match kind
    case RootKind => CompleteRoot(t, m)
    case TreeKind(generation, request, source) =>
      if t.None? then (None, Refused(Unavailable))
      else
        var (t', outcome) := CompleteTree(t.value, generation, request, source, m);
        (Some(t'), outcome)
    case SearchKind(generation, request, source) =>
      if t.None? then (None, Refused(Unavailable))
      else
        var (t', outcome) := CompleteSearch(fold, t.value, generation, request, source, m);
        (Some(t'), outcome)
  }

  // ------------------------------------------------- what every tree keeps

  ghost predicate Inverse(t: Tree)
  {
    && (forall id :: id in t.publicOf ==> t.publicOf[id] in t.internalOf && t.internalOf[t.publicOf[id]] == id)
    && (forall n :: n in t.internalOf ==> t.internalOf[n] in t.publicOf && t.publicOf[t.internalOf[n]] == n)
  }

  /** The id maps are mutually inverse over exactly 1 .. nextNode, cursors are bounded and already issued. */
  ghost predicate WellFormed(t: Tree)
  {
    && Inverse(t)
    && t.root in t.publicOf && t.publicOf[t.root] == 1
    && (forall n :: n in t.internalOf <==> 1 <= n < t.nextNode)
    && |t.continuations| <= MAX_CONTINUATIONS
    && 1 <= t.nextContinuation
    && (forall key :: key in t.continuations ==> 1 <= key < t.nextContinuation)
  }

  /** Room before a 64-bit counter stops moving. */
  ghost predicate Roomy(t: Tree, nodes: nat)
  {
    && t.nextNode + nodes < U64_MAX
    && t.nextContinuation < U64_MAX
    && t.generation < U64_MAX
  }

  /** Later values of one generation keep every name and never bring a cursor back changed. */
  ghost predicate Extends(older: Tree, newer: Tree)
  {
    && newer.generation == older.generation
    && newer.root == older.root
    && (forall n :: n in older.internalOf ==> n in newer.internalOf && newer.internalOf[n] == older.internalOf[n])
    && newer.nextContinuation >= older.nextContinuation
    && (forall key :: key in newer.continuations && key < older.nextContinuation ==>
          key in older.continuations && newer.continuations[key] == older.continuations[key])
  }

  lemma WithPublicKeeps(t: Tree, internal: Id)
    requires WellFormed(t) && t.nextNode < U64_MAX
    ensures WellFormed(WithPublic(t, internal)) && Extends(t, WithPublic(t, internal))
    ensures WithPublic(t, internal).nextNode <= t.nextNode + 1
    ensures WithPublic(t, internal).(publicOf := t.publicOf, internalOf := t.internalOf, nextNode := t.nextNode) == t
  {
  }

  lemma ExtendsTransitive(a: Tree, b: Tree, c: Tree)
    requires Extends(a, b) && Extends(b, c)
    ensures Extends(a, c)
  {
  }

  /** Naming touches only the id maps. */
  ghost predicate OnlyNames(t: Tree, t': Tree)
  {
    t'.(publicOf := t.publicOf, internalOf := t.internalOf, nextNode := t.nextNode) == t
  }

  lemma {:induction false} NameNodesKeeps(t: Tree, nodes: seq<Node>)
    requires WellFormed(t) && t.nextNode + |nodes| < U64_MAX
    ensures var t' := NameNodes(t, nodes).0;
            WellFormed(t') && Extends(t, t') && OnlyNames(t, t') && t'.nextNode <= t.nextNode + |nodes|
    decreases |nodes|
  {
    if nodes != [] {
      var last := |nodes| - 1;
      NameNodesKeeps(t, nodes[..last]);
      var before := NameNodes(t, nodes[..last]).0;
      WithPublicKeeps(before, nodes[last].id);
      ExtendsTransitive(t, before, WithPublic(before, nodes[last].id));
    }
  }

  lemma {:induction false} NameMatchesKeeps(t: Tree, nodes: seq<Node>)
    requires WellFormed(t) && t.nextNode + |nodes| < U64_MAX
    ensures var t' := NameMatches(t, nodes).0;
            WellFormed(t') && Extends(t, t') && OnlyNames(t, t') && t'.nextNode <= t.nextNode + |nodes|
    decreases |nodes|
  {
    if nodes != [] {
      var last := |nodes| - 1;
      NameMatchesKeeps(t, nodes[..last]);
      var before := NameMatches(t, nodes[..last]).0;
      WithPublicKeeps(before, nodes[last].id);
      ExtendsTransitive(t, before, WithPublic(before, nodes[last].id));
    }
  }

  /** Issuing evicts nothing below 64 live cursors and exactly the oldest at 64; the new key is fresh. */
  lemma IssueKeeps(t: Tree, cursor: Cursor)
    requires WellFormed(t) && t.nextContinuation < U64_MAX
    ensures var (t', key) := Issue(t, cursor);
            && WellFormed(t') && Extends(t, t')
            && key == t.nextContinuation && key !in t.continuations
            && t'.continuations == (if |t.continuations| == MAX_CONTINUATIONS
                                    then (t.continuations - {Oldest(t.continuations.Keys)})[key := cursor]
                                    else t.continuations[key := cursor])
            && t'.(continuations := t.continuations, nextContinuation := t.nextContinuation) == t
  {
    var (t', key) := Issue(t, cursor);
    if |t.continuations| == MAX_CONTINUATIONS {
      var kept := t.continuations - {Oldest(t.continuations.Keys)};
      assert kept.Keys == t.continuations.Keys - {Oldest(t.continuations.Keys)};
      assert |kept| == |kept.Keys| == |t.continuations.Keys| - 1;
      assert t'.continuations.Keys == kept.Keys + {key};
      assert |t'.continuations| == |t'.continuations.Keys|;
    } else {
      assert t'.continuations.Keys == t.continuations.Keys + {key};
      assert |t'.continuations| == |t'.continuations.Keys| == |t.continuations.Keys| + 1;
    }
  }

  lemma RetireKeeps(t: Tree, source: Option<nat>)
    requires WellFormed(t)
    ensures WellFormed(Retire(t, source)) && Extends(t, Retire(t, source))
    ensures forall k :: k in Retire(t, source).continuations <==> k in t.continuations && source != Some(k)
  {
    var t' := Retire(t, source);
    assert t'.continuations.Keys <= t.continuations.Keys;
    SubsetSize(t'.continuations.Keys, t.continuations.Keys);
    assert |t'.continuations| == |t'.continuations.Keys| && |t.continuations| == |t.continuations.Keys|;
  }

  lemma {:induction false} SubsetSize(small: set<nat>, large: set<nat>)
    requires small <= large
    ensures |small| <= |large|
  {
    if small != {} {
      var k :| k in small;
      SubsetSize(small - {k}, large - {k});
    }
  }

  // -------------------------------------------- what a page does to the cursors

  /** The cursors that are live once a call's own is gone. */
  ghost function Spared(t: Tree, source: Option<nat>): (keys: set<nat>)
    ensures forall k :: k in keys <==> k in t.continuations && source != Some(k)
  {
    set k | k in t.continuations && source != Some(k)
  }

  /** The oldest of 64 that would stay live, which makes room for the next. */
  ghost predicate GivesWay(t: Tree, source: Option<nat>, key: nat)
  {
    |Spared(t, source)| == 64 && key in Spared(t, source) && forall k :: k in Spared(t, source) ==> key <= k
  }

  /**
   An answered page uses up its own cursor and no other, except that a next cursor pushes out the oldest of
   64; the next cursor is live under a number never used before.
   */
  ghost predicate MovesOn(t: Tree, t': Tree, source: Option<nat>, next: Option<Cursor>, issued: Option<nat>)
  {
    && t'.generation == t.generation && t'.root == t.root
    && (issued == if next.Some? then Some(t.nextContinuation) else None)
    && t'.nextContinuation == (if next.Some? then t.nextContinuation + 1 else t.nextContinuation)
    && (forall k :: k in t'.continuations <==>
          issued == Some(k) || (k in Spared(t, source) && !(next.Some? && GivesWay(t, source, k))))
    && (forall k :: k in t'.continuations && issued != Some(k) ==> t'.continuations[k] == t.continuations[k])
    && (next.Some? ==> t'.continuations[t.nextContinuation] == next.value)
  }

  lemma {:induction false} NamingLeavesCursors(t: Tree, nodes: seq<Node>)
    ensures OnlyNames(t, NameNodes(t, nodes).0) && OnlyNames(t, NameMatches(t, nodes).0)
    decreases |nodes|
  {
    if nodes != [] {
      NamingLeavesCursors(t, nodes[..|nodes| - 1]);
    }
  }

  /** Issuing beside live cursors, whatever the tree names. */
  lemma IssuedCursors(t: Tree, cursor: Cursor)
    requires t.nextContinuation < U64_MAX && |t.continuations| <= MAX_CONTINUATIONS
    ensures var (t', key) := Issue(t, cursor);
            && key == t.nextContinuation && t'.nextContinuation == t.nextContinuation + 1
            && t'.generation == t.generation && t'.root == t.root
            && t'.continuations == (if |t.continuations| == 64 then t.continuations - {Oldest(t.continuations.Keys)}
                                    else t.continuations)[key := cursor]
  {
  }

  lemma SparedIsRetired(t: Tree, named: Tree, source: Option<nat>)
    requires WellFormed(t) && OnlyNames(t, named)
    ensures var retired := Retire(named, source);
            && OnlyNames(t.(continuations := retired.continuations), retired)
            && retired.continuations.Keys == Spared(t, source)
            && |retired.continuations| == |Spared(t, source)| <= MAX_CONTINUATIONS
            && (forall k :: k in retired.continuations ==>
                  retired.continuations[k] == t.continuations[k] && k < t.nextContinuation)
  {
    hide Inverse;
    var retired := Retire(named, source);
    assert retired.continuations.Keys == Spared(t, source);
    assert |retired.continuations| == |retired.continuations.Keys|;
    SubsetSize(Spared(t, source), t.continuations.Keys);
    assert |t.continuations| == |t.continuations.Keys|;
  }

  lemma RetiringAndIssuingMovesOn(t: Tree, named: Tree, source: Option<nat>, next: Option<Cursor>)
    requires WellFormed(t) && t.nextContinuation < U64_MAX && OnlyNames(t, named)
    ensures var (t', issued) := IssueNext(Retire(named, source), next); MovesOn(t, t', source, next, issued)
  {
    hide Retire, Spared, Issue, WellFormed, GivesWay;
    SparedIsRetired(t, named, source);
    if next.Some? {
      IssuedCursors(Retire(named, source), next.value);
      if |Spared(t, source)| == 64 {
        OldestGivesWay(t, source);
      } else {
        assert forall k :: !GivesWay(t, source, k) by {
          NobodyGivesWay(t, source);
        }
      }
    }
  }

  lemma NobodyGivesWay(t: Tree, source: Option<nat>)
    requires |Spared(t, source)| != 64
    ensures forall k :: !GivesWay(t, source, k)
  {
  }

  lemma OldestGivesWay(t: Tree, source: Option<nat>)
    requires |Spared(t, source)| == 64
    ensures forall k :: GivesWay(t, source, k) <==> k == Oldest(Spared(t, source))
  {
    hide Spared;
    var oldest := Oldest(Spared(t, source));
    forall k ensures GivesWay(t, source, k) <==> k == oldest {
      assert GivesWay(t, source, k) ==> k <= oldest;
    }
  }

  /** An answered tree page moves on from its own cursor to the next. */
  lemma AnsweredTreeMovesOn(t: Tree, generation: nat, request: ProjectionRequest, source: Option<nat>, m: Match)
    requires WellFormed(t) && t.nextContinuation < U64_MAX
    ensures var (t', outcome) := CompleteTree(t, generation, request, source, m);
            var next := if m.next.Some? then Some(TreeCursor(request.root, m.next.value, request.maxDepth)) else None;
            !outcome.Refused? ==> MovesOn(t, t', source, next, outcome.continuation)
  {
    hide ValidProjection, NameNodes, IssueNext, Retire, MovesOn, WellFormed;
    NamingLeavesCursors(t, m.nodes);
    RetiringAndIssuingMovesOn(t, NameNodes(t, m.nodes).0, source, TreeNext(request, m.next));
  }

  lemma AnsweredSearchMovesOn(fold: Text -> Text, t: Tree, generation: nat, request: SearchRequest, source: Option<nat>,
                              m: Match)
    requires WellFormed(t) && t.nextContinuation < U64_MAX
    ensures var (t', outcome) := CompleteSearch(fold, t, generation, request, source, m);
            var next := if m.next.Some? then Some(SearchCursor(m.next.value, request.query)) else None;
            !outcome.Refused? ==> MovesOn(t, t', source, next, outcome.continuation)
  {
    hide ValidSearch, NameMatches, IssueNext, Retire, MovesOn, WellFormed;
    NamingLeavesCursors(t, m.nodes);
    RetiringAndIssuingMovesOn(t, NameMatches(t, m.nodes).0, source, SearchNext(request, m.next));
  }

  /** A refused page leaves every cursor alone, or starts the tree over one generation later. */
  ghost predicate RefusedOn(t: Tree, t': Tree, generation: nat, root: Id, error: Error)
  {
    if t.generation != generation then t' == t && error == StaleTree(t.generation)
    else if t.root != root then
      && error == StaleTree(t'.generation)
      && t'.generation == (if t.generation < U64_MAX then t.generation + 1 else t.generation)
      && t'.root == root && t'.publicOf == map[root := 1] && t'.internalOf == map[1 := root] && t'.nextNode == 2
      && t'.continuations == map[] && t'.nextContinuation == 1
    else
      error == Unavailable && t'.continuations == t.continuations && t'.nextContinuation == t.nextContinuation
  }

  lemma RefusedTreeKeepsCursors(t: Tree, generation: nat, request: ProjectionRequest, source: Option<nat>, m: Match)
    ensures var (t', outcome) := CompleteTree(t, generation, request, source, m);
            outcome.Refused? ==> RefusedOn(t, t', generation, m.root.id, outcome.error)
  {
    hide ValidProjection, NameNodes, IssueNext, Retire;
    NamingLeavesCursors(t, m.nodes);
  }

  lemma RefusedSearchKeepsCursors(fold: Text -> Text, t: Tree, generation: nat, request: SearchRequest,
                                  source: Option<nat>, m: Match)
    ensures var (t', outcome) := CompleteSearch(fold, t, generation, request, source, m);
            outcome.Refused? ==> RefusedOn(t, t', generation, m.root.id, outcome.error)
  {
    hide ValidSearch, NameMatches, IssueNext, Retire;
  }

  /** What completing a page does to the cursors, whether it is answered or refused. */
  ghost predicate CursorsMove(t: Tree, t': Tree, generation: nat, source: Option<nat>, next: Option<Cursor>, root: Id,
                              outcome: Outcome)
  {
    if outcome.Refused? then RefusedOn(t, t', generation, root, outcome.error)
    else WellFormed(t) && t.nextContinuation < U64_MAX ==> MovesOn(t, t', source, next, outcome.continuation)
  }

  lemma TreeMovesCursors(t: Tree, generation: nat, request: ProjectionRequest, source: Option<nat>, m: Match)
    ensures var (t', outcome) := CompleteTree(t, generation, request, source, m);
            var next := if m.next.Some? then Some(TreeCursor(request.root, m.next.value, request.maxDepth)) else None;
            CursorsMove(t, t', generation, source, next, m.root.id, outcome)
  {
    hide CompleteTree, RefusedOn, MovesOn, WellFormed;
    RefusedTreeKeepsCursors(t, generation, request, source, m);
    if WellFormed(t) && t.nextContinuation < U64_MAX {
      AnsweredTreeMovesOn(t, generation, request, source, m);
    }
  }

  lemma SearchMovesCursors(fold: Text -> Text, t: Tree, generation: nat, request: SearchRequest, source: Option<nat>,
                           m: Match)
    ensures var (t', outcome) := CompleteSearch(fold, t, generation, request, source, m);
            var next := if m.next.Some? then Some(SearchCursor(m.next.value, request.query)) else None;
            CursorsMove(t, t', generation, source, next, m.root.id, outcome)
  {
    hide CompleteSearch, RefusedOn, MovesOn, WellFormed;
    RefusedSearchKeepsCursors(fold, t, generation, request, source, m);
    if WellFormed(t) && t.nextContinuation < U64_MAX {
      AnsweredSearchMovesOn(fold, t, generation, request, source, m);
    }
  }
}
