/**
 Following continuations to the end: the invariant tying a manager's tree to an honest helper's walk,
 and the theorems that pages reassemble that walk whatever page sizes the agent asks for.
 */
module Reassembly {
  import opened Basics
  import opened ObjectGraph
  import opened Walk
  import opened Projection
  import opened RootCorrelation
  import opened SemanticTree
  import opened Pipeline

  // ------------------------------------------- trees fed by one helper

  /** A cursor points inside its walk, and everything before it has been named. */
  ghost predicate FaithfulCursor(h: Helper, t: Tree, cursor: Cursor)
  {
    match cursor
    case TreeCursor(root, offset, maxDepth) =>
      && root in t.publicOf
      && maxDepth <= MAX_PROJECTED_DEPTH
      && 0 < offset < |h.TreeTrace(root, maxDepth).visits|
      && Named(t, h.TreeTrace(root, maxDepth).visits[..offset])
    case SearchCursor(offset, query) => LegalQuery(query) && 0 < offset < |h.SearchTrace().visits|
  }

  ghost predicate Named(t: Tree, visits: seq<Visit>)
  {
    forall i :: 0 <= i < |visits| ==> visits[i].id in t.publicOf
  }

  /** What holds of a tree whose every page came from one honest helper. */
  ghost predicate Faithful(h: Helper, t: Tree)
  {
    && WellFormed(t)
    && t.root == h.root.id
    && 0 !in t.publicOf
    && forall key :: key in t.continuations ==> FaithfulCursor(h, t, t.continuations[key])
  }

  lemma RootedTreeIsFaithful(h: Helper, generation: nat)
    requires h.Honest()
    ensures Faithful(h, NewTree(generation, h.root.id))
  {
  }

  /** Growing the id maps loses no cursor. */
  lemma CursorSurvives(h: Helper, t: Tree, t': Tree, cursor: Cursor)
    requires FaithfulCursor(h, t, cursor) && t.publicOf.Keys <= t'.publicOf.Keys
    ensures FaithfulCursor(h, t', cursor)
  {
  }

  // ------------------------------------------------ naming a page

  /** A wire node stands for a helper node: same content, and handles that resolve to the same objects. */
  ghost predicate Reveals(t: Tree, wire: WireNode, node: Node)
  {
    && wire.handle.tree == t.generation
    && wire.handle.node in t.internalOf && t.internalOf[wire.handle.node] == node.id
    && wire == WireOf(node, wire.handle, wire.parent)
    && (wire.parent.Some? ==> node.parent.Some? && wire.parent.value.tree == t.generation
                              && wire.parent.value.node in t.internalOf
                              && t.internalOf[wire.parent.value.node] == node.parent.value)
  }

  ghost predicate RevealsAll(t: Tree, wires: seq<WireNode>, nodes: seq<Node>)
  {
    |wires| == |nodes| && forall i :: 0 <= i < |nodes| ==> Reveals(t, wires[i], nodes[i])
  }

  /** No node of a tree page loses its parent in translation. */
  ghost predicate KeepsParents(wires: seq<WireNode>, nodes: seq<Node>)
  {
    |wires| == |nodes| && forall i :: 0 <= i < |nodes| ==> (wires[i].parent.None? <==> nodes[i].parent.None?)
  }

  ghost predicate SameNames(older: Tree, newer: Tree)
  {
    && older.generation == newer.generation
    && older.publicOf.Keys <= newer.publicOf.Keys
    && forall n :: n in older.internalOf ==> n in newer.internalOf && newer.internalOf[n] == older.internalOf[n]
  }

  lemma RevealsSurvives(older: Tree, newer: Tree, wires: seq<WireNode>, nodes: seq<Node>)
    requires RevealsAll(older, wires, nodes) && SameNames(older, newer)
    ensures RevealsAll(newer, wires, nodes)
  {
    forall i | 0 <= i < |nodes| ensures Reveals(newer, wires[i], nodes[i]) {
      assert Reveals(older, wires[i], nodes[i]);
    }
  }

  lemma WithPublicNames(t: Tree, internal: Id)
    requires WellFormed(t) && t.nextNode < U64_MAX
    ensures var t' := WithPublic(t, internal);
            && WellFormed(t') && SameNames(t, t') && t'.publicOf.Keys == t.publicOf.Keys + {internal}
            && t'.internalOf[t'.publicOf[internal]] == internal
  {
  }

  ghost function IdsOf(nodes: seq<Node>): (ids: set<Id>)
  {
    set i | 0 <= i < |nodes| :: nodes[i].id
  }

  /** Each node's parent is absent, already named, or earlier on the page. */
  ghost predicate ParentsKnown(t: Tree, nodes: seq<Node>)
  {
    forall i :: 0 <= i < |nodes| && nodes[i].parent.Some? ==>
      nodes[i].parent.value in t.publicOf || nodes[i].parent.value in IdsOf(nodes[..i])
  }

  lemma SameNamesTransitive(a: Tree, b: Tree, c: Tree)
    requires SameNames(a, b) && SameNames(b, c)
    ensures SameNames(a, c)
  {
  }

  /** Naming one node on top of a named page. */
  lemma NameOneMore(t: Tree, before: Tree, front: seq<Node>, wires: seq<WireNode>, node: Node)
    requires WellFormed(before) && before.nextNode < U64_MAX && SameNames(t, before) && OnlyNames(t, before)
    requires before.publicOf.Keys == t.publicOf.Keys + IdsOf(front) && RevealsAll(before, wires, front)
    ensures var after := WithPublic(before, node.id);
            var wire := Translate(after, node, ParentHandle(before, node.parent));
            && WellFormed(after) && SameNames(t, after) && OnlyNames(t, after)
            && after.publicOf.Keys == t.publicOf.Keys + IdsOf(front + [node])
            && after.nextNode <= before.nextNode + 1
            && RevealsAll(after, wires + [wire], front + [node])
            && wire.parent == ParentHandle(before, node.parent)
  {
    hide WellFormed, SameNames, Reveals, WithPublic, IdsOf;
    var after := WithPublic(before, node.id);
    WithPublicKeeps(before, node.id);
    WithPublicNames(before, node.id);
    RevealsSurvives(before, after, wires, front);
    SameNamesTransitive(t, before, after);
    IdsGrow(front, node);
    TranslationReveals(before, node);
  }

  lemma TranslationReveals(before: Tree, node: Node)
    requires WellFormed(before) && before.nextNode < U64_MAX
    ensures var after := WithPublic(before, node.id);
            Reveals(after, Translate(after, node, ParentHandle(before, node.parent)), node)
  {
  }

  lemma IdsGrow(front: seq<Node>, node: Node)
    ensures IdsOf(front + [node]) == IdsOf(front) + {node.id}
  {
    var both := front + [node];
    assert both[|front|] == node;
    forall id | id in IdsOf(front) ensures id in IdsOf(both) {
      var i :| 0 <= i < |front| && front[i].id == id;
      assert both[i].id == id;
    }
  }

  /** Whatever the page, naming it through gives every node and every parent a handle that resolves to it. */
  lemma {:induction false} NamedNodesAreRevealed(t: Tree, nodes: seq<Node>)
    requires WellFormed(t) && t.nextNode + |nodes| < U64_MAX && NameNodes(t, nodes).1.Some?
    ensures var (t', wires) := NameNodes(t, nodes);
            && WellFormed(t') && SameNames(t, t') && OnlyNames(t, t')
            && t'.publicOf.Keys == t.publicOf.Keys + IdsOf(nodes)
            && t'.nextNode <= t.nextNode + |nodes|
            && RevealsAll(t', wires.value, nodes) && KeepsParents(wires.value, nodes)
    decreases |nodes|
  {
    hide WellFormed, SameNames, RevealsAll, OnlyNames;
    if nodes == [] {
      NothingNamed(t);
      return;
    }
    var last := |nodes| - 1;
    var front, node := nodes[..last], nodes[last];
    NamedNodesAreRevealed(t, front);
    var (before, wires) := NameNodes(t, front);
    NameOneMore(t, before, front, wires.value, node);
    assert front + [node] == nodes;
  }

  /** A page whose parents are known is named through. */
  lemma {:induction false} NamingSucceeds(t: Tree, nodes: seq<Node>)
    requires WellFormed(t) && t.nextNode + |nodes| < U64_MAX && ParentsKnown(t, nodes)
    ensures var (t', wires) := NameNodes(t, nodes);
            && wires.Some? && WellFormed(t') && SameNames(t, t') && OnlyNames(t, t')
            && t'.publicOf.Keys == t.publicOf.Keys + IdsOf(nodes)
            && t'.nextNode <= t.nextNode + |nodes|
            && RevealsAll(t', wires.value, nodes) && KeepsParents(wires.value, nodes)
    decreases |nodes|
  {
    hide WellFormed, SameNames, RevealsAll, KeepsParents, OnlyNames, ParentsKnown, IdsOf;
    if nodes != [] {
      ParentsKnownInFront(t, nodes);
      NamingSucceeds(t, nodes[..|nodes| - 1]);
    }
    NamedNodesAreRevealed(t, nodes);
  }

  lemma ParentsKnownInFront(t: Tree, nodes: seq<Node>)
    requires nodes != [] && ParentsKnown(t, nodes)
    ensures var front, node := nodes[..|nodes| - 1], nodes[|nodes| - 1];
            && ParentsKnown(t, front)
            && (node.parent.Some? ==> node.parent.value in t.publicOf.Keys + IdsOf(front))
  {
    assert forall i :: 0 <= i < |nodes| - 1 ==> nodes[..|nodes| - 1][..i] == nodes[..i];
  }

  lemma NothingNamed(t: Tree)
    ensures SameNames(t, t) && OnlyNames(t, t) && RevealsAll(t, [], []) && KeepsParents([], []) && IdsOf([]) == {}
  {
  }

  lemma {:induction false} MatchesAreNamed(t: Tree, nodes: seq<Node>)
    requires WellFormed(t) && t.nextNode + |nodes| < U64_MAX
    ensures var (t', wires) := NameMatches(t, nodes);
            && WellFormed(t') && SameNames(t, t') && OnlyNames(t, t')
            && t'.publicOf.Keys == t.publicOf.Keys + IdsOf(nodes)
            && t'.nextNode <= t.nextNode + |nodes|
            && RevealsAll(t', wires, nodes)
    decreases |nodes|
  {
    hide WellFormed, SameNames, RevealsAll, OnlyNames;
    if nodes == [] {
      NothingNamed(t);
      return;
    }
    var last := |nodes| - 1;
    var front, node := nodes[..last], nodes[last];
    MatchesAreNamed(t, front);
    var (before, wires) := NameMatches(t, front);
    NameOneMore(t, before, front, wires, node);
    assert front + [node] == nodes;
  }

  // --------------------------------------------- one page of the walk

  /** A tree request that names something the tree issued and starts where earlier pages stopped. */
  ghost predicate Grounded(h: Helper, t: Tree, p: ProjectionRequest)
  {
    var visits := h.TreeTrace(p.root, p.maxDepth).visits;
    && ValidProjectionRequest(p)
    && p.root in t.publicOf
    && (p.offset > 0 ==> p.offset < |visits| && Named(t, visits[..p.offset]))
  }

  /** Any legal call on a faithful tree is refused or becomes a request the helper accepts. */
  lemma PreparedIsGrounded(h: Helper, t: Tree, call: Call)
    requires Faithful(h, t) && LegalCall(call)
    ensures match PrepareOn(Some(t), call)
            case Good(TreeKind(generation, p, _)) => generation == t.generation && Grounded(h, t, p)
            case Good(SearchKind(generation, s, _)) =>
              generation == t.generation && ValidSearchRequest(s) && s.offset <= |h.SearchTrace().visits|
            case _ => true
  {
    if call.TreeCall? && call.continuation.Some? && call.continuation.value in t.continuations {
      var cursor := t.continuations[call.continuation.value];
      assert FaithfulCursor(h, t, cursor);
      if cursor.TreeCursor? {
        TraceIsSound(h, cursor.root, cursor.maxDepth);
      }
    }
    if call.FindCall? && call.continuation.Some? && call.continuation.value in t.continuations {
      assert FaithfulCursor(h, t, t.continuations[call.continuation.value]);
    }
  }

  lemma PageParentsKnown(h: Helper, t: Tree, root: Ref, maxDepth: nat, visits: seq<Visit>, offset: nat, nodes: seq<Node>)
    requires Sound(h.d, root, maxDepth, visits) && Aligned(visits, offset, nodes)
    requires Named(t, visits[..offset])
    ensures ParentsKnown(t, nodes)
  {
    forall i | 0 <= i < |nodes| && nodes[i].parent.Some?
      ensures nodes[i].parent.value in t.publicOf || nodes[i].parent.value in IdsOf(nodes[..i])
    {
      assert SamePlace(visits[offset + i], nodes[i]);
      if offset + i > 0 {
        var j := ParentInWalk(h.d, root, maxDepth, visits, offset + i);
        if j < offset {
          assert visits[..offset][j].id in t.publicOf;
        } else {
          assert SamePlace(visits[j], nodes[j - offset]);
          assert nodes[..i][j - offset].id == nodes[i].parent.value;
        }
      } else {
        FirstVisit(h.d, root, maxDepth, visits);
      }
    }
  }

  /** Retiring one cursor and issuing the next keeps a faithful tree faithful. */
  lemma NextCursorIsFaithful(h: Helper, t: Tree, source: Option<nat>, cursor: Option<Cursor>)
    requires Faithful(h, t) && t.nextContinuation < U64_MAX
    requires cursor.Some? ==> FaithfulCursor(h, t, cursor.value)
    ensures var (t', key) := IssueNext(Retire(t, source), cursor);
            && Faithful(h, t') && SameNames(t, t')
            && t'.publicOf == t.publicOf && t'.nextNode == t.nextNode && t'.nextContinuation <= t.nextContinuation + 1
            && (cursor.Some? <==> key.Some?)
            && (cursor.Some? ==> key.value in t'.continuations && t'.continuations[key.value] == cursor.value)
  {
    hide FaithfulCursor;
    RetireKeeps(t, source);
    var retired := Retire(t, source);
    var (t', key) := IssueNext(retired, cursor);
    if cursor.Some? {
      IssueKeeps(retired, cursor.value);
    }
    forall k | k in t'.continuations ensures FaithfulCursor(h, t', t'.continuations[k]) {
      if cursor.Some? && k == key.value {
        CursorSurvives(h, t, t', cursor.value);
      } else {
        assert k in t.continuations && t'.continuations[k] == t.continuations[k];
        CursorSurvives(h, t, t', t.continuations[k]);
      }
    }
  }

  lemma NamingKeepsFaithful(h: Helper, t: Tree, named: Tree, nodes: seq<Node>)
    requires Faithful(h, t) && WellFormed(named) && OnlyNames(t, named)
    requires named.publicOf.Keys == t.publicOf.Keys + IdsOf(nodes)
    requires forall i :: 0 <= i < |nodes| ==> nodes[i].id != 0
    ensures Faithful(h, named)
  {
    hide FaithfulCursor;
    forall key | key in named.continuations ensures FaithfulCursor(h, named, named.continuations[key]) {
      CursorSurvives(h, t, named, t.continuations[key]);
    }
  }

  /** What completing an honest tree page leaves behind. */
  ghost predicate PageCompleted(h: Helper, t: Tree, p: ProjectionRequest, m: Match, t': Tree, outcome: Outcome)
  {
    && Faithful(h, t') && SameNames(t, t')
    && t'.nextNode <= t.nextNode + |m.nodes| && t'.nextContinuation <= t.nextContinuation + 1
    && outcome.TreePageReply?
    && RevealsAll(t', outcome.nodes, m.nodes) && KeepsParents(outcome.nodes, m.nodes)
    && (m.next.Some? <==> outcome.continuation.Some?)
    && (m.next.Some? ==> outcome.continuation.value in t'.continuations
                         && t'.continuations[outcome.continuation.value] == TreeCursor(p.root, m.next.value, p.maxDepth))
  }

  /** What naming an honest page needs to know about it. */
  lemma HonestPageIsNameable(h: Helper, t: Tree, p: ProjectionRequest)
    requires h.Honest() && Grounded(h, t, p) && h.TreeAnswer(p).Ok?
    ensures var m := h.TreeAnswer(p).value;
            var visits := h.TreeTrace(p.root, p.maxDepth).visits;
            && m.root == h.root
            && ValidProjection(p, m) && ParentsKnown(t, m.nodes)
            && (forall i :: 0 <= i < |m.nodes| ==> m.nodes[i].id != 0)
            && Aligned(visits, p.offset, m.nodes) && Named(t, visits[..p.offset])
            && (m.next.Some? ==> m.next.value == p.offset + |m.nodes| < |visits|)
  {
    hide NodeOf, Sound, ValidNode, Steps, ParentsKnown;
    var m := h.TreeAnswer(p).value;
    var trace := h.TreeTrace(p.root, p.maxDepth);
    var visits := trace.visits;
    HonestTreePageAccepted(h, p);
    TreeAnswerIsWindow(h, p);
    TraceIsSound(h, p.root, p.maxDepth);
    if trace.complete {
      LocatedIsVisited(h, p.root, p.maxDepth);
    }
    assert Window(h, visits[p.offset..p.offset + |m.nodes|], m.nodes);
    WindowAligns(h, visits, p.offset, m.nodes);
    PageParentsKnown(h, t, visits[0].ref, p.maxDepth, visits, p.offset, m.nodes);
    IdsAreNonZero(m.nodes);
  }

  /**
   The manager completes every page an honest helper produces for a prepared request: no unknown
   parent, every handle resolving to the object it stands for, and a cursor the next call can use.
   */
  lemma HonestPageCompletes(h: Helper, t: Tree, p: ProjectionRequest, source: Option<nat>)
    requires h.Honest() && Faithful(h, t) && Grounded(h, t, p) && h.TreeAnswer(p).Ok?
    requires t.nextNode + p.maxNodes < U64_MAX && t.nextContinuation < U64_MAX
    ensures var m := h.TreeAnswer(p).value;
            var (t', outcome) := CompleteTree(t, t.generation, p, source, m);
            PageCompleted(h, t, p, m, t', outcome)
  {
    hide RevealsAll, KeepsParents, Aligned, ParentsKnown, NameNodes, IssueNext, Named, IdsOf, Inverse,
         ValidProjection, Retire, SameNames;
    var m := h.TreeAnswer(p).value;
    HonestPageIsNameable(h, t, p);
    NamingSucceeds(t, m.nodes);
    var named := NameNodes(t, m.nodes).0;
    NamingKeepsFaithful(h, t, named, m.nodes);
    NamedThrough(t, named, h.TreeTrace(p.root, p.maxDepth).visits, p.offset, m.nodes);
    NextCursorIsFaithful(h, named, source, TreeNext(p, m.next));
    var t' := IssueNext(Retire(named, source), TreeNext(p, m.next)).0;
    RevealsSurvives(named, t', NameNodes(t, m.nodes).1.value, m.nodes);
    SameNamesTransitive(t, named, t');
  }

  lemma IdsAreNonZero(nodes: seq<Node>)
    requires ValidNodes(nodes)
    ensures forall i :: 0 <= i < |nodes| ==> nodes[i].id != 0
  {
    assert forall i :: 0 <= i < |nodes| ==> ValidNode(nodes[i]);
  }

  lemma NamedThrough(t: Tree, named: Tree, visits: seq<Visit>, offset: nat, nodes: seq<Node>)
    requires Aligned(visits, offset, nodes) && Named(t, visits[..offset])
    requires named.publicOf.Keys == t.publicOf.Keys + IdsOf(nodes)
    ensures Named(named, visits[..offset + |nodes|])
  {
    forall i | 0 <= i < offset + |nodes| ensures visits[i].id in named.publicOf {
      if i < offset {
        assert visits[..offset][i].id in t.publicOf;
      } else {
        assert SamePlace(visits[offset + (i - offset)], nodes[i - offset]);
        assert nodes[i - offset].id in IdsOf(nodes);
      }
    }
  }

  // ------------------------------------- following tree continuations

  function Sum(sizes: seq<nat>): (total: nat)
  {
    if sizes == [] then 0 else sizes[0] + Sum(sizes[1..])
  }

  predicate LegalSizes(sizes: seq<nat>)
  {
    forall i :: 0 <= i < |sizes| ==> 1 <= sizes[i] <= MAX_SEMANTIC_NODES
  }

  /** What an agent has after calling with the given page sizes, each time passing the continuation back. */
  datatype Journey = Journey(tree: Tree, wires: seq<WireNode>, finished: bool)

  function FollowTree(h: Helper, t: Tree, call: Call, sizes: seq<nat>): (j: Journey)
    requires call.TreeCall?
    decreases |sizes|
  {
    if sizes == [] then Journey(t, [], false)
    else
      match PrepareOn(Some(t), call.(maxNodes := sizes[0]))
      case Good(TreeKind(generation, p, source)) =>
        (var answer := h.TreeAnswer(p);
         if answer.Err? then Journey(t, [], false)
         else
           var (t', outcome) := CompleteTree(t, generation, p, source, answer.value);
           if !outcome.TreePageReply? then Journey(t', [], false)
           else if outcome.continuation.None? then Journey(t', outcome.nodes, true)
           else
             var rest := FollowTree(h, t', TreeCall(None, outcome.continuation, 1, 0), sizes[1..]);
             Journey(rest.tree, outcome.nodes + rest.wires, rest.finished))
      case _ => Journey(t, [], false)
  }

  /** The call asks for the walk of `root` from `offset` on. */
  ghost predicate Aims(t: Tree, call: Call, root: Id, offset: nat, maxDepth: nat)
  {
    && call.TreeCall? && LegalCall(call.(maxNodes := 1))
    && match PrepareOn(Some(t), call.(maxNodes := 1))
       case Good(TreeKind(_, p, _)) => p == ProjectionRequest(root, offset, 1, maxDepth)
       case _ => false
  }

  lemma AimsForAnySize(t: Tree, call: Call, root: Id, offset: nat, maxDepth: nat, size: nat)
    requires Aims(t, call, root, offset, maxDepth) && 1 <= size <= MAX_SEMANTIC_NODES
    ensures LegalCall(call.(maxNodes := size))
    ensures PrepareOn(Some(t), call.(maxNodes := size)).Good?
    ensures var kind := PrepareOn(Some(t), call.(maxNodes := size)).value;
            kind.TreeKind? && kind.generation == t.generation
            && kind.projection == ProjectionRequest(root, offset, size, maxDepth)
  {
  }

  /** The wires stand, in order, for the nodes of a stretch of a walk. */
  ghost predicate Retraces(h: Helper, t: Tree, wires: seq<WireNode>, visits: seq<Visit>)
  {
    var nodes := Details(h.d, h.origin, visits);
    nodes.Some? && RevealsAll(t, wires, nodes.value) && KeepsParents(wires, nodes.value)
  }

  // ------------------------------------------- what the agent is told

  /**
   A wire tells of a visit to a target-process object: its handle resolves to the object, its parent handle
   to the object's parent, and the rest is the place in the walk and the object's own answers.
   */
  ghost predicate Recounts(h: Helper, t: Tree, wire: WireNode, visit: Visit)
  {
    && visit.id == h.d.hash(visit.ref)
    && visit.ref.name.Some? && visit.ref.name.value in h.d.pids && h.d.pids[visit.ref.name.value] in h.d.targets
    && wire.handle.tree == t.generation
    && wire.handle.node in t.internalOf && t.internalOf[wire.handle.node] == visit.id
    && (wire.parent.Some? ==> visit.parent.Some? && wire.parent.value.tree == t.generation
                              && wire.parent.value.node in t.internalOf
                              && t.internalOf[wire.parent.value.node] == visit.parent.value)
    && wire.depth == visit.depth
    && Reports(h.d, h.origin, visit.ref, wire.role, wire.name, wire.states, wire.bounds, wire.childCount)
  }

  /** One wire for each visit, in order, with a parent exactly where the visit has one. */
  ghost predicate RecountsAll(h: Helper, t: Tree, wires: seq<WireNode>, visits: seq<Visit>)
  {
    && |wires| == |visits|
    && forall i :: 0 <= i < |wires| ==> Recounts(h, t, wires[i], visits[i]) && (wires[i].parent.None? <==> visits[i].parent.None?)
  }

  /** The wires are the first of the visits asked for, in order: all of them when `whole`. */
  ghost predicate RecountsAsked(h: Helper, query: Query, t: Tree, wires: seq<WireNode>, visits: seq<Visit>, whole: bool)
  {
    exists all: seq<Node>, at: seq<nat> ::
      TellsAll(h.d, h.origin, visits, all) && RecountsAt(h, query, t, wires, visits, all, at) && (whole ==> |at| == |wires|)
  }

  ghost predicate RecountsAt(h: Helper, query: Query, t: Tree, wires: seq<WireNode>, visits: seq<Visit>, all: seq<Node>,
                             at: seq<nat>)
    requires |all| == |visits|
  {
    && Ascends(at, |visits|) && |wires| <= |at|
    && (forall k :: 0 <= k < |visits| ==> (k in at <==> Asked(h.fold, query, all[k])))
    && (forall i :: 0 <= i < |wires| ==> Recounts(h, t, wires[i], visits[at[i]]))
  }

  /** The visits carry what their objects answered and belong to the target process. */
  ghost predicate OfTarget(d: Desktop, visits: seq<Visit>)
  {
    forall i :: 0 <= i < |visits| ==>
      visits[i].id == d.hash(visits[i].ref) && d.IsTarget(visits[i].ref) == Some(true)
  }

  lemma SoundIsOfTarget(d: Desktop, root: Ref, maxDepth: nat, visits: seq<Visit>)
    requires Sound(d, root, maxDepth, visits)
    ensures OfTarget(d, visits) && Recorded(d, visits)
  {
  }

  lemma RevealedRecounts(h: Helper, t: Tree, wire: WireNode, node: Node, visit: Visit)
    requires Reveals(t, wire, node) && Tells(h.d, h.origin, visit, node)
    requires visit.id == h.d.hash(visit.ref) && h.d.IsTarget(visit.ref) == Some(true)
    ensures Recounts(h, t, wire, visit)
  {
    hide Reports;
  }

  lemma RetracesRecounts(h: Helper, t: Tree, wires: seq<WireNode>, visits: seq<Visit>)
    requires Retraces(h, t, wires, visits) && OfTarget(h.d, visits) && Recorded(h.d, visits)
    ensures RecountsAll(h, t, wires, visits)
  {
    hide Details, Recounts, Reveals, Reports, Recorded;
    DetailsTell(h.d, h.origin, visits);
    var nodes := Details(h.d, h.origin, visits).value;
    forall i | 0 <= i < |wires|
      ensures Recounts(h, t, wires[i], visits[i]) && (wires[i].parent.None? <==> visits[i].parent.None?)
    {
      assert Tells(h.d, h.origin, visits[i], nodes[i]);
      RevealedRecounts(h, t, wires[i], nodes[i], visits[i]);
    }
  }

  /** The visits that were walked, when the wires retrace a stretch of a helper's walk. */
  lemma RetracedTraceRecounts(h: Helper, t: Tree, wires: seq<WireNode>, wanted: Id, maxDepth: nat)
    requires |wires| <= |h.TreeTrace(wanted, maxDepth).visits|
    requires Retraces(h, t, wires, h.TreeTrace(wanted, maxDepth).visits[..|wires|])
    ensures RecountsAll(h, t, wires, h.TreeTrace(wanted, maxDepth).visits[..|wires|])
  {
    var visits := h.TreeTrace(wanted, maxDepth).visits;
    TraceIsSound(h, wanted, maxDepth);
    if visits != [] {
      SoundIsOfTarget(h.d, visits[0].ref, maxDepth, visits);
    }
    hide Retraces, Sound;
    RetracesRecounts(h, t, wires, visits[..|wires|]);
  }

  /** Wires that stand for the first hits recount the first visits asked for. */
  lemma FoundRecounts(h: Helper, query: Query, t: Tree, wires: seq<WireNode>, visits: seq<Visit>)
    requires OfTarget(h.d, visits) && Recorded(h.d, visits) && Details(h.d, h.origin, visits).Some?
    requires var hits := Hits(h.fold, query, Details(h.d, h.origin, visits).value);
             |wires| <= |hits| && RevealsAll(t, wires, hits[..|wires|])
    ensures RecountsAsked(h, query, t, wires, visits,
                          |wires| == |Hits(h.fold, query, Details(h.d, h.origin, visits).value)|)
  {
    hide Details, Hits, Recounts, Reveals, Reports, Recorded, Asked;
    DetailsTell(h.d, h.origin, visits);
    var all := Details(h.d, h.origin, visits).value;
    var hits := Hits(h.fold, query, all);
    var at := HitsAreAsked(h.fold, query, all);
    forall i | 0 <= i < |wires| ensures Recounts(h, t, wires[i], visits[at[i]]) {
      assert Reveals(t, wires[i], hits[..|wires|][i]);
      assert Tells(h.d, h.origin, visits[at[i]], all[at[i]]);
      RevealedRecounts(h, t, wires[i], hits[i], visits[at[i]]);
    }
    assert RecountsAt(h, query, t, wires, visits, all, at);
  }

  lemma SearchTraceIsOfTarget(h: Helper)
    ensures OfTarget(h.d, h.SearchTrace().visits) && Recorded(h.d, h.SearchTrace().visits)
  {
    hide Sound;
    WalkIsSound(h.d, FRESH_SCAN, h.matched, MAX_PROJECTED_DEPTH);
    SoundIsOfTarget(h.d, h.matched, MAX_PROJECTED_DEPTH, h.SearchTrace().visits);
  }

  /** Where following stands after some pages of the walk from `offset`. */
  ghost predicate Followed(h: Helper, trace: Trace, offset: nat, total: nat, j: Journey)
  {
    var n := |trace.visits|;
    var end := offset + |j.wires|;
    && offset <= end <= n
    && Retraces(h, j.tree, j.wires, trace.visits[offset..end])
    && (j.finished ==> trace.complete && end == n)
    && (trace.complete && Built(h.d, h.origin, trace.visits[offset..]) ==>
          && |j.wires| == (if n - offset <= total then n - offset else total)
          && (j.finished <==> n - offset <= total))
  }

  lemma RevealsJoin(t: Tree, wires: seq<WireNode>, nodes: seq<Node>, moreWires: seq<WireNode>, moreNodes: seq<Node>)
    requires RevealsAll(t, wires, nodes) && KeepsParents(wires, nodes)
    requires RevealsAll(t, moreWires, moreNodes) && KeepsParents(moreWires, moreNodes)
    ensures RevealsAll(t, wires + moreWires, nodes + moreNodes) && KeepsParents(wires + moreWires, nodes + moreNodes)
  {
    forall i | 0 <= i < |nodes + moreNodes| ensures Reveals(t, (wires + moreWires)[i], (nodes + moreNodes)[i]) {
      if i < |nodes| {
        assert Reveals(t, wires[i], nodes[i]);
      } else {
        assert Reveals(t, moreWires[i - |nodes|], moreNodes[i - |nodes|]);
      }
    }
  }

  lemma RetracesJoin(h: Helper, t: Tree, wires: seq<WireNode>, moreWires: seq<WireNode>, visits: seq<Visit>, from: nat, mid: nat,
                     end: nat)
    requires from <= mid <= end <= |visits|
    requires Retraces(h, t, wires, visits[from..mid]) && Retraces(h, t, moreWires, visits[mid..end])
    ensures Retraces(h, t, wires + moreWires, visits[from..end])
  {
    hide NodeOf, RevealsAll, KeepsParents;
    assert visits[from..end] == visits[from..mid] + visits[mid..end];
    DetailsConcat(h.d, h.origin, visits[from..mid], visits[mid..end]);
    RevealsJoin(t, wires, Details(h.d, h.origin, visits[from..mid]).value,
                moreWires, Details(h.d, h.origin, visits[mid..end]).value);
  }

  /** A page that shows a stretch of visits retraces it. */
  lemma WindowRetraces(h: Helper, t: Tree, wires: seq<WireNode>, visits: seq<Visit>, nodes: seq<Node>)
    requires Window(h, visits, nodes) && RevealsAll(t, wires, nodes) && KeepsParents(wires, nodes)
    ensures Retraces(h, t, wires, visits)
  {
    hide NodeOf, RevealsAll, KeepsParents;
    forall i | 0 <= i < |visits| ensures NodeOf(h.d, h.origin, visits[i]) == Some(nodes[i]) {
      assert Shows(h, visits[i], nodes[i]);
    }
    assert Details(h.d, h.origin, visits).value == nodes;
  }

  /** A page fails only when the walk is broken or one of its nodes cannot be built. */
  lemma PageFailsHonestly(h: Helper, p: ProjectionRequest)
    requires h.TreeAnswer(p).Err?
    ensures var trace := h.TreeTrace(p.root, p.maxDepth);
            !(trace.complete && p.offset <= |trace.visits| && Built(h.d, h.origin, trace.visits[p.offset..]))
  {
    hide NodeOf;
    var trace := h.TreeTrace(p.root, p.maxDepth);
    var stop := p.offset + p.maxNodes;
    if stop < |trace.visits| {
      BuiltPart(h, trace.visits, p.offset, stop);
    }
  }

  lemma BuiltPart(h: Helper, visits: seq<Visit>, from: nat, stop: nat)
    requires from <= stop <= |visits|
    ensures Built(h.d, h.origin, visits[from..]) ==> Built(h.d, h.origin, visits[from..stop])
  {
    hide NodeOf;
    assert forall i :: 0 <= i < stop - from ==> visits[from..stop][i] == visits[from..][i];
  }

  lemma NothingFollowed(h: Helper, trace: Trace, offset: nat, total: nat, t: Tree)
    requires offset <= |trace.visits|
    requires trace.complete && Built(h.d, h.origin, trace.visits[offset..]) ==> total == 0 && offset < |trace.visits|
    ensures Followed(h, trace, offset, total, Journey(t, [], false))
  {
    hide NodeOf;
    assert trace.visits[offset..offset] == [];
    assert Details(h.d, h.origin, []).value == [];
  }

  /** The walk a grounded request starts in has something at its offset, unless it is broken. */
  lemma GroundedIsInside(h: Helper, t: Tree, p: ProjectionRequest)
    requires h.Honest() && Grounded(h, t, p)
    ensures var trace := h.TreeTrace(p.root, p.maxDepth);
            p.offset <= |trace.visits| && (trace.complete ==> p.offset < |trace.visits|)
  {
    if h.TreeTrace(p.root, p.maxDepth).complete {
      LocatedIsVisited(h, p.root, p.maxDepth);
    }
  }

  /** One page, then the rest: the step of the induction below. */
  lemma FollowedStep(h: Helper, p: ProjectionRequest, page: seq<WireNode>, t': Tree, total: nat, rest: Journey)
    requires h.TreeAnswer(p).Ok? && h.TreeAnswer(p).value.next.Some?
    requires p.offset + p.maxNodes < |h.TreeTrace(p.root, p.maxDepth).visits|
    requires RevealsAll(t', page, h.TreeAnswer(p).value.nodes) && KeepsParents(page, h.TreeAnswer(p).value.nodes)
    requires SameNames(t', rest.tree)
    requires Followed(h, h.TreeTrace(p.root, p.maxDepth), p.offset + p.maxNodes, total, rest)
    ensures Followed(h, h.TreeTrace(p.root, p.maxDepth), p.offset, p.maxNodes + total,
                     Journey(rest.tree, page + rest.wires, rest.finished))
  {
    hide NodeOf, RevealsAll, KeepsParents;
    var trace := h.TreeTrace(p.root, p.maxDepth);
    var visits := trace.visits;
    var mid := p.offset + p.maxNodes;
    var nodes := h.TreeAnswer(p).value.nodes;
    TreeAnswerIsWindow(h, p);
    RevealsSurvives(t', rest.tree, page, nodes);
    WindowRetraces(h, rest.tree, page, visits[p.offset..mid], nodes);
    SameLengths(rest.tree, page, nodes);
    RetracesJoin(h, rest.tree, page, rest.wires, visits, p.offset, mid, mid + |rest.wires|);
    if Built(h.d, h.origin, visits[p.offset..]) {
      assert forall i :: 0 <= i < |visits| - mid ==> visits[mid..][i] == visits[p.offset..][p.maxNodes + i];
      assert Built(h.d, h.origin, visits[mid..]);
    }
  }

  lemma SameLengths(t: Tree, wires: seq<WireNode>, nodes: seq<Node>)
    requires RevealsAll(t, wires, nodes)
    ensures |wires| == |nodes|
  {
  }

  lemma LastPageFollowed(h: Helper, p: ProjectionRequest, page: seq<WireNode>, t': Tree, total: nat)
    requires h.TreeAnswer(p).Ok? && h.TreeAnswer(p).value.next.None?
    requires p.offset <= |h.TreeTrace(p.root, p.maxDepth).visits|
    requires RevealsAll(t', page, h.TreeAnswer(p).value.nodes) && KeepsParents(page, h.TreeAnswer(p).value.nodes)
    ensures Followed(h, h.TreeTrace(p.root, p.maxDepth), p.offset, p.maxNodes + total, Journey(t', page, true))
  {
    hide NodeOf, RevealsAll, KeepsParents;
    var visits := h.TreeTrace(p.root, p.maxDepth).visits;
    TreeAnswerIsWindow(h, p);
    SameLengths(t', page, h.TreeAnswer(p).value.nodes);
    assert visits[p.offset..|visits|] == visits[p.offset..];
    WindowRetraces(h, t', page, visits[p.offset..], h.TreeAnswer(p).value.nodes);
  }

  /** The page an agent receives, and that its continuation aims where the page stopped. */
  lemma PageLeadsOn(h: Helper, t: Tree, call: Call, root: Id, offset: nat, maxDepth: nat, size: nat)
    returns (p: ProjectionRequest, t': Tree, outcome: Outcome)
    requires h.Honest() && Faithful(h, t) && Aims(t, call, root, offset, maxDepth) && 1 <= size <= MAX_SEMANTIC_NODES
    requires t.nextNode + size < U64_MAX && t.nextContinuation < U64_MAX
    ensures p == ProjectionRequest(root, offset, size, maxDepth)
    ensures var kind := PrepareOn(Some(t), call.(maxNodes := size));
            && kind.Good? && kind.value.TreeKind? && kind.value.projection == p && kind.value.generation == t.generation
            && (h.TreeAnswer(p).Ok? ==>
                  (t', outcome) == CompleteTree(t, t.generation, p, kind.value.source, h.TreeAnswer(p).value))
    ensures h.TreeAnswer(p).Ok? ==>
              && PageCompleted(h, t, p, h.TreeAnswer(p).value, t', outcome)
              && |h.TreeAnswer(p).value.nodes| <= size
              && (outcome.continuation.Some? ==>
                    && offset + size < |h.TreeTrace(root, maxDepth).visits|
                    && Aims(t', TreeCall(None, outcome.continuation, 1, 0), root, offset + size, maxDepth))
    ensures var trace := h.TreeTrace(root, maxDepth);
            offset <= |trace.visits| && (trace.complete ==> offset < |trace.visits|)
  {
    hide NodeOf, Faithful, RevealsAll, KeepsParents, SameNames;
    AimsForAnySize(t, call, root, offset, maxDepth, size);
    PreparedIsGrounded(h, t, call.(maxNodes := size));
    var kind := PrepareOn(Some(t), call.(maxNodes := size)).value;
    p := kind.projection;
    GroundedIsInside(h, t, p);
    if h.TreeAnswer(p).Ok? {
      HonestPageCompletes(h, t, p, kind.source);
      TreeAnswerIsWindow(h, p);
      var done := CompleteTree(t, t.generation, p, kind.source, h.TreeAnswer(p).value);
      t', outcome := done.0, done.1;
    } else {
      t', outcome := t, Refused(Error.Unavailable);
    }
  }

  lemma {:induction false} FollowingRetraces(h: Helper, t: Tree, call: Call, sizes: seq<nat>, root: Id, offset: nat, maxDepth: nat)
    requires h.Honest() && Faithful(h, t) && LegalSizes(sizes)
    requires Aims(t, call, root, offset, maxDepth)
    requires t.nextNode + Sum(sizes) + MAX_SEMANTIC_NODES < U64_MAX && t.nextContinuation + |sizes| < U64_MAX
    ensures var j := FollowTree(h, t, call, sizes);
            && SameNames(t, j.tree)
            && Followed(h, h.TreeTrace(root, maxDepth), offset, Sum(sizes), j)
    decreases |sizes|
  {
    hide NodeOf, Followed, RevealsAll, KeepsParents, SameNames, Faithful, Aims, PrepareOn, CompleteTree;
    var trace := h.TreeTrace(root, maxDepth);
    NothingNamed(t);
    if sizes == [] {
      var _, _, _ := PageLeadsOn(h, t, call, root, offset, maxDepth, 1);
      NothingFollowed(h, trace, offset, 0, t);
      return;
    }
    var p, t', outcome := PageLeadsOn(h, t, call, root, offset, maxDepth, sizes[0]);
    if h.TreeAnswer(p).Err? {
      PageFailsHonestly(h, p);
      NothingFollowed(h, trace, offset, Sum(sizes), t);
    } else if outcome.continuation.None? {
      LastPageFollowed(h, p, outcome.nodes, t', Sum(sizes[1..]));
    } else {
      var next := TreeCall(None, outcome.continuation, 1, 0);
      FollowingRetraces(h, t', next, sizes[1..], root, offset + sizes[0], maxDepth);
      var rest := FollowTree(h, t', next, sizes[1..]);
      FollowedStep(h, p, outcome.nodes, t', Sum(sizes[1..]), rest);
      SameNamesTransitive(t, t', rest.tree);
    }
  }

  /**
   Following tree continuations from the start, with any page sizes: after pages of total size s the
   agent holds exactly the first min(s, n) nodes of the n-node breadth-first walk, each once, in
   order and with its parent, behind handles that resolve to those objects. The last page arrives
   exactly when s reaches n, and it can arrive only if the walk is whole.
   */
  lemma TreePagesReassemble(h: Helper, t: Tree, root: Option<Handle>, maxDepth: nat, sizes: seq<nat>)
    requires h.Honest() && Faithful(h, t) && LegalSizes(sizes) && maxDepth <= MAX_SEMANTIC_DEPTH
    requires t.nextNode + Sum(sizes) + MAX_SEMANTIC_NODES < U64_MAX && t.nextContinuation + |sizes| < U64_MAX
    requires root.Some? ==> root.value.tree == t.generation && root.value.node in t.internalOf
    ensures var j := FollowTree(h, t, TreeCall(root, None, 1, maxDepth), sizes);
            var wanted := if root.Some? then t.internalOf[root.value.node] else t.root;
            var trace := h.TreeTrace(wanted, maxDepth);
            var n := |trace.visits|;
            && |j.wires| <= n
            && Retraces(h, j.tree, j.wires, trace.visits[..|j.wires|])
            && RecountsAll(h, j.tree, j.wires, trace.visits[..|j.wires|])
            && (j.finished ==> trace.complete && |j.wires| == n)
            && (trace.complete && Built(h.d, h.origin, trace.visits) ==>
                  && |j.wires| == (if n <= Sum(sizes) then n else Sum(sizes))
                  && (j.finished <==> n <= Sum(sizes)))
  {
    hide NodeOf, Faithful;
    var wanted := if root.Some? then t.internalOf[root.value.node] else t.root;
    var trace := h.TreeTrace(wanted, maxDepth);
    FollowingRetraces(h, t, TreeCall(root, None, 1, maxDepth), sizes, wanted, 0, maxDepth);
    assert trace.visits[0..] == trace.visits;
    var j := FollowTree(h, t, TreeCall(root, None, 1, maxDepth), sizes);
    assert trace.visits[0..0 + |j.wires|] == trace.visits[..|j.wires|];
    hide Retraces, RecountsAll;
    RetracedTraceRecounts(h, j.tree, j.wires, wanted, maxDepth);
  }

  // ----------------------------------- following search continuations

  function FollowSearch(h: Helper, t: Tree, call: Call, sizes: seq<nat>): (j: Journey)
    requires call.FindCall?
    decreases |sizes|
  {
    if sizes == [] then Journey(t, [], false)
    else
      match PrepareOn(Some(t), call.(maxResults := sizes[0]))
      case Good(SearchKind(generation, s, source)) =>
        (var answer := h.SearchAnswer(s);
         if answer.Err? then Journey(t, [], false)
         else
           var (t', outcome) := CompleteSearch(h.fold, t, generation, s, source, answer.value);
           if !outcome.MatchesReply? then Journey(t', [], false)
           else if outcome.continuation.None? then Journey(t', outcome.matches, true)
           else
             var rest := FollowSearch(h, t', FindCall(s.query, outcome.continuation, 1), sizes[1..]);
             Journey(rest.tree, outcome.matches + rest.wires, rest.finished))
      case _ => Journey(t, [], false)
  }

  /** The call asks for the hits of `query` from visit `offset` on. */
  ghost predicate Hunts(t: Tree, call: Call, query: Query, offset: nat)
  {
    && call.FindCall? && LegalCall(call.(maxResults := 1))
    && match PrepareOn(Some(t), call.(maxResults := 1))
       case Good(SearchKind(_, s, _)) => s == SearchRequest(offset, 1, query)
       case _ => false
  }

  /** The wires stand for the hits among a stretch of visits. */
  ghost predicate Finds(h: Helper, query: Query, t: Tree, wires: seq<WireNode>, visits: seq<Visit>)
  {
    var nodes := Details(h.d, h.origin, visits);
    nodes.Some? && RevealsAll(t, wires, Hits(h.fold, query, nodes.value))
  }

  /** Where a search stands after examining the visits from `offset` to `end`. */
  ghost predicate Searched(h: Helper, query: Query, offset: nat, end: nat, total: nat, j: Journey)
  {
    var trace := h.SearchTrace();
    && offset <= end <= |trace.visits|
    && Finds(h, query, j.tree, j.wires, trace.visits[offset..end])
    && (j.finished ==> trace.complete && end == |trace.visits|)
    && (trace.complete && Built(h.d, h.origin, trace.visits[offset..]) && !j.finished ==> |j.wires| == total)
  }

  lemma FindsJoin(h: Helper, query: Query, t: Tree, wires: seq<WireNode>, moreWires: seq<WireNode>, visits: seq<Visit>,
                  from: nat, mid: nat, end: nat)
    requires from <= mid <= end <= |visits|
    requires Finds(h, query, t, wires, visits[from..mid]) && Finds(h, query, t, moreWires, visits[mid..end])
    ensures Finds(h, query, t, wires + moreWires, visits[from..end])
  {
    hide NodeOf, Hits, Matches;
    var left := Details(h.d, h.origin, visits[from..mid]);
    var right := Details(h.d, h.origin, visits[mid..end]);
    assert visits[from..end] == visits[from..mid] + visits[mid..end];
    DetailsConcat(h.d, h.origin, visits[from..mid], visits[mid..end]);
    HitsConcat(h.fold, query, left.value, right.value);
    var hits, moreHits := Hits(h.fold, query, left.value), Hits(h.fold, query, right.value);
    forall i | 0 <= i < |hits + moreHits| ensures Reveals(t, (wires + moreWires)[i], (hits + moreHits)[i]) {
      if i < |hits| {
        assert Reveals(t, wires[i], hits[i]);
      } else {
        assert Reveals(t, moreWires[i - |hits|], moreHits[i - |hits|]);
      }
    }
  }

  ghost predicate MatchesCompleted(h: Helper, t: Tree, s: SearchRequest, m: Match, t': Tree, outcome: Outcome)
  {
    && Faithful(h, t') && SameNames(t, t')
    && t'.nextNode <= t.nextNode + |m.nodes| && t'.nextContinuation <= t.nextContinuation + 1
    && outcome.MatchesReply?
    && RevealsAll(t', outcome.matches, m.nodes)
    && (m.next.Some? <==> outcome.continuation.Some?)
    && (m.next.Some? ==> outcome.continuation.value in t'.continuations
                         && t'.continuations[outcome.continuation.value] == SearchCursor(m.next.value, s.query))
  }

  /** The manager completes every search page an honest helper produces for a prepared request. */
  lemma HonestMatchesComplete(h: Helper, t: Tree, s: SearchRequest, source: Option<nat>)
    requires h.Honest() && Faithful(h, t) && ValidSearchRequest(s)
    requires s.offset <= |h.SearchTrace().visits| && h.SearchAnswer(s).Ok?
    requires t.nextNode + s.maxResults < U64_MAX && t.nextContinuation < U64_MAX
    ensures var m := h.SearchAnswer(s).value;
            var (t', outcome) := CompleteSearch(h.fold, t, t.generation, s, source, m);
            MatchesCompleted(h, t, s, m, t', outcome)
  {
    hide NodeOf, Matches, RevealsAll, NameMatches, IssueNext, IdsOf, Details, HitEnd, Hits;
    var m := h.SearchAnswer(s).value;
    HonestSearchPageAccepted(h, s);
    SearchAnswerIsWindow(h, s);
    IdsAreNonZero(m.nodes);
    MatchesAreNamed(t, m.nodes);
    var named := NameMatches(t, m.nodes).0;
    NamingKeepsFaithful(h, t, named, m.nodes);
    NextCursorIsFaithful(h, named, source, SearchNext(s, m.next));
    var t' := IssueNext(Retire(named, source), SearchNext(s, m.next)).0;
    RevealsSurvives(named, t', NameMatches(t, m.nodes).1, m.nodes);
    SameNamesTransitive(t, named, t');
  }

  /** The matches an agent receives, what they cover, and that their continuation hunts on from there. */
  lemma MatchesLeadOn(h: Helper, t: Tree, call: Call, query: Query, offset: nat, size: nat)
    returns (s: SearchRequest, t': Tree, outcome: Outcome, end: nat)
    requires h.Honest() && Faithful(h, t) && Hunts(t, call, query, offset) && 1 <= size <= MAX_SEMANTIC_NODES
    requires t.nextNode + size < U64_MAX && t.nextContinuation < U64_MAX
    ensures s == SearchRequest(offset, size, query) && offset <= |h.SearchTrace().visits|
    ensures var kind := PrepareOn(Some(t), call.(maxResults := size));
            && kind.Good? && kind.value.SearchKind? && kind.value.search == s && kind.value.generation == t.generation
            && (h.SearchAnswer(s).Ok? ==>
                  (t', outcome) == CompleteSearch(h.fold, t, t.generation, s, kind.value.source, h.SearchAnswer(s).value))
    ensures h.SearchAnswer(s).Ok? ==>
              && MatchesCompleted(h, t, s, h.SearchAnswer(s).value, t', outcome)
              && |h.SearchAnswer(s).value.nodes| <= size
              && offset <= end <= |h.SearchTrace().visits|
              && Finds(h, query, t', outcome.matches, h.SearchTrace().visits[offset..end])
              && (outcome.continuation.None? ==> end == |h.SearchTrace().visits| && h.SearchTrace().complete)
              && (outcome.continuation.Some? ==>
                    && |outcome.matches| == size
                    && Hunts(t', FindCall(query, outcome.continuation, 1), query, end))
    ensures h.SearchAnswer(s).Err? ==>
              !(h.SearchTrace().complete && Built(h.d, h.origin, h.SearchTrace().visits[offset..]))
  {
    hide NodeOf, Matches, Faithful, SameNames, Hits, RevealsAll, HitEnd, SearchPage, CompleteSearch, Details;
    PreparedIsGrounded(h, t, call.(maxResults := size));
    s := SearchRequest(offset, size, query);
    var kind := PrepareOn(Some(t), call.(maxResults := size)).value;
    end := HitEnd(h.d, h.origin, h.fold, query, h.SearchTrace().visits, offset, size);
    if h.SearchAnswer(s).Ok? {
      HonestMatchesComplete(h, t, s, kind.source);
      SearchAnswerIsWindow(h, s);
      var done := CompleteSearch(h.fold, t, t.generation, s, kind.source, h.SearchAnswer(s).value);
      t', outcome := done.0, done.1;
      SameLengths(t', outcome.matches, h.SearchAnswer(s).value.nodes);
    } else {
      t', outcome := t, Refused(Error.Unavailable);
      SearchFailsHonestly(h, s);
    }
  }

  /** A search page fails only when the walk is broken or one of its nodes cannot be built. */
  lemma SearchFailsHonestly(h: Helper, s: SearchRequest)
    requires h.SearchAnswer(s).Err? && s.offset <= |h.SearchTrace().visits|
    ensures !(h.SearchTrace().complete && Built(h.d, h.origin, h.SearchTrace().visits[s.offset..]))
  {
    hide NodeOf, Matches, Hits;
    var visits := h.SearchTrace().visits;
    var end := HitEnd(h.d, h.origin, h.fold, s.query, visits, s.offset, s.maxResults);
    if Built(h.d, h.origin, visits[s.offset..]) {
      assert forall i :: 0 <= i < end - s.offset ==> visits[s.offset..end][i] == visits[s.offset..][i];
      assert Built(h.d, h.origin, visits[s.offset..end]);
    }
  }

  lemma NothingSearched(h: Helper, query: Query, offset: nat, total: nat, t: Tree)
    requires offset <= |h.SearchTrace().visits|
    requires h.SearchTrace().complete && Built(h.d, h.origin, h.SearchTrace().visits[offset..]) ==> total == 0
    ensures Searched(h, query, offset, offset, total, Journey(t, [], false))
  {
    hide NodeOf, Matches;
    assert h.SearchTrace().visits[offset..offset] == [];
    NoDetails(h.d, h.origin, h.fold, query);
  }

  lemma FindsSurvives(h: Helper, query: Query, older: Tree, newer: Tree, wires: seq<WireNode>, visits: seq<Visit>)
    requires Finds(h, query, older, wires, visits) && SameNames(older, newer)
    ensures Finds(h, query, newer, wires, visits)
  {
    hide NodeOf, Matches, SameNames, RevealsAll;
    RevealsSurvives(older, newer, wires, Hits(h.fold, query, Details(h.d, h.origin, visits).value));
  }

  lemma {:induction false} SearchingFinds(h: Helper, t: Tree, call: Call, sizes: seq<nat>, query: Query, offset: nat)
    returns (end: nat)
    requires h.Honest() && Faithful(h, t) && LegalSizes(sizes) && Hunts(t, call, query, offset)
    requires t.nextNode + Sum(sizes) + MAX_SEMANTIC_NODES < U64_MAX && t.nextContinuation + |sizes| < U64_MAX
    ensures var j := FollowSearch(h, t, call, sizes);
            SameNames(t, j.tree) && Searched(h, query, offset, end, Sum(sizes), j)
    decreases |sizes|
  {
    hide NodeOf, Finds, SameNames, Faithful, Hunts, PrepareOn, CompleteSearch, RevealsAll;
    NothingNamed(t);
    if sizes == [] {
      var _, _, _, _ := MatchesLeadOn(h, t, call, query, offset, 1);
      NothingSearched(h, query, offset, 0, t);
      return offset;
    }
    var visits := h.SearchTrace().visits;
    var s, t', outcome, mid := MatchesLeadOn(h, t, call, query, offset, sizes[0]);
    if h.SearchAnswer(s).Err? {
      NothingSearched(h, query, offset, Sum(sizes), t);
      end := offset;
    } else if outcome.continuation.None? {
      end := mid;
    } else {
      var next := FindCall(query, outcome.continuation, 1);
      end := SearchingFinds(h, t', next, sizes[1..], query, mid);
      var rest := FollowSearch(h, t', next, sizes[1..]);
      FindsSurvives(h, query, t', rest.tree, outcome.matches, visits[offset..mid]);
      FindsJoin(h, query, rest.tree, outcome.matches, rest.wires, visits, offset, mid, end);
      SameNamesTransitive(t, t', rest.tree);
      BuiltTail(h, visits, offset, mid);
    }
  }

  lemma BuiltTail(h: Helper, visits: seq<Visit>, offset: nat, mid: nat)
    requires offset <= mid <= |visits|
    ensures Built(h.d, h.origin, visits[offset..]) ==> Built(h.d, h.origin, visits[mid..])
  {
    hide NodeOf;
    assert forall i :: 0 <= i < |visits| - mid ==> visits[mid..][i] == visits[offset..][mid - offset + i];
  }

  /**
   Following search continuations from the start, with any page sizes: the agent holds a prefix of
   the query's hits over the whole walk, in walk order, full pages while it has not finished, and
   all of them once it has; it has finished as soon as the sizes add up to more than the hits.
   */
  lemma SearchPagesReassemble(h: Helper, t: Tree, query: Query, sizes: seq<nat>)
    requires h.Honest() && Faithful(h, t) && LegalSizes(sizes) && LegalQuery(query)
    requires t.nextNode + Sum(sizes) + MAX_SEMANTIC_NODES < U64_MAX && t.nextContinuation + |sizes| < U64_MAX
    ensures var j := FollowSearch(h, t, FindCall(query, None, 1), sizes);
            var trace := h.SearchTrace();
            && (j.finished ==> trace.complete && Built(h.d, h.origin, trace.visits))
            && (trace.complete && Built(h.d, h.origin, trace.visits) ==>
                  var hits := Hits(h.fold, query, Details(h.d, h.origin, trace.visits).value);
                  && |j.wires| <= |hits| && RevealsAll(j.tree, j.wires, hits[..|j.wires|])
                  && (j.finished ==> |j.wires| == |hits|)
                  && (!j.finished ==> |j.wires| == Sum(sizes))
                  && (Sum(sizes) > |hits| ==> j.finished)
                  && RecountsAsked(h, query, j.tree, j.wires, trace.visits, |j.wires| == |hits|))
  {
    hide NodeOf, Matches, Faithful, Hits, RevealsAll, RecountsAsked, OfTarget, Recorded;
    var visits := h.SearchTrace().visits;
    var j := FollowSearch(h, t, FindCall(query, None, 1), sizes);
    var end := SearchingFinds(h, t, FindCall(query, None, 1), sizes, query, 0);
    assert visits[0..end] == visits[..end] && visits[0..] == visits && visits[..|visits|] == visits;
    if h.SearchTrace().complete && Built(h.d, h.origin, visits) {
      assert visits == visits[..end] + visits[end..];
      DetailsConcat(h.d, h.origin, visits[..end], visits[end..]);
      var found := Details(h.d, h.origin, visits[..end]).value;
      HitsConcat(h.fold, query, found, Details(h.d, h.origin, visits[end..]).value);
      SameLengths(j.tree, j.wires, Hits(h.fold, query, found));
      var hits := Hits(h.fold, query, Details(h.d, h.origin, visits).value);
      assert hits[..|j.wires|] == Hits(h.fold, query, found);
      SearchTraceIsOfTarget(h);
      FoundRecounts(h, query, j.tree, j.wires, visits);
    }
  }

  /**
   From a freshly matched root on, with any page sizes and nothing assumed of the tree before: the agent
   ends up with the whole breadth-first walk of the matched object, each node once and in order.
   */
  lemma RootedPagesReassemble(h: Helper, before: Option<Tree>, maxDepth: nat, sizes: seq<nat>)
    requires h.Honest() && LegalSizes(sizes) && maxDepth <= MAX_SEMANTIC_DEPTH
    requires Sum(sizes) + |sizes| + 2 * MAX_SEMANTIC_NODES < U64_MAX
    ensures var (t, outcome) := CompleteRoot(before, Match(h.root, [], None));
            && t.Some? && outcome.TreePageReply? && outcome.root == Handle(t.value.generation, 1)
            && var j := FollowTree(h, t.value, TreeCall(Some(outcome.root), None, 1, maxDepth), sizes);
               var trace := h.TreeTrace(h.root.id, maxDepth);
               var n := |trace.visits|;
               && |j.wires| <= n && Retraces(h, j.tree, j.wires, trace.visits[..|j.wires|])
               && RecountsAll(h, j.tree, j.wires, trace.visits[..|j.wires|])
               && (trace.complete && Built(h.d, h.origin, trace.visits) ==>
                     && |j.wires| == (if n <= Sum(sizes) then n else Sum(sizes))
                     && (j.finished <==> n <= Sum(sizes)))
  {
    var (t, outcome) := CompleteRoot(before, Match(h.root, [], None));
    RootedTreeIsFaithful(h, t.value.generation);
    hide FollowTree, Retraces, RecountsAll, Built, Helper.TreeTrace, Helper.Honest, Faithful;
    TreePagesReassemble(h, t.value, Some(outcome.root), maxDepth, sizes);
  }
}
