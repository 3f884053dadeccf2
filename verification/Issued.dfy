/**
 From a reply to everything later: what each handle and continuation the manager hands out stands for,
 whatever page the helper sent, and what it resolves to after any further run.
 */
module Issued {
  import opened Basics
  import opened ObjectGraph
  import opened Projection
  import opened SemanticTree
  import opened ManagerState
  import opened Reassembly

  ghost predicate StandsFor(t: Tree, handle: Handle, object_: Id)
  {
    handle.tree == t.generation && handle.node in t.internalOf && t.internalOf[handle.node] == object_
  }

  /** The handle is a wire's own, or its parent's. */
  predicate ShownBy(wire: WireNode, node: Node, handle: Handle, object_: Id)
  {
    || (wire.handle == handle && node.id == object_)
    || (wire.parent == Some(handle) && node.parent == Some(object_))
  }

  ghost predicate ShownAmong(wires: seq<WireNode>, nodes: seq<Node>, handle: Handle, object_: Id)
  {
    exists i :: 0 <= i < |wires| && i < |nodes| && ShownBy(wires[i], nodes[i], handle, object_)
  }

  /** A reply shows the agent a handle, for one of the objects of the helper's answer. */
  ghost predicate Shown(outcome: Outcome, kind: Kind, m: Match, handle: Handle, object_: Id)
  {
    match outcome
    case TreePageReply(_, root, wires, _) =>
      if kind.TreeKind? then
        || (root == handle && kind.projection.root == object_)
        || ShownAmong(wires, m.nodes, handle, object_)
      else
        m.root.id == object_ && (root == handle || exists i :: 0 <= i < |wires| && wires[i].handle == handle)
    case MatchesReply(_, wires, _) => ShownAmong(wires, m.nodes, handle, object_)
    case Refused(_) => false
  }

  /** What the answer's next offset becomes: the cursor its continuation stands for. */
  function CursorOf(kind: Kind, m: Match): (cursor: Option<Cursor>)
  {
    match kind
    case RootKind => None
    case TreeKind(_, request, _) => TreeNext(request, m.next)
    case SearchKind(_, request, _) => SearchNext(request, m.next)
  }

  function ContinuationOf(outcome: Outcome): (continuation: Option<nat>)
  {
    if outcome.Refused? then None else outcome.continuation
  }

  // ------------------------------------------------------- one reply

  lemma RevealedStandFor(t: Tree, wires: seq<WireNode>, nodes: seq<Node>, handle: Handle, object_: Id)
    requires RevealsAll(t, wires, nodes) && ShownAmong(wires, nodes, handle, object_)
    ensures StandsFor(t, handle, object_)
  {
    var i :| 0 <= i < |wires| && i < |nodes| && ShownBy(wires[i], nodes[i], handle, object_);
    assert Reveals(t, wires[i], nodes[i]);
  }

  /** The next page's cursor is live under the continuation that was returned, and no name moved. */
  lemma NextIsLive(t: Tree, source: Option<nat>, cursor: Option<Cursor>)
    requires WellFormed(t) && t.nextContinuation < U64_MAX
    ensures var (t', key) := IssueNext(Retire(t, source), cursor);
            && t'.generation == t.generation && t'.publicOf == t.publicOf && t'.internalOf == t.internalOf
            && (key.Some? <==> cursor.Some?)
            && (key.Some? ==> key.value in t'.continuations && t'.continuations[key.value] == cursor.value)
  {
  }

  /** A reply's handles stand for the answer's objects, in order, and its continuation for the answer's cursor. */
  ghost predicate Grounds(t: Tree, outcome: Outcome, kind: Kind, m: Match)
  {
    && (forall handle, object_ :: Shown(outcome, kind, m, handle, object_) ==> StandsFor(t, handle, object_))
    && (ContinuationOf(outcome).Some? <==> CursorOf(kind, m).Some?)
    && (ContinuationOf(outcome).Some? ==>
          && ContinuationOf(outcome).value in t.continuations
          && t.continuations[ContinuationOf(outcome).value] == CursorOf(kind, m).value)
    && match outcome
       case TreePageReply(generation, _, wires, _) =>
         generation == t.generation
         && (kind.TreeKind? ==> RevealsAll(t, wires, m.nodes) && KeepsParents(wires, m.nodes))
       case MatchesReply(generation, wires, _) => generation == t.generation && RevealsAll(t, wires, m.nodes)
       case Refused(_) => true
  }

  lemma TreeReplyIsGrounded(t: Tree, kind: Kind, m: Match)
    requires WellFormed(t) && Roomy(t, |m.nodes|) && kind.TreeKind?
    ensures var (t', outcome) := CompleteTree(t, kind.generation, kind.projection, kind.source, m);
            !outcome.Refused? ==> Grounds(t', outcome, kind, m)
  {
    hide ValidProjection, RevealsAll, KeepsParents, IssueNext, Retire, NameNodes;
    var (t', outcome) := CompleteTree(t, kind.generation, kind.projection, kind.source, m);
    if !outcome.Refused? {
      NamedNodesAreRevealed(t, m.nodes);
      var (named, wires) := NameNodes(t, m.nodes);
      NextIsLive(named, kind.source, TreeNext(kind.projection, m.next));
      SameMapsReveal(named, t', outcome.nodes, m.nodes);
      forall handle, object_ | Shown(outcome, kind, m, handle, object_) ensures StandsFor(t', handle, object_) {
        if ShownAmong(outcome.nodes, m.nodes, handle, object_) {
          RevealedStandFor(t', outcome.nodes, m.nodes, handle, object_);
        }
      }
    }
  }

  lemma SameMapsReveal(older: Tree, newer: Tree, wires: seq<WireNode>, nodes: seq<Node>)
    requires RevealsAll(older, wires, nodes) && newer.generation == older.generation && newer.internalOf == older.internalOf
    ensures RevealsAll(newer, wires, nodes)
  {
    forall i | 0 <= i < |nodes| ensures Reveals(newer, wires[i], nodes[i]) {
      assert Reveals(older, wires[i], nodes[i]);
    }
  }

  lemma SearchReplyIsGrounded(fold: Text -> Text, t: Tree, kind: Kind, m: Match)
    requires WellFormed(t) && Roomy(t, |m.nodes|) && kind.SearchKind?
    ensures var (t', outcome) := CompleteSearch(fold, t, kind.generation, kind.search, kind.source, m);
            !outcome.Refused? ==> Grounds(t', outcome, kind, m)
  {
    hide ValidSearch, RevealsAll, IssueNext, Retire, NameMatches;
    var (t', outcome) := CompleteSearch(fold, t, kind.generation, kind.search, kind.source, m);
    if !outcome.Refused? {
      MatchesAreNamed(t, m.nodes);
      var (named, wires) := NameMatches(t, m.nodes);
      NextIsLive(named, kind.source, SearchNext(kind.search, m.next));
      SameMapsReveal(named, t', outcome.matches, m.nodes);
      forall handle, object_ | Shown(outcome, kind, m, handle, object_) ensures StandsFor(t', handle, object_) {
        RevealedStandFor(t', outcome.matches, m.nodes, handle, object_);
      }
    }
  }

  /** Whatever the helper sent: every handle of a reply stands for its object, and its continuation for its cursor. */
  lemma RepliesAreGrounded(fold: Text -> Text, t: Option<Tree>, kind: Kind, m: Match)
    requires t.Some? ==> WellFormed(t.value) && Roomy(t.value, |m.nodes|)
    ensures var (t', outcome) := CompleteOn(fold, t, kind, m);
            !outcome.Refused? ==> t'.Some? && Grounds(t'.value, outcome, kind, m)
  {
    hide Grounds, CompleteTree, CompleteSearch, WellFormed;
    match kind
    case RootKind => RootReplyIsGrounded(t, m);
    case TreeKind(_, _, _) =>
      if t.Some? {
        TreeReplyIsGrounded(t.value, kind, m);
      }
    case SearchKind(_, _, _) =>
      if t.Some? {
        SearchReplyIsGrounded(fold, t.value, kind, m);
      }
  }

  lemma RootReplyIsGrounded(t: Option<Tree>, m: Match)
    ensures var (t', outcome) := CompleteRoot(t, m);
            !outcome.Refused? ==> t'.Some? && Grounds(t'.value, outcome, RootKind, m)
  {
  }

  // ------------------------------------------------- everything later

  /** The outcome the agent is sent for a completion. */
  function Reply(fold: Text -> Text, s: Trees, key: Key, kind: Kind, m: Match): (outcome: Outcome)
  {
    CompleteOn(fold, Lookup(s, key), kind, m).1
  }

  lemma AfterReply(fold: Text -> Text, s: Trees, key: Key, kind: Kind, m: Match)
    requires AllWellFormed(s) && Fits(s, Complete(key, kind, m)) && !Reply(fold, s, key, kind, m).Refused?
    ensures var s' := Apply(fold, s, Complete(key, kind, m));
            AllWellFormed(s') && key in s' && Grounds(s'[key], Reply(fold, s, key, kind, m), kind, m)
  {
    hide Grounds, WellFormed, CompleteOn;
    RepliesAreGrounded(fold, Lookup(s, key), kind, m);
    StepKeeps(fold, s, Complete(key, kind, m));
  }

  /**
   From the reply that showed it until its key is forgotten, a handle resolves to the object it was shown
   for while its generation is current, and to a refusal naming the current generation afterwards.
   */
  lemma IssuedHandleLifetime(fold: Text -> Text, s: Trees, key: Key, kind: Kind, m: Match, handle: Handle, object_: Id,
                             ops: seq<Op>, maxNodes: nat, maxDepth: nat)
    requires AllWellFormed(s) && Fits(s, Complete(key, kind, m))
    requires Shown(Reply(fold, s, key, kind, m), kind, m, handle, object_)
    requires RunFits(fold, Apply(fold, s, Complete(key, kind, m)), ops) && forall op :: op in ops ==> !Forgets(op, key)
    ensures var s' := Run(fold, Apply(fold, s, Complete(key, kind, m)), ops);
            key in s' &&
            var answer := PrepareOn(Some(s'[key]), TreeCall(Some(handle), None, maxNodes, maxDepth));
            && (s'[key].generation == handle.tree ==>
                  answer == Good(TreeKind(handle.tree, ProjectionRequest(object_, 0, maxNodes, maxDepth), None)))
            && (s'[key].generation != handle.tree ==> answer == Bad(StaleTree(s'[key].generation)))
  {
    AfterReply(fold, s, key, kind, m);
    hide Apply, Run, AllWellFormed, RunFits, Fits, CompleteOn;
    HandleLifetime(fold, Apply(fold, s, Complete(key, kind, m)), ops, key, handle, maxNodes, maxDepth);
  }

  /**
   Within the generation of the reply that carried it, a continuation resolves to exactly where that page
   stopped, by a call of its own kind, or is stale.
   */
  lemma IssuedContinuationLifetime(fold: Text -> Text, s: Trees, key: Key, kind: Kind, m: Match, continuation: nat,
                                   ops: seq<Op>, size: nat, maxDepth: nat, query: Query)
    requires AllWellFormed(s) && Fits(s, Complete(key, kind, m))
    requires ContinuationOf(Reply(fold, s, key, kind, m)) == Some(continuation)
    requires RunFits(fold, Apply(fold, s, Complete(key, kind, m)), ops) && forall op :: op in ops ==> !Forgets(op, key)
    requires var s' := Run(fold, Apply(fold, s, Complete(key, kind, m)), ops);
             key in s' ==> s'[key].generation == Reply(fold, s, key, kind, m).generation
    ensures m.next.Some? && !kind.RootKind?
    ensures var s' := Run(fold, Apply(fold, s, Complete(key, kind, m)), ops);
            key in s' &&
            var t := s'[key];
            var tree := PrepareOn(Some(t), TreeCall(None, Some(continuation), size, maxDepth));
            var found := PrepareOn(Some(t), FindCall(query, Some(continuation), size));
            if continuation !in t.continuations then tree == found == Bad(StaleTree(t.generation))
            else if kind.TreeKind? then
              && tree == Good(TreeKind(t.generation, ProjectionRequest(kind.projection.root, m.next.value, size,
                                                                       kind.projection.maxDepth), Some(continuation)))
              && found == Bad(StaleTree(t.generation))
            else
              && found == Good(SearchKind(t.generation, SearchRequest(m.next.value, size, kind.search.query), Some(continuation)))
              && tree == Bad(StaleTree(t.generation))
  {
    AfterReply(fold, s, key, kind, m);
    hide Apply, Run, AllWellFormed, RunFits, Fits, CompleteOn;
    ContinuationLifetime(fold, Apply(fold, s, Complete(key, kind, m)), ops, key, continuation, size, maxDepth, query);
  }

  // ------------------------------------------------- across a forget

  /** A tree of the handle's own generation gives the handle's number to another object. */
  predicate Aliased(s: Trees, key: Key, handle: Handle, object_: Id)
  {
    && key in s && s[key].generation == handle.tree
    && handle.node in s[key].internalOf && s[key].internalOf[handle.node] != object_
  }

  /** No run makes a shown handle mean another object without forgetting the tree it belongs to. */
  lemma AliasingTakesAForget(fold: Text -> Text, s: Trees, key: Key, kind: Kind, m: Match, handle: Handle, object_: Id,
                             ops: seq<Op>)
    requires AllWellFormed(s) && Fits(s, Complete(key, kind, m))
    requires Shown(Reply(fold, s, key, kind, m), kind, m, handle, object_)
    requires RunFits(fold, Apply(fold, s, Complete(key, kind, m)), ops)
    requires Aliased(Run(fold, Apply(fold, s, Complete(key, kind, m)), ops), key, handle, object_)
    ensures exists op :: op in ops && Forgets(op, key)
  {
    hide Apply, Run, AllWellFormed, RunFits, Fits, CompleteOn;
    if forall op :: op in ops ==> !Forgets(op, key) {
      IssuedHandleLifetime(fold, s, key, kind, m, handle, object_, ops, 1, 0);
      assert false;
    }
  }

  /** What a kept handle is answered with over any run: another object exactly when it is aliased, else its own, or a refusal. */
  lemma HandlesAliasExactlyWhen(fold: Text -> Text, s: Trees, key: Key, kind: Kind, m: Match, handle: Handle, object_: Id,
                                ops: seq<Op>, maxNodes: nat, maxDepth: nat)
    requires AllWellFormed(s) && Fits(s, Complete(key, kind, m))
    requires Shown(Reply(fold, s, key, kind, m), kind, m, handle, object_)
    requires RunFits(fold, Apply(fold, s, Complete(key, kind, m)), ops)
    ensures var s' := Run(fold, Apply(fold, s, Complete(key, kind, m)), ops);
            var answer := PrepareOn(Lookup(s', key), TreeCall(Some(handle), None, maxNodes, maxDepth));
            var own := Good(TreeKind(handle.tree, ProjectionRequest(object_, 0, maxNodes, maxDepth), None));
            && (Aliased(s', key, handle, object_) <==> answer.Good? && answer != own)
            && (Aliased(s', key, handle, object_) ==> exists op :: op in ops && Forgets(op, key))
            && (answer.Bad? <==> key !in s' || s'[key].generation != handle.tree || handle.node !in s'[key].internalOf)
            && (answer.Bad? ==> answer.error == if key in s' then StaleTree(s'[key].generation) else Unavailable)
  {
    hide Apply, Run, AllWellFormed, RunFits, Fits, CompleteOn;
    if Aliased(Run(fold, Apply(fold, s, Complete(key, kind, m)), ops), key, handle, object_) {
      AliasingTakesAForget(fold, s, key, kind, m, handle, object_, ops);
    }
  }
}
