/**
 Which objects a later page can start from: exactly those of the deepest walk of the matched root, which
 is not every object an earlier page has shown.
 */
module Locating {
  import opened Basics
  import opened ObjectGraph
  import opened Walk
  import opened Projection
  import opened SemanticTree
  import opened Pipeline
  import opened Issued

  ghost predicate InDeepestWalk(h: Helper, object_: Id)
  {
    exists i :: 0 <= i < |h.SearchTrace().visits| && h.SearchTrace().visits[i].id == object_
  }

  /** An object can be located exactly when the deepest walk of the matched root admits it, and then as itself. */
  lemma LocatableExactly(h: Helper, object_: Id)
    requires h.Honest() && h.SearchTrace().complete
    ensures Start(h.d, h.matched, object_).Ok? <==> InDeepestWalk(h, object_)
  {
    LocatesExactlyTheWalk(h.d, h.matched, object_);
    if object_ == h.root.id {
      assert h.TreeTrace(object_, MAX_PROJECTED_DEPTH) == h.SearchTrace();
      LocatedIsVisited(h, object_, MAX_PROJECTED_DEPTH);
      assert h.SearchTrace().visits[0].id == object_;
    }
    hide WalkFrom, Seek;
  }

  /** A page read from a handle can be answered only if the handle's object is in the deepest walk of the matched root. */
  lemma HandleIsLocatableExactly(h: Helper, t: Tree, handle: Handle, object_: Id, maxNodes: nat, maxDepth: nat)
    requires h.Honest() && h.SearchTrace().complete && StandsFor(t, handle, object_)
    ensures var prepared := PrepareOn(Some(t), TreeCall(Some(handle), None, maxNodes, maxDepth));
            && prepared == Good(TreeKind(t.generation, ProjectionRequest(object_, 0, maxNodes, maxDepth), None))
            && (Start(h.d, h.matched, prepared.value.projection.root).Ok? <==> InDeepestWalk(h, object_))
            && (!InDeepestWalk(h, object_) ==> h.TreeAnswer(prepared.value.projection).Err?)
  {
    LocatableExactly(h, object_);
    hide Start;
  }

  // ------------------------------------------------ an object out of reach

  /** One object below another, one deeper than a walk from the first can go. */
  const LAST: nat := MAX_PROJECTED_DEPTH + 1

  function Link(k: nat): (ref: Ref)
  {
    Ref(Some("a"), seq(k, _ => '/'))
  }

  function Answer(k: nat): (a: Accessible)
  {
    Accessible(Some(if k < LAST then [Link(k + 1)] else []), Some(BackendRole(0, false)), Some({}), Some([]), None)
  }

  function Chain(): (d: Desktop)
  {
    Desktop((r: Ref) => |r.path| + 1, map["a" := 1], {1},
            map r: Ref | r in (set k | 0 <= k <= LAST :: Link(k)) :: Answer(|r.path|))
  }

  lemma ChainLinks(k: nat)
    requires k <= LAST
    ensures var d := Chain();
            && d.hash(Link(k)) == k + 1 && d.IsTarget(Link(k)) == Some(true) && d.ObjectId(Link(k)) == Some(k + 1)
            && Link(k) in d.objects && d.objects[Link(k)] == Answer(k)
            && d.Children(Link(k)) == Some(if k < LAST then [Link(k + 1)] else [])
  {
    assert |Link(k).path| == k;
    assert Link(k) in (set j | 0 <= j <= LAST :: Link(j));
  }

  function VisitOf(k: nat, parent: Option<Id>, depth: nat): (visit: Visit)
  {
    Visit(Link(k), k + 1, parent, depth, Answer(k).children)
  }

  lemma ChainExamined(scan: Scan, visited: set<Id>, k: nat)
    requires k <= LAST && scan.count < MAX_SCANNED_NODES && k + 1 !in visited
    requires k + 1 in scan.identities ==> scan.identities[k + 1] == Link(k)
    ensures Examine(Chain(), scan, visited, Link(k)) == Fresh(k + 1, Scan(scan.identities[k + 1 := Link(k)], scan.count + 1))
  {
    ChainLinks(k);
  }

  /** One link of the walk, and the rest of it below. */
  lemma ChainStep(maxDepth: nat, scan: Scan, visited: set<Id>, k: nat, parent: Option<Id>, depth: nat)
    requires k <= LAST && depth <= maxDepth && scan.count < MAX_SCANNED_NODES
    requires k + 1 !in visited && (k + 1 in scan.identities ==> scan.identities[k + 1] == Link(k))
    ensures var t := Drain(Chain(), maxDepth, scan, visited, [Item(Link(k), parent, depth)]);
            if k < LAST && depth < maxDepth then
              var rest := Drain(Chain(), maxDepth, Scan(scan.identities[k + 1 := Link(k)], scan.count + 1), visited + {k + 1},
                                [Item(Link(k + 1), Some(k + 1), depth + 1)]);
              t == Trace([VisitOf(k, parent, depth)] + rest.visits, rest.complete)
            else t == Trace([VisitOf(k, parent, depth)], true)
  {
    ChainLinks(k);
    ChainExamined(scan, visited, k);
    hide Chain, Examine, Link;
    var queue := [Item(Link(k), parent, depth)];
    assert queue[1..] == [];
    if k < LAST && depth < maxDepth {
      assert Grown(queue[1..], [Link(k + 1)], k + 1, depth, maxDepth) == [Item(Link(k + 1), Some(k + 1), depth + 1)];
    } else {
      assert Grown(queue[1..], Chain().Children(Link(k)).value, k + 1, depth, maxDepth) == [];
    }
  }

  ghost predicate FollowsChain(t: Trace, k: nat, length: nat)
  {
    && t.complete && |t.visits| == length
    && forall i :: 0 <= i < length ==>
         t.visits[i].id == k + i + 1 && t.visits[i].ref == Link(k + i) && t.visits[i].children == Answer(k + i).children
  }

  /** A walk of the chain admits link after link until its depth or the chain ends. */
  lemma {:induction false} ChainWalk(maxDepth: nat, scan: Scan, visited: set<Id>, k: nat, parent: Option<Id>, depth: nat)
    requires k <= LAST && depth <= maxDepth && scan.count + LAST + 1 - k <= MAX_SCANNED_NODES
    requires forall id :: id in visited ==> id <= k
    requires forall id :: id in scan.identities ==> id <= k || (id == k + 1 && scan.identities[id] == Link(k))
    ensures FollowsChain(Drain(Chain(), maxDepth, scan, visited, [Item(Link(k), parent, depth)]), k,
                         1 + (if LAST - k <= maxDepth - depth then LAST - k else maxDepth - depth))
    decreases LAST - k
  {
    hide Chain, Link, Drain, Answer;
    ChainStep(maxDepth, scan, visited, k, parent, depth);
    if k < LAST && depth < maxDepth {
      ChainWalk(maxDepth, Scan(scan.identities[k + 1 := Link(k)], scan.count + 1), visited + {k + 1}, k + 1, Some(k + 1), depth + 1);
    }
  }

  /** A helper that matched the head of the chain. */
  function ChainHelper(): (h: Helper)
  {
    Helper(Chain(), Link(0), Rect(0, 0, 1, 1), Root(1, 0, None, [], Rect(0, 0, 1, 1), 1), text => text)
  }

  lemma ChainIsHonest()
    ensures ChainHelper().Honest()
  {
    ChainLinks(0);
    hide Chain, Link;
  }

  /** Locating the second link spends two of the budget and registers two links. */
  lemma SecondLinkIsLocated()
    ensures Start(Chain(), Link(0), 2) == Ok((Link(1), Scan(map[1 := Link(0)][2 := Link(1)], 2)))
  {
    ChainLinks(0);
    ChainLinks(1);
    ChainExamined(FRESH_SCAN, {}, 0);
    var one := Scan(map[1 := Link(0)], 1);
    assert map[][1 := Link(0)] == map[1 := Link(0)];
    ChainExamined(one, {1}, 1);
    hide Chain, Link, Examine;
    var queue, next := [Item(Link(0), None, 0)], [Item(Link(1), Some(1), 1)];
    assert queue[1..] == [];
    assert Grown(queue[1..], [Link(1)], 1, 0, MAX_PROJECTED_DEPTH) == next;
    assert {} + {1} == {1};
    assert Seek(Chain(), FRESH_SCAN, {}, queue, 2) == Seek(Chain(), one, {1}, next, 2);
  }

  lemma ChainNodes(visits: seq<Visit>, k: nat, length: nat)
    requires FollowsChain(Trace(visits, true), k, length) && k + length <= LAST + 1
    ensures Details(Chain(), Rect(0, 0, 1, 1), visits).Some?
  {
    forall i | 0 <= i < length ensures NodeOf(Chain(), Rect(0, 0, 1, 1), visits[i]).Some? {
      ChainLinks(k + i);
      hide Chain, Link;
    }
    hide NodeOf;
  }

  /**
   A page can show what no page can start from: read from the second link, one page shows the whole chain
   below it, the last link included, which lies too deep below the matched root to be located.
   */
  lemma ShownButOutOfReach()
    ensures var h := ChainHelper();
            var p := ProjectionRequest(2, 0, LAST, MAX_PROJECTED_DEPTH);
            && h.Honest() && h.SearchTrace().complete
            && h.TreeAnswer(p).Ok? && |h.TreeAnswer(p).value.nodes| == LAST
            && h.TreeAnswer(p).value.nodes[LAST - 1].id == LAST + 1
            && !InDeepestWalk(h, LAST + 1) && Start(h.d, h.matched, LAST + 1).Err?
  {
    var h := ChainHelper();
    ChainIsHonest();
    LastIsOutOfReach();
    LastIsShown();
    hide Chain, Link, ChainHelper, Start;
    LocatableExactly(h, LAST + 1);
  }

  lemma LastIsOutOfReach()
    ensures ChainHelper().SearchTrace().complete && !InDeepestWalk(ChainHelper(), LAST + 1)
  {
    ChainWalk(MAX_PROJECTED_DEPTH, FRESH_SCAN, {}, 0, None, 0);
    hide Chain, Link, Drain;
  }

  lemma LastIsShown()
    ensures var m := ChainHelper().TreeAnswer(ProjectionRequest(2, 0, LAST, MAX_PROJECTED_DEPTH));
            m.Ok? && |m.value.nodes| == LAST && m.value.nodes[LAST - 1].id == LAST + 1
  {
    var h := ChainHelper();
    var p := ProjectionRequest(2, 0, LAST, MAX_PROJECTED_DEPTH);
    SecondLinkIsLocated();
    var scan := Scan(map[1 := Link(0)][2 := Link(1)], 2);
    ChainWalk(MAX_PROJECTED_DEPTH, scan, {}, 1, None, 0);
    var t := h.TreeTrace(2, MAX_PROJECTED_DEPTH);
    hide Chain, Link, Drain, Start, Answer;
    assert FollowsChain(t, 1, LAST);
    assert t.visits[0..] == t.visits;
    ChainNodes(t.visits, 1, LAST);
    assert t.visits[LAST - 1].id == LAST + 1;
    LastNode(h.d, h.origin, t.visits);
  }

  lemma LastNode(d: Desktop, origin: Rect, visits: seq<Visit>)
    requires visits != [] && Details(d, origin, visits).Some?
    ensures var nodes := Details(d, origin, visits).value;
            |nodes| == |visits| && nodes[|visits| - 1].id == visits[|visits| - 1].id
  {
    NodeIsBounded(d, origin, visits[|visits| - 1]);
    hide NodeOf;
  }
}
