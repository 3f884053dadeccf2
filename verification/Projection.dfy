/**
 The helper's three walks as it runs them: locating a subtree root, projecting one page of a subtree
 and searching one page of the matched root. Each loop is proved to compute a window on the trace
 of module Walk.
 */
module Projection {
  import opened Basics
  import opened ObjectGraph
  import opened Walk

  datatype ProjectionRequest = ProjectionRequest(root: Id, offset: nat, maxNodes: nat, maxDepth: nat)
  datatype Query = Query(name: Option<Text>, roles: seq<nat>, states: seq<NodeState>)
  datatype SearchRequest = SearchRequest(offset: nat, maxResults: nat, query: Query)

  /** One page and the breadth-first offset of the next, absent once the walk is complete. */
  datatype Page = Page(nodes: seq<Node>, next: Option<nat>)

  // ------------------------------------------------------ node details

  /** The node built for an admitted object, unless one of the calls it needs fails. */
  function NodeOf(d: Desktop, origin: Rect, visit: Visit): (node: Option<Node>)
  {
    if visit.ref !in d.objects then None
    else
      var reported := d.objects[visit.ref];
      if reported.role.None? || reported.flags.None? || reported.name.None? then None
      else if visit.children.None? || |visit.children.value| > U32_MAX then None
      else
        Some(Node(visit.id, visit.parent, visit.depth, reported.role.value.portable, BoundedName(reported.name.value),
                  StatesFrom(0, reported.flags.value, reported.role.value.password),
                  ProjectedBounds(reported.extents, origin), |visit.children.value|))
  }

  /** A node keeps its visit's place in the walk and meets every bound the manager checks again. */
  lemma NodeIsBounded(d: Desktop, origin: Rect, visit: Visit)
    requires NodeOf(d, origin, visit).Some?
    ensures var node := NodeOf(d, origin, visit).value;
            && node.id == visit.id && node.parent == visit.parent && node.depth == visit.depth
            && (node.name.Some? ==> |node.name.value| <= MAX_NAME_BYTES)
            && OrderedStates(node.states)
            && (node.bounds.Some? ==> node.bounds.value.width > 0 && node.bounds.value.height > 0)
  {
  }

  predicate Built(d: Desktop, origin: Rect, visits: seq<Visit>)
  {
    forall i :: 0 <= i < |visits| ==> NodeOf(d, origin, visits[i]).Some?
  }

  /** The nodes of consecutive visits, when every one of them can be built. */
  function Details(d: Desktop, origin: Rect, visits: seq<Visit>): (nodes: Option<seq<Node>>)
    ensures nodes.Some? <==> Built(d, origin, visits)
    ensures nodes.Some? ==> |nodes.value| == |visits|
    ensures nodes.Some? ==> forall i :: 0 <= i < |visits| ==> NodeOf(d, origin, visits[i]) == Some(nodes.value[i])
  {
    if Built(d, origin, visits)
    then Some(seq(|visits|, i requires 0 <= i < |visits| && Built(d, origin, visits) => NodeOf(d, origin, visits[i]).value))
    else None
  }

  lemma BuiltConcat(d: Desktop, origin: Rect, left: seq<Visit>, right: seq<Visit>)
    ensures Built(d, origin, left + right) <==> Built(d, origin, left) && Built(d, origin, right)
  {
    hide NodeOf;
    var both := left + right;
    assert forall i :: 0 <= i < |left| ==> both[i] == left[i];
    assert forall i :: 0 <= i < |right| ==> both[|left| + i] == right[i];
    if Built(d, origin, both) {
      assert forall i :: 0 <= i < |right| ==> NodeOf(d, origin, right[i]) == NodeOf(d, origin, both[|left| + i]);
    }
  }

  lemma DetailsConcat(d: Desktop, origin: Rect, left: seq<Visit>, right: seq<Visit>)
    ensures Details(d, origin, left + right)
         == if Details(d, origin, left).None? || Details(d, origin, right).None? then None
            else Some(Details(d, origin, left).value + Details(d, origin, right).value)
  {
    BuiltConcat(d, origin, left, right);
    hide NodeOf, Built;
    if Built(d, origin, left + right) {
      assert Details(d, origin, left + right).value == Details(d, origin, left).value + Details(d, origin, right).value;
    }
  }

  lemma FailedDetail(d: Desktop, origin: Rect, visits: seq<Visit>, from: nat, failed: nat, end: nat)
    requires from <= failed < end <= |visits| && NodeOf(d, origin, visits[failed]) == None
    ensures Details(d, origin, visits[from..end]) == None
  {
    hide NodeOf;
    assert visits[from..end][failed - from] == visits[failed];
  }

  // ------------------------------------------------- pages of a trace

  /** Visits `offset` to `offset + max`, as one page: full with a successor, or the end of the walk. */
  function TreePage(d: Desktop, origin: Rect, t: Trace, offset: nat, max: nat): (r: Result<Page>)
  {
    var n := |t.visits|;
    if offset + max < n then
      var nodes := Details(d, origin, t.visits[offset..offset + max]);
      if nodes.None? then Err else Ok(Page(nodes.value, Some(offset + max)))
    else if !t.complete then Err
    else
      var nodes := Details(d, origin, if offset <= n then t.visits[offset..] else []);
      if nodes.None? then Err else Ok(Page(nodes.value, None))
  }

  predicate OccursAt(text: Text, needle: Text, at: nat)
  {
    at + |needle| <= |text| && text[at..at + |needle|] == needle
  }

  predicate Contains(text: Text, needle: Text)
  {
    exists at :: 0 <= at <= |text| && OccursAt(text, needle, at)
  }

  /** The search predicate: folded name substring, any listed role, every listed state. */
  predicate Matches(fold: Text -> Text, query: Query, node: Node)
  {
    && (query.name.Some? ==> node.name.Some? && Contains(fold(node.name.value), fold(query.name.value)))
    && (query.roles == [] || node.role in query.roles)
    && (forall state :: state in query.states ==> state in node.states)
  }

  /** The matching nodes, in order. */
  function Hits(fold: Text -> Text, query: Query, nodes: seq<Node>): (hits: seq<Node>)
    ensures |hits| <= |nodes|
    ensures forall node :: node in hits ==> node in nodes && Matches(fold, query, node)
  {
    if nodes == [] then []
    else
      var last := |nodes| - 1;
      Hits(fold, query, nodes[..last]) + (if Matches(fold, query, nodes[last]) then [nodes[last]] else [])
  }

  lemma {:induction false} HitsConcat(fold: Text -> Text, query: Query, left: seq<Node>, right: seq<Node>)
    ensures Hits(fold, query, left + right) == Hits(fold, query, left) + Hits(fold, query, right)
  {
    if right == [] {
      assert left + right == left;
    } else {
      var last := |right| - 1;
      assert (left + right)[..|left + right| - 1] == left + right[..last];
      HitsConcat(fold, query, left, right[..last]);
    }
  }

  /** Where a search page starting at `from` stops: after its `max`-th hit, or at the end of the trace. */
  function HitEnd(d: Desktop, origin: Rect, fold: Text -> Text, query: Query, visits: seq<Visit>, from: nat, max: nat)
    : (end: nat)
    requires from <= |visits|
    ensures from <= end <= |visits|
    decreases |visits| - from
  {
    if from == |visits| || max == 0 then from
    else
      var node := NodeOf(d, origin, visits[from]);
      var hit := node.Some? && Matches(fold, query, node.value);
      HitEnd(d, origin, fold, query, visits, from + 1, if hit then max - 1 else max)
  }

  /** The hits from `offset` up to the page's end, with a successor while visits remain. */
  function SearchPage(d: Desktop, origin: Rect, fold: Text -> Text, query: Query, t: Trace, offset: nat, max: nat)
    : (r: Result<Page>)
  {
    var n := |t.visits|;
    if n < offset then if t.complete then Ok(Page([], None)) else Err
    else
      var end := HitEnd(d, origin, fold, query, t.visits, offset, max);
      var nodes := Details(d, origin, t.visits[offset..end]);
      if nodes.None? then Err
      else if end < n then Ok(Page(Hits(fold, query, nodes.value), Some(end)))
      else if t.complete then Ok(Page(Hits(fold, query, nodes.value), None))
      else Err
  }

  lemma HitEndStep(d: Desktop, origin: Rect, fold: Text -> Text, query: Query, visits: seq<Visit>, from: nat, max: nat)
    requires from < |visits| && max > 0
    ensures var node := NodeOf(d, origin, visits[from]);
            var rest := if node.Some? && Matches(fold, query, node.value) then max - 1 else max;
            HitEnd(d, origin, fold, query, visits, from, max) == HitEnd(d, origin, fold, query, visits, from + 1, rest)
  {
  }

  lemma HeadOfStretch(visits: seq<Visit>, from: nat, end: nat)
    requires from < end <= |visits|
    ensures visits[from..end] == [visits[from]] + visits[from + 1..end]
  {
  }

  /** A page holds at most `max` hits, and exactly `max` whenever it stops before the end. */
  lemma {:induction false} HitEndIsFull(d: Desktop, origin: Rect, fold: Text -> Text, query: Query, visits: seq<Visit>,
                                        from: nat, max: nat)
    requires from <= |visits|
    ensures var end := HitEnd(d, origin, fold, query, visits, from, max);
            var nodes := Details(d, origin, visits[from..end]);
            nodes.Some? ==>
              && |Hits(fold, query, nodes.value)| <= max
              && (end < |visits| ==> |Hits(fold, query, nodes.value)| == max)
    decreases |visits| - from
  {
    hide NodeOf, Matches, Details, Hits;
    var end := HitEnd(d, origin, fold, query, visits, from, max);
    if from == |visits| || max == 0 {
      assert visits[from..end] == [];
      NoDetails(d, origin, fold, query);
      return;
    }
    var node := NodeOf(d, origin, visits[from]);
    var hit := node.Some? && Matches(fold, query, node.value);
    HitEndIsFull(d, origin, fold, query, visits, from + 1, if hit then max - 1 else max);
    HitEndStep(d, origin, fold, query, visits, from, max);
    HeadOfStretch(visits, from, end);
    DetailsConcat(d, origin, [visits[from]], visits[from + 1..end]);
    DetailsOne(d, origin, visits[from]);
    var nodes := Details(d, origin, visits[from..end]);
    if nodes.Some? {
      assert Details(d, origin, [visits[from]]) == Some([node.value]);
      HitsOne(fold, query, node.value);
      HitsConcat(fold, query, [node.value], Details(d, origin, visits[from + 1..end]).value);
    }
  }

  lemma DetailsOne(d: Desktop, origin: Rect, visit: Visit)
    ensures NodeOf(d, origin, visit).Some? ==> Details(d, origin, [visit]) == Some([NodeOf(d, origin, visit).value])
    ensures NodeOf(d, origin, visit).None? ==> Details(d, origin, [visit]) == None
  {
    hide NodeOf;
    var nodes := Details(d, origin, [visit]);
    assert [visit][0] == visit;
    if nodes.Some? {
      assert nodes.value == [NodeOf(d, origin, visit).value];
    }
  }

  lemma NoDetails(d: Desktop, origin: Rect, fold: Text -> Text, query: Query)
    ensures Details(d, origin, []) == Some([]) && Hits(fold, query, []) == []
  {
    assert Details(d, origin, []).value == [];
  }

  lemma HitsOne(fold: Text -> Text, query: Query, node: Node)
    ensures Hits(fold, query, [node]) == if Matches(fold, query, node) then [node] else []
  {
    assert [node][..0] == [];
  }

  // -------------------------------------- what a page says of its objects

  /** A node tells of a visit: its place in the walk, and what its object reports. */
  ghost predicate Tells(d: Desktop, origin: Rect, visit: Visit, node: Node)
  {
    && node.id == visit.id && node.parent == visit.parent && node.depth == visit.depth
    && Reports(d, origin, visit.ref, node.role, node.name, node.states, node.bounds, node.childCount)
  }

  ghost predicate TellsAll(d: Desktop, origin: Rect, visits: seq<Visit>, nodes: seq<Node>)
  {
    |nodes| == |visits| && forall i :: 0 <= i < |nodes| ==> Tells(d, origin, visits[i], nodes[i])
  }

  ghost predicate AnswerAll(d: Desktop, visits: seq<Visit>)
  {
    forall i :: 0 <= i < |visits| ==> Answers(d, visits[i].ref)
  }

  /** Every visit of a walk carries the child list its object answers with. */
  ghost predicate Recorded(d: Desktop, visits: seq<Visit>)
  {
    forall i :: 0 <= i < |visits| ==> visits[i].children == d.Children(visits[i].ref)
  }

  lemma WalkIsRecorded(d: Desktop, scan: Scan, root: Ref, maxDepth: nat)
    requires scan.count <= MAX_SCANNED_NODES
    ensures Recorded(d, WalkFrom(d, scan, root, maxDepth).visits)
  {
    WalkIsSound(d, scan, root, maxDepth);
  }

  /** A node can be built exactly when every call it needs is answered, and then it tells of its object. */
  lemma NodeTells(d: Desktop, origin: Rect, visit: Visit)
    requires visit.children == d.Children(visit.ref)
    ensures NodeOf(d, origin, visit).Some? <==> Answers(d, visit.ref)
    ensures NodeOf(d, origin, visit).Some? ==> Tells(d, origin, visit, NodeOf(d, origin, visit).value)
  {
    if NodeOf(d, origin, visit).Some? {
      var own := d.objects[visit.ref];
      BoundedNameReports(own.name.value);
      StatesFromReports(own.flags.value, own.role.value.password);
      ProjectedBoundsReport(own.extents, origin);
    }
    hide NameReported, StatesReported, BoundsReported, BoundedName, StatesFrom, ProjectedBounds;
  }

  lemma DetailsTell(d: Desktop, origin: Rect, visits: seq<Visit>)
    requires Recorded(d, visits)
    ensures Details(d, origin, visits).Some? <==> AnswerAll(d, visits)
    ensures Details(d, origin, visits).Some? ==> TellsAll(d, origin, visits, Details(d, origin, visits).value)
  {
    hide NodeOf, Tells, Answers;
    forall i | 0 <= i < |visits|
      ensures NodeOf(d, origin, visits[i]).Some? <==> Answers(d, visits[i].ref)
      ensures NodeOf(d, origin, visits[i]).Some? ==> Tells(d, origin, visits[i], NodeOf(d, origin, visits[i]).value)
    {
      NodeTells(d, origin, visits[i]);
    }
  }

  /** A page of a walk: there exactly when its objects answer and the walk did not break off in it, and then telling of each. */
  ghost predicate TreePageReports(d: Desktop, origin: Rect, t: Trace, offset: nat, max: nat, r: Result<Page>)
  {
    var n := |t.visits|;
    var window := if n < offset then [] else if offset + max < n then t.visits[offset..offset + max] else t.visits[offset..];
    && (r.Ok? <==> (offset + max < n || t.complete) && AnswerAll(d, window))
    && (r.Ok? ==>
          && TellsAll(d, origin, window, r.value.nodes)
          && r.value.next == if offset + max < n then Some(offset + max) else None)
  }

  lemma TreePageTells(d: Desktop, origin: Rect, t: Trace, offset: nat, max: nat)
    requires Recorded(d, t.visits)
    ensures TreePageReports(d, origin, t, offset, max, TreePage(d, origin, t, offset, max))
  {
    hide Details, TellsAll, AnswerAll;
    var n := |t.visits|;
    DetailsTell(d, origin,
                if n < offset then [] else if offset + max < n then t.visits[offset..offset + max] else t.visits[offset..]);
  }

  /** The folded name holds the folded wanted name somewhere. */
  ghost predicate Holding(text: Text, wanted: Text)
  {
    exists left: Text, right: Text :: text == left + wanted + right
  }

  /** What an agent asks for: every filter it gave is met. */
  ghost predicate Asked(fold: Text -> Text, query: Query, node: Node)
  {
    && (query.name.Some? ==> node.name.Some? && Holding(fold(node.name.value), fold(query.name.value)))
    && (query.roles != [] ==> exists i :: 0 <= i < |query.roles| && query.roles[i] == node.role)
    && (forall i :: 0 <= i < |query.states| ==> query.states[i] in node.states)
  }

  /** The search test passes exactly the nodes that are asked for. */
  lemma MatchesExactly(fold: Text -> Text, query: Query, node: Node)
    ensures Matches(fold, query, node) <==> Asked(fold, query, node)
  {
    if query.name.Some? && node.name.Some? {
      ContainsExactly(fold(node.name.value), fold(query.name.value));
    }
    hide Contains, Holding;
  }

  lemma ContainsExactly(text: Text, wanted: Text)
    ensures Contains(text, wanted) <==> Holding(text, wanted)
  {
    if Contains(text, wanted) {
      var at :| 0 <= at <= |text| && OccursAt(text, wanted, at);
      assert text == text[..at] + wanted + text[at + |wanted|..];
    }
    if Holding(text, wanted) {
      var left: Text, right: Text :| text == left + wanted + right;
      assert text[|left|..|left| + |wanted|] == wanted;
      assert OccursAt(text, wanted, |left|);
    }
  }

  /** Exactly the nodes asked for, in their order. */
  ghost predicate PicksAsked(fold: Text -> Text, query: Query, all: seq<Node>, picked: seq<Node>, at: seq<nat>)
  {
    PickedAt(picked, all, at) && forall k :: 0 <= k < |all| ==> (k in at <==> Asked(fold, query, all[k]))
  }

  lemma {:induction false} HitsAreAsked(fold: Text -> Text, query: Query, nodes: seq<Node>) returns (at: seq<nat>)
    ensures PicksAsked(fold, query, nodes, Hits(fold, query, nodes), at)
  {
    hide Asked, Matches;
    if nodes == [] {
      return [];
    }
    var last := |nodes| - 1;
    var before := HitsAreAsked(fold, query, nodes[..last]);
    MatchesExactly(fold, query, nodes[last]);
    at := if Matches(fold, query, nodes[last]) then before + [last] else before;
    PickLast(fold, query, nodes, Hits(fold, query, nodes[..last]), before);
  }

  /** One more node picks one more hit or none. */
  lemma PickLast(fold: Text -> Text, query: Query, nodes: seq<Node>, hits: seq<Node>, at: seq<nat>)
    requires nodes != [] && PicksAsked(fold, query, nodes[..|nodes| - 1], hits, at)
    ensures var last := |nodes| - 1;
            if Asked(fold, query, nodes[last]) then PicksAsked(fold, query, nodes, hits + [nodes[last]], at + [last])
            else PicksAsked(fold, query, nodes, hits, at)
  {
    hide Asked;
    var last := |nodes| - 1;
    var front := nodes[..last];
    assert forall k :: 0 <= k < last ==> front[k] == nodes[k];
    assert last !in at;
    forall k | 0 <= k < last ensures k in at <==> Asked(fold, query, nodes[k]) {
      assert k in at <==> Asked(fold, query, front[k]);
    }
    var longer := at + [last];
    assert forall k :: k in longer <==> k in at || k == last;
  }

  /** The nodes a search yields from a stretch of visits: those asked for among the ones that tell of it. */
  ghost predicate Yields(d: Desktop, origin: Rect, fold: Text -> Text, query: Query, visits: seq<Visit>, hits: seq<Node>)
  {
    exists all: seq<Node>, at: seq<nat> :: TellsAll(d, origin, visits, all) && PicksAsked(fold, query, all, hits, at)
  }

  lemma DetailsYield(d: Desktop, origin: Rect, fold: Text -> Text, query: Query, visits: seq<Visit>)
    requires Recorded(d, visits) && Details(d, origin, visits).Some?
    ensures Yields(d, origin, fold, query, visits, Hits(fold, query, Details(d, origin, visits).value))
  {
    hide TellsAll, PicksAsked, Details, Hits;
    DetailsTell(d, origin, visits);
    var at := HitsAreAsked(fold, query, Details(d, origin, visits).value);
  }

  /**
   A page of a search: the nodes asked for from the offset up to where the page stops, right after its
   last hit when it is full and at the end of the whole walk otherwise.
   */
  ghost predicate SearchPageReports(d: Desktop, origin: Rect, fold: Text -> Text, query: Query, t: Trace, offset: nat,
                                    max: nat, r: Result<Page>)
  {
    var n := |t.visits|;
    && (n < offset ==> r == if t.complete then Ok(Page([], None)) else Err)
    && (offset <= n && t.complete && AnswerAll(d, t.visits[offset..]) ==> r.Ok?)
    && (offset <= n && r.Ok? ==>
          var end := if r.value.next.Some? then r.value.next.value else n;
          && offset <= end <= n && (if r.value.next.Some? then end < n && |r.value.nodes| == max else t.complete)
          && Yields(d, origin, fold, query, t.visits[offset..end], r.value.nodes)
          && |r.value.nodes| <= max
          && (|r.value.nodes| == max && offset < end ==>
                max > 0 && Tells(d, origin, t.visits[end - 1], r.value.nodes[max - 1])))
  }

  /** A page that is full stops right after a hit. */
  lemma {:induction false} HitEndIsAHit(d: Desktop, origin: Rect, fold: Text -> Text, query: Query, visits: seq<Visit>,
                                        from: nat, max: nat)
    requires from <= |visits|
    ensures var end := HitEnd(d, origin, fold, query, visits, from, max);
            var nodes := Details(d, origin, visits[from..end]);
            nodes.Some? && from < end && |Hits(fold, query, nodes.value)| == max ==>
              && max > 0
              && NodeOf(d, origin, visits[end - 1]) == Some(Hits(fold, query, nodes.value)[max - 1])
    decreases |visits| - from
  {
    hide NodeOf, Matches, Details, Hits;
    var end := HitEnd(d, origin, fold, query, visits, from, max);
    if from == |visits| || max == 0 {
      return;
    }
    var node := NodeOf(d, origin, visits[from]);
    var hit := node.Some? && Matches(fold, query, node.value);
    var rest := if hit then max - 1 else max;
    HitEndIsAHit(d, origin, fold, query, visits, from + 1, rest);
    HitEndIsFull(d, origin, fold, query, visits, from + 1, rest);
    HitEndStep(d, origin, fold, query, visits, from, max);
    HeadOfStretch(visits, from, end);
    DetailsConcat(d, origin, [visits[from]], visits[from + 1..end]);
    DetailsOne(d, origin, visits[from]);
    var nodes := Details(d, origin, visits[from..end]);
    if nodes.Some? {
      HitsOne(fold, query, node.value);
      HitsConcat(fold, query, [node.value], Details(d, origin, visits[from + 1..end]).value);
      if end == from + 1 {
        assert visits[from + 1..end] == [];
        NoDetails(d, origin, fold, query);
      }
    }
  }

  lemma SearchPageTells(d: Desktop, origin: Rect, fold: Text -> Text, query: Query, t: Trace, offset: nat, max: nat)
    requires Recorded(d, t.visits)
    ensures SearchPageReports(d, origin, fold, query, t, offset, max, SearchPage(d, origin, fold, query, t, offset, max))
  {
    hide Details, Hits, Yields, NodeOf, AnswerAll, Tells, Matches, HitEnd, Recorded;
    if offset <= |t.visits| {
      StretchTells(d, origin, fold, query, t.visits, offset, max);
    }
  }

  /** The stretch of visits behind one page of a search. */
  lemma StretchTells(d: Desktop, origin: Rect, fold: Text -> Text, query: Query, visits: seq<Visit>, offset: nat, max: nat)
    requires Recorded(d, visits) && offset <= |visits|
    ensures var end := HitEnd(d, origin, fold, query, visits, offset, max);
            var nodes := Details(d, origin, visits[offset..end]);
            && (AnswerAll(d, visits[offset..]) ==> nodes.Some?)
            && (nodes.Some? ==>
                  var hits := Hits(fold, query, nodes.value);
                  && Yields(d, origin, fold, query, visits[offset..end], hits)
                  && |hits| <= max && (end < |visits| ==> |hits| == max)
                  && (|hits| == max && offset < end ==> max > 0 && Tells(d, origin, visits[end - 1], hits[max - 1])))
  {
    hide Details, Hits, Yields, NodeOf, AnswerAll, Tells, Matches, HitEnd, TellsAll;
    var end := HitEnd(d, origin, fold, query, visits, offset, max);
    HitEndIsFull(d, origin, fold, query, visits, offset, max);
    HitEndIsAHit(d, origin, fold, query, visits, offset, max);
    DetailsTell(d, origin, visits[offset..end]);
    AnsweredPart(d, visits, offset, end);
    if Details(d, origin, visits[offset..end]).Some? {
      DetailsYield(d, origin, fold, query, visits[offset..end]);
    }
    if offset < end {
      NodeTells(d, origin, visits[end - 1]);
    }
  }

  lemma AnsweredPart(d: Desktop, visits: seq<Visit>, from: nat, stop: nat)
    requires from <= stop <= |visits|
    ensures AnswerAll(d, visits[from..]) ==> AnswerAll(d, visits[from..stop])
  {
    hide Answers;
    assert forall i :: 0 <= i < stop - from ==> visits[from..stop][i] == visits[from..][i];
  }

  // ------------------------------------------------ one step of a loop

  /** The trace left once the head of the queue has been examined. */
  function Advance(d: Desktop, maxDepth: nat, visited: set<Id>, queue: seq<Item>, look: Look): (t: Trace)
    requires queue != [] && (!look.Fail? ==> look.scan.count <= MAX_SCANNED_NODES)
  {
    var item := queue[0];
    match look
    case Fail => Trace([], false)
    case Skip(scan) => Drain(d, maxDepth, scan, visited, queue[1..])
    case Fresh(id, scan) =>
      var visit := Visit(item.ref, id, item.parent, item.depth, d.Children(item.ref));
      if visit.children.None? then Trace([visit], false)
      else
        var rest := Drain(d, maxDepth, scan, visited + {id},
                          Grown(queue[1..], visit.children.value, id, item.depth, maxDepth));
        Trace([visit] + rest.visits, rest.complete)
  }

  /** The walk `t` is what has been done followed by what draining the queue still yields. */
  ghost predicate Left(d: Desktop, maxDepth: nat, t: Trace, done: seq<Visit>, scan: Scan, visited: set<Id>, queue: seq<Item>)
  {
    scan.count <= MAX_SCANNED_NODES &&
    var rest := Drain(d, maxDepth, scan, visited, queue);
    t.visits == done + rest.visits && t.complete == rest.complete
  }

  /** What examining the head of the queue says about the walk. */
  lemma Proceed(d: Desktop, maxDepth: nat, t: Trace, done: seq<Visit>, scan: Scan, visited: set<Id>, queue: seq<Item>, look: Look)
    requires Left(d, maxDepth, t, done, scan, visited, queue) && queue != []
    requires look == Examine(d, scan, visited, queue[0].ref)
    ensures done <= t.visits
    ensures look.Fail? ==> !t.complete && |t.visits| == |done|
    ensures look.Skip? ==> Left(d, maxDepth, t, done, look.scan, visited, queue[1..])
    ensures look.Fresh? ==>
              var item := queue[0];
              var visit := Visit(item.ref, look.id, item.parent, item.depth, d.Children(item.ref));
              && done + [visit] <= t.visits && t.visits[|done|] == visit
              && (visit.children.None? ==> !t.complete && |t.visits| == |done| + 1)
              && (visit.children.Some? ==>
                    Left(d, maxDepth, t, done + [visit], look.scan, visited + {look.id},
                         Grown(queue[1..], visit.children.value, look.id, item.depth, maxDepth)))
  {
    hide Examine;
    var rest := Advance(d, maxDepth, visited, queue, look);
    assert rest == Drain(d, maxDepth, scan, visited, queue);
    if look.Fresh? {
      var visit := rest.visits[0];
      assert rest.visits == [visit] + rest.visits[1..];
      assert done + rest.visits == (done + [visit]) + rest.visits[1..];
    }
  }

  lemma AllLeft(d: Desktop, maxDepth: nat, scan: Scan, start: Ref)
    requires scan.count <= MAX_SCANNED_NODES
    ensures Left(d, maxDepth, WalkFrom(d, scan, start, maxDepth), [], scan, {}, [Item(start, None, 0)])
  {
  }

  lemma NothingLeft(d: Desktop, maxDepth: nat, t: Trace, done: seq<Visit>, scan: Scan, visited: set<Id>)
    requires Left(d, maxDepth, t, done, scan, visited, [])
    ensures t == Trace(done, true)
  {
  }

  /** The nodes collected so far, once the walk has passed the offset. */
  ghost function Collected(d: Desktop, origin: Rect, done: seq<Visit>, offset: nat): (nodes: Option<seq<Node>>)
  {
    Details(d, origin, if offset <= |done| then done[offset..] else [])
  }

  lemma NothingCollected(d: Desktop, origin: Rect, offset: nat)
    ensures Collected(d, origin, [], offset) == Some([])
  {
  }

  lemma Collect(d: Desktop, origin: Rect, done: seq<Visit>, visit: Visit, offset: nat)
    requires offset <= |done| && Collected(d, origin, done, offset).Some? && NodeOf(d, origin, visit).Some?
    ensures Collected(d, origin, done + [visit], offset)
         == Some(Collected(d, origin, done, offset).value + [NodeOf(d, origin, visit).value])
  {
    hide NodeOf;
    assert (done + [visit])[offset..] == done[offset..] + [visit];
    DetailsConcat(d, origin, done[offset..], [visit]);
    assert Details(d, origin, [visit]).value == [NodeOf(d, origin, visit).value];
  }

  /** What a projection loop knows: `nodes` are the visits from `offset` on, within the page bound. */
  ghost predicate TreeSoFar(d: Desktop, origin: Rect, t: Trace, done: seq<Visit>, offset: nat, max: nat, nodes: seq<Node>)
  {
    && done <= t.visits
    && Collected(d, origin, done, offset) == Some(nodes)
    && |done| <= offset + max
    && |nodes| == (if offset <= |done| then |done| - offset else 0)
  }

  lemma TreeFull(d: Desktop, origin: Rect, t: Trace, done: seq<Visit>, offset: nat, max: nat, nodes: seq<Node>)
    requires TreeSoFar(d, origin, t, done, offset, max, nodes)
    requires |done| < |t.visits| && offset <= |done| && |nodes| == max
    ensures TreePage(d, origin, t, offset, max) == Ok(Page(nodes, Some(|done|)))
  {
    hide NodeOf;
    assert t.visits[offset..offset + max] == done[offset..];
  }

  lemma TreeBroken(d: Desktop, origin: Rect, t: Trace, offset: nat, max: nat)
    requires !t.complete && |t.visits| <= offset + max
    ensures TreePage(d, origin, t, offset, max) == Err
  {
  }

  lemma TreeMissing(d: Desktop, origin: Rect, t: Trace, offset: nat, max: nat, at: nat)
    requires offset <= at < |t.visits| && at < offset + max && NodeOf(d, origin, t.visits[at]) == None
    ensures TreePage(d, origin, t, offset, max) == Err
  {
    hide NodeOf;
    var n := |t.visits|;
    FailedDetail(d, origin, t.visits, offset, at, if offset + max < n then offset + max else n);
    assert t.visits[offset..] == t.visits[offset..n];
  }

  lemma TreeAdvance(d: Desktop, origin: Rect, t: Trace, done: seq<Visit>, offset: nat, max: nat, nodes: seq<Node>, visit: Visit)
    requires TreeSoFar(d, origin, t, done, offset, max, nodes)
    requires done + [visit] <= t.visits && |done| < offset + max
    requires offset <= |done| ==> NodeOf(d, origin, visit).Some?
    ensures TreeSoFar(d, origin, t, done + [visit], offset, max,
                      if offset <= |done| then nodes + [NodeOf(d, origin, visit).value] else nodes)
  {
    hide NodeOf;
    if offset <= |done| {
      Collect(d, origin, done, visit, offset);
    }
  }

  lemma TreeEnd(d: Desktop, origin: Rect, t: Trace, offset: nat, max: nat, nodes: seq<Node>)
    requires TreeSoFar(d, origin, t, t.visits, offset, max, nodes) && t.complete
    ensures TreePage(d, origin, t, offset, max) == Ok(Page(nodes, None))
  {
    hide NodeOf;
  }

  /** What a search loop knows: `nodes` are the hits from `offset` on and the rest of the page is ahead. */
  ghost predicate SearchSoFar(d: Desktop, origin: Rect, fold: Text -> Text, search: SearchRequest, t: Trace,
                              done: seq<Visit>, nodes: seq<Node>)
  {
    && done <= t.visits
    && |nodes| <= search.maxResults
    && if |done| < search.offset then nodes == []
       else
         && Collected(d, origin, done, search.offset).Some?
         && nodes == Hits(fold, search.query, Collected(d, origin, done, search.offset).value)
         && HitEnd(d, origin, fold, search.query, t.visits, search.offset, search.maxResults)
            == HitEnd(d, origin, fold, search.query, t.visits, |done|, search.maxResults - |nodes|)
  }

  lemma SearchFull(d: Desktop, origin: Rect, fold: Text -> Text, search: SearchRequest, t: Trace,
                   done: seq<Visit>, nodes: seq<Node>)
    requires SearchSoFar(d, origin, fold, search, t, done, nodes)
    requires |done| < |t.visits| && search.offset <= |done| && |nodes| == search.maxResults
    ensures SearchPage(d, origin, fold, search.query, t, search.offset, search.maxResults)
         == Ok(Page(nodes, Some(|done|)))
  {
    hide NodeOf, Matches;
    assert t.visits[search.offset..|done|] == done[search.offset..];
  }

  lemma SearchBroken(d: Desktop, origin: Rect, fold: Text -> Text, search: SearchRequest, t: Trace,
                     done: seq<Visit>, nodes: seq<Node>)
    requires SearchSoFar(d, origin, fold, search, t, done, nodes)
    requires !t.complete && |t.visits| <= |done| + 1
    requires |t.visits| == |done| + 1 ==> |done| < search.offset || |nodes| < search.maxResults
    ensures SearchPage(d, origin, fold, search.query, t, search.offset, search.maxResults) == Err
  {
    hide NodeOf, Matches;
  }

  lemma SearchMissing(d: Desktop, origin: Rect, fold: Text -> Text, search: SearchRequest, t: Trace,
                      done: seq<Visit>, nodes: seq<Node>)
    requires SearchSoFar(d, origin, fold, search, t, done, nodes)
    requires search.offset <= |done| < |t.visits| && |nodes| < search.maxResults
    requires NodeOf(d, origin, t.visits[|done|]) == None
    ensures SearchPage(d, origin, fold, search.query, t, search.offset, search.maxResults) == Err
  {
    hide NodeOf, Matches;
    var end := HitEnd(d, origin, fold, search.query, t.visits, search.offset, search.maxResults);
    FailedDetail(d, origin, t.visits, search.offset, |done|, end);
  }

  lemma SearchAdvance(d: Desktop, origin: Rect, fold: Text -> Text, search: SearchRequest, t: Trace,
                      done: seq<Visit>, nodes: seq<Node>, visit: Visit)
    requires SearchSoFar(d, origin, fold, search, t, done, nodes) && done + [visit] <= t.visits
    requires search.offset <= |done| ==> |nodes| < search.maxResults && NodeOf(d, origin, visit).Some?
    ensures SearchSoFar(d, origin, fold, search, t, done + [visit],
                        if search.offset <= |done| && Matches(fold, search.query, NodeOf(d, origin, visit).value)
                        then nodes + [NodeOf(d, origin, visit).value] else nodes)
  {
    hide NodeOf, Matches, Details, Hits, HitEnd, Collected;
    assert t.visits[|done|] == (done + [visit])[|done|] == visit;
    if search.offset <= |done| {
      var node := NodeOf(d, origin, visit).value;
      Collect(d, origin, done, visit, search.offset);
      HitsOne(fold, search.query, node);
      HitsConcat(fold, search.query, Collected(d, origin, done, search.offset).value, [node]);
      HitEndStep(d, origin, fold, search.query, t.visits, |done|, search.maxResults - |nodes|);
    } else if search.offset == |done| + 1 {
      CollectedAtOffset(d, origin, fold, search, done + [visit]);
    }
  }

  lemma CollectedAtOffset(d: Desktop, origin: Rect, fold: Text -> Text, search: SearchRequest, done: seq<Visit>)
    requires |done| == search.offset
    ensures Collected(d, origin, done, search.offset) == Some([]) && Hits(fold, search.query, []) == []
  {
    assert done[search.offset..] == [];
  }

  lemma SearchEnd(d: Desktop, origin: Rect, fold: Text -> Text, search: SearchRequest, t: Trace, nodes: seq<Node>)
    requires SearchSoFar(d, origin, fold, search, t, t.visits, nodes) && t.complete
    ensures SearchPage(d, origin, fold, search.query, t, search.offset, search.maxResults) == Ok(Page(nodes, None))
  {
    hide NodeOf, Matches;
    if search.offset <= |t.visits| {
      assert t.visits[search.offset..|t.visits|] == t.visits[search.offset..];
    }
  }

  // ------------------------------------------------ locating a subtree

  /** Breadth-first search for an identity below the matched root, listing no more than it needs to. */
  function Seek(d: Desktop, scan: Scan, visited: set<Id>, queue: seq<Item>, wanted: Id): (r: Result<(Ref, Scan)>)
    requires scan.count <= MAX_SCANNED_NODES
    ensures r.Ok? ==> scan.count < r.value.1.count <= MAX_SCANNED_NODES
    ensures r.Ok? ==> d.hash(r.value.0) == wanted && wanted != 0 && d.IsTarget(r.value.0) == Some(true)
    decreases MAX_SCANNED_NODES - scan.count, |queue|
  {
    if queue == [] then Err
    else
      var item := queue[0];
      match Examine(d, scan, visited, item.ref)
      case Fail => Err
      case Skip(scan') => Seek(d, scan', visited, queue[1..], wanted)
      case Fresh(id, scan') =>
        if id == wanted then Ok((item.ref, scan'))
        else if item.depth >= MAX_PROJECTED_DEPTH then Seek(d, scan', visited + {id}, queue[1..], wanted)
        else
          var children := d.Children(item.ref);
          if children.None? then Err
          else Seek(d, scan', visited + {id}, Grown(queue[1..], children.value, id, item.depth, MAX_PROJECTED_DEPTH), wanted)
  }

  /** Whatever the deepest walk admits can be located again, at the cost of the visits up to it. */
  lemma {:induction false} SeekFollowsDrain(d: Desktop, scan: Scan, visited: set<Id>, queue: seq<Item>,
                                            visits: seq<Visit>, i: nat)
    requires scan.count <= MAX_SCANNED_NODES
    requires visits == Drain(d, MAX_PROJECTED_DEPTH, scan, visited, queue).visits && i < |visits|
    requires forall j :: 0 <= j < i ==> visits[j].id != visits[i].id
    ensures var r := Seek(d, scan, visited, queue, visits[i].id);
            r.Ok? && r.value.0 == visits[i].ref && r.value.1.count == scan.count + i + 1
    decreases MAX_SCANNED_NODES - scan.count, |queue|
  {
    hide Examine;
    match Examine(d, scan, visited, queue[0].ref)
    case Fail =>
    case Skip(scan') => SeekFollowsDrain(d, scan', visited, queue[1..], visits, i);
    case Fresh(id, scan') =>
      assert visits[0].id == id;
      if i > 0 {
        assert visits[0].children.Some?;
        var queue' := Grown(queue[1..], visits[0].children.value, id, queue[0].depth, MAX_PROJECTED_DEPTH);
        assert visits[1..] == Drain(d, MAX_PROJECTED_DEPTH, scan', visited + {id}, queue').visits;
        SeekFollowsDrain(d, scan', visited + {id}, queue', visits[1..], i - 1);
      }
  }

  lemma {:induction false} SeekStaysInWalk(d: Desktop, scan: Scan, visited: set<Id>, queue: seq<Item>, wanted: Id)
    requires scan.count <= MAX_SCANNED_NODES
    requires Drain(d, MAX_PROJECTED_DEPTH, scan, visited, queue).complete && Seek(d, scan, visited, queue, wanted).Ok?
    ensures exists i :: 0 <= i < |Drain(d, MAX_PROJECTED_DEPTH, scan, visited, queue).visits|
                     && Drain(d, MAX_PROJECTED_DEPTH, scan, visited, queue).visits[i].id == wanted
    decreases MAX_SCANNED_NODES - scan.count, |queue|
  {
    var t := Drain(d, MAX_PROJECTED_DEPTH, scan, visited, queue);
    match Examine(d, scan, visited, queue[0].ref)
    case Fail =>
    case Skip(scan') => SeekStaysInWalk(d, scan', visited, queue[1..], wanted);
    case Fresh(id, scan') =>
      assert t.visits[0].id == id;
      if id != wanted {
        var queue' := Grown(queue[1..], t.visits[0].children.value, id, queue[0].depth, MAX_PROJECTED_DEPTH);
        SeekStaysInWalk(d, scan', visited + {id}, queue', wanted);
        var rest := Drain(d, MAX_PROJECTED_DEPTH, scan', visited + {id}, queue');
        var i :| 0 <= i < |rest.visits| && rest.visits[i].id == wanted;
        assert t.visits[i + 1] == rest.visits[i];
      }
  }

  /** Below a matched root whose walk is whole, exactly the admitted objects can be located again. */
  lemma LocatesExactlyTheWalk(d: Desktop, matched: Ref, wanted: Id)
    requires WalkFrom(d, FRESH_SCAN, matched, MAX_PROJECTED_DEPTH).complete
    ensures var visits := WalkFrom(d, FRESH_SCAN, matched, MAX_PROJECTED_DEPTH).visits;
            var located := Seek(d, FRESH_SCAN, {}, [Item(matched, None, 0)], wanted);
            && (located.Ok? <==> exists i :: 0 <= i < |visits| && visits[i].id == wanted)
            && (forall i :: 0 <= i < |visits| && visits[i].id == wanted ==> located.Ok? && located.value.0 == visits[i].ref)
  {
    var queue := [Item(matched, None, 0)];
    var visits := WalkFrom(d, FRESH_SCAN, matched, MAX_PROJECTED_DEPTH).visits;
    BreadthFirst(d, FRESH_SCAN, matched, MAX_PROJECTED_DEPTH);
    if Seek(d, FRESH_SCAN, {}, queue, wanted).Ok? {
      SeekStaysInWalk(d, FRESH_SCAN, {}, queue, wanted);
    }
    forall i | 0 <= i < |visits| && visits[i].id == wanted
      ensures Seek(d, FRESH_SCAN, {}, queue, wanted).Ok? && Seek(d, FRESH_SCAN, {}, queue, wanted).value.0 == visits[i].ref
    {
      SeekFollowsDrain(d, FRESH_SCAN, {}, queue, visits, i);
    }
  }

  /** The subtree a projection starts at and what finding it cost. */
  function Start(d: Desktop, matched: Ref, wanted: Id): (r: Result<(Ref, Scan)>)
    ensures r.Ok? ==> r.value.1.count <= MAX_SCANNED_NODES
  {
    var id := d.ObjectId(matched);
    if id.None? then Err
    else if id.value == wanted then Ok((matched, FRESH_SCAN))
    else Seek(d, FRESH_SCAN, {}, [Item(matched, None, 0)], wanted)
  }

  /** The page a projection request stands for. */
  function ProjectionPage(d: Desktop, matched: Ref, origin: Rect, p: ProjectionRequest): (r: Result<Page>)
  {
    var start := Start(d, matched, p.root);
    if start.Err? then Err
    else TreePage(d, origin, WalkFrom(d, start.value.1, start.value.0, p.maxDepth), p.offset, p.maxNodes)
  }

  /** The page of the subtree that was found, or none when it was not. */
  ghost predicate ProjectionReports(d: Desktop, matched: Ref, origin: Rect, p: ProjectionRequest, r: Result<Page>)
  {
    match Start(d, matched, p.root)
    case Err => r == Err
    case Ok((subtree, scan)) => TreePageReports(d, origin, WalkFrom(d, scan, subtree, p.maxDepth), p.offset, p.maxNodes, r)
  }

  lemma ProjectionPageTells(d: Desktop, matched: Ref, origin: Rect, p: ProjectionRequest)
    ensures ProjectionReports(d, matched, origin, p, ProjectionPage(d, matched, origin, p))
  {
    hide TreePage, TreePageReports, WalkFrom, Recorded;
    var start := Start(d, matched, p.root);
    if start.Ok? {
      WalkIsRecorded(d, start.value.1, start.value.0, p.maxDepth);
      TreePageTells(d, origin, WalkFrom(d, start.value.1, start.value.0, p.maxDepth), p.offset, p.maxNodes);
    }
  }

  /** The page of a search over the whole walk of the matched root. */
  ghost predicate SearchReports(d: Desktop, matched: Ref, origin: Rect, fold: Text -> Text, search: SearchRequest,
                                r: Result<Page>)
  {
    SearchPageReports(d, origin, fold, search.query, WalkFrom(d, FRESH_SCAN, matched, MAX_PROJECTED_DEPTH),
                      search.offset, search.maxResults, r)
  }

  lemma WalkSearchTells(d: Desktop, matched: Ref, origin: Rect, fold: Text -> Text, search: SearchRequest)
    ensures SearchReports(d, matched, origin, fold, search,
                          SearchPage(d, origin, fold, search.query, WalkFrom(d, FRESH_SCAN, matched, MAX_PROJECTED_DEPTH),
                                     search.offset, search.maxResults))
  {
    hide SearchPage, SearchPageReports, WalkFrom, Recorded;
    var t := WalkFrom(d, FRESH_SCAN, matched, MAX_PROJECTED_DEPTH);
    WalkIsRecorded(d, FRESH_SCAN, matched, MAX_PROJECTED_DEPTH);
    SearchPageTells(d, origin, fold, search.query, t, search.offset, search.maxResults);
  }

  // --------------------------------------------------- the loops

  /** The bookkeeping one helper run carries through its walks. */
  class ProjectionScan {
    var identities: map<Id, Ref>
    var pids: map<string, Pid>
    var count: nat

    /** Cached process ids are the ones the bus answered with. */
    ghost predicate Valid(d: Desktop)
      reads this
    {
      && count <= MAX_SCANNED_NODES
      && forall name :: name in pids ==> name in d.pids && d.pids[name] == pids[name]
    }

    ghost function View(): Scan
      reads this
    {
      Scan(identities, count)
    }

    constructor ()
      ensures View() == FRESH_SCAN && pids == map[]
    {
      identities, pids, count := map[], map[], 0;
    }

    /** Spends one unit of the scan budget. */
    method Inspect() returns (ok: bool)
      requires count <= MAX_SCANNED_NODES
      modifies this`count
      ensures ok <==> old(count) < MAX_SCANNED_NODES
      ensures count == old(count) + 1
    {
      count := count + 1;
      ok := count <= MAX_SCANNED_NODES;
    }

    method IsTargetProcess(d: Desktop, ref: Ref) returns (target: Option<bool>)
      requires Valid(d)
      modifies this`pids
      ensures Valid(d) && target == d.IsTarget(ref)
    {
      if ref.name.None? {
        return None;
      }
      var name := ref.name.value;
      if name !in pids {
        if name !in d.pids {
          return None;
        }
        pids := pids[name := d.pids[name]];
      }
      target := Some(pids[name] in d.targets);
    }

    method RegisterObject(d: Desktop, ref: Ref) returns (r: Result<Id>)
      modifies this`identities
      ensures match Register(d, old(identities), ref)
              case Err => r == Err && identities == old(identities)
              case Ok((id, registered)) => r == Ok(id) && identities == registered
    {
      var id := d.ObjectId(ref);
      if id.None? {
        return Err;
      }
      if id.value in identities {
        if identities[id.value] != ref {
          return Err;
        }
        assert identities == identities[id.value := ref];
      } else {
        identities := identities[id.value := ref];
      }
      r := Ok(id.value);
    }
  }

  /** Runs the checks on a popped reference, in the order every loop runs them. */
  method ExamineNext(d: Desktop, scan: ProjectionScan, visited: set<Id>, ref: Ref) returns (look: Look)
    requires scan.Valid(d)
    modifies scan
    ensures look == Examine(d, old(scan.View()), visited, ref)
    ensures !look.Fail? ==> scan.Valid(d) && look.scan == scan.View()
  {
    var target := scan.IsTargetProcess(d, ref);
    if target.None? {
      return Fail;
    }
    if !target.value {
      return Skip(Scan(scan.identities, scan.count));
    }
    var id := scan.RegisterObject(d, ref);
    if id.Err? {
      return Fail;
    }
    if id.value in visited {
      return Skip(Scan(scan.identities, scan.count));
    }
    var ok := scan.Inspect();
    if !ok {
      return Fail;
    }
    look := Fresh(id.value, Scan(scan.identities, scan.count));
  }

  method LocateProjectionRoot(d: Desktop, start: Ref, wanted: Id, scan: ProjectionScan) returns (r: Result<Ref>)
    requires scan.Valid(d)
    modifies scan
    ensures match Seek(d, old(scan.View()), {}, [Item(start, None, 0)], wanted)
            case Err => r == Err
            case Ok((ref, scan')) => r == Ok(ref) && scan.View() == scan' && scan.Valid(d)
  {
    var queue := [Item(start, None, 0)];
    var visited: set<Id> := {};
    ghost var goal := Seek(d, scan.View(), visited, queue, wanted);
    while queue != []
      invariant scan.Valid(d)
      invariant Seek(d, scan.View(), visited, queue, wanted) == goal
      decreases MAX_SCANNED_NODES - scan.count, |queue|
    {
      var item := queue[0];
      var look := ExamineNext(d, scan, visited, item.ref);
      queue := queue[1..];
      match look {
        case Fail =>
          return Err;
        case Skip(_) =>
        case Fresh(id, _) =>
          visited := visited + {id};
          if id == wanted {
            return Ok(item.ref);
          }
          if item.depth < MAX_PROJECTED_DEPTH {
            var children := d.Children(item.ref);
            if children.None? {
              return Err;
            }
            queue := queue + Enqueued(children.value, id, item.depth);
          }
      }
    }
    r := Err;
  }

  method FindSubtree(d: Desktop, matched: Ref, root: Id, scan: ProjectionScan) returns (r: Result<Ref>)
    requires scan.Valid(d) && scan.View() == FRESH_SCAN
    modifies scan
    ensures match Start(d, matched, root)
            case Err => r == Err
            case Ok((ref, scan')) => r == Ok(ref) && scan.View() == scan' && scan.Valid(d)
  {
    var id := d.ObjectId(matched);
    if id.None? {
      return Err;
    }
    if id.value == root {
      return Ok(matched);
    }
    r := LocateProjectionRoot(d, matched, root, scan);
  }

  /** One page of a subtree, exactly the window of its walk that the request names. */
  method ProjectSubtree(d: Desktop, matched: Ref, origin: Rect, projection: ProjectionRequest) returns (r: Result<Page>)
    ensures r == ProjectionPage(d, matched, origin, projection)
    ensures ProjectionReports(d, matched, origin, projection, r)
  {
    ProjectionPageTells(d, matched, origin, projection);
    hide NodeOf, Examine, Drain, Left, TreePage, Collected, Start, ProjectionReports;
    var scan := new ProjectionScan();
    var start := FindSubtree(d, matched, projection.root, scan);
    if start.Err? {
      return Err;
    }
    var subtree := start.value;
    var queue := [Item(subtree, None, 0)];
    var visited: set<Id> := {};
    var nodes: seq<Node> := [];
    var position := 0;
    ghost var t := WalkFrom(d, scan.View(), subtree, projection.maxDepth);
    ghost var done: seq<Visit> := [];
    NothingCollected(d, origin, projection.offset);
    AllLeft(d, projection.maxDepth, scan.View(), subtree);
    while queue != []
      invariant scan.Valid(d)
      invariant position == |done|
      invariant Left(d, projection.maxDepth, t, done, scan.View(), visited, queue)
      invariant TreeSoFar(d, origin, t, done, projection.offset, projection.maxNodes, nodes)
      decreases MAX_SCANNED_NODES - scan.count, |queue|
    {
      var item := queue[0];
      ghost var before := scan.View();
      var look := ExamineNext(d, scan, visited, item.ref);
      Proceed(d, projection.maxDepth, t, done, before, visited, queue, look);
      queue := queue[1..];
      match look {
        case Fail =>
          TreeBroken(d, origin, t, projection.offset, projection.maxNodes);
          return Err;
        case Skip(_) =>
        case Fresh(id, _) =>
          visited := visited + {id};
          if position >= projection.offset && |nodes| == projection.maxNodes {
            TreeFull(d, origin, t, done, projection.offset, projection.maxNodes, nodes);
            return Ok(Page(nodes, Some(position)));
          }
          var children := d.Children(item.ref);
          if children.None? {
            TreeBroken(d, origin, t, projection.offset, projection.maxNodes);
            return Err;
          }
          if item.depth < projection.maxDepth {
            queue := queue + Enqueued(children.value, id, item.depth);
          }
          var visit := Visit(item.ref, id, item.parent, item.depth, children);
          var node := None;
          if position >= projection.offset {
            node := NodeOf(d, origin, visit);
            if node.None? {
              TreeMissing(d, origin, t, projection.offset, projection.maxNodes, position);
              return Err;
            }
          }
          TreeAdvance(d, origin, t, done, projection.offset, projection.maxNodes, nodes, visit);
          if node.Some? {
            nodes := nodes + [node.value];
          }
          done := done + [visit];
          position := position + 1;
      }
    }
    NothingLeft(d, projection.maxDepth, t, done, scan.View(), visited);
    TreeEnd(d, origin, t, projection.offset, projection.maxNodes, nodes);
    r := Ok(Page(nodes, None));
  }

  /** One page of search results over the whole matched root. */
  method SearchSubtree(d: Desktop, matched: Ref, origin: Rect, fold: Text -> Text, search: SearchRequest)
    returns (r: Result<Page>)
    ensures r == SearchPage(d, origin, fold, search.query, WalkFrom(d, FRESH_SCAN, matched, MAX_PROJECTED_DEPTH),
                            search.offset, search.maxResults)
    ensures SearchReports(d, matched, origin, fold, search, r)
  {
    WalkSearchTells(d, matched, origin, fold, search);
    hide NodeOf, Examine, Drain, Left, SearchPage, Collected, HitEnd, Hits, Matches, SearchReports;
    var scan := new ProjectionScan();
    var queue := [Item(matched, None, 0)];
    var visited: set<Id> := {};
    var nodes: seq<Node> := [];
    var position := 0;
    ghost var t := WalkFrom(d, FRESH_SCAN, matched, MAX_PROJECTED_DEPTH);
    ghost var done: seq<Visit> := [];
    NothingCollected(d, origin, search.offset);
    AllLeft(d, MAX_PROJECTED_DEPTH, scan.View(), matched);
    while queue != []
      invariant scan.Valid(d)
      invariant position == |done|
      invariant Left(d, MAX_PROJECTED_DEPTH, t, done, scan.View(), visited, queue)
      invariant SearchSoFar(d, origin, fold, search, t, done, nodes)
      decreases MAX_SCANNED_NODES - scan.count, |queue|
    {
      var item := queue[0];
      ghost var before := scan.View();
      var look := ExamineNext(d, scan, visited, item.ref);
      Proceed(d, MAX_PROJECTED_DEPTH, t, done, before, visited, queue, look);
      queue := queue[1..];
      match look {
        case Fail =>
          SearchBroken(d, origin, fold, search, t, done, nodes);
          return Err;
        case Skip(_) =>
        case Fresh(id, _) =>
          visited := visited + {id};
          if position >= search.offset && |nodes| == search.maxResults {
            SearchFull(d, origin, fold, search, t, done, nodes);
            return Ok(Page(nodes, Some(position)));
          }
          var children := d.Children(item.ref);
          if children.None? {
            SearchBroken(d, origin, fold, search, t, done, nodes);
            return Err;
          }
          if item.depth < MAX_PROJECTED_DEPTH {
            queue := queue + Enqueued(children.value, id, item.depth);
          }
          var visit := Visit(item.ref, id, item.parent, item.depth, children);
          var node := None;
          if position >= search.offset {
            node := NodeOf(d, origin, visit);
            if node.None? {
              SearchMissing(d, origin, fold, search, t, done, nodes);
              return Err;
            }
          }
          SearchAdvance(d, origin, fold, search, t, done, nodes, visit);
          if node.Some? && Matches(fold, search.query, node.value) {
            nodes := nodes + [node.value];
          }
          done := done + [visit];
          position := position + 1;
      }
    }
    NothingLeft(d, MAX_PROJECTED_DEPTH, t, done, scan.View(), visited);
    SearchEnd(d, origin, fold, search, t, nodes);
    r := Ok(Page(nodes, None));
  }
}
