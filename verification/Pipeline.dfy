/**
 Helper and manager together over an unchanging desktop: every page the helper produces is accepted,
 named and continued, and following continuations reassembles the whole walk.
 */
module Pipeline {
  import opened Basics
  import opened ObjectGraph
  import opened Walk
  import opened Projection
  import opened RootCorrelation
  import opened SemanticTree

  /** What the manager checks of a semantic call before it prepares one. */
  predicate LegalCall(call: Call)
  {
    match call
    case TreeCall(root, continuation, maxNodes, maxDepth) =>
      && !(root.Some? && continuation.Some?)
      && 1 <= maxNodes <= MAX_SEMANTIC_NODES
      && maxDepth <= MAX_SEMANTIC_DEPTH
    case FindCall(query, _, maxResults) => LegalQuery(query) && 1 <= maxResults <= MAX_SEMANTIC_NODES
    case RootCall => true
    case OtherCall => true
  }

  predicate LegalQuery(query: Query)
  {
    && (query.name.Some? || query.roles != [] || query.states != [])
    && (query.name.Some? ==> 0 < |query.name.value| <= MAX_SEMANTIC_QUERY_LEN)
    && |query.roles| <= MAX_SEMANTIC_FILTER_ITEMS
    && |query.states| <= MAX_SEMANTIC_FILTER_ITEMS
  }

  /** A helper whose root correlation already matched; the root record comes from the same object. */
  datatype Helper = Helper(d: Desktop, matched: Ref, origin: Rect, root: Root, fold: Text -> Text)
  {
    ghost predicate Honest()
    {
      && d.IsTarget(matched) == Some(true)
      && d.ObjectId(matched) == Some(root.id)
      && ValidRoot(root)
    }

    /** The walk a tree cursor stands for; an object that cannot be located has none. */
    function TreeTrace(wanted: Id, maxDepth: nat): (t: Trace)
    {
      var start := Start(d, matched, wanted);
      if start.Err? then Trace([], false) else WalkFrom(d, start.value.1, start.value.0, maxDepth)
    }

    function SearchTrace(): (t: Trace)
    {
      WalkFrom(d, FRESH_SCAN, matched, MAX_PROJECTED_DEPTH)
    }

    /** The strictly matched answer to a projection or a search. */
    function TreeAnswer(p: ProjectionRequest): (r: Result<Match>)
    {
      var page := ProjectionPage(d, matched, origin, p);
      if page.Err? then Err else Ok(Match(root, page.value.nodes, page.value.next))
    }

    function SearchAnswer(s: SearchRequest): (r: Result<Match>)
    {
      var page := SearchPage(d, origin, fold, s.query, SearchTrace(), s.offset, s.maxResults);
      if page.Err? then Err else Ok(Match(root, page.value.nodes, page.value.next))
    }
  }

  // -------------------------------------------------- windows on a walk

  /** `node` is what the helper makes of a visit. */
  ghost predicate Shows(h: Helper, visit: Visit, node: Node)
  {
    NodeOf(h.d, h.origin, visit) == Some(node)
  }

  ghost predicate Window(h: Helper, visits: seq<Visit>, nodes: seq<Node>)
  {
    |nodes| == |visits| && forall i :: 0 <= i < |nodes| ==> Shows(h, visits[i], nodes[i])
  }

  lemma TreeAnswerIsWindow(h: Helper, p: ProjectionRequest)
    requires h.TreeAnswer(p).Ok?
    ensures var visits := h.TreeTrace(p.root, p.maxDepth).visits;
            var m := h.TreeAnswer(p).value;
            var stop := p.offset + p.maxNodes;
            && m.root == h.root
            && (stop < |visits| ==> m.next == Some(stop) && Window(h, visits[p.offset..stop], m.nodes))
            && (stop >= |visits| ==> m.next == None && h.TreeTrace(p.root, p.maxDepth).complete)
            && (stop >= |visits| >= p.offset ==> Window(h, visits[p.offset..], m.nodes))
  {
    hide NodeOf;
  }

  /** A located subtree is walked at all: its root is admitted unless the budget is already spent. */
  lemma LocatedIsVisited(h: Helper, wanted: Id, maxDepth: nat)
    requires h.Honest() && h.TreeTrace(wanted, maxDepth).complete
    ensures var visits := h.TreeTrace(wanted, maxDepth).visits; visits != [] && visits[0].id == wanted
  {
    var (start, scan) := Start(h.d, h.matched, wanted).value;
    assert h.d.IsTarget(start) == Some(true);
  }

  lemma TraceIsSound(h: Helper, wanted: Id, maxDepth: nat)
    ensures var visits := h.TreeTrace(wanted, maxDepth).visits;
            && |visits| <= MAX_SCANNED_NODES
            && (visits != [] ==> Sound(h.d, visits[0].ref, maxDepth, visits) && visits[0].id == wanted)
  {
    hide Sound;
    var start := Start(h.d, h.matched, wanted);
    if start.Ok? {
      WalkIsSound(h.d, start.value.1, start.value.0, maxDepth);
      var visits := h.TreeTrace(wanted, maxDepth).visits;
      if visits != [] {
        SoundHead(h.d, start.value.0, maxDepth, visits);
      }
    }
  }

  lemma SoundHead(d: Desktop, root: Ref, maxDepth: nat, visits: seq<Visit>)
    requires Sound(d, root, maxDepth, visits) && visits != []
    ensures visits[0].ref == root && visits[0].id == d.hash(root)
  {
  }

  // ---------------------------------------------- accepted by the manager

  /** The nodes shown by a stretch of a sound walk pass every per-node check. */
  lemma WindowIsValid(h: Helper, root: Ref, maxDepth: nat, visits: seq<Visit>, offset: nat, nodes: seq<Node>)
    requires Sound(h.d, root, maxDepth, visits) && maxDepth <= MAX_PROJECTED_DEPTH
    requires offset + |nodes| <= |visits| && Window(h, visits[offset..offset + |nodes|], nodes)
    requires |nodes| <= MAX_SEMANTIC_NODES
    ensures ValidNodes(nodes)
  {
    forall i | 0 <= i < |nodes| ensures ValidNode(nodes[i]) && nodes[i].id == visits[offset + i].id {
      var visit := visits[offset + i];
      assert Shows(h, visits[offset..offset + |nodes|][i], nodes[i]);
      NodeIsBounded(h.d, h.origin, visit);
      if offset + i > 0 {
        assert HasParent(visits, offset + i);
        var j :| 0 <= j < offset + i && IsParent(visits[j], visit);
      }
    }
  }

  lemma {:induction false} DepthIsRecorded(nodes: seq<Node>, i: nat)
    requires DistinctIds(nodes) && i < |nodes|
    ensures nodes[i].id in DepthsOf(nodes) && DepthsOf(nodes)[nodes[i].id] == nodes[i].depth
  {
    var last := |nodes| - 1;
    if i < last {
      assert nodes[..last][i] == nodes[i];
      DepthIsRecorded(nodes[..last], i);
    }
  }

  lemma ParentInWalk(d: Desktop, root: Ref, maxDepth: nat, visits: seq<Visit>, i: nat) returns (j: nat)
    requires Sound(d, root, maxDepth, visits) && 0 < i < |visits|
    ensures j < i && IsParent(visits[j], visits[i]) && visits[i].depth <= maxDepth
    ensures forall k :: 0 <= k < |visits| && visits[k].id == visits[j].id ==> k == j
  {
    assert HasParent(visits, i);
    j :| 0 <= j < i && IsParent(visits[j], visits[i]);
  }

  /** Window nodes sit where their visits sit. */
  ghost predicate Aligned(visits: seq<Visit>, offset: nat, nodes: seq<Node>)
  {
    && offset + |nodes| <= |visits|
    && forall k :: 0 <= k < |nodes| ==> SamePlace(visits[offset + k], nodes[k])
  }

  ghost predicate SamePlace(visit: Visit, node: Node)
  {
    node.id == visit.id && node.depth == visit.depth && node.parent == visit.parent
  }

  lemma WindowAligns(h: Helper, visits: seq<Visit>, offset: nat, nodes: seq<Node>)
    requires offset + |nodes| <= |visits| && Window(h, visits[offset..offset + |nodes|], nodes)
    ensures Aligned(visits, offset, nodes)
  {
    forall k | 0 <= k < |nodes| ensures SamePlace(visits[offset + k], nodes[k]) {
      assert Shows(h, visits[offset..offset + |nodes|][k], nodes[k]);
      NodeIsBounded(h.d, h.origin, visits[offset + k]);
    }
  }

  lemma AlignedSteps(d: Desktop, root: Ref, maxDepth: nat, visits: seq<Visit>, offset: nat, nodes: seq<Node>, i: nat)
    requires Sound(d, root, maxDepth, visits) && Aligned(visits, offset, nodes) && DistinctIds(nodes) && i < |nodes|
    ensures Steps(nodes, i, offset, maxDepth)
  {
    hide Sound, DepthsOf;
    assert SamePlace(visits[offset + i], nodes[i]);
    if offset + i == 0 {
      FirstVisit(d, root, maxDepth, visits);
      return;
    }
    var j := ParentInWalk(d, root, maxDepth, visits, offset + i);
    var parent := nodes[i].parent.value;
    if parent in DepthsOf(nodes[..i]) {
      var k :| 0 <= k < i && nodes[..i][k].id == parent;
      assert SamePlace(visits[offset + k], nodes[k]);
      assert offset + k == j;
      DepthIsRecorded(nodes[..i], k);
    }
  }

  lemma FirstVisit(d: Desktop, root: Ref, maxDepth: nat, visits: seq<Visit>)
    requires Sound(d, root, maxDepth, visits) && visits != []
    ensures visits[0].parent == None && visits[0].depth == 0
  {
  }

  /** Every tree page the helper produces from inside its walk is accepted, and its cursor stays below the bound. */
  lemma HonestTreePageAccepted(h: Helper, p: ProjectionRequest)
    requires h.Honest() && ValidProjectionRequest(p) && h.TreeAnswer(p).Ok?
    requires p.offset > 0 ==> p.offset < |h.TreeTrace(p.root, p.maxDepth).visits|
    ensures var m := h.TreeAnswer(p).value;
            && ParseAccepts(m) && ValidProjection(p, m)
            && (m.next.Some? ==> m.next.value < MAX_SCANNED_NODES)
  {
    hide NodeOf, ValidNode;
    var t := h.TreeTrace(p.root, p.maxDepth);
    var visits := t.visits;
    var m := h.TreeAnswer(p).value;
    TreeAnswerIsWindow(h, p);
    TraceIsSound(h, p.root, p.maxDepth);
    if t.complete {
      LocatedIsVisited(h, p.root, p.maxDepth);
    }
    assert p.offset < |visits|;
    assert Window(h, visits[p.offset..p.offset + |m.nodes|], m.nodes);
    WindowIsValid(h, visits[0].ref, p.maxDepth, visits, p.offset, m.nodes);
    WindowAligns(h, visits, p.offset, m.nodes);
    forall i | 0 <= i < |m.nodes| ensures Steps(m.nodes, i, p.offset, p.maxDepth) {
      AlignedSteps(h.d, visits[0].ref, p.maxDepth, visits, p.offset, m.nodes, i);
    }
    assert SamePlace(visits[p.offset], m.nodes[0]);
    FirstVisit(h.d, visits[0].ref, p.maxDepth, visits);
  }

  lemma SearchAnswerIsWindow(h: Helper, s: SearchRequest)
    requires h.SearchAnswer(s).Ok? && s.offset <= |h.SearchTrace().visits|
    ensures var visits := h.SearchTrace().visits;
            var m := h.SearchAnswer(s).value;
            var end := HitEnd(h.d, h.origin, h.fold, s.query, visits, s.offset, s.maxResults);
            var nodes := Details(h.d, h.origin, visits[s.offset..end]);
            && m.root == h.root
            && nodes.Some?
            && m.nodes == Hits(h.fold, s.query, nodes.value)
            && |m.nodes| <= s.maxResults
            && (end < |visits| ==> m.next == Some(end) && |m.nodes| == s.maxResults && (s.maxResults > 0 ==> s.offset < end))
            && (end == |visits| ==> m.next == None && h.SearchTrace().complete)
  {
    hide NodeOf, Matches;
    HitEndIsFull(h.d, h.origin, h.fold, s.query, h.SearchTrace().visits, s.offset, s.maxResults);
  }

  /** Hits keep the order of the nodes they come from, so distinct identities stay distinct. */
  lemma {:induction false} HitsStayDistinct(fold: Text -> Text, query: Query, nodes: seq<Node>)
    requires DistinctIds(nodes)
    ensures DistinctIds(Hits(fold, query, nodes))
  {
    if nodes != [] {
      var last := |nodes| - 1;
      var front := Hits(fold, query, nodes[..last]);
      HitsStayDistinct(fold, query, nodes[..last]);
      forall i | 0 <= i < |front| ensures front[i].id != nodes[last].id {
        assert front[i] in nodes[..last];
        var k :| 0 <= k < last && nodes[..last][k] == front[i];
        assert nodes[k].id != nodes[last].id;
      }
    }
  }

  /** Every search page the helper produces from inside its walk is accepted, and its cursor stays below the bound. */
  lemma HonestSearchPageAccepted(h: Helper, s: SearchRequest)
    requires h.Honest() && ValidSearchRequest(s) && h.SearchAnswer(s).Ok?
    requires s.offset <= |h.SearchTrace().visits|
    ensures var m := h.SearchAnswer(s).value;
            && ParseAccepts(m) && ValidSearch(h.fold, s, m)
            && (m.next.Some? ==> m.next.value < MAX_SCANNED_NODES)
  {
    hide NodeOf, ValidNode, Matches, Sound;
    var visits := h.SearchTrace().visits;
    var end := HitEnd(h.d, h.origin, h.fold, s.query, visits, s.offset, s.maxResults);
    var nodes := Details(h.d, h.origin, visits[s.offset..end]);
    SearchAnswerIsWindow(h, s);
    WalkIsSound(h.d, FRESH_SCAN, h.matched, MAX_PROJECTED_DEPTH);
    assert Window(h, visits[s.offset..s.offset + |nodes.value|], nodes.value);
    NodesOfWalkAreValid(h, h.matched, visits, s.offset, nodes.value);
    HitsStayDistinct(h.fold, s.query, nodes.value);
    forall i | 0 <= i < |h.SearchAnswer(s).value.nodes| ensures ValidNode(h.SearchAnswer(s).value.nodes[i]) {
      assert h.SearchAnswer(s).value.nodes[i] in nodes.value;
    }
  }

  lemma NodesOfWalkAreValid(h: Helper, root: Ref, visits: seq<Visit>, offset: nat, nodes: seq<Node>)
    requires Sound(h.d, root, MAX_PROJECTED_DEPTH, visits)
    requires offset + |nodes| <= |visits| && Window(h, visits[offset..offset + |nodes|], nodes)
    ensures (forall node :: node in nodes ==> ValidNode(node)) && DistinctIds(nodes)
  {
    forall i | 0 <= i < |nodes| ensures ValidNode(nodes[i]) && nodes[i].id == visits[offset + i].id {
      assert Shows(h, visits[offset..offset + |nodes|][i], nodes[i]);
      NodeIsBounded(h.d, h.origin, visits[offset + i]);
      if offset + i > 0 {
        var j := ParentInWalk(h.d, root, MAX_PROJECTED_DEPTH, visits, offset + i);
      }
    }
  }

  // ------------------------------------------- requests the helper accepts

  /** The request the manager builds for one verified process and one client's rectangles. */
  function NewRequest(pid: Pid, rects: seq<Rect>, singleClient: bool): (r: Option<DiscoveryRequest>)
  {
    if pid == 0 || rects == [] || |rects| > 2 then None
    else Some(DiscoveryRequest(HELPER_VERSION, [pid], rects, singleClient, None, None))
  }

  /** The builder leaves to chance only the rectangles' sizes and distinctness and the bounds of what is attached. */
  lemma RequestIsAccepted(pid: Pid, rects: seq<Rect>, singleClient: bool, projection: Option<ProjectionRequest>,
                          search: Option<SearchRequest>)
    requires NewRequest(pid, rects, singleClient).Some?
    ensures ValidRequest(NewRequest(pid, rects, singleClient).value.(projection := projection, search := search))
       <==> && (forall rect :: rect in rects ==> rect.width > 0 && rect.height > 0) && (|rects| == 2 ==> rects[0] != rects[1])
            && (projection.None? || search.None?)
            && (projection.Some? ==>
                  var p := projection.value;
                  p.root != 0 && p.offset < 4096 && 1 <= p.maxNodes <= 128 && p.maxDepth <= 16)
            && (search.Some? ==>
                  var s := search.value;
                  && s.offset < 4096 && 1 <= s.maxResults <= 128
                  && (s.query.name.Some? || s.query.roles != [] || s.query.states != [])
                  && (s.query.name.Some? ==> 1 <= |s.query.name.value| <= 256)
                  && |s.query.roles| <= 16 && |s.query.states| <= 16)
  {
    if |rects| == 2 && rects[0] != rects[1] {
      assert Distinct(rects);
    }
  }
}
