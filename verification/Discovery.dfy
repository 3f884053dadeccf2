/**
 From the top-levels a helper finds to an honest helper: the matched root's record is built from the
 matched candidate, and everything the later pages rely on follows from that.
 */
module Discovery {
  import opened Basics
  import opened ObjectGraph
  import opened Walk
  import opened Projection
  import opened RootCorrelation
  import opened SemanticTree
  import opened Pipeline
  import opened Reassembly

  /** The portable roles a matched root can have. */
  const DIALOG_ROLE: nat := 1
  const WINDOW_ROLE: nat := 2

  /** What the bus says of one top-level of an application of the target process family. */
  datatype TopLevel = TopLevel(appPid: Pid, ref: Ref, role: TopLevelRole, extents: Extents, flags: set<Flag>, defunct: bool)

  /** The evidence a top-level amounts to, unless its owner or its extents are unusable. */
  function CandidateOf(d: Desktop, top: TopLevel): (c: Option<Candidate>)
    ensures c.Some? ==> top.ref.name.Some? && top.ref.name.value in d.pids && d.pids[top.ref.name.value] in c.value.pids
  {
    if top.ref.name.None? || top.ref.name.value !in d.pids then None
    else if !(0 <= top.extents.width <= U16_MAX && 0 <= top.extents.height <= U16_MAX) then None
    else
      var pid := d.pids[top.ref.name.value];
      Some(Candidate(if top.appPid == pid then [top.appPid] else [top.appPid, pid],
                     Rect(top.extents.x, top.extents.y, top.extents.width, top.extents.height),
                     top.role, FShowing in top.flags, FVisible in top.flags, top.defunct))
  }

  /** Every top-level's evidence, or nothing when one of them is unusable or there are too many. */
  function Candidates(d: Desktop, tops: seq<TopLevel>): (cs: Option<seq<Candidate>>)
    ensures cs.Some? ==> |cs.value| == |tops| <= MAX_TOPLEVELS
    ensures cs.Some? ==> forall i :: 0 <= i < |tops| ==> CandidateOf(d, tops[i]) == Some(cs.value[i])
  {
    if tops == [] then Some([])
    else
      var last := |tops| - 1;
      var before := Candidates(d, tops[..last]);
      var c := CandidateOf(d, tops[last]);
      if before.None? || c.None? || |tops| > MAX_TOPLEVELS then None else Some(before.value + [c.value])
  }

  /** There is evidence exactly when at most 64 top-levels were found, each with a known owner and extents that fit. */
  lemma {:induction false} CandidatesExactly(d: Desktop, tops: seq<TopLevel>)
    ensures Candidates(d, tops).Some? <==>
              && |tops| <= 64
              && forall i :: 0 <= i < |tops| ==>
                   && tops[i].ref.name.Some? && tops[i].ref.name.value in d.pids
                   && 0 <= tops[i].extents.width <= 65535 && 0 <= tops[i].extents.height <= 65535
  {
    if tops != [] {
      CandidatesExactly(d, tops[..|tops| - 1]);
    }
  }

  /** The record of a matched root; a record whose coordinates leave their range is none. */
  function RootRecord(d: Desktop, top: TopLevel, c: Candidate, origin: Rect, name: Text, children: nat): (root: Option<Root>)
  {
    var id := d.ObjectId(top.ref);
    var x := CheckedSub(c.rect.x, origin.x);
    var y := CheckedSub(c.rect.y, origin.y);
    if id.None? || x.None? || y.None? || children > U32_MAX then None
    else
      Some(Root(id.value, if top.role.DialogTop? then DIALOG_ROLE else WINDOW_ROLE, BoundedName(name),
                StatesFrom(0, top.flags, false), Rect(x.value, y.value, c.rect.width, c.rect.height), children))
  }

  /** A discovery that ends in a strict match: the helper the pages come from. */
  function Discovered(d: Desktop, target: DiscoveryRequest, tops: seq<TopLevel>, name: Text, children: nat, fold: Text -> Text)
    : (h: Option<Helper>)
  {
    var cs := Candidates(d, tops);
    if cs.None? then None
    else
      var found := CorrelateCandidate(target, cs.value, true);
      if !found.Matched? || found.index >= |tops| then None
      else
        var top, c := tops[found.index], cs.value[found.index];
        var origin := ProjectionOrigin(target, c);
        if origin.None? then None
        else
          var root := RootRecord(d, top, c, origin.value, name, children);
          if root.None? then None else Some(Helper(d, top.ref, origin.value, root.value, fold))
  }

  /** The matched object is in the target family, and its record is one the manager's decoder accepts. */
  lemma DiscoveredIsHonest(d: Desktop, target: DiscoveryRequest, tops: seq<TopLevel>, name: Text, children: nat,
                           fold: Text -> Text)
    requires d.targets == (set i | 0 <= i < |target.pids| :: target.pids[i])
    requires Discovered(d, target, tops, name, children, fold).Some?
    ensures Discovered(d, target, tops, name, children, fold).value.Honest()
  {
    var cs := Candidates(d, tops).value;
    var i := CorrelateCandidate(target, cs, true).index;
    MatchIsEligible(target, cs, i);
    EligibleIsTarget(d, target, tops[i], cs[i]);
    hide CorrelateCandidate, Candidates, CandidateOf, ProjectionOrigin, RootRecord, Eligible, ValidCandidate, ValidRoot;
    RootRecordIsValid(d, tops[i], cs[i], ProjectionOrigin(target, cs[i]).value, name, children);
  }

  lemma MatchIsEligible(target: DiscoveryRequest, cs: seq<Candidate>, i: nat)
    requires CorrelateCandidate(target, cs, true) == Matched(i)
    ensures i < |cs| && Eligible(target, cs[i]) && cs[i].rect.width > 0 && cs[i].rect.height > 0
  {
    MatchedMeans(target, cs, true, i);
    hide CorrelateCandidate, Select, ValidRequest, SameSize;
    assert cs[i] in cs;
    assert ValidCandidate(cs[i]);
  }

  lemma EligibleIsTarget(d: Desktop, target: DiscoveryRequest, top: TopLevel, c: Candidate)
    requires d.targets == (set i | 0 <= i < |target.pids| :: target.pids[i])
    requires CandidateOf(d, top) == Some(c) && Eligible(target, c)
    ensures d.IsTarget(top.ref) == Some(true)
  {
    var pid := d.pids[top.ref.name.value];
    assert pid in c.pids && pid in target.pids;
  }

  lemma RootRecordIsValid(d: Desktop, top: TopLevel, c: Candidate, origin: Rect, name: Text, children: nat)
    requires c.rect.width > 0 && c.rect.height > 0 && RootRecord(d, top, c, origin, name, children).Some?
    ensures ValidRoot(RootRecord(d, top, c, origin, name, children).value)
    ensures d.ObjectId(top.ref) == Some(RootRecord(d, top, c, origin, name, children).value.id)
  {
  }

  /** A top-level that is shown, alive and owned throughout by the target's processes. */
  ghost predicate Qualifies(d: Desktop, target: DiscoveryRequest, top: TopLevel)
  {
    && FShowing in top.flags && FVisible in top.flags && !top.defunct
    && top.appPid in target.pids
    && top.ref.name.Some? && top.ref.name.value in d.pids && d.pids[top.ref.name.value] in target.pids
    && 0 < top.extents.width <= 65535 && 0 < top.extents.height <= 65535
  }

  /** What a record says of a top-level: its object's own identity, kind, name, states, size and children. */
  ghost predicate Records(d: Desktop, top: TopLevel, origin: Rect, name: Text, children: nat, root: Root)
  {
    && root.id == d.hash(top.ref) && root.id != 0
    && root.role == (if top.role == DialogTop then 1 else 2)
    && NameReported(name, root.name)
    && StatesReported(top.flags, false, root.states)
    && root.bounds.x == top.extents.x - origin.x && root.bounds.y == top.extents.y - origin.y
    && root.bounds.width == top.extents.width && root.bounds.height == top.extents.height
    && root.childCount == children
  }

  lemma RootRecordRecords(d: Desktop, top: TopLevel, c: Candidate, origin: Rect, name: Text, children: nat)
    requires CandidateOf(d, top) == Some(c) && RootRecord(d, top, c, origin, name, children).Some?
    ensures Records(d, top, origin, name, children, RootRecord(d, top, c, origin, name, children).value)
  {
    BoundedNameReports(name);
    StatesFromReports(top.flags, false);
    hide NameReported, StatesReported, BoundedName, StatesFrom;
  }

  lemma EligibleQualifies(d: Desktop, target: DiscoveryRequest, top: TopLevel, c: Candidate)
    requires CandidateOf(d, top) == Some(c) && Eligible(target, c) && c.rect.width > 0 && c.rect.height > 0
    ensures Qualifies(d, target, top)
  {
    assert top.appPid in c.pids && d.pids[top.ref.name.value] in c.pids;
  }

  /**
   The helper that was discovered is the matched top-level's: it qualifies, its record says what it reports, and
   coordinates start at the client's first rectangle when it stands at one of them, else where it reports to be.
   */
  lemma DiscoveredReports(d: Desktop, target: DiscoveryRequest, tops: seq<TopLevel>, name: Text, children: nat,
                          fold: Text -> Text) returns (i: nat)
    requires Discovered(d, target, tops, name, children, fold).Some?
    ensures i < |tops| && Qualifies(d, target, tops[i])
    ensures var h, top := Discovered(d, target, tops, name, children, fold).value, tops[i];
            var place := ObjectGraph.Rect(top.extents.x, top.extents.y, top.extents.width, top.extents.height);
            && h.d == d && h.fold == fold && h.matched == top.ref
            && h.origin == (if place in target.rects then target.rects[0] else place)
            && Records(d, top, h.origin, name, children, h.root)
  {
    var cs := Candidates(d, tops).value;
    i := CorrelateCandidate(target, cs, true).index;
    MatchIsEligible(target, cs, i);
    EligibleQualifies(d, target, tops[i], cs[i]);
    MatchedHasOrigin(target, cs, true);
    hide CorrelateCandidate, Candidates, ProjectionOrigin, RootRecord, Eligible, ValidCandidate, Records, Qualifies;
    RootRecordRecords(d, tops[i], cs[i], ProjectionOrigin(target, cs[i]).value, name, children);
  }

  /** Every tree or search page of a discovered root passes the decoder's and the manager's checks. */
  lemma DiscoveredPagesAccepted(d: Desktop, target: DiscoveryRequest, tops: seq<TopLevel>, name: Text, children: nat,
                                fold: Text -> Text, p: ProjectionRequest, s: SearchRequest)
    requires d.targets == (set i | 0 <= i < |target.pids| :: target.pids[i])
    requires Discovered(d, target, tops, name, children, fold).Some?
    ensures var h := Discovered(d, target, tops, name, children, fold).value;
            && (ValidProjectionRequest(p) && h.TreeAnswer(p).Ok?
                && (p.offset > 0 ==> p.offset < |h.TreeTrace(p.root, p.maxDepth).visits|) ==>
                  var m := h.TreeAnswer(p).value;
                  ParseAccepts(m) && ValidProjection(p, m) && (m.next.Some? ==> m.next.value < MAX_SCANNED_NODES))
            && (ValidSearchRequest(s) && h.SearchAnswer(s).Ok? && s.offset <= |h.SearchTrace().visits| ==>
                  var m := h.SearchAnswer(s).value;
                  ParseAccepts(m) && ValidSearch(fold, s, m) && (m.next.Some? ==> m.next.value < MAX_SCANNED_NODES))
  {
    DiscoveredIsHonest(d, target, tops, name, children, fold);
    var h := Discovered(d, target, tops, name, children, fold).value;
    assert h.fold == fold;
    hide Discovered, ParseAccepts, ValidProjection, ValidSearch, ValidProjectionRequest, ValidSearchRequest;
    if ValidProjectionRequest(p) && h.TreeAnswer(p).Ok? && (p.offset > 0 ==> p.offset < |h.TreeTrace(p.root, p.maxDepth).visits|) {
      HonestTreePageAccepted(h, p);
    }
    if ValidSearchRequest(s) && h.SearchAnswer(s).Ok? && s.offset <= |h.SearchTrace().visits| {
      HonestSearchPageAccepted(h, s);
    }
  }

  /**
   Whatever a legal tree or search call prepares, the first page or a continued one, the request it turns
   into passes the helper's own check, given rectangles the helper can use.
   */
  lemma PreparedRequestIsAccepted(h: Helper, t: Tree, call: Call, pid: Pid, rects: seq<Rect>, singleClient: bool)
    requires Faithful(h, t) && LegalCall(call) && PrepareOn(Some(t), call).Good?
    requires NewRequest(pid, rects, singleClient).Some?
    requires forall rect :: rect in rects ==> rect.width > 0 && rect.height > 0
    requires |rects| == 2 ==> rects[0] != rects[1]
    ensures var kind := PrepareOn(Some(t), call).value;
            var projection := if kind.TreeKind? then Some(kind.projection) else None;
            var search := if kind.SearchKind? then Some(kind.search) else None;
            ValidRequest(NewRequest(pid, rects, singleClient).value.(projection := projection, search := search))
  {
    var kind := PrepareOn(Some(t), call).value;
    var projection := if kind.TreeKind? then Some(kind.projection) else None;
    var search := if kind.SearchKind? then Some(kind.search) else None;
    PreparedIsGrounded(h, t, call);
    RequestIsAccepted(pid, rects, singleClient, projection, search);
  }
}
