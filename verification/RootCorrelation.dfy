/**
 Which accessible top-level belongs to an authorized client: the helper's bounded correlation, the
 probe's independent version of it, and the request bounds that precede both.
 */
module RootCorrelation {
  import opened Basics
  import opened ObjectGraph
  import opened Walk
  import opened Projection

  const HELPER_VERSION: nat := 1
  const MAX_TARGET_PIDS: nat := 64
  const MAX_TARGET_RECTS: nat := 2
  const MAX_TOPLEVELS: nat := 64
  const MAX_PROJECTED_NODES: nat := 128
  const MAX_SEARCH_FILTER_ITEMS: nat := 16
  const MAX_SEARCH_NAME_BYTES: nat := 256

  datatype DiscoveryRequest = DiscoveryRequest(
    v: nat,
    pids: seq<Pid>,
    rects: seq<Rect>,
    singleClient: bool,
    projection: Option<ProjectionRequest>,
    search: Option<SearchRequest>)

  datatype TopLevelRole = DialogTop | FillerTop | FrameTop | WindowTop

  datatype Candidate = Candidate(
    pids: seq<Pid>,
    rect: Rect,
    role: TopLevelRole,
    showing: bool,
    visible: bool,
    defunct: bool)

  datatype Status = StatusMatched | StatusAmbiguous | StatusUnavailable | StatusInvalid
  datatype Correlation = Matched(index: nat) | Ambiguous | Unavailable | Invalid
  {
    function Status(): (status: Status)
    {
      match this
      case Matched(_) => StatusMatched
      case Ambiguous => StatusAmbiguous
      case Unavailable => StatusUnavailable
      case Invalid => StatusInvalid
    }
  }

  // ------------------------------------------------------------ bounds

  predicate Distinct<T(==)>(items: seq<T>)
  {
    forall i, j :: 0 <= i < j < |items| ==> items[i] != items[j]
  }

  predicate ValidProjectionRequest(p: ProjectionRequest)
  {
    && p.root != 0
    && p.offset < MAX_SCANNED_NODES
    && 1 <= p.maxNodes <= MAX_PROJECTED_NODES
    && p.maxDepth <= MAX_PROJECTED_DEPTH
  }

  predicate ValidSearchRequest(s: SearchRequest)
  {
    && s.offset < MAX_SCANNED_NODES
    && 1 <= s.maxResults <= MAX_PROJECTED_NODES
    && (s.query.name.Some? || s.query.roles != [] || s.query.states != [])
    && (s.query.name.Some? ==> 0 < |s.query.name.value| <= MAX_SEARCH_NAME_BYTES)
    && |s.query.roles| <= MAX_SEARCH_FILTER_ITEMS
    && |s.query.states| <= MAX_SEARCH_FILTER_ITEMS
  }

  predicate ValidRects(rects: seq<Rect>)
  {
    && 1 <= |rects| <= MAX_TARGET_RECTS
    && (forall rect :: rect in rects ==> rect.width > 0 && rect.height > 0)
    && Distinct(rects)
  }

  predicate ValidPids(pids: seq<Pid>, most: nat)
  {
    && 1 <= |pids| <= most
    && 0 !in pids
    && Distinct(pids)
  }

  /** The helper's own check of a request. */
  predicate ValidRequest(r: DiscoveryRequest)
  {
    && r.v == HELPER_VERSION
    && ValidPids(r.pids, MAX_TARGET_PIDS)
    && ValidRects(r.rects)
    && (r.projection.None? || r.search.None?)
    && (r.projection.Some? ==> ValidProjectionRequest(r.projection.value))
    && (r.search.Some? ==> ValidSearchRequest(r.search.value))
  }

  predicate ValidCandidate(c: Candidate)
  {
    ValidPids(c.pids, 2) && c.rect.width > 0 && c.rect.height > 0
  }

  // ------------------------------------------------------- correlation

  predicate Eligible(target: DiscoveryRequest, c: Candidate)
  {
    (forall pid :: pid in c.pids ==> pid in target.pids) && c.showing && c.visible && !c.defunct
  }

  predicate Exact(target: DiscoveryRequest, c: Candidate)
  {
    Eligible(target, c) && c.rect in target.rects
  }

  predicate SameSize(target: DiscoveryRequest, c: Candidate)
  {
    exists rect :: rect in target.rects && rect.width == c.rect.width && rect.height == c.rect.height
  }

  /** The three ways candidates are selected: eligible, eligible at a known rectangle, eligible at a known size. */
  datatype Test = ByState | ByRect | BySize

  predicate Passes(target: DiscoveryRequest, test: Test, c: Candidate)
  {
    match test
    case ByState => Eligible(target, c)
    case ByRect => Exact(target, c)
    case BySize => Eligible(target, c) && SameSize(target, c)
  }

  /** The indices of the candidates passing a test, ascending. */
  function Select(target: DiscoveryRequest, candidates: seq<Candidate>, test: Test): (indices: seq<nat>)
    ensures |indices| <= |candidates| && forall k :: 0 <= k < |indices| ==> indices[k] < |candidates|
    ensures forall i: nat :: i in indices <==> i < |candidates| && Passes(target, test, candidates[i])
    ensures forall k, l :: 0 <= k < l < |indices| ==> indices[k] < indices[l]
  {
    if candidates == [] then []
    else
      var last := |candidates| - 1;
      Select(target, candidates[..last], test) + (if Passes(target, test, candidates[last]) then [last] else [])
  }

  predicate ValidEvidence(target: DiscoveryRequest, candidates: seq<Candidate>)
  {
    && ValidRequest(target)
    && |candidates| <= MAX_TOPLEVELS
    && forall c :: c in candidates ==> ValidCandidate(c)
  }

  function CorrelateCandidate(target: DiscoveryRequest, candidates: seq<Candidate>, complete: bool): (r: Correlation)
  {
    if !ValidEvidence(target, candidates) then Correlation.Invalid
    else if !complete then Unavailable
    else
      var eligible := Select(target, candidates, ByState);
      var exact := Select(target, candidates, ByRect);
      if |exact| == 1 then Matched(exact[0])
      else if |exact| > 1 then Ambiguous
      else if target.singleClient && |eligible| == 1 && SameSize(target, candidates[eligible[0]]) then Matched(eligible[0])
      else if |eligible| > 1 then Ambiguous
      else Unavailable
  }

  /** Where the content origin lies in the screen coordinates a candidate reports. */
  function ProjectionOrigin(target: DiscoveryRequest, c: Candidate): (origin: Option<Rect>)
  {
    if target.rects == [] then None
    else if c.rect in target.rects then Some(target.rects[0])
    else if target.singleClient && SameSize(target, c) then Some(c.rect)
    else None
  }

  // -------------------------------------------------- what a match means

  ghost predicate OnlyOne(target: DiscoveryRequest, candidates: seq<Candidate>, test: Test, i: nat)
  {
    && i < |candidates| && Passes(target, test, candidates[i])
    && forall j :: 0 <= j < |candidates| && Passes(target, test, candidates[j]) ==> j == i
  }

  /** No exact candidate, but the family's single client and a single eligible candidate of its size. */
  ghost predicate TrustedSole(target: DiscoveryRequest, candidates: seq<Candidate>, i: nat)
  {
    && (forall c :: c in candidates ==> !Exact(target, c))
    && OnlyOne(target, candidates, ByState, i)
    && target.singleClient && SameSize(target, candidates[i])
  }

  lemma SelectIsUnique(target: DiscoveryRequest, candidates: seq<Candidate>, test: Test)
    ensures |Select(target, candidates, test)| == 1 ==> OnlyOne(target, candidates, test, Select(target, candidates, test)[0])
    ensures forall i: nat :: OnlyOne(target, candidates, test, i) ==> Select(target, candidates, test) == [i]
    ensures Select(target, candidates, test) == [] <==> forall i :: 0 <= i < |candidates| ==> !Passes(target, test, candidates[i])
  {
    hide Passes, Select;
    var chosen := Select(target, candidates, test);
    forall i: nat | OnlyOne(target, candidates, test, i) ensures chosen == [i] {
      assert i in chosen;
      assert forall k :: 0 <= k < |chosen| ==> chosen[k] in chosen;
      assert chosen[0] == i;
      assert chosen[|chosen| - 1] == i;
    }
    if |chosen| == 1 {
      assert chosen[0] in chosen;
      forall j: nat | j < |candidates| && Passes(target, test, candidates[j]) ensures j == chosen[0] {
        assert j in chosen;
      }
    }
    if chosen != [] {
      assert chosen[0] in chosen;
    }
  }

  /** A match is exactly the only exact candidate, or the only eligible one when that may be trusted. */
  lemma MatchedMeans(target: DiscoveryRequest, candidates: seq<Candidate>, complete: bool, i: nat)
    ensures CorrelateCandidate(target, candidates, complete) == Matched(i)
       <==> && ValidEvidence(target, candidates) && complete
            && (OnlyOne(target, candidates, ByRect, i) || TrustedSole(target, candidates, i))
  {
    SelectIsUnique(target, candidates, ByRect);
    SelectIsUnique(target, candidates, ByState);
  }

  /** Shown, alive, and every owning process one of the target's. */
  ghost predicate BelongsTo(target: DiscoveryRequest, c: Candidate)
  {
    && c.showing && c.visible && !c.defunct
    && forall i :: 0 <= i < |c.pids| ==> c.pids[i] in target.pids
  }

  /** One of the client's rectangles exactly. */
  ghost predicate StandsAt(target: DiscoveryRequest, c: Candidate)
  {
    exists k :: 0 <= k < |target.rects| && target.rects[k] == c.rect
  }

  ghost predicate SizedLike(target: DiscoveryRequest, c: Candidate)
  {
    exists k :: 0 <= k < |target.rects| && target.rects[k].width == c.rect.width && target.rects[k].height == c.rect.height
  }

  /** A candidate of the target's own at one of its rectangles, and no other such. */
  ghost predicate SoleAtRect(target: DiscoveryRequest, candidates: seq<Candidate>, i: nat)
  {
    && i < |candidates| && BelongsTo(target, candidates[i]) && StandsAt(target, candidates[i])
    && forall j :: 0 <= j < |candidates| && BelongsTo(target, candidates[j]) && StandsAt(target, candidates[j]) ==> j == i
  }

  /** None of the target's own stands at one of its rectangles, and only this one is the target's own, of a known size. */
  ghost predicate SoleOfClient(target: DiscoveryRequest, candidates: seq<Candidate>, i: nat)
  {
    && target.singleClient
    && i < |candidates| && BelongsTo(target, candidates[i]) && SizedLike(target, candidates[i])
    && (forall j :: 0 <= j < |candidates| && BelongsTo(target, candidates[j]) ==> j == i && !StandsAt(target, candidates[j]))
  }

  lemma TestsExactly(target: DiscoveryRequest, c: Candidate)
    ensures Eligible(target, c) <==> BelongsTo(target, c)
    ensures Exact(target, c) <==> BelongsTo(target, c) && StandsAt(target, c)
    ensures SameSize(target, c) <==> SizedLike(target, c)
  {
    assert forall i :: 0 <= i < |c.pids| ==> c.pids[i] in c.pids;
    if SameSize(target, c) {
      var rect :| rect in target.rects && rect.width == c.rect.width && rect.height == c.rect.height;
      var k :| 0 <= k < |target.rects| && target.rects[k] == rect;
    }
  }

  lemma SolesExactly(target: DiscoveryRequest, candidates: seq<Candidate>, i: nat)
    ensures OnlyOne(target, candidates, ByRect, i) <==> SoleAtRect(target, candidates, i)
    ensures TrustedSole(target, candidates, i) <==> SoleOfClient(target, candidates, i)
  {
    forall j | 0 <= j < |candidates|
      ensures Eligible(target, candidates[j]) <==> BelongsTo(target, candidates[j])
      ensures Exact(target, candidates[j]) <==> BelongsTo(target, candidates[j]) && StandsAt(target, candidates[j])
      ensures SameSize(target, candidates[j]) <==> SizedLike(target, candidates[j])
    {
      TestsExactly(target, candidates[j]);
    }
    hide Eligible, Exact, SameSize, BelongsTo, StandsAt, SizedLike;
    if SoleOfClient(target, candidates, i) {
      forall c | c in candidates ensures !Exact(target, c) {
        var j :| 0 <= j < |candidates| && candidates[j] == c;
      }
    }
    if TrustedSole(target, candidates, i) {
      assert forall j :: 0 <= j < |candidates| ==> candidates[j] in candidates && !Exact(target, candidates[j]);
    }
  }

  /** Two candidates pass a test exactly when it selects more than one. */
  lemma TwoPass(target: DiscoveryRequest, candidates: seq<Candidate>, test: Test)
    ensures |Select(target, candidates, test)| > 1 <==>
              exists i, j :: 0 <= i < j < |candidates| && Passes(target, test, candidates[i]) && Passes(target, test, candidates[j])
  {
    var chosen := Select(target, candidates, test);
    hide Passes, Select;
    if |chosen| > 1 {
      assert chosen[0] in chosen && chosen[1] in chosen && chosen[0] < chosen[1];
    }
    if i: nat, j: nat :| i < j < |candidates| && Passes(target, test, candidates[i]) && Passes(target, test, candidates[j]) {
      assert i in chosen && j in chosen;
    }
  }

  /** From the objects' own reports: which candidate is matched, and when none is, whether too many or too few qualified. */
  lemma CorrelatesExactly(target: DiscoveryRequest, candidates: seq<Candidate>)
    requires ValidEvidence(target, candidates)
    ensures var r := CorrelateCandidate(target, candidates, true);
            && (forall i :: r == Matched(i) <==> SoleAtRect(target, candidates, i) || SoleOfClient(target, candidates, i))
            && (r == Ambiguous <==>
                  && !r.Matched?
                  && exists i, j :: 0 <= i < j < |candidates| && BelongsTo(target, candidates[i]) && BelongsTo(target, candidates[j]))
            && r != Correlation.Invalid
  {
    var r := CorrelateCandidate(target, candidates, true);
    forall i ensures r == Matched(i) <==> SoleAtRect(target, candidates, i) || SoleOfClient(target, candidates, i) {
      MatchedMeans(target, candidates, true, i);
      SolesExactly(target, candidates, i);
    }
    AmbiguousMeans(target, candidates);
    forall c ensures Eligible(target, c) <==> BelongsTo(target, c) {
      TestsExactly(target, c);
    }
    hide CorrelateCandidate, SoleAtRect, SoleOfClient, Eligible, BelongsTo;
  }

  lemma AmbiguousMeans(target: DiscoveryRequest, candidates: seq<Candidate>)
    requires ValidEvidence(target, candidates)
    ensures var r := CorrelateCandidate(target, candidates, true);
            && r != Correlation.Invalid
            && (r == Ambiguous <==>
                  && !r.Matched?
                  && exists i, j :: 0 <= i < j < |candidates| && Eligible(target, candidates[i]) && Eligible(target, candidates[j]))
  {
    var eligible, exact := Select(target, candidates, ByState), Select(target, candidates, ByRect);
    TwoPass(target, candidates, ByState);
    TwoPass(target, candidates, ByRect);
    hide ValidEvidence, SameSize, Select, Eligible;
    assert |exact| > 1 ==> |eligible| > 1;
  }

  /** Whatever was matched, coordinates are relative to the client's first rectangle, or to the candidate's own when it stands at none. */
  lemma MatchedHasOrigin(target: DiscoveryRequest, candidates: seq<Candidate>, complete: bool)
    requires CorrelateCandidate(target, candidates, complete).Matched?
    ensures var c := candidates[CorrelateCandidate(target, candidates, complete).index];
            ProjectionOrigin(target, c) == Some(if StandsAt(target, c) then target.rects[0] else c.rect)
  {
    MatchedMeans(target, candidates, complete, CorrelateCandidate(target, candidates, complete).index);
  }

  // ------------------------------------------- order does not matter

  function Count(target: DiscoveryRequest, candidates: seq<Candidate>, test: Test): (n: nat)
  {
    |Select(target, candidates, test)|
  }

  lemma {:induction false} CountSplits(target: DiscoveryRequest, left: seq<Candidate>, right: seq<Candidate>, test: Test)
    ensures Count(target, left + right, test) == Count(target, left, test) + Count(target, right, test)
  {
    if right == [] {
      assert left + right == left;
    } else {
      var last := |right| - 1;
      assert (left + right)[..|left + right| - 1] == left + right[..last];
      CountSplits(target, left, right[..last], test);
    }
  }

  lemma CountStep(target: DiscoveryRequest, candidates: seq<Candidate>, i: nat, test: Test)
    requires i < |candidates|
    ensures Count(target, candidates[..i + 1], test)
         == Count(target, candidates[..i], test) + if Passes(target, test, candidates[i]) then 1 else 0
  {
    assert candidates[..i + 1][..i] == candidates[..i];
  }

  lemma NothingCounted(target: DiscoveryRequest)
    ensures forall test :: Count(target, [], test) == 0
  {
  }

  lemma TakeOut<T>(a: seq<T>, b: seq<T>) returns (k: nat)
    requires a != [] && multiset(a) == multiset(b)
    ensures k < |b| && b[k] == a[|a| - 1]
    ensures multiset(a[..|a| - 1]) == multiset(b[..k] + b[k + 1..])
  {
    var last := |a| - 1;
    assert a == a[..last] + [a[last]];
    assert a[last] in multiset(b);
    k :| 0 <= k < |b| && b[k] == a[last];
    assert b == b[..k] + [b[k]] + b[k + 1..];
    assert multiset(b) == multiset(b[..k] + b[k + 1..]) + multiset{b[k]};
    assert multiset(a) == multiset(a[..last]) + multiset{a[last]};
    assert multiset(a[..last]) == multiset(a) - multiset{a[last]};
  }

  lemma CountAround(target: DiscoveryRequest, before: seq<Candidate>, c: Candidate, after: seq<Candidate>, test: Test)
    ensures Count(target, before + [c] + after, test) == Count(target, before + after, test) + Count(target, [c], test)
  {
    CountSplits(target, before + [c], after, test);
    CountSplits(target, before, [c], test);
    CountSplits(target, before, after, test);
  }

  lemma {:induction false} CountIgnoresOrder(target: DiscoveryRequest, a: seq<Candidate>, b: seq<Candidate>, test: Test)
    requires multiset(a) == multiset(b)
    ensures Count(target, a, test) == Count(target, b, test)
  {
    hide Count;
    if a == [] {
      assert multiset(b) == multiset{};
      assert |multiset(b)| == |b|;
    } else {
      var last := |a| - 1;
      var k := TakeOut(a, b);
      assert a == a[..last] + [a[last]];
      assert b == b[..k] + [b[k]] + b[k + 1..];
      CountIgnoresOrder(target, a[..last], b[..k] + b[k + 1..], test);
      CountSplits(target, a[..last], [a[last]], test);
      CountAround(target, b[..k], b[k], b[k + 1..], test);
    }
  }

  /** The status as a function of three counts. */
  function StatusOf(single: bool, exact: nat, eligible: nat, fits: nat): (status: Status)
  {
    if exact == 1 then StatusMatched
    else if exact > 1 then StatusAmbiguous
    else if single && eligible == 1 && fits == 1 then StatusMatched
    else if eligible > 1 then StatusAmbiguous
    else StatusUnavailable
  }

  lemma StatusIsCounted(target: DiscoveryRequest, candidates: seq<Candidate>)
    requires ValidEvidence(target, candidates)
    ensures CorrelateCandidate(target, candidates, true).Status()
         == StatusOf(target.singleClient, Count(target, candidates, ByRect),
                     Count(target, candidates, ByState), Count(target, candidates, BySize))
  {
    hide Select, Eligible, SameSize, ValidEvidence;
    SelectIsUnique(target, candidates, ByState);
    SelectIsUnique(target, candidates, BySize);
    var eligible := Select(target, candidates, ByState);
    if |eligible| == 1 {
      var i := eligible[0];
      if SameSize(target, candidates[i]) {
        assert OnlyOne(target, candidates, BySize, i) by {
          assert forall j: nat :: j < |candidates| && Passes(target, BySize, candidates[j]) ==> j in eligible;
        }
      } else {
        assert forall j: nat :: j < |candidates| && Passes(target, BySize, candidates[j]) ==> j in eligible;
        assert Count(target, candidates, BySize) == 0;
      }
    }
  }

  /** Listing the same candidates in another order never changes the status. */
  lemma StatusIgnoresOrder(target: DiscoveryRequest, a: seq<Candidate>, b: seq<Candidate>, complete: bool)
    requires multiset(a) == multiset(b)
    ensures CorrelateCandidate(target, a, complete).Status() == CorrelateCandidate(target, b, complete).Status()
  {
    assert |multiset(a)| == |a| && |multiset(b)| == |b|;
    assert forall c :: c in a <==> c in multiset(a);
    assert forall c :: c in b <==> c in multiset(b);
    assert ValidEvidence(target, a) <==> ValidEvidence(target, b);
    if ValidEvidence(target, a) {
      StatusIsCounted(target, a);
      StatusIsCounted(target, b);
      CountIgnoresOrder(target, a, b, ByRect);
      CountIgnoresOrder(target, a, b, ByState);
      CountIgnoresOrder(target, a, b, BySize);
    }
  }

  lemma {:induction false} NoneCounted(target: DiscoveryRequest, candidates: seq<Candidate>, test: Test)
    requires forall c :: c in candidates ==> !Passes(target, test, c)
    ensures Count(target, candidates, test) == 0
  {
    SelectIsUnique(target, candidates, test);
  }

  /** Out-of-process, hidden or defunct candidates never change the status while the bound is kept. */
  lemma StatusIgnoresIneligible(target: DiscoveryRequest, candidates: seq<Candidate>, extra: seq<Candidate>, complete: bool)
    requires |candidates| + |extra| <= MAX_TOPLEVELS
    requires forall c :: c in extra ==> ValidCandidate(c) && !Eligible(target, c)
    ensures CorrelateCandidate(target, candidates + extra, complete).Status()
         == CorrelateCandidate(target, candidates, complete).Status()
  {
    var both := candidates + extra;
    assert ValidEvidence(target, both) <==> ValidEvidence(target, candidates);
    if ValidEvidence(target, candidates) {
      StatusIsCounted(target, both);
      StatusIsCounted(target, candidates);
      CountSplits(target, candidates, extra, ByRect);
      CountSplits(target, candidates, extra, ByState);
      CountSplits(target, candidates, extra, BySize);
      NoneCounted(target, extra, ByRect);
      NoneCounted(target, extra, ByState);
      NoneCounted(target, extra, BySize);
    }
  }

  // ------------------------------------------------- the probe agrees

  const PROBE_MAX_PID: nat := 0x7FFF_FFFF

  /** The request and candidate shapes the probe accepts; it knows neither pages nor searches. */
  predicate ProbeParses(target: DiscoveryRequest, candidates: seq<Candidate>)
  {
    && target.v == HELPER_VERSION
    && ValidPids(target.pids, MAX_TARGET_PIDS) && SmallPids(target.pids)
    && ValidRects(target.rects)
    && |candidates| <= MAX_TOPLEVELS
    && forall c :: c in candidates ==> ValidCandidate(c) && SmallPids(c.pids)
  }

  predicate SmallPids(pids: seq<Pid>)
  {
    forall pid :: pid in pids ==> pid <= PROBE_MAX_PID
  }

  /** The probe's correlation, appending to its lists as it goes. */
  method ProbeCorrelate(target: DiscoveryRequest, candidates: seq<Candidate>, complete: bool) returns (status: Status)
    ensures status == if !complete then StatusUnavailable
                      else StatusOf(target.singleClient, Count(target, candidates, ByRect),
                                    Count(target, candidates, ByState), Count(target, candidates, BySize))
  {
    hide Count, SameSize, Eligible;
    if !complete {
      return StatusUnavailable;
    }
    NothingCounted(target);
    var eligible: seq<Candidate> := [];
    var exact: seq<Candidate> := [];
    for i := 0 to |candidates|
      invariant candidates[..0] == []
      invariant |eligible| == Count(target, candidates[..i], ByState)
      invariant |exact| == Count(target, candidates[..i], ByRect)
      invariant |eligible| == 1 ==>
                  Count(target, candidates[..i], BySize) == if SameSize(target, eligible[0]) then 1 else 0
      invariant eligible == [] ==> Count(target, candidates[..i], BySize) == 0
    {
      var c := candidates[i];
      CountStep(target, candidates, i, ByState);
      CountStep(target, candidates, i, ByRect);
      CountStep(target, candidates, i, BySize);
      if Eligible(target, c) {
        eligible := eligible + [c];
        if c.rect in target.rects {
          exact := exact + [c];
        }
      }
    }
    assert candidates[..|candidates|] == candidates;
    if |exact| == 1 {
      return StatusMatched;
    }
    if |exact| > 1 {
      return StatusAmbiguous;
    }
    if target.singleClient && |eligible| == 1 && SameSize(target, eligible[0]) {
      return StatusMatched;
    }
    status := if |eligible| > 1 then StatusAmbiguous else StatusUnavailable;
  }

  /** What the probe answers to a fixture, parsing included. */
  function ProbeStatus(target: DiscoveryRequest, candidates: seq<Candidate>, complete: bool): (status: Status)
  {
    if !ProbeParses(target, candidates) then StatusInvalid
    else if !complete then StatusUnavailable
    else StatusOf(target.singleClient, Count(target, candidates, ByRect),
                  Count(target, candidates, ByState), Count(target, candidates, BySize))
  }

  /** The two implementations agree unless valid evidence names a process id above the probe's bound. */
  lemma ProbeAgrees(target: DiscoveryRequest, candidates: seq<Candidate>, complete: bool)
    requires target.projection.None? && target.search.None?
    ensures ProbeStatus(target, candidates, complete) == CorrelateCandidate(target, candidates, complete).Status()
       <==> (ValidEvidence(target, candidates) ==>
               SmallPids(target.pids) && forall c :: c in candidates ==> SmallPids(c.pids))
  {
    if ValidEvidence(target, candidates) {
      StatusIsCounted(target, candidates);
    }
  }
}
