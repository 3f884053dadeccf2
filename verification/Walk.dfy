/**
 The breadth-first walk behind every projection and search, as a trace: which objects the walk
 admits, in order, and whether it ran to the end. One page is a window on this trace.
 */
module Walk {
  import opened Basics
  import opened ObjectGraph

  const MAX_SCANNED_NODES: nat := 4096
  const MAX_PROJECTED_DEPTH: nat := 16

  /** A queued reference with the parent that listed it. */
  datatype Item = Item(ref: Ref, parent: Option<Id>, depth: nat)

  /** The identities met so far and the number of objects inspected. */
  datatype Scan = Scan(identities: map<Id, Ref>, count: nat)

  const FRESH_SCAN := Scan(map[], 0)

  /** An admitted object; `children` is absent when listing them failed. */
  datatype Visit = Visit(ref: Ref, id: Id, parent: Option<Id>, depth: nat, children: Option<seq<Ref>>)

  /** What examining the head of the queue decides. */
  datatype Look = Fail | Skip(scan: Scan) | Fresh(id: Id, scan: Scan)

  datatype Trace = Trace(visits: seq<Visit>, complete: bool)

  /** Records an identity; a different reference under the same identity is refused. */
  function Register(d: Desktop, identities: map<Id, Ref>, ref: Ref): (r: Result<(Id, map<Id, Ref>)>)
    ensures r.Ok? ==> r.value.0 == d.hash(ref) != 0 && r.value.1 == identities[d.hash(ref) := ref]
    ensures r.Ok? ==> d.hash(ref) in identities ==> identities[d.hash(ref)] == ref
  {
    var id := d.ObjectId(ref);
    if id.None? then Err
    else if id.value in identities && identities[id.value] != ref then Err
    else Ok((id.value, identities[id.value := ref]))
  }

  /** The checks a popped reference goes through, in order: process, identity, visited, budget. */
  function Examine(d: Desktop, scan: Scan, visited: set<Id>, ref: Ref): (look: Look)
    ensures look.Skip? ==> look.scan.count == scan.count
    ensures look.Fresh? ==> look.scan.count == scan.count + 1 <= MAX_SCANNED_NODES && look.id !in visited
  {
    var target := d.IsTarget(ref);
    if target.None? then Fail
    else if !target.value then Skip(scan)
    else
      var registered := Register(d, scan.identities, ref);
      if registered.Err? then Fail
      else
        var (id, identities) := registered.value;
        if id in visited then Skip(Scan(identities, scan.count))
        else if scan.count + 1 > MAX_SCANNED_NODES then Fail
        else Fresh(id, Scan(identities, scan.count + 1))
  }

  /** What is registered under an identity has that identity. */
  ghost predicate Consistent(d: Desktop, identities: map<Id, Ref>)
  {
    forall id :: id in identities ==> d.hash(identities[id]) == id
  }

  /** Registration fails exactly for an object without an identity or one whose identity another object already has. */
  lemma RegistersExactlyWithoutCollision(d: Desktop, identities: map<Id, Ref>, ref: Ref)
    requires Consistent(d, identities)
    ensures Register(d, identities, ref).Ok?
       <==> d.ObjectId(ref).Some? && forall other :: other in identities.Values && d.hash(other) == d.hash(ref) ==> other == ref
    ensures Register(d, identities, ref).Ok? ==>
              var identities' := Register(d, identities, ref).value.1;
              Consistent(d, identities') && identities'.Values == identities.Values + {ref}
  {
    var id := d.ObjectId(ref);
    if id.Some? && id.value in identities {
      assert identities[id.value] in identities.Values;
    }
    if Register(d, identities, ref).Ok? {
      var identities' := Register(d, identities, ref).value.1;
      forall other | other in identities.Values ensures other in identities'.Values {
        var key :| key in identities && identities[key] == other;
        assert identities'[key] == other;
      }
      assert identities'[id.value] == ref;
    }
  }

  /** Exactly when a popped reference is admitted, skipped or breaks the walk, and what admission records. */
  lemma ExaminesExactly(d: Desktop, scan: Scan, visited: set<Id>, ref: Ref)
    ensures var look := Examine(d, scan, visited, ref);
            var registered := Register(d, scan.identities, ref);
            && (look.Fresh? <==> && d.IsTarget(ref) == Some(true) && registered.Ok?
                                 && d.hash(ref) !in visited && scan.count < MAX_SCANNED_NODES)
            && (look.Skip? <==> || d.IsTarget(ref) == Some(false)
                                || (d.IsTarget(ref) == Some(true) && registered.Ok? && d.hash(ref) in visited))
            && (look.Fresh? ==> look.id == d.hash(ref) && look.scan == Scan(registered.value.1, scan.count + 1))
            && (look.Skip? && d.IsTarget(ref) == Some(true) ==> look.scan == Scan(registered.value.1, scan.count))
  {
  }

  function Enqueued(children: seq<Ref>, parent: Id, depth: nat): (items: seq<Item>)
    ensures |items| == |children|
    ensures forall i :: 0 <= i < |items| ==> items[i] == Item(children[i], Some(parent), depth + 1)
  {
    seq(|children|, i requires 0 <= i < |children| => Item(children[i], Some(parent), depth + 1))
  }

  /** The queue after an admitted item: its children join while the depth bound allows. */
  function Grown(rest: seq<Item>, children: seq<Ref>, id: Id, depth: nat, maxDepth: nat): seq<Item>
  {
    if depth < maxDepth then rest + Enqueued(children, id, depth) else rest
  }

  /** Runs the queue to its end or to the first failure. */
  function Drain(d: Desktop, maxDepth: nat, scan: Scan, visited: set<Id>, queue: seq<Item>): (t: Trace)
    requires scan.count <= MAX_SCANNED_NODES
    ensures forall i :: 0 <= i < |t.visits| && t.visits[i].children.None? ==> i == |t.visits| - 1 && !t.complete
    ensures |t.visits| <= MAX_SCANNED_NODES - scan.count
    decreases MAX_SCANNED_NODES - scan.count, |queue|
  {
    if queue == [] then Trace([], true)
    else
      var item := queue[0];
      match Examine(d, scan, visited, item.ref)
      case Fail => Trace([], false)
      case Skip(scan') => Drain(d, maxDepth, scan', visited, queue[1..])
      case Fresh(id, scan') =>
        var children := d.Children(item.ref);
        var visit := Visit(item.ref, id, item.parent, item.depth, children);
        if children.None? then Trace([visit], false)
        else
          var rest := Drain(d, maxDepth, scan', visited + {id},
                            Grown(queue[1..], children.value, id, item.depth, maxDepth));
          Trace([visit] + rest.visits, rest.complete)
  }

  /** The walk of the subtree below `root`, after `scan` was already spent on finding it. */
  function WalkFrom(d: Desktop, scan: Scan, root: Ref, maxDepth: nat): (t: Trace)
    requires scan.count <= MAX_SCANNED_NODES
  {
    Drain(d, maxDepth, scan, {}, [Item(root, None, 0)])
  }

  // ------------------------------------------------ what a walk admits

  ghost predicate IsPath(d: Desktop, path: seq<Ref>)
  {
    && path != []
    && (forall i :: 0 <= i < |path| ==> d.IsTarget(path[i]) == Some(true))
    && (forall i :: 0 <= i < |path| - 1 ==> d.Children(path[i]).Some? && path[i + 1] in d.Children(path[i]).value)
  }

  ghost predicate PathTo(d: Desktop, root: Ref, ref: Ref, path: seq<Ref>)
  {
    IsPath(d, path) && path[0] == root && path[|path| - 1] == ref
  }

  /** The visits so far: distinct, in order of depth, each listed by an earlier parent one level up. */
  ghost predicate Sound(d: Desktop, root: Ref, maxDepth: nat, done: seq<Visit>)
  {
    && (forall i :: 0 <= i < |done| ==>
          && done[i].id == d.hash(done[i].ref) != 0
          && d.IsTarget(done[i].ref) == Some(true)
          && done[i].children == d.Children(done[i].ref)
          && done[i].depth <= maxDepth)
    && (forall i, j :: 0 <= i < j < |done| ==> done[i].id != done[j].id && done[i].depth <= done[j].depth)
    && (forall i :: 0 < i < |done| ==> HasParent(done, i))
    && (done != [] ==> done[0].ref == root && done[0].parent == None && done[0].depth == 0)
  }

  ghost predicate HasParent(done: seq<Visit>, i: nat)
    requires i < |done|
  {
    exists j :: 0 <= j < i && IsParent(done[j], done[i])
  }

  ghost predicate Admitted(done: seq<Visit>, id: Id)
  {
    exists i :: 0 <= i < |done| && done[i].id == id
  }

  ghost predicate IsParent(parent: Visit, child: Visit)
  {
    && child.parent == Some(parent.id)
    && child.depth == parent.depth + 1
    && parent.children.Some?
    && child.ref in parent.children.value
  }

  /** A queued item is the root or was listed by an admitted object above the depth bound. */
  ghost predicate Listed(root: Ref, maxDepth: nat, done: seq<Visit>, item: Item)
  {
    if item.parent == None then done == [] && item == Item(root, None, 0)
    else exists j :: 0 <= j < |done| && Lists(done[j], item) && done[j].depth < maxDepth
  }

  ghost predicate Lists(parent: Visit, item: Item)
  {
    && item.parent == Some(parent.id)
    && item.depth == parent.depth + 1
    && parent.children.Some?
    && item.ref in parent.children.value
  }

  /** A child is settled once it is out of process or admitted no deeper than `depth`. */
  ghost predicate Settled(d: Desktop, done: seq<Visit>, ref: Ref, depth: nat)
  {
    || d.IsTarget(ref) == Some(false)
    || exists i :: 0 <= i < |done| && Reaches(done[i], ref, depth)
  }

  ghost predicate Reaches(visit: Visit, ref: Ref, depth: nat)
  {
    visit.ref == ref && visit.depth <= depth
  }

  ghost predicate Waiting(queue: seq<Item>, ref: Ref, depth: nat)
  {
    exists i :: 0 <= i < |queue| && queue[i].ref == ref && queue[i].depth == depth
  }

  /** Nothing an admitted object lists above the bound is forgotten. */
  ghost predicate Closed(d: Desktop, maxDepth: nat, done: seq<Visit>, queue: seq<Item>)
  {
    forall i, ref :: 0 <= i < |done| && done[i].depth < maxDepth && done[i].children.Some? && ref in done[i].children.value
      ==> Settled(d, done, ref, done[i].depth + 1) || Waiting(queue, ref, done[i].depth + 1)
  }

  /** Queue depths never fall and span at most two levels, none above what was admitted. */
  ghost predicate Layered(done: seq<Visit>, queue: seq<Item>)
  {
    && (forall i, j :: 0 <= i < j < |queue| ==> queue[i].depth <= queue[j].depth)
    && (queue != [] ==> queue[|queue| - 1].depth <= queue[0].depth + 1)
    && (queue != [] ==> forall i :: 0 <= i < |done| ==> done[i].depth <= queue[0].depth)
  }

  ghost predicate Frontier(d: Desktop, root: Ref, maxDepth: nat, done: seq<Visit>, visited: set<Id>,
                           identities: map<Id, Ref>, queue: seq<Item>)
  {
    && Sound(d, root, maxDepth, done)
    && Layered(done, queue)
    && (forall i :: 0 <= i < |queue| ==> Listed(root, maxDepth, done, queue[i]))
    && (forall i :: 0 <= i < |done| ==> done[i].children.Some?)
    && Closed(d, maxDepth, done, queue)
    && (Settled(d, done, root, 0) || Waiting(queue, root, 0))
    && (forall id :: id in visited ==> Admitted(done, id))
    && (forall i :: 0 <= i < |done| ==> done[i].id in visited)
    && (forall i :: 0 <= i < |done| ==> done[i].id in identities && identities[done[i].id] == done[i].ref)
  }

  lemma DoneGrows(d: Desktop, done: seq<Visit>, visit: Visit, ref: Ref, depth: nat)
    requires Settled(d, done, ref, depth)
    ensures Settled(d, done + [visit], ref, depth)
  {
    if d.IsTarget(ref) != Some(false) {
      var i :| 0 <= i < |done| && Reaches(done[i], ref, depth);
      assert Reaches((done + [visit])[i], ref, depth);
    }
  }

  /** Popping an item whose reference is settled at its depth keeps every obligation. */
  lemma PopSettled(d: Desktop, done: seq<Visit>, queue: seq<Item>, ref: Ref, depth: nat)
    requires queue != []
    requires Settled(d, done, queue[0].ref, queue[0].depth)
    requires Settled(d, done, ref, depth) || Waiting(queue, ref, depth)
    ensures Settled(d, done, ref, depth) || Waiting(queue[1..], ref, depth)
  {
    if !Settled(d, done, ref, depth) {
      var i :| 0 <= i < |queue| && queue[i].ref == ref && queue[i].depth == depth;
      assert i != 0;
      assert queue[1..][i - 1] == queue[i];
    }
  }

  /** Only settled references are skipped. */
  lemma SkippedIsSettled(d: Desktop, root: Ref, maxDepth: nat, done: seq<Visit>, scan: Scan, scan': Scan,
                         visited: set<Id>, queue: seq<Item>)
    requires Frontier(d, root, maxDepth, done, visited, scan.identities, queue)
    requires queue != [] && Examine(d, scan, visited, queue[0].ref) == Skip(scan')
    ensures Settled(d, done, queue[0].ref, queue[0].depth)
    ensures forall i :: 0 <= i < |done| ==>
              done[i].id in scan'.identities && scan'.identities[done[i].id] == done[i].ref
  {
    hide Sound, Listed, Waiting;
    var item := queue[0];
    if d.IsTarget(item.ref) == Some(true) {
      assert Admitted(done, d.hash(item.ref));
      var i :| 0 <= i < |done| && done[i].id == d.hash(item.ref);
      assert Reaches(done[i], item.ref, item.depth);
    }
  }

  lemma PopKeepsClosed(d: Desktop, maxDepth: nat, done: seq<Visit>, queue: seq<Item>)
    requires Closed(d, maxDepth, done, queue) && queue != [] && Settled(d, done, queue[0].ref, queue[0].depth)
    ensures Closed(d, maxDepth, done, queue[1..])
  {
    hide Settled, Waiting;
    forall i, ref | 0 <= i < |done| && done[i].depth < maxDepth && done[i].children.Some? && ref in done[i].children.value
      ensures Settled(d, done, ref, done[i].depth + 1) || Waiting(queue[1..], ref, done[i].depth + 1)
    {
      PopSettled(d, done, queue, ref, done[i].depth + 1);
    }
  }

  lemma SkipKeepsFrontier(d: Desktop, root: Ref, maxDepth: nat, done: seq<Visit>, scan: Scan, scan': Scan,
                          visited: set<Id>, queue: seq<Item>)
    requires Frontier(d, root, maxDepth, done, visited, scan.identities, queue)
    requires queue != [] && Examine(d, scan, visited, queue[0].ref) == Skip(scan')
    ensures Frontier(d, root, maxDepth, done, visited, scan'.identities, queue[1..])
  {
    SkippedIsSettled(d, root, maxDepth, done, scan, scan', visited, queue);
    hide Sound, Examine, Settled, Waiting, Closed, Listed, Admitted;
    PopKeepsClosed(d, maxDepth, done, queue);
    PopSettled(d, done, queue, root, 0);
    assert forall i :: 0 <= i < |queue[1..]| ==> queue[1..][i] == queue[i + 1];
  }

  /** Admitting the head of the queue extends a sound walk. */
  lemma FreshIsSound(d: Desktop, root: Ref, maxDepth: nat, done: seq<Visit>, item: Item, visit: Visit)
    requires Sound(d, root, maxDepth, done) && Listed(root, maxDepth, done, item)
    requires forall i :: 0 <= i < |done| ==> done[i].depth <= item.depth && done[i].id != visit.id
    requires done == [] ==> item == Item(root, None, 0)
    requires visit == Visit(item.ref, visit.id, item.parent, item.depth, d.Children(item.ref))
    requires visit.id == d.hash(item.ref) != 0 && d.IsTarget(item.ref) == Some(true)
    ensures Sound(d, root, maxDepth, done + [visit])
  {
    var grown := done + [visit];
    if done != [] {
      var j :| 0 <= j < |done| && Lists(done[j], item) && done[j].depth < maxDepth;
      assert IsParent(grown[j], grown[|done|]);
      assert HasParent(grown, |done|);
    }
    forall i | 0 < i < |grown| ensures HasParent(grown, i) {
      if i < |done| {
        assert HasParent(done, i);
        var j :| 0 <= j < i && IsParent(done[j], done[i]);
        assert IsParent(grown[j], grown[i]);
      }
    }
  }

  lemma FreshKeepsClosed(d: Desktop, root: Ref, maxDepth: nat, done: seq<Visit>, visited: set<Id>,
                         identities: map<Id, Ref>, queue: seq<Item>, visit: Visit, queue': seq<Item>)
    requires Frontier(d, root, maxDepth, done, visited, identities, queue)
    requires queue != [] && visit.ref == queue[0].ref && visit.depth == queue[0].depth && visit.children.Some?
    requires queue' == Grown(queue[1..], visit.children.value, visit.id, visit.depth, maxDepth)
    ensures Closed(d, maxDepth, done + [visit], queue')
    ensures Settled(d, done + [visit], root, 0) || Waiting(queue', root, 0)
  {
    var grown := done + [visit];
    assert Reaches(grown[|done|], queue[0].ref, queue[0].depth);
    forall ref, depth | Settled(d, done, ref, depth) || Waiting(queue, ref, depth)
      ensures Settled(d, grown, ref, depth) || Waiting(queue', ref, depth)
    {
      if Settled(d, done, ref, depth) {
        DoneGrows(d, done, visit, ref, depth);
      } else {
        PopSettled(d, grown, queue, ref, depth);
        if Waiting(queue[1..], ref, depth) {
          var i :| 0 <= i < |queue[1..]| && queue[1..][i].ref == ref && queue[1..][i].depth == depth;
          assert queue'[i] == queue[1..][i];
        }
      }
    }
    forall i, ref | 0 <= i < |grown| && grown[i].depth < maxDepth && grown[i].children.Some? && ref in grown[i].children.value
      ensures Settled(d, grown, ref, grown[i].depth + 1) || Waiting(queue', ref, grown[i].depth + 1)
    {
      if i < |done| {
        assert grown[i] == done[i];
      } else {
        var k :| 0 <= k < |visit.children.value| && visit.children.value[k] == ref;
        assert queue'[|queue| - 1 + k] == Item(ref, Some(visit.id), visit.depth + 1);
      }
    }
  }

  lemma FreshKeepsLayers(root: Ref, maxDepth: nat, done: seq<Visit>, queue: seq<Item>, visit: Visit, queue': seq<Item>)
    requires Layered(done, queue) && (forall i :: 0 <= i < |queue| ==> Listed(root, maxDepth, done, queue[i]))
    requires queue != [] && visit.depth == queue[0].depth && visit.children.Some?
    requires done == [] ==> queue == [Item(root, None, 0)]
    requires queue' == Grown(queue[1..], visit.children.value, visit.id, visit.depth, maxDepth)
    ensures Layered(done + [visit], queue')
    ensures forall i :: 0 <= i < |queue'| ==> Listed(root, maxDepth, done + [visit], queue'[i])
  {
    var grown := done + [visit];
    forall i | 0 <= i < |queue'| ensures Listed(root, maxDepth, grown, queue'[i]) {
      if i < |queue| - 1 {
        assert queue'[i] == queue[i + 1];
        assert Listed(root, maxDepth, done, queue[i + 1]);
        assert done != [];
        var j :| 0 <= j < |done| && Lists(done[j], queue[i + 1]) && done[j].depth < maxDepth;
        assert Lists(grown[j], queue'[i]);
      } else {
        assert Lists(grown[|done|], queue'[i]);
      }
    }
    assert forall i :: 0 <= i < |queue| - 1 ==> queue'[i] == queue[i + 1];
  }

  lemma FreshKeepsFrontier(d: Desktop, root: Ref, maxDepth: nat, done: seq<Visit>, scan: Scan, scan': Scan,
                           visited: set<Id>, queue: seq<Item>, visit: Visit)
    requires Frontier(d, root, maxDepth, done, visited, scan.identities, queue)
    requires queue != [] && Examine(d, scan, visited, queue[0].ref) == Fresh(visit.id, scan')
    requires done == [] ==> queue == [Item(root, None, 0)]
    requires visit == Visit(queue[0].ref, visit.id, queue[0].parent, queue[0].depth, d.Children(queue[0].ref))
    ensures Sound(d, root, maxDepth, done + [visit])
    ensures visit.children.Some? ==>
              Frontier(d, root, maxDepth, done + [visit], visited + {visit.id}, scan'.identities,
                       Grown(queue[1..], visit.children.value, visit.id, visit.depth, maxDepth))
  {
    hide Sound, Settled, Waiting, Closed, Listed, Admitted;
    assert Listed(root, maxDepth, done, queue[0]);
    FreshIsSound(d, root, maxDepth, done, queue[0], visit);
    if visit.children.Some? {
      var queue' := Grown(queue[1..], visit.children.value, visit.id, visit.depth, maxDepth);
      FreshKeepsClosed(d, root, maxDepth, done, visited, scan.identities, queue, visit, queue');
      FreshKeepsLayers(root, maxDepth, done, queue, visit, queue');
      AdmitKeepsIds(done, visit, visited, scan.identities, scan'.identities);
    }
  }

  /** Every walk is sound however it ends, and a completed one leaves nothing waiting. */
  lemma {:induction false} DrainKeepsFrontier(d: Desktop, root: Ref, maxDepth: nat, done: seq<Visit>, scan: Scan,
                                              visited: set<Id>, queue: seq<Item>)
    requires scan.count <= MAX_SCANNED_NODES
    requires Frontier(d, root, maxDepth, done, visited, scan.identities, queue)
    requires done == [] ==> queue == [] || queue == [Item(root, None, 0)]
    ensures var t := Drain(d, maxDepth, scan, visited, queue);
            && Sound(d, root, maxDepth, done + t.visits)
            && (t.complete ==> Closed(d, maxDepth, done + t.visits, []) && Settled(d, done + t.visits, root, 0))
    decreases MAX_SCANNED_NODES - scan.count, |queue|
  {
    hide Sound, Closed, Settled, Frontier, Examine;
    var t := Drain(d, maxDepth, scan, visited, queue);
    FrontierMeans(d, root, maxDepth, done, visited, scan.identities, queue);
    assert done + [] == done;
    if queue == [] {
      return;
    }
    match Examine(d, scan, visited, queue[0].ref) {
      case Fail =>
      case Skip(scan') =>
        SkipKeepsFrontier(d, root, maxDepth, done, scan, scan', visited, queue);
        DrainKeepsFrontier(d, root, maxDepth, done, scan', visited, queue[1..]);
      case Fresh(id, scan') =>
        var visit := Visit(queue[0].ref, id, queue[0].parent, queue[0].depth, d.Children(queue[0].ref));
        FreshKeepsFrontier(d, root, maxDepth, done, scan, scan', visited, queue, visit);
        if visit.children.Some? {
          var queue' := Grown(queue[1..], visit.children.value, id, visit.depth, maxDepth);
          DrainKeepsFrontier(d, root, maxDepth, done + [visit], scan', visited + {id}, queue');
          assert done + t.visits == done + [visit] + t.visits[1..];
        }
    }
  }

  lemma FrontierMeans(d: Desktop, root: Ref, maxDepth: nat, done: seq<Visit>, visited: set<Id>,
                      identities: map<Id, Ref>, queue: seq<Item>)
    requires Frontier(d, root, maxDepth, done, visited, identities, queue)
    ensures Sound(d, root, maxDepth, done)
    ensures queue == [] ==> Closed(d, maxDepth, done, []) && Settled(d, done, root, 0)
  {
    hide Sound, Closed, Settled, Layered, Listed, Admitted;
  }

  lemma AdmitKeepsIds(done: seq<Visit>, visit: Visit, visited: set<Id>, identities: map<Id, Ref>, identities': map<Id, Ref>)
    requires forall id :: id in visited ==> Admitted(done, id)
    requires forall i :: 0 <= i < |done| ==> done[i].id in visited
    requires forall i :: 0 <= i < |done| ==> done[i].id in identities && identities[done[i].id] == done[i].ref
    requires visit.id !in visited && identities' == identities[visit.id := visit.ref]
    ensures forall id :: id in visited + {visit.id} ==> Admitted(done + [visit], id)
    ensures forall i :: 0 <= i < |done + [visit]| ==> (done + [visit])[i].id in visited + {visit.id}
    ensures forall i :: 0 <= i < |done + [visit]| ==>
              (done + [visit])[i].id in identities' && identities'[(done + [visit])[i].id] == (done + [visit])[i].ref
  {
    var grown := done + [visit];
    forall id | id in visited + {visit.id} ensures Admitted(grown, id) {
      if id in visited {
        var i :| 0 <= i < |done| && done[i].id == id;
        assert grown[i].id == id;
      } else {
        assert grown[|done|].id == id;
      }
    }
  }

  // ---------------------------------------------------- shortest paths

  lemma WalkIsSound(d: Desktop, scan: Scan, root: Ref, maxDepth: nat)
    requires scan.count <= MAX_SCANNED_NODES
    ensures var t := WalkFrom(d, scan, root, maxDepth);
            && Sound(d, root, maxDepth, t.visits)
            && (t.complete ==> Closed(d, maxDepth, t.visits, []) && Settled(d, t.visits, root, 0))
  {
    var queue := [Item(root, None, 0)];
    assert queue[0].ref == root;
    DrainKeepsFrontier(d, root, maxDepth, [], scan, {}, queue);
    assert [] + WalkFrom(d, scan, root, maxDepth).visits == WalkFrom(d, scan, root, maxDepth).visits;
  }

  /** An admitted object lies at the end of a target-process path exactly as long as its depth. */
  lemma {:induction false} VisitHasPath(d: Desktop, root: Ref, maxDepth: nat, visits: seq<Visit>, i: nat)
    returns (path: seq<Ref>)
    requires Sound(d, root, maxDepth, visits) && i < |visits|
    ensures PathTo(d, root, visits[i].ref, path) && |path| == visits[i].depth + 1
  {
    if i == 0 {
      path := [root];
    } else {
      assert HasParent(visits, i);
      var j :| 0 <= j < i && IsParent(visits[j], visits[i]);
      var prefix := VisitHasPath(d, root, maxDepth, visits, j);
      path := prefix + [visits[i].ref];
      assert path[|path| - 2] == visits[j].ref;
    }
  }

  /** The end of any target-process path within the bound was admitted, no deeper than the path is long. */
  lemma {:induction false} PathIsVisited(d: Desktop, root: Ref, maxDepth: nat, visits: seq<Visit>, path: seq<Ref>)
    returns (i: nat)
    requires Sound(d, root, maxDepth, visits) && Closed(d, maxDepth, visits, []) && Settled(d, visits, root, 0)
    requires forall i :: 0 <= i < |visits| ==> visits[i].children.Some?
    requires IsPath(d, path) && path[0] == root && |path| - 1 <= maxDepth
    ensures i < |visits| && visits[i].ref == path[|path| - 1] && visits[i].depth <= |path| - 1
    decreases |path|
  {
    var last := |path| - 1;
    if last == 0 {
      i :| 0 <= i < |visits| && Reaches(visits[i], root, 0);
    } else {
      var prefix := path[..last];
      assert IsPath(d, prefix);
      var j := PathIsVisited(d, root, maxDepth, visits, prefix);
      assert d.Children(path[last - 1]).Some? && path[last - 1 + 1] in d.Children(path[last - 1]).value;
      assert path[last] in visits[j].children.value;
      assert !Waiting([], path[last], visits[j].depth + 1);
      assert Settled(d, visits, path[last], visits[j].depth + 1);
      i :| 0 <= i < |visits| && Reaches(visits[i], path[last], visits[j].depth + 1);
    }
  }

  /**
   A completed walk admits exactly the target-process objects reachable within the bound, each once
   and at its shortest distance, in order of distance, each after the parent that listed it.
   */
  lemma BreadthFirst(d: Desktop, scan: Scan, root: Ref, maxDepth: nat)
    requires scan.count <= MAX_SCANNED_NODES
    requires WalkFrom(d, scan, root, maxDepth).complete
    ensures var visits := WalkFrom(d, scan, root, maxDepth).visits;
            && (forall i, j :: 0 <= i < j < |visits| ==>
                  visits[i].ref != visits[j].ref && visits[i].id != visits[j].id && visits[i].depth <= visits[j].depth)
            && (forall i :: 0 <= i < |visits| ==>
                  && (exists path :: PathTo(d, root, visits[i].ref, path) && |path| == visits[i].depth + 1)
                  && (forall path :: PathTo(d, root, visits[i].ref, path) ==> visits[i].depth <= |path| - 1))
            && (forall ref, path :: PathTo(d, root, ref, path) && |path| - 1 <= maxDepth ==>
                  exists i :: 0 <= i < |visits| && visits[i].ref == ref)
            && (forall i :: 0 < i < |visits| ==> HasParent(visits, i))
  {
    WalkIsSound(d, scan, root, maxDepth);
    var visits := WalkFrom(d, scan, root, maxDepth).visits;
    SoundMeans(d, root, maxDepth, visits);
    hide WalkFrom, Sound, Closed, Settled, HasParent, PathTo;
    forall i | 0 <= i < |visits|
      ensures exists path :: PathTo(d, root, visits[i].ref, path) && |path| == visits[i].depth + 1
    {
      var path := VisitHasPath(d, root, maxDepth, visits, i);
    }
    forall i, path | 0 <= i < |visits| && PathTo(d, root, visits[i].ref, path)
      ensures visits[i].depth <= |path| - 1
    {
      if |path| - 1 <= maxDepth {
        var j := PathIsVisited(d, root, maxDepth, visits, path);
        assert j == i;
      }
    }
    forall ref, path | PathTo(d, root, ref, path) && |path| - 1 <= maxDepth
      ensures exists i :: 0 <= i < |visits| && visits[i].ref == ref
    {
      var i := PathIsVisited(d, root, maxDepth, visits, path);
    }
  }

  lemma SoundMeans(d: Desktop, root: Ref, maxDepth: nat, visits: seq<Visit>)
    requires Sound(d, root, maxDepth, visits)
    ensures forall i, j :: 0 <= i < j < |visits| ==>
              visits[i].ref != visits[j].ref && visits[i].id != visits[j].id && visits[i].depth <= visits[j].depth
    ensures forall i, j :: 0 <= i < |visits| && 0 <= j < |visits| && visits[i].ref == visits[j].ref ==> i == j
    ensures forall i :: 0 < i < |visits| ==> HasParent(visits, i)
  {
    hide HasParent;
  }

  // --------------------------------------------------- the exact order

  /** Every reference a walk comes by, in order: its root, then visit by visit the children above the depth bound. */
  ghost function Offered(root: Ref, maxDepth: nat, visits: seq<Visit>): (items: seq<Item>)
  {
    if visits == [] then [Item(root, None, 0)]
    else
      var last := |visits| - 1;
      Offered(root, maxDepth, visits[..last]) + ChildItems(visits[last], maxDepth)
  }

  ghost function ChildItems(visit: Visit, maxDepth: nat): (items: seq<Item>)
  {
    if visit.children.None? || visit.depth >= maxDepth then []
    else seq(|visit.children.value|, i requires 0 <= i < |visit.children.value| =>
               Item(visit.children.value[i], Some(visit.id), visit.depth + 1))
  }

  /** Not admitted a second time, or not the target's. */
  ghost predicate PassedOver(d: Desktop, visits: seq<Visit>, at: seq<nat>, item: Item, k: nat)
  {
    || d.IsTarget(item.ref) == Some(false)
    || exists i :: 0 <= i < |visits| && i < |at| && at[i] < k && visits[i].id == d.hash(item.ref)
  }

  /** The visits are the offers at these places, in order, and every other offer examined was passed over. */
  ghost predicate TakenAt(d: Desktop, examined: seq<Item>, visits: seq<Visit>, at: seq<nat>)
  {
    && |at| == |visits| && Ascends(at, |examined|)
    && (forall i :: 0 <= i < |at| ==>
          var item := examined[at[i]];
          visits[i].ref == item.ref && visits[i].parent == item.parent && visits[i].depth == item.depth)
    && (forall k :: 0 <= k < |examined| && k !in at ==> PassedOver(d, visits, at, examined[k], k))
  }

  /** Whatever counts as visited is among the visits. */
  ghost predicate Covers(done: seq<Visit>, visited: set<Id>)
  {
    forall id :: id in visited ==> exists i :: 0 <= i < |done| && done[i].id == id
  }

  lemma SkipTakes(d: Desktop, examined: seq<Item>, done: seq<Visit>, at: seq<nat>, scan: Scan, scan': Scan, visited: set<Id>,
                  item: Item)
    requires TakenAt(d, examined, done, at) && Examine(d, scan, visited, item.ref) == Skip(scan')
    requires Covers(done, visited)
    ensures TakenAt(d, examined + [item], done, at)
  {
    var longer := examined + [item];
    if d.IsTarget(item.ref) == Some(true) {
      assert d.hash(item.ref) in visited;
      var i :| 0 <= i < |done| && done[i].id == d.hash(item.ref);
      assert at[i] < |examined|;
    }
    assert PassedOver(d, done, at, longer[|examined|], |examined|);
    hide PassedOver, Examine;
    assert forall k :: 0 <= k < |examined| ==> longer[k] == examined[k];
  }

  lemma FreshTakes(d: Desktop, examined: seq<Item>, done: seq<Visit>, at: seq<nat>, item: Item, visit: Visit)
    requires TakenAt(d, examined, done, at)
    requires visit.ref == item.ref && visit.parent == item.parent && visit.depth == item.depth
    ensures TakenAt(d, examined + [item], done + [visit], at + [|examined|])
  {
    var longer, more, places := examined + [item], done + [visit], at + [|examined|];
    assert forall k :: 0 <= k < |examined| ==> longer[k] == examined[k];
    assert forall k :: k in places <==> k in at || k == |examined|;
    forall k | 0 <= k < |longer| && k !in places ensures PassedOver(d, more, places, longer[k], k) {
      assert PassedOver(d, done, at, examined[k], k);
      if d.IsTarget(examined[k].ref) != Some(false) {
        var i :| 0 <= i < |done| && i < |at| && at[i] < k && done[i].id == d.hash(examined[k].ref);
        assert more[i] == done[i] && places[i] == at[i];
      }
    }
  }

  /** What draining the queue examines of what has been offered, and where it takes its visits from. */
  lemma {:induction false} DrainTakes(d: Desktop, root: Ref, maxDepth: nat, done: seq<Visit>, scan: Scan, visited: set<Id>,
                                      queue: seq<Item>, examined: seq<Item>, at: seq<nat>)
    returns (all: seq<Item>, places: seq<nat>)
    requires scan.count <= MAX_SCANNED_NODES
    requires Offered(root, maxDepth, done) == examined + queue && TakenAt(d, examined, done, at)
    requires Covers(done, visited)
    ensures var t := Drain(d, maxDepth, scan, visited, queue);
            && TakenAt(d, all, done + t.visits, places)
            && all <= Offered(root, maxDepth, done + t.visits)
            && (t.complete ==> all == Offered(root, maxDepth, done + t.visits))
    decreases MAX_SCANNED_NODES - scan.count, |queue|
  {
    hide Examine, TakenAt, Covers, Offered, Grown, ChildItems;
    var t := Drain(d, maxDepth, scan, visited, queue);
    if queue == [] {
      assert done + t.visits == done && examined + [] == examined;
      return examined, at;
    }
    var item := queue[0];
    assert examined + queue == examined + [item] + queue[1..];
    match Examine(d, scan, visited, item.ref)
    case Fail =>
      assert done + t.visits == done;
      return examined, at;
    case Skip(scan') =>
      SkipTakes(d, examined, done, at, scan, scan', visited, item);
      all, places := DrainTakes(d, root, maxDepth, done, scan', visited, queue[1..], examined + [item], at);
    case Fresh(id, scan') =>
      var visit := Visit(item.ref, id, item.parent, item.depth, d.Children(item.ref));
      var more := done + [visit];
      FreshTakes(d, examined, done, at, item, visit);
      OfferedGrows(root, maxDepth, done, visit);
      if visit.children.None? {
        assert t.visits == [visit];
        return examined + [item], at + [|examined|];
      }
      var queue' := Grown(queue[1..], visit.children.value, id, item.depth, maxDepth);
      GrownOffers(examined + [item], queue[1..], visit, maxDepth);
      VisitedGrows(done, visit, visited);
      all, places := DrainTakes(d, root, maxDepth, more, scan', visited + {id}, queue', examined + [item], at + [|examined|]);
      assert more + t.visits[1..] == done + t.visits;
  }

  lemma OfferedGrows(root: Ref, maxDepth: nat, done: seq<Visit>, visit: Visit)
    ensures Offered(root, maxDepth, done + [visit]) == Offered(root, maxDepth, done) + ChildItems(visit, maxDepth)
  {
    assert (done + [visit])[..|done|] == done;
  }

  lemma GrownOffers(examined: seq<Item>, rest: seq<Item>, visit: Visit, maxDepth: nat)
    requires visit.children.Some?
    ensures examined + rest + ChildItems(visit, maxDepth) == examined + Grown(rest, visit.children.value, visit.id, visit.depth, maxDepth)
  {
    if visit.depth < maxDepth {
      assert ChildItems(visit, maxDepth) == Enqueued(visit.children.value, visit.id, visit.depth);
    }
  }

  lemma VisitedGrows(done: seq<Visit>, visit: Visit, visited: set<Id>)
    requires Covers(done, visited)
    ensures Covers(done + [visit], visited + {visit.id})
  {
    var more := done + [visit];
    forall id | id in visited + {visit.id} ensures exists i :: 0 <= i < |more| && more[i].id == id {
      if id in visited {
        var i :| 0 <= i < |done| && done[i].id == id;
        assert more[i].id == id;
      } else {
        assert more[|done|].id == id;
      }
    }
  }

  /**
   The exact order of any walk: it takes what it is offered, the root first and then child by child of visit by
   visit, passing over exactly what is not the target's or was taken before; a finished walk examined every offer.
   */
  lemma OrderIsExact(d: Desktop, scan: Scan, root: Ref, maxDepth: nat) returns (examined: seq<Item>, at: seq<nat>)
    requires scan.count <= MAX_SCANNED_NODES
    ensures var t := WalkFrom(d, scan, root, maxDepth);
            && TakenAt(d, examined, t.visits, at)
            && examined <= Offered(root, maxDepth, t.visits)
            && (t.complete ==> examined == Offered(root, maxDepth, t.visits))
  {
    var t := WalkFrom(d, scan, root, maxDepth);
    assert [] + [Item(root, None, 0)] == [Item(root, None, 0)];
    examined, at := DrainTakes(d, root, maxDepth, [], scan, {}, [Item(root, None, 0)], [], []);
    assert [] + t.visits == t.visits;
  }
}
