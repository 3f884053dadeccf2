/**
 Who may perceive what: the agent-seat policy state as values, its operations, the world model a
 session is given, and the class that carries it.
 */
module AgentPolicy {
  import opened Basics
  import opened EventQueue

  type SessionId = nat
  type ClientId = nat
  type Capability = nat

  const OBSERVE_TITLES: Capability := 1

  /** Ordered by sensitivity; a client's visibility only moves down this list. */
  datatype Visibility = Visible | Redacted | Hidden

  function MorePrivate(a: Visibility, b: Visibility): (v: Visibility)
  {
    if a.Hidden? || b.Hidden? then Hidden else if a.Redacted? || b.Redacted? then Redacted else Visible
  }

  datatype Grant = Grant(capabilities: set<Capability>, scope: Option<set<ClientId>>)
  {
    predicate Covers(client: ClientId)
    {
      scope.None? || client in scope.value
    }

    function Include(client: ClientId): Grant
    {
      if scope.Some? then this.(scope := Some(scope.value + {client})) else this
    }

    function Forget(client: ClientId): Grant
    {
      if scope.Some? then this.(scope := Some(scope.value - {client})) else this
    }
  }

  datatype Status = Active | Frozen | Revoked

  datatype Session = Session(
    grant: Grant,
    status: Status,
    subscription: Option<Subscription>,
    sequence: nat,
    nextAction: nat)

  datatype State = State(
    sessions: map<SessionId, Session>,
    visibility: map<ClientId, Visibility>,
    generations: map<ClientId, nat>)
  {
    function VisibilityOf(client: ClientId): (v: Visibility)
    {
      if client in visibility then visibility[client] else Visible
    }

    function GenerationOf(client: ClientId): (g: nat)
    {
      if client in generations then generations[client] else 1
    }

    predicate Perceives(session: SessionId, client: ClientId)
    {
      session in sessions && !VisibilityOf(client).Hidden? && sessions[session].grant.Covers(client)
    }

    predicate Observes(session: SessionId, subject: Option<ClientId>)
    {
      session in sessions && (subject.None? || Perceives(session, subject.value))
    }

    /** Receives events of `kind` about `subject`. */
    predicate Subscribes(session: SessionId, kind: EventKind, subject: Option<ClientId>)
    {
      && Observes(session, subject)
      && sessions[session].subscription.Some? && sessions[session].subscription.value.Wants(kind)
    }
  }

  datatype Op =
    | Open(session: SessionId, grant: Grant)
    | Close(session: SessionId)
    | SetGrant(session: SessionId, grant: Grant)
    | SetStatus(session: SessionId, status: Status)
    | IssueAction(session: SessionId)
    | Subscribe(session: SessionId, kinds: set<EventKind>)
    | PopEvent(session: SessionId)
    | RequeueEvent(session: SessionId, envelope: Envelope)
    | TakeEvents(session: SessionId)
    | SetAll(status: Status)
    | ResumeAll
    | Publish(events: seq<(SessionId, Event)>)
    | TouchObservers(subject: Option<ClientId>)
    | ObserveClient(client: ClientId, level: Visibility, inScope: set<SessionId>)
    | ForgetClient(client: ClientId)
    | Touch(client: ClientId)

  // ------------------------------------------------ operations on values

  function WithSession(s: State, id: SessionId, session: Session): State
  {
    s.(sessions := s.sessions[id := session])
  }

  function OnSubscription(s: State, id: SessionId, change: Subscription -> Subscription): (s': State)
  {
    if id !in s.sessions || s.sessions[id].subscription.None? then s
    else WithSession(s, id, s.sessions[id].(subscription := Some(change(s.sessions[id].subscription.value))))
  }

  function PublishOne(s: State, id: SessionId, event: Event): (s': State)
  {
    if id !in s.sessions then s
    else OnSubscription(s, id, q => Push(q, Envelope(s.sessions[id].sequence, event)))
  }

  function PublishAll(s: State, events: seq<(SessionId, Event)>): (s': State)
  {
    if events == [] then s
    else
      var last := |events| - 1;
      PublishOne(PublishAll(s, events[..last]), events[last].0, events[last].1)
  }

  function Popped(s: State, id: SessionId): (e: Option<Envelope>)
  {
    if id !in s.sessions || s.sessions[id].subscription.None? then None
    else Pop(s.sessions[id].subscription.value, s.sessions[id].sequence).1
  }

  function Taken(s: State, id: SessionId): (es: seq<Envelope>)
  {
    if id !in s.sessions || s.sessions[id].subscription.None? then []
    else Take(s.sessions[id].subscription.value, s.sessions[id].sequence).1
  }

  function Apply(s: State, op: Op): (s': State)
  {
    match op
    case Open(id, grant) => WithSession(s, id, Session(grant, Active, None, 0, 1))
    case Close(id) => s.(sessions := s.sessions - {id})
    case SetGrant(id, grant) => if id in s.sessions then WithSession(s, id, s.sessions[id].(grant := grant)) else s
    case SetStatus(id, status) => if id in s.sessions then WithSession(s, id, s.sessions[id].(status := status)) else s
    case IssueAction(id) =>
      if id in s.sessions
      then WithSession(s, id, s.sessions[id].(nextAction := SaturatingNext(s.sessions[id].nextAction))) else s
    case Subscribe(id, kinds) =>
      if id in s.sessions then WithSession(s, id, s.sessions[id].(subscription := Some(Fresh(kinds)))) else s
    case PopEvent(id) => if id in s.sessions then OnSubscription(s, id, q => Pop(q, s.sessions[id].sequence).0) else s
    case RequeueEvent(id, e) => OnSubscription(s, id, q => Requeue(q, e))
    case TakeEvents(id) => if id in s.sessions then OnSubscription(s, id, q => Take(q, s.sessions[id].sequence).0) else s
    case SetAll(status) => s.(sessions := map id | id in s.sessions :: s.sessions[id].(status := status))
    case ResumeAll =>
      s.(sessions := map id | id in s.sessions ::
           if s.sessions[id].status.Frozen? then s.sessions[id].(status := Active) else s.sessions[id])
    case Publish(events) => PublishAll(s, events)
    case TouchObservers(subject) =>
      s.(sessions := map id | id in s.sessions ::
           if s.Observes(id, subject) then s.sessions[id].(sequence := SaturatingNext(s.sessions[id].sequence))
           else s.sessions[id])
    case ObserveClient(client, level, inScope) =>
      State(map id | id in s.sessions ::
              if id in inScope then s.sessions[id].(grant := s.sessions[id].grant.Include(client)) else s.sessions[id],
            s.visibility[client := if client in s.visibility then MorePrivate(s.visibility[client], level) else level],
            if client in s.generations then s.generations else s.generations[client := 1])
    case ForgetClient(client) =>
      State(map id | id in s.sessions :: s.sessions[id].(grant := s.sessions[id].grant.Forget(client)),
            s.visibility - {client},
            s.generations - {client})
    case Touch(client) =>
      s.(generations := s.generations[client := if client in s.generations then SaturatingNext(s.generations[client]) else 1])
  }

  // ------------------------------------------------------ the world model

  datatype Rect = Rect(x: int, y: int, width: nat, height: nat)
  datatype Transient = NoTransient | Group | Parent(client: ClientId)

  /** What the window manager and its backend know about one managed client; `ground` is a desktop or a dock. */
  datatype Managed = Managed(
    content: Rect,
    frame: Rect,
    workspace: Option<nat>,
    transient: Transient,
    iconic: bool,
    ground: bool,
    flags: set<nat>,
    application: string,
    title: Option<string>)

  datatype Output = Output(id: nat, name: Option<string>, geometry: Rect, workArea: Rect, primary: bool)

  datatype World = World(
    order: seq<ClientId>,
    stacking: seq<ClientId>,
    focused: Option<ClientId>,
    managed: map<ClientId, Managed>,
    outputs: seq<Output>,
    outputAt: Rect -> nat,
    workspaces: seq<Option<string>>,
    current: nat,
    showingDesktop: bool)

  /** The state flags of a client; whether it is visible depends on the workspace shown and on whether the desktop is. */
  datatype ClientState = ClientState(focused: bool, visible: bool, minimized: bool, sticky: bool, flags: set<nat>)

  datatype Descriptor = Descriptor(
    client: ClientId,
    generation: nat,
    application: string,
    title: Option<string>,
    redacted: bool,
    content: Rect,
    frame: Rect,
    workspace: Option<nat>,
    output: nat,
    state: ClientState,
    transientFor: Option<ClientId>)

  datatype Snapshot = Snapshot(
    sequence: nat,
    outputs: seq<Output>,
    workspaces: seq<Option<string>>,
    current: nat,
    focused: Option<ClientId>,
    stacking: seq<ClientId>,
    clients: seq<Descriptor>)

  function StateOf(w: World, client: ClientId, m: Managed): (c: ClientState)
  {
    ClientState(w.focused == Some(client),
                (m.workspace.None? || m.workspace.value == w.current) && (!w.showingDesktop || m.ground),
                m.iconic, m.workspace.None?, m.flags)
  }

  function Describe(s: State, session: SessionId, client: ClientId, w: World): (d: Option<Descriptor>)
    ensures d.Some? <==> s.Perceives(session, client) && client in w.managed
    ensures d.Some? ==>
              var m := w.managed[client];
              && d.value.client == client && d.value.generation == s.GenerationOf(client)
              && d.value.application == m.application
              && d.value.content == m.content && d.value.frame == m.frame && d.value.output == w.outputAt(m.content)
              && d.value.workspace == m.workspace && (d.value.state.sticky <==> m.workspace.None?)
              && d.value.state.flags == m.flags && d.value.state.minimized == m.iconic
              && (d.value.state.focused <==> w.focused == Some(client))
              && (d.value.redacted <==> s.VisibilityOf(client).Redacted?)
              && (forall parent: ClientId :: d.value.transientFor == Some(parent) <==> m.transient == Parent(parent))
  {
    if !s.Perceives(session, client) || client !in w.managed then None
    else
      var m := w.managed[client];
      var redacted := s.VisibilityOf(client).Redacted?;
      var titles := OBSERVE_TITLES in s.sessions[session].grant.capabilities;
      Some(Descriptor(client, s.GenerationOf(client), m.application, if redacted || !titles then None else m.title,
                      redacted, m.content, m.frame, m.workspace, w.outputAt(m.content), StateOf(w, client, m),
                      if m.transient.Parent? then Some(m.transient.client) else None))
  }

  function DescribeAll(s: State, session: SessionId, order: seq<ClientId>, w: World): (ds: seq<Descriptor>)
    ensures forall d :: d in ds ==> d.client in order && s.Perceives(session, d.client) && d.client in w.managed
    ensures forall c :: c in order && s.Perceives(session, c) && c in w.managed ==> exists d :: d in ds && d.client == c
  {
    if order == [] then []
    else
      var rest := DescribeAll(s, session, order[1..], w);
      var d := Describe(s, session, order[0], w);
      if d.Some? then
        assert d.value in [d.value] + rest;
        assert forall e :: e in rest ==> e in [d.value] + rest;
        [d.value] + rest
      else rest
  }

  /** The perceived clients of a list, in its order. */
  function Seen(s: State, session: SessionId, clients: seq<ClientId>): (seen: seq<ClientId>)
    ensures forall c :: c in seen <==> c in clients && s.Perceives(session, c)
  {
    if clients == [] then []
    else (if s.Perceives(session, clients[0]) then [clients[0]] else []) + Seen(s, session, clients[1..])
  }

  function SnapshotOf(s: State, session: SessionId, w: World): (view: Snapshot)
  {
    var perceived := Seen(s, session, w.order);
    Snapshot(if session in s.sessions then s.sessions[session].sequence else 0,
             w.outputs, w.workspaces, w.current,
             if w.focused.Some? && w.focused.value in perceived then w.focused else None,
             Within(w.stacking, perceived),
             DescribeAll(s, session, w.order, w))
  }

  function Within(clients: seq<ClientId>, allowed: seq<ClientId>): (kept: seq<ClientId>)
    ensures forall c :: c in kept <==> c in clients && c in allowed
  {
    if clients == [] then []
    else (if clients[0] in allowed then [clients[0]] else []) + Within(clients[1..], allowed)
  }

  /** Every place a snapshot can name a client in. */
  ghost predicate Names(view: Snapshot, client: ClientId)
  {
    || (exists d :: d in view.clients && (d.client == client || d.transientFor == Some(client)))
    || client in view.stacking
    || view.focused == Some(client)
  }

  ghost predicate ParentOfSeen(s: State, session: SessionId, w: World, parent: ClientId)
  {
    exists c :: c in w.order && c in w.managed && s.Perceives(session, c) && w.managed[c].transient == Parent(parent)
  }

  /** A described client is a perceived, managed one of the list, and its parent link is the one it was given. */
  lemma {:induction false} DescribedAreManaged(s: State, session: SessionId, order: seq<ClientId>, w: World)
    ensures forall d :: d in DescribeAll(s, session, order, w) ==>
              && d.client in order && d.client in w.managed && s.Perceives(session, d.client)
              && Describe(s, session, d.client, w) == Some(d)
    ensures forall c :: c in order && c in w.managed && s.Perceives(session, c) ==>
              exists d :: d in DescribeAll(s, session, order, w) && Describe(s, session, c, w) == Some(d)
  {
    if order != [] {
      DescribedAreManaged(s, session, order[1..], w);
      var rest := DescribeAll(s, session, order[1..], w);
      var d := Describe(s, session, order[0], w);
      if d.Some? {
        assert DescribeAll(s, session, order, w) == [d.value] + rest;
        assert d.value in [d.value] + rest;
        assert forall e :: e in rest ==> e in [d.value] + rest;
      }
    }
  }

  /**
   A snapshot describes, stacks and focuses only clients the session perceives, describes every managed
   one of them, and names an unperceived client exactly as the parent link of one it describes.
   */
  lemma SnapshotNamesOnlyPerceived(s: State, session: SessionId, w: World)
    ensures var view := SnapshotOf(s, session, w);
            && (forall d :: d in view.clients ==> s.Perceives(session, d.client))
            && (forall c :: c in view.stacking ==> s.Perceives(session, c))
            && (view.focused.Some? ==> s.Perceives(session, view.focused.value))
            && (forall c :: c in w.order && c in w.managed && s.Perceives(session, c) ==>
                  exists d :: d in view.clients && d.client == c)
            && (forall c: ClientId :: !s.Perceives(session, c) ==> (Names(view, c) <==> ParentOfSeen(s, session, w, c)))
  {
    var view := SnapshotOf(s, session, w);
    DescribedAreManaged(s, session, w.order, w);
    hide DescribeAll, Describe;
    forall c: ClientId | !s.Perceives(session, c) ensures Names(view, c) <==> ParentOfSeen(s, session, w, c) {
      if Names(view, c) {
        var d :| d in view.clients && d.transientFor == Some(c);
        assert w.managed[d.client].transient == Parent(c);
      }
      if ParentOfSeen(s, session, w, c) {
        var child :| child in w.order && child in w.managed && s.Perceives(session, child)
                     && w.managed[child].transient == Parent(c);
        var d :| d in view.clients && Describe(s, session, child, w) == Some(d);
        assert d.transientFor == Some(c);
      }
    }
  }

  // -------------------------------------------- what a snapshot contains

  /** An open session, a client that is not hidden, and a grant without scope or with the client in it. */
  ghost predicate MayPerceive(s: State, session: SessionId, client: ClientId)
  {
    && session in s.sessions
    && (client in s.visibility ==> s.visibility[client] != Hidden)
    && (s.sessions[session].grant.scope == None || client in s.sessions[session].grant.scope.value)
  }

  /** Everything a session is told of one client. */
  ghost predicate ShownAs(s: State, session: SessionId, w: World, client: ClientId, d: Descriptor)
    requires session in s.sessions && client in w.managed
  {
    var m := w.managed[client];
    && d.client == client
    && d.generation == (if client in s.generations then s.generations[client] else 1)
    && d.application == m.application
    && (d.redacted <==> client in s.visibility && s.visibility[client] == Redacted)
    && d.title == (if d.redacted || OBSERVE_TITLES !in s.sessions[session].grant.capabilities then None else m.title)
    && d.content == m.content && d.frame == m.frame && d.output == w.outputAt(m.content)
    && d.workspace == m.workspace
    && (d.state.focused <==> w.focused == Some(client))
    && (d.state.visible <==> (m.workspace == None || m.workspace == Some(w.current)) && (w.showingDesktop ==> m.ground))
    && (d.state.minimized <==> m.iconic) && (d.state.sticky <==> m.workspace == None) && d.state.flags == m.flags
    && (d.transientFor.Some? <==> m.transient.Parent?)
    && (d.transientFor.Some? ==> d.transientFor.value == m.transient.client)
  }

  function ClientsOf(ds: seq<Descriptor>): (clients: seq<ClientId>)
    ensures |clients| == |ds| && forall i :: 0 <= i < |ds| ==> clients[i] == ds[i].client
  {
    seq(|ds|, i requires 0 <= i < |ds| => ds[i].client)
  }

  lemma DescribedAsShown(s: State, session: SessionId, client: ClientId, w: World)
    ensures Describe(s, session, client, w).Some? <==> MayPerceive(s, session, client) && client in w.managed
    ensures Describe(s, session, client, w).Some? ==>
              session in s.sessions && ShownAs(s, session, w, client, Describe(s, session, client, w).value)
  {
  }

  /** The clients of a collection that a session may perceive. */
  ghost function Perceivable(s: State, session: SessionId, clients: set<ClientId>): (seen: set<ClientId>)
  {
    set c | c in clients && MayPerceive(s, session, c)
  }

  ghost function Members(clients: seq<ClientId>): (members: set<ClientId>)
  {
    set c | c in clients
  }

  lemma {:induction false} DescribedInOrder(s: State, session: SessionId, w: World, order: seq<ClientId>)
    ensures Keeps(order, Perceivable(s, session, w.managed.Keys), ClientsOf(DescribeAll(s, session, order, w)))
  {
    hide MayPerceive, ShownAs, Describe, Keeps;
    var wanted := Perceivable(s, session, w.managed.Keys);
    if order == [] {
      KeepsNothing(wanted);
      assert ClientsOf([]) == [];
      return;
    }
    DescribedInOrder(s, session, w, order[1..]);
    DescribedAsShown(s, session, order[0], w);
    var rest := DescribeAll(s, session, order[1..], w);
    KeepsHead(order, wanted, ClientsOf(rest));
    var d := Describe(s, session, order[0], w);
    assert ClientsOf(DescribeAll(s, session, order, w)) == (if d.Some? then [order[0]] else []) + ClientsOf(rest);
  }

  lemma {:induction false} StackedInOrder(s: State, session: SessionId, order: seq<ClientId>, all: seq<ClientId>)
    ensures Keeps(all, Perceivable(s, session, Members(order)), Within(all, Seen(s, session, order)))
  {
    hide MayPerceive, Keeps;
    var wanted := Perceivable(s, session, Members(order));
    if all == [] {
      KeepsNothing(wanted);
      return;
    }
    StackedInOrder(s, session, order, all[1..]);
    PerceivesIsMay(s, session, all[0]);
    KeepsHead(all, wanted, Within(all[1..], Seen(s, session, order)));
  }

  lemma PerceivesIsMay(s: State, session: SessionId, client: ClientId)
    ensures s.Perceives(session, client) <==> MayPerceive(s, session, client)
  {
  }

  /**
   A snapshot is the desktop as the session may perceive it: the perceivable managed clients in management
   order, each described in full, the stack in its own order, the focus if perceivable, and the outputs,
   workspaces and counter as they are.
   */
  lemma SnapshotShowsExactly(s: State, session: SessionId, w: World)
    ensures var view := SnapshotOf(s, session, w);
            && view.sequence == (if session in s.sessions then s.sessions[session].sequence else 0)
            && view.outputs == w.outputs && view.workspaces == w.workspaces && view.current == w.current
            && (forall c: ClientId :: view.focused == Some(c)
                  <==> w.focused == Some(c) && MayPerceive(s, session, c) && c in w.order)
            && Keeps(w.stacking, Perceivable(s, session, Members(w.order)), view.stacking)
            && ((forall c :: c in w.stacking ==> c in w.order && MayPerceive(s, session, c)) ==> view.stacking == w.stacking)
            && Keeps(w.order, Perceivable(s, session, w.managed.Keys), ClientsOf(view.clients))
            && (forall d :: d in view.clients ==>
                  session in s.sessions && d.client in w.managed && ShownAs(s, session, w, d.client, d))
  {
    var view := SnapshotOf(s, session, w);
    DescribedInOrder(s, session, w, w.order);
    DescribedAreManaged(s, session, w.order, w);
    StackedInOrder(s, session, w.order, w.stacking);
    if w.focused.Some? {
      PerceivesIsMay(s, session, w.focused.value);
    }
    hide MayPerceive, ShownAs, Keeps, DescribeAll, Describe, Within, State.Perceives;
    forall d | d in view.clients
      ensures session in s.sessions && d.client in w.managed && ShownAs(s, session, w, d.client, d)
    {
      DescribedAsShown(s, session, d.client, w);
    }
    if forall c :: c in w.stacking ==> c in w.order && MayPerceive(s, session, c) {
      KeepsWhole(w.stacking, Perceivable(s, session, Members(w.order)), view.stacking);
    }
  }

  /** A snapshot shows a title only of a client that is not redacted, and only to a session that may read titles. */
  lemma {:induction false} TitlesAreGuarded(s: State, session: SessionId, order: seq<ClientId>, w: World)
    ensures forall d :: d in DescribeAll(s, session, order, w) ==>
              && (d.redacted <==> s.VisibilityOf(d.client).Redacted?)
              && (d.title.Some? ==> !d.redacted && OBSERVE_TITLES in s.sessions[session].grant.capabilities)
              && (!d.redacted && OBSERVE_TITLES in s.sessions[session].grant.capabilities ==>
                    d.title == w.managed[d.client].title)
  {
    if order != [] {
      TitlesAreGuarded(s, session, order[1..], w);
    }
  }

  function Run(s: State, ops: seq<Op>): (s': State)
    decreases |ops|
  {
    if ops == [] then s else Run(Apply(s, ops[0]), ops[1..])
  }

  lemma {:induction false} PublishKeepsVisibility(s: State, events: seq<(SessionId, Event)>)
    ensures PublishAll(s, events).visibility == s.visibility
  {
    if events != [] {
      PublishKeepsVisibility(s, events[..|events| - 1]);
    }
  }

  function Privacy(v: Visibility): (level: nat)
  {
    match v case Visible => 0 case Redacted => 1 case Hidden => 2
  }

  /** Whatever is configured later, a client's visibility only moves toward the more private until it is forgotten. */
  lemma {:induction false} VisibilityRatchets(s: State, ops: seq<Op>, client: ClientId)
    requires ForgetClient(client) !in ops
    ensures Privacy(s.VisibilityOf(client)) <= Privacy(Run(s, ops).VisibilityOf(client))
    decreases |ops|
  {
    if ops != [] {
      if ops[0].Publish? {
        PublishKeepsVisibility(s, ops[0].events);
      }
      VisibilityRatchets(Apply(s, ops[0]), ops[1..], client);
    }
  }

  /** A hidden client stays absent from every session, whatever grants are given, until it is forgotten. */
  lemma HiddenStaysUnperceived(s: State, ops: seq<Op>, client: ClientId, session: SessionId)
    requires s.VisibilityOf(client).Hidden? && ForgetClient(client) !in ops
    ensures !Run(s, ops).Perceives(session, client)
  {
    VisibilityRatchets(s, ops, client);
  }

  // ------------------------------------------- what operations change

  /**
   Whether a session may perceive a client after an operation, from the operation and the state before: opening
   and granting decide by the new grant, observing by the more private level and the scope it joins, forgetting
   by an unscoped grant alone; nothing else matters.
   */
  lemma PerceivingChangesExactly(s: State, op: Op, id: SessionId, client: ClientId)
    ensures MayPerceive(Apply(s, op), id, client) <==>
              match op
              case Open(session, grant) =>
                if session == id then (client in s.visibility ==> s.visibility[client] != Hidden)
                                      && (grant.scope == None || client in grant.scope.value)
                else MayPerceive(s, id, client)
              case Close(session) => session != id && MayPerceive(s, id, client)
              case SetGrant(session, grant) =>
                if session == id then id in s.sessions && (client in s.visibility ==> s.visibility[client] != Hidden)
                                      && (grant.scope == None || client in grant.scope.value)
                else MayPerceive(s, id, client)
              case ObserveClient(observed, level, inScope) =>
                if observed != client then MayPerceive(s, id, client)
                else id in s.sessions && level != Hidden && (client in s.visibility ==> s.visibility[client] != Hidden)
                     && (s.sessions[id].grant.scope == None || client in s.sessions[id].grant.scope.value || id in inScope)
              case ForgetClient(forgotten) =>
                if forgotten != client then MayPerceive(s, id, client)
                else id in s.sessions && s.sessions[id].grant.scope == None
              case _ => MayPerceive(s, id, client)
  {
    if op.Publish? {
      PublishKeepsGrants(s, op.events);
    }
    hide Push, Pop, Take, Requeue;
  }

  lemma {:induction false} PublishKeepsGrants(s: State, events: seq<(SessionId, Event)>)
    ensures var s' := PublishAll(s, events);
            && s'.sessions.Keys == s.sessions.Keys && s'.visibility == s.visibility && s'.generations == s.generations
            && forall id :: id in s.sessions ==>
                 s'.sessions[id].(subscription := s.sessions[id].subscription) == s.sessions[id]
  {
    if events != [] {
      PublishKeepsGrants(s, events[..|events| - 1]);
    }
    hide Push;
  }

  /** How a session stands after an operation: resuming wakes only the frozen, and nothing but status operations matters. */
  lemma StatusesChangeExactly(s: State, op: Op, id: SessionId)
    requires id in s.sessions
    ensures id in Apply(s, op).sessions <==> op != Close(id)
    ensures op != Close(id) ==>
              Apply(s, op).sessions[id].status
              == match op
                 case Open(session, _) => if session == id then Active else s.sessions[id].status
                 case SetStatus(session, status) => if session == id then status else s.sessions[id].status
                 case SetAll(status) => status
                 case ResumeAll => if s.sessions[id].status == Frozen then Active else s.sessions[id].status
                 case _ => s.sessions[id].status
  {
    if op.Publish? {
      PublishKeepsGrants(s, op.events);
    }
    hide PublishAll, Push, Pop, Take, Requeue;
  }

  /** How often a client is touched in a run. */
  function Touches(ops: seq<Op>, client: ClientId): (n: nat)
    decreases |ops|
  {
    if ops == [] then 0 else (if ops[0] == Touch(client) then 1 else 0) + Touches(ops[1..], client)
  }

  /** A known client's generation counts its changes, whatever else happens, until it is forgotten. */
  lemma {:induction false} GenerationsCountTouches(s: State, ops: seq<Op>, client: ClientId)
    requires client in s.generations && ForgetClient(client) !in ops
    requires s.generations[client] + |ops| < U64_MAX
    ensures var s' := Run(s, ops);
            client in s'.generations && s'.generations[client] == s.generations[client] + Touches(ops, client)
    decreases |ops|
  {
    if ops != [] {
      var s' := Apply(s, ops[0]);
      if ops[0].Publish? {
        PublishKeepsGrants(s, ops[0].events);
      }
      hide PublishAll, OnSubscription;
      assert client in s'.generations
          && s'.generations[client] == s.generations[client] + (if ops[0] == Touch(client) then 1 else 0);
      GenerationsCountTouches(s', ops[1..], client);
    }
  }

  /** A client first observed is known from then on, at generation 1 or where it was. */
  lemma ObservingMakesKnown(s: State, client: ClientId, level: Visibility, inScope: set<SessionId>)
    ensures var s' := Apply(s, ObserveClient(client, level, inScope));
            && client in s'.generations
            && s'.generations[client] == (if client in s.generations then s.generations[client] else 1)
            && client in s'.visibility
            && Privacy(s'.visibility[client])
               == (if client in s.visibility && Privacy(s.visibility[client]) > Privacy(level)
                   then Privacy(s.visibility[client]) else Privacy(level))
  {
  }

  /** How many actions a run issues to a session. */
  function Actions(ops: seq<Op>, id: SessionId): (n: nat)
    decreases |ops|
  {
    if ops == [] then 0 else (if ops[0] == IssueAction(id) then 1 else 0) + Actions(ops[1..], id)
  }

  /** Within one session no action number is given twice: the next one counts the actions issued. */
  lemma {:induction false} ActionsAreNumbered(s: State, ops: seq<Op>, id: SessionId)
    requires id in s.sessions && s.sessions[id].nextAction + |ops| < U64_MAX
    requires forall op :: op in ops ==> !(op.Open? && op.session == id) && op != Close(id)
    ensures var s' := Run(s, ops);
            id in s'.sessions && s'.sessions[id].nextAction == s.sessions[id].nextAction + Actions(ops, id)
    decreases |ops|
  {
    if ops != [] {
      ActionStep(s, ops[0], id);
      assert ops[0] in ops;
      hide Apply;
      ActionsAreNumbered(Apply(s, ops[0]), ops[1..], id);
    }
  }

  lemma ActionStep(s: State, op: Op, id: SessionId)
    requires id in s.sessions && s.sessions[id].nextAction < U64_MAX && !(op.Open? && op.session == id) && op != Close(id)
    ensures var s' := Apply(s, op);
            id in s'.sessions
            && s'.sessions[id].nextAction == s.sessions[id].nextAction + (if op == IssueAction(id) then 1 else 0)
  {
    if op.Publish? {
      PublishKeepsGrants(s, op.events);
    }
    hide PublishAll, Push, Pop, Take, Requeue;
  }

  // -------------------------------------------------- how final revoking is

  predicate Revoked(s: State, id: SessionId)
  {
    id in s.sessions && s.sessions[id].status.Revoked?
  }

  /** Sets the session to another status, alone or with all the others, or replaces or removes it. */
  predicate Reinstates(op: Op, id: SessionId)
  {
    match op
    case SetAll(status) => !status.Revoked?
    case SetStatus(session, status) => session == id && !status.Revoked?
    case Open(session, _) => session == id
    case Close(session) => session == id
    case _ => false
  }

  lemma {:induction false} PublishKeepsStatuses(s: State, events: seq<(SessionId, Event)>)
    ensures var s' := PublishAll(s, events);
            s'.sessions.Keys == s.sessions.Keys && forall id :: id in s.sessions ==> s'.sessions[id].status == s.sessions[id].status
  {
    if events != [] {
      PublishKeepsStatuses(s, events[..|events| - 1]);
    }
  }

  /** A revoked session is still revoked after a step exactly when the step does not reinstate it. */
  lemma RevokedExactlyUntilReinstated(s: State, op: Op, id: SessionId)
    requires Revoked(s, id)
    ensures Revoked(Apply(s, op), id) <==> !Reinstates(op, id)
  {
    if op.Publish? {
      PublishKeepsStatuses(s, op.events);
    }
  }

  /** Over a run, a revoked session stays revoked throughout exactly when no step reinstates it. */
  lemma {:induction false} RevocationLastsExactly(s: State, ops: seq<Op>, id: SessionId)
    requires Revoked(s, id)
    ensures (forall k :: 0 <= k <= |ops| ==> Revoked(Run(s, ops[..k]), id)) <==> forall op :: op in ops ==> !Reinstates(op, id)
    decreases |ops|
  {
    if ops == [] {
      assert ops[..0] == [];
      return;
    }
    hide Apply, Reinstates;
    RevokedExactlyUntilReinstated(s, ops[0], id);
    assert Run(s, ops[..0]) == s;
    assert ops[..1] == [ops[0]] && Run(s, ops[..1]) == Apply(s, ops[0]) by {
      assert ops[..1][1..] == [];
    }
    if Reinstates(ops[0], id) {
      assert !Revoked(Run(s, ops[..1]), id);
    } else {
      RevocationLastsExactly(Apply(s, ops[0]), ops[1..], id);
      forall k | 0 < k <= |ops| ensures Run(s, ops[..k]) == Run(Apply(s, ops[0]), ops[1..][..k - 1]) {
        assert ops[..k][1..] == ops[1..][..k - 1];
      }
      assert (forall k :: 0 <= k <= |ops| ==> Revoked(Run(s, ops[..k]), id))
        <==> forall k :: 0 <= k <= |ops[1..]| ==> Revoked(Run(Apply(s, ops[0]), ops[1..][..k]), id) by {
        forall k | 0 <= k <= |ops[1..]| ensures Run(s, ops[..k + 1]) == Run(Apply(s, ops[0]), ops[1..][..k]) {
        }
      }
      assert forall op :: op in ops <==> op == ops[0] || op in ops[1..];
    }
  }

  /** Freezing every session and resuming brings any revoked one back just as it was. */
  lemma FreezingReinstates(s: State, id: SessionId)
    requires Revoked(s, id)
    ensures var back := Run(s, [SetAll(Frozen), ResumeAll]);
            id in back.sessions && back.sessions[id] == s.sessions[id].(status := Active)
  {
    RunTwo(s, SetAll(Frozen), ResumeAll);
  }

  lemma RunTwo(s: State, first: Op, second: Op)
    ensures Run(s, [first, second]) == Apply(Apply(s, first), second)
  {
    hide Apply;
    var middle := Apply(s, first);
    assert [first, second][1..] == [second] && [second][1..] == [];
    assert Run(s, [first, second]) == Run(middle, [second]);
    assert Run(middle, [second]) == Run(Apply(middle, second), []);
  }

  /** A session opened, revoked, frozen with the others and resumed is active again with its grant intact. */
  lemma RevokedComesBack(grant: Grant)
    ensures var revoked := Run(State(map[], map[], map[]), [Open(7, grant), SetStatus(7, Status.Revoked)]);
            var back := Run(revoked, [SetAll(Frozen), ResumeAll]);
            && Revoked(revoked, 7)
            && 7 in back.sessions && back.sessions[7].status == Active && back.sessions[7].grant == grant
  {
    RunTwo(State(map[], map[], map[]), Open(7, grant), SetStatus(7, Status.Revoked));
    FreezingReinstates(Run(State(map[], map[], map[]), [Open(7, grant), SetStatus(7, Status.Revoked)]), 7);
  }
}
