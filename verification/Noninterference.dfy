/**
 What one session can learn from one operation: exactly when an operation on an unperceived client stays
 unnoticed, exactly when an operation of two runs leaves them looking alike, and what a snapshot then shows.
 */
module Noninterference {
  import opened Basics
  import opened EventQueue
  import opened AgentPolicy

  ghost predicate SameSession(a: Session, b: Session)
  {
    && a.grant.capabilities == b.grant.capabilities
    && (a.grant.scope.None? <==> b.grant.scope.None?)
    && a.status == b.status
    && a.subscription == b.subscription
    && a.sequence == b.sequence
    && a.nextAction == b.nextAction
  }

  /** The two states agree on which clients the session perceives, and on what it perceives of them. */
  ghost predicate SamePerception(a: State, b: State, id: SessionId)
  {
    forall c :: (a.Perceives(id, c) <==> b.Perceives(id, c)) && (a.Perceives(id, c) ==> SameClient(a, b, c))
  }

  ghost predicate SameClient(a: State, b: State, client: ClientId)
  {
    && a.VisibilityOf(client) == b.VisibilityOf(client)
    && a.GenerationOf(client) == b.GenerationOf(client)
    && (client in a.generations <==> client in b.generations)
  }

  ghost predicate SameView(a: State, b: State, id: SessionId)
  {
    && (id in a.sessions <==> id in b.sessions)
    && (id in a.sessions ==> SameSession(a.sessions[id], b.sessions[id]))
    && SamePerception(a, b, id)
  }

  // ---------------------------------------- operations nobody notices

  function Subject(op: Op): (client: Option<ClientId>)
  {
    match op
    case ObserveClient(client, _, _) => Some(client)
    case ForgetClient(client) => Some(client)
    case Touch(client) => Some(client)
    case TouchObservers(subject) => subject
    case _ => None
  }

  function Addressee(op: Op): (session: Option<SessionId>)
  {
    match op
    case Open(id, _) => Some(id)
    case Close(id) => Some(id)
    case SetGrant(id, _) => Some(id)
    case SetStatus(id, _) => Some(id)
    case IssueAction(id) => Some(id)
    case Subscribe(id, _) => Some(id)
    case PopEvent(id) => Some(id)
    case RequeueEvent(id, _) => Some(id)
    case TakeEvents(id) => Some(id)
    case _ => None
  }

  /** Forgetting an unperceived client would drop the record that hides it from the session. */
  predicate WouldUncover(s: State, op: Op, id: SessionId)
  {
    id in s.sessions &&
    match op
    case ForgetClient(_) => s.sessions[id].grant.scope.None?
    case ObserveClient(client, level, inScope) => id in inScope && !s.VisibilityOf(client).Hidden? && !level.Hidden?
    case _ => false
  }

  /** The operation addresses another session, or names an unperceived client without uncovering it. */
  predicate Unseen(s: State, op: Op, id: SessionId)
  {
    || (Addressee(op).Some? && Addressee(op).value != id)
    || (op.Publish? && forall i :: 0 <= i < |op.events| ==> op.events[i].0 != id)
    || (Subject(op).Some? && !s.Perceives(id, Subject(op).value) && !WouldUncover(s, op, id))
  }

  lemma {:induction false} PublishKeepsOthers(s: State, events: seq<(SessionId, Event)>, id: SessionId)
    requires forall i :: 0 <= i < |events| ==> events[i].0 != id
    ensures var s' := PublishAll(s, events);
            && (id in s'.sessions <==> id in s.sessions)
            && (id in s.sessions ==> s'.sessions[id] == s.sessions[id])
            && s'.visibility == s.visibility && s'.generations == s.generations
  {
    if events != [] {
      PublishKeepsOthers(s, events[..|events| - 1], id);
    }
  }

  lemma ClientOpKeepsOthers(s: State, op: Op, id: SessionId)
    requires Subject(op).Some? && !s.Perceives(id, Subject(op).value)
    ensures var s' := Apply(s, op);
            && (id in s'.sessions <==> id in s.sessions)
            && (id in s.sessions ==> SameSession(s.sessions[id], s'.sessions[id]))
            && (forall c :: c != Subject(op).value ==>
                  (s.Perceives(id, c) <==> s'.Perceives(id, c)) && SameClient(s, s', c))
  {
  }

  /**
   An operation on an unperceived client leaves a session's view alone exactly when it does not uncover the
   client. The view is the policy's own answer, for clients that no desktop holds any more too.
   */
  lemma UnnoticedExactlyWhen(s: State, op: Op, id: SessionId)
    requires Subject(op).Some? && !s.Perceives(id, Subject(op).value)
    ensures SameView(s, Apply(s, op), id) <==> !WouldUncover(s, op, id)
    ensures Apply(s, op).Perceives(id, Subject(op).value) <==> WouldUncover(s, op, id)
  {
    ClientOpKeepsOthers(s, op, id);
    match op
    case ForgetClient(client) => ForgettingUncovers(s, client, id);
    case ObserveClient(client, level, inScope) => ObservingUncovers(s, client, level, inScope, id);
    case _ =>
  }

  /**
   Forgetting an unperceived client makes the policy answer that exactly the unscoped sessions perceive it,
   because its visibility record is gone; by then no desktop holds the client.
   */
  lemma ForgettingUncovers(s: State, client: ClientId, id: SessionId)
    requires !s.Perceives(id, client)
    ensures Apply(s, ForgetClient(client)).Perceives(id, client)
       <==> id in s.sessions && s.sessions[id].grant.scope.None?
  {
  }

  /** Observing brings one in for exactly the sessions it puts in scope, unless the client is or becomes hidden. */
  lemma ObservingUncovers(s: State, client: ClientId, level: Visibility, inScope: set<SessionId>, id: SessionId)
    requires !s.Perceives(id, client)
    ensures Apply(s, ObserveClient(client, level, inScope)).Perceives(id, client)
       <==> && id in s.sessions && id in inScope && !s.VisibilityOf(client).Hidden? && !level.Hidden?
  {
  }

  lemma UnseenKeepsView(s: State, op: Op, id: SessionId)
    requires Unseen(s, op, id)
    ensures SameView(s, Apply(s, op), id)
  {
    if Addressee(op).Some? {
    } else if op.Publish? {
      PublishKeepsOthers(s, op.events, id);
      PublishNamesNoClient(s, op.events);
    } else {
      UnnoticedExactlyWhen(s, op, id);
    }
  }

  lemma {:induction false} PublishNamesNoClient(s: State, events: seq<(SessionId, Event)>)
    ensures var s' := PublishAll(s, events);
            && s'.sessions.Keys == s.sessions.Keys
            && (forall i :: i in s.sessions ==> s'.sessions[i].grant == s.sessions[i].grant)
            && s'.visibility == s.visibility && s'.generations == s.generations
  {
    if events != [] {
      PublishNamesNoClient(s, events[..|events| - 1]);
    }
  }

  // -------------------------------------------- operations of both runs

  /** Only these can change which clients a session perceives. */
  predicate MovesPerception(op: Op, id: SessionId)
  {
    op.ObserveClient? || ((op.Open? || op.SetGrant?) && op.session == id)
  }

  lemma {:induction false} PublishIsParallel(a: State, b: State, events: seq<(SessionId, Event)>, id: SessionId)
    requires SameView(a, b, id)
    ensures SameView(PublishAll(a, events), PublishAll(b, events), id)
  {
    if events != [] {
      var last := |events| - 1;
      PublishIsParallel(a, b, events[..last], id);
      PublishNamesNoClient(a, events[..last]);
      PublishOneIsParallel(PublishAll(a, events[..last]), PublishAll(b, events[..last]), events[last].0, events[last].1, id);
    }
  }

  lemma PublishOneIsParallel(a: State, b: State, to: SessionId, event: Event, id: SessionId)
    requires SameView(a, b, id)
    ensures SameView(PublishOne(a, to, event), PublishOne(b, to, event), id)
  {
    var a', b' := PublishOne(a, to, event), PublishOne(b, to, event);
    assert forall c :: a'.Perceives(id, c) <==> a.Perceives(id, c);
    assert forall c :: b'.Perceives(id, c) <==> b.Perceives(id, c);
  }

  lemma PerceptionUnmoved(s: State, op: Op, id: SessionId)
    requires !MovesPerception(op, id) && !op.Publish? && !op.ForgetClient? && (op.Close? ==> op.session != id)
    ensures var s' := Apply(s, op);
            && s'.visibility == s.visibility
            && (id in s'.sessions <==> id in s.sessions)
            && (id in s.sessions ==> s'.sessions[id].grant == s.sessions[id].grant)
            && (!op.Touch? ==> s'.generations == s.generations)
  {
  }

  /** Other than the three perception-moving operations, nothing disturbs agreement on perception. */
  lemma PerceptionStaysAgreed(a: State, b: State, op: Op, id: SessionId)
    requires SameView(a, b, id) && !MovesPerception(op, id) && !op.Publish?
    ensures SamePerception(Apply(a, op), Apply(b, op), id)
  {
    if op == Close(id) {
      return;
    }
    if op.ForgetClient? {
      ForgettingAgrees(a, b, op.client, id);
      return;
    }
    PerceptionUnmoved(a, op, id);
    PerceptionUnmoved(b, op, id);
    var a', b' := Apply(a, op), Apply(b, op);
    forall c
      ensures (a'.Perceives(id, c) <==> b'.Perceives(id, c)) && (a'.Perceives(id, c) ==> SameClient(a', b', c))
    {
      if op.Touch? {
        if a.Perceives(id, c) {
          TouchAgrees(a, b, op.client, c);
        }
      } else {
        hide Apply;
        assert a'.Perceives(id, c) <==> a.Perceives(id, c);
        assert b'.Perceives(id, c) <==> b.Perceives(id, c);
      }
    }
  }

  lemma ForgettingAgrees(a: State, b: State, client: ClientId, id: SessionId)
    requires SameView(a, b, id)
    ensures SamePerception(Apply(a, ForgetClient(client)), Apply(b, ForgetClient(client)), id)
  {
    var a', b' := Apply(a, ForgetClient(client)), Apply(b, ForgetClient(client));
    forall c
      ensures (a'.Perceives(id, c) <==> b'.Perceives(id, c)) && (a'.Perceives(id, c) ==> SameClient(a', b', c))
    {
      if c != client {
        assert a'.Perceives(id, c) <==> a.Perceives(id, c);
        assert b'.Perceives(id, c) <==> b.Perceives(id, c);
      }
    }
  }

  /** Two states remember a client alike as far as bringing it into view at `level` can show. */
  predicate ObservedAlike(a: State, b: State, client: ClientId, level: Visibility)
  {
    || (a.VisibilityOf(client).Hidden? && b.VisibilityOf(client).Hidden?)
    || (!a.VisibilityOf(client).Hidden? && !b.VisibilityOf(client).Hidden?
        && MorePrivate(a.VisibilityOf(client), level) == MorePrivate(b.VisibilityOf(client), level)
        && a.GenerationOf(client) == b.GenerationOf(client))
  }

  /**
   Observing an unperceived client in both runs keeps them agreed exactly unless it puts the client in
   the session's scope while the runs remember it differently: hidden in one only, or not at the same
   sensitivity and generation.
   */
  lemma ObservingAgreesExactlyWhen(a: State, b: State, client: ClientId, level: Visibility, inScope: set<SessionId>,
                                   id: SessionId)
    requires SameView(a, b, id) && !a.Perceives(id, client)
    ensures var op := ObserveClient(client, level, inScope);
            SamePerception(Apply(a, op), Apply(b, op), id)
            <==> (id in a.sessions && id in inScope && !level.Hidden? ==> ObservedAlike(a, b, client, level))
  {
    var op := ObserveClient(client, level, inScope);
    var a', b' := Apply(a, op), Apply(b, op);
    ObservingUncovers(a, client, level, inScope, id);
    ObservingUncovers(b, client, level, inScope, id);
    forall c | c != client
      ensures (a'.Perceives(id, c) <==> b'.Perceives(id, c)) && (a'.Perceives(id, c) ==> SameClient(a', b', c))
    {
      assert a'.Perceives(id, c) <==> a.Perceives(id, c);
      assert b'.Perceives(id, c) <==> b.Perceives(id, c);
    }
    assert a'.VisibilityOf(client) == MorePrivate(a.VisibilityOf(client), level);
    assert b'.VisibilityOf(client) == MorePrivate(b.VisibilityOf(client), level);
    assert a'.GenerationOf(client) == a.GenerationOf(client) && b'.GenerationOf(client) == b.GenerationOf(client);
  }

  /** Observing a client the session perceives in both runs always leaves them agreed. */
  lemma ObservingThePerceivedAgrees(a: State, b: State, client: ClientId, level: Visibility, inScope: set<SessionId>,
                                    id: SessionId)
    requires SameView(a, b, id) && a.Perceives(id, client)
    ensures SamePerception(Apply(a, ObserveClient(client, level, inScope)), Apply(b, ObserveClient(client, level, inScope)), id)
  {
    var op := ObserveClient(client, level, inScope);
    var a', b' := Apply(a, op), Apply(b, op);
    forall c
      ensures (a'.Perceives(id, c) <==> b'.Perceives(id, c)) && (a'.Perceives(id, c) ==> SameClient(a', b', c))
    {
      assert c != client ==> (a'.Perceives(id, c) <==> a.Perceives(id, c));
      assert c != client ==> (b'.Perceives(id, c) <==> b.Perceives(id, c));
    }
  }

  /** Two states agree on every client a grant covers: hidden in both, or shown alike in both. */
  ghost predicate CoveredAlike(a: State, b: State, grant: Grant)
  {
    forall c :: grant.Covers(c) ==>
      || (a.VisibilityOf(c).Hidden? && b.VisibilityOf(c).Hidden?)
      || (!a.VisibilityOf(c).Hidden? && !b.VisibilityOf(c).Hidden? && SameClient(a, b, c))
  }

  /** Giving a session the same grant in both runs keeps them agreed exactly when they agree on what it covers. */
  lemma GrantingAgreesExactlyWhen(a: State, b: State, op: Op, grant: Grant, id: SessionId)
    requires op == Open(id, grant) || (op == SetGrant(id, grant) && id in a.sessions && id in b.sessions)
    ensures SamePerception(Apply(a, op), Apply(b, op), id) <==> CoveredAlike(a, b, grant)
  {
    var a', b' := Apply(a, op), Apply(b, op);
    forall c
      ensures a'.Perceives(id, c) <==> !a.VisibilityOf(c).Hidden? && grant.Covers(c)
      ensures b'.Perceives(id, c) <==> !b.VisibilityOf(c).Hidden? && grant.Covers(c)
      ensures SameClient(a', b', c) <==> SameClient(a, b, c)
    {
    }
  }

  /** Whether two runs that look alike to a session will still look alike, read off the states before the operation. */
  ghost predicate Foreseen(a: State, b: State, op: Op, id: SessionId)
  {
    match op
    case ObserveClient(client, level, inScope) =>
      id in a.sessions && id in inScope && !level.Hidden? && !a.Perceives(id, client) ==> ObservedAlike(a, b, client, level)
    case Open(session, grant) => session == id ==> CoveredAlike(a, b, grant)
    case SetGrant(session, grant) => session == id && id in a.sessions ==> CoveredAlike(a, b, grant)
    case _ => true
  }

  lemma PerceptionIsForeseen(a: State, b: State, op: Op, id: SessionId)
    requires SameView(a, b, id) && MovesPerception(op, id)
    ensures SamePerception(Apply(a, op), Apply(b, op), id) <==> Foreseen(a, b, op, id)
  {
    match op
    case ObserveClient(client, level, inScope) =>
      if a.Perceives(id, client) {
        ObservingThePerceivedAgrees(a, b, client, level, inScope, id);
      } else {
        ObservingAgreesExactlyWhen(a, b, client, level, inScope, id);
      }
    case Open(_, grant) => GrantingAgreesExactlyWhen(a, b, op, grant, id);
    case SetGrant(_, grant) =>
      if id in a.sessions {
        GrantingAgreesExactlyWhen(a, b, op, grant, id);
      }
  }

  lemma TouchAgrees(a: State, b: State, touched: ClientId, client: ClientId)
    requires SameClient(a, b, client)
    ensures SameClient(Apply(a, Touch(touched)), Apply(b, Touch(touched)), client)
  {
  }

  /** An operation of both runs keeps the session's view of them the same exactly when that was foreseen. */
  lemma CommonKeepsView(a: State, b: State, op: Op, id: SessionId)
    requires SameView(a, b, id)
    ensures SameView(Apply(a, op), Apply(b, op), id) <==> Foreseen(a, b, op, id)
  {
    if op.Publish? {
      PublishIsParallel(a, b, op.events, id);
      return;
    }
    if MovesPerception(op, id) {
      PerceptionIsForeseen(a, b, op, id);
    } else {
      PerceptionStaysAgreed(a, b, op, id);
    }
    hide SamePerception, Apply, CoveredAlike, ObservedAlike;
    if op.TouchObservers? {
      ObserversAgree(a, b, op.subject, id);
    }
    CommonKeepsSession(a, b, op, id);
  }

  lemma CommonKeepsSession(a: State, b: State, op: Op, id: SessionId)
    requires id in a.sessions <==> id in b.sessions
    requires id in a.sessions ==> SameSession(a.sessions[id], b.sessions[id])
    requires op.TouchObservers? ==> (a.Observes(id, op.subject) <==> b.Observes(id, op.subject))
    requires !op.Publish?
    ensures var a', b' := Apply(a, op), Apply(b, op);
            && (id in a'.sessions <==> id in b'.sessions)
            && (id in a'.sessions ==> SameSession(a'.sessions[id], b'.sessions[id]))
  {
    if id in a.sessions {
      OwnEffect(a, op, id);
      OwnEffect(b, op, id);
      hide Apply;
      SameEffect(a.sessions[id], b.sessions[id], op, id, op.TouchObservers? && a.Observes(id, op.subject));
    }
  }

  /** What an operation does to a session's own record, given whether it observes the change. */
  function Effect(session: Session, op: Op, id: SessionId, observes: bool): (after: Session)
  {
    if Addressee(op).Some? && Addressee(op).value != id then session
    else
      match op
      case Open(_, grant) => Session(grant, Active, None, 0, 1)
      case SetGrant(_, grant) => session.(grant := grant)
      case SetStatus(_, status) => session.(status := status)
      case IssueAction(_) => session.(nextAction := SaturatingNext(session.nextAction))
      case Subscribe(_, kinds) => session.(subscription := Some(Fresh(kinds)))
      case PopEvent(_) =>
        if session.subscription.None? then session
        else session.(subscription := Some(Pop(session.subscription.value, session.sequence).0))
      case RequeueEvent(_, e) =>
        if session.subscription.None? then session
        else session.(subscription := Some(Requeue(session.subscription.value, e)))
      case TakeEvents(_) =>
        if session.subscription.None? then session
        else session.(subscription := Some(Take(session.subscription.value, session.sequence).0))
      case SetAll(status) => session.(status := status)
      case ResumeAll => if session.status.Frozen? then session.(status := Active) else session
      case TouchObservers(_) => if observes then session.(sequence := SaturatingNext(session.sequence)) else session
      case ObserveClient(client, _, inScope) =>
        if id in inScope then session.(grant := session.grant.Include(client)) else session
      case ForgetClient(client) => session.(grant := session.grant.Forget(client))
      case _ => session
  }

  lemma OwnEffect(s: State, op: Op, id: SessionId)
    requires id in s.sessions && !op.Publish?
    ensures var s' := Apply(s, op);
            if op == Close(id) then id !in s'.sessions
            else id in s'.sessions
                 && s'.sessions[id] == Effect(s.sessions[id], op, id, op.TouchObservers? && s.Observes(id, op.subject))
  {
    hide Push, Pop, Take, Requeue;
  }

  lemma SameEffect(a: Session, b: Session, op: Op, id: SessionId, observes: bool)
    requires SameSession(a, b)
    ensures SameSession(Effect(a, op, id, observes), Effect(b, op, id, observes))
  {
    hide Push, Pop, Take, Requeue;
  }

  lemma ObserversAgree(a: State, b: State, subject: Option<ClientId>, id: SessionId)
    requires SameView(a, b, id)
    ensures a.Observes(id, subject) <==> b.Observes(id, subject)
  {
  }

  // ---------------------------------------------------- agreement composes

  lemma SameViewChains(a: State, b: State, c: State, id: SessionId)
    requires SameView(a, b, id) && SameView(b, c, id)
    ensures SameView(a, c, id)
  {
  }

  // -------------------------------------------------------- snapshots

  /** Two desktops that look the same through what the session perceives. */
  ghost predicate SameWorld(s: State, id: SessionId, v: World, w: World)
  {
    && v.outputs == w.outputs && v.outputAt == w.outputAt && v.workspaces == w.workspaces
    && v.current == w.current && v.showingDesktop == w.showingDesktop
    && Seen(s, id, v.order) == Seen(s, id, w.order)
    && Seen(s, id, v.stacking) == Seen(s, id, w.stacking)
    && (forall c :: s.Perceives(id, c) ==>
          && (v.focused == Some(c) <==> w.focused == Some(c))
          && (c in v.managed <==> c in w.managed)
          && (c in v.managed ==> v.managed[c] == w.managed[c]))
  }

  lemma {:induction false} DescribesOnlySeen(s: State, id: SessionId, order: seq<ClientId>, w: World)
    ensures DescribeAll(s, id, order, w) == DescribeAll(s, id, Seen(s, id, order), w)
  {
    if order != [] {
      DescribesOnlySeen(s, id, order[1..], w);
      if s.Perceives(id, order[0]) {
        assert Seen(s, id, order)[1..] == Seen(s, id, order[1..]);
      } else {
        assert Seen(s, id, order) == Seen(s, id, order[1..]);
      }
    }
  }

  lemma {:induction false} SeenIsShared(a: State, b: State, id: SessionId, clients: seq<ClientId>)
    requires SamePerception(a, b, id)
    ensures Seen(a, id, clients) == Seen(b, id, clients)
  {
    if clients != [] {
      SeenIsShared(a, b, id, clients[1..]);
    }
  }

  lemma {:induction false} DescriptionsAgree(a: State, b: State, id: SessionId, order: seq<ClientId>, v: World, w: World)
    requires SameView(a, b, id) && SameWorld(a, id, v, w)
    ensures DescribeAll(a, id, order, v) == DescribeAll(b, id, order, w)
  {
    if order != [] {
      DescriptionsAgree(a, b, id, order[1..], v, w);
      DescriptionAgrees(a, b, id, order[0], v, w);
    }
  }

  lemma DescriptionAgrees(a: State, b: State, id: SessionId, client: ClientId, v: World, w: World)
    requires SameView(a, b, id) && SameWorld(a, id, v, w)
    ensures Describe(a, id, client, v) == Describe(b, id, client, w)
  {
  }

  lemma {:induction false} WithinOnlySeen(s: State, id: SessionId, clients: seq<ClientId>, allowed: seq<ClientId>)
    requires forall c :: c in allowed ==> s.Perceives(id, c)
    ensures Within(clients, allowed) == Within(Seen(s, id, clients), allowed)
  {
    if clients != [] {
      WithinOnlySeen(s, id, clients[1..], allowed);
      if s.Perceives(id, clients[0]) {
        assert Seen(s, id, clients)[1..] == Seen(s, id, clients[1..]);
      } else {
        assert Seen(s, id, clients) == Seen(s, id, clients[1..]);
      }
    }
  }

  lemma SnapshotsAgree(a: State, b: State, id: SessionId, v: World, w: World)
    requires SameView(a, b, id) && SameWorld(a, id, v, w)
    ensures SnapshotOf(a, id, v) == SnapshotOf(b, id, w)
  {
    SeenIsShared(a, b, id, v.order);
    SeenIsShared(a, b, id, w.order);
    SeenIsShared(a, b, id, v.stacking);
    SeenIsShared(a, b, id, w.stacking);
    DescribesOnlySeen(a, id, v.order, v);
    DescribesOnlySeen(b, id, w.order, w);
    DescriptionsAgree(a, b, id, Seen(a, id, v.order), v, w);
    var perceived := Seen(a, id, v.order);
    WithinOnlySeen(a, id, v.stacking, perceived);
    WithinOnlySeen(b, id, w.stacking, perceived);
  }

  function Dropped(clients: seq<ClientId>, client: ClientId): (rest: seq<ClientId>)
  {
    if clients == [] then []
    else (if clients[0] == client then [] else [clients[0]]) + Dropped(clients[1..], client)
  }

  /** The same desktop had the client never been managed. */
  function Without(w: World, client: ClientId): (w': World)
  {
    w.(order := Dropped(w.order, client), stacking := Dropped(w.stacking, client), managed := w.managed - {client},
       focused := if w.focused == Some(client) then None else w.focused)
  }

  lemma {:induction false} DroppedIsUnseen(s: State, id: SessionId, clients: seq<ClientId>, client: ClientId)
    requires !s.Perceives(id, client)
    ensures Seen(s, id, Dropped(clients, client)) == Seen(s, id, clients)
  {
    if clients != [] {
      DroppedIsUnseen(s, id, clients[1..], client);
      if clients[0] != client {
        assert Dropped(clients, client)[1..] == Dropped(clients[1..], client);
      } else {
        assert Dropped(clients, client) == Dropped(clients[1..], client);
      }
    }
  }

  /** To a session that does not perceive it, a client is as absent as one that never existed. */
  lemma UnperceivedIsAbsent(s: State, id: SessionId, client: ClientId, w: World)
    requires !s.Perceives(id, client)
    ensures SnapshotOf(s, id, w) == SnapshotOf(s, id, Without(w, client))
    ensures Describe(s, id, client, w) == Describe(s, id, client, Without(w, client)) == None
  {
    DroppedIsUnseen(s, id, w.order, client);
    DroppedIsUnseen(s, id, w.stacking, client);
    SnapshotsAgree(s, s, id, w, Without(w, client));
  }

  // ------------------------------------------------- one announced change

  function Targets(s: State, kind: EventKind, subject: Option<ClientId>, ids: seq<SessionId>): (targets: seq<SessionId>)
    ensures forall t :: t in targets <==> t in ids && s.Subscribes(t, kind, subject)
  {
    if ids == [] then []
    else
      var last := |ids| - 1;
      Targets(s, kind, subject, ids[..last]) + (if s.Subscribes(ids[last], kind, subject) then [ids[last]] else [])
  }

  /** One event per target, unless the backend withholds it from that target. */
  function Built(targets: seq<SessionId>, build: SessionId -> Option<Event>): (events: seq<(SessionId, Event)>)
    ensures forall i :: 0 <= i < |events| ==> events[i].0 in targets && build(events[i].0) == Some(events[i].1)
  {
    if targets == [] then []
    else
      var last := targets[|targets| - 1];
      Built(targets[..|targets| - 1], build) + (if build(last).Some? then [(last, build(last).value)] else [])
  }

  /** How a backend announces a change: advance the observers, then publish to the subscribers. */
  function Announce(s: State, kind: EventKind, subject: Option<ClientId>, ids: seq<SessionId>, build: SessionId -> Option<Event>)
    : (s': State)
  {
    var touched := Apply(s, TouchObservers(subject));
    PublishAll(touched, Built(Targets(touched, kind, subject, ids), build))
  }

  lemma TouchingTheUnperceived(s: State, client: ClientId, id: SessionId)
    requires !s.Perceives(id, client)
    ensures SameView(s, Apply(s, TouchObservers(Some(client))), id)
    ensures !Apply(s, TouchObservers(Some(client))).Perceives(id, client)
  {
    UnnoticedExactlyWhen(s, TouchObservers(Some(client)), id);
    hide SameView, Apply;
  }

  lemma PublishingToOthers(s: State, events: seq<(SessionId, Event)>, id: SessionId)
    requires forall i :: 0 <= i < |events| ==> events[i].0 != id
    ensures SameView(s, PublishAll(s, events), id)
  {
    UnseenKeepsView(s, Publish(events), id);
    assert Apply(s, Publish(events)) == PublishAll(s, events);
    hide SameView, Apply, PublishAll;
  }

  /** A change to an unperceived client moves nothing the session has, neither its queue nor its sequence. */
  lemma AnnouncementsAreFiltered(s: State, kind: EventKind, client: ClientId, ids: seq<SessionId>,
                                 build: SessionId -> Option<Event>, id: SessionId)
    requires !s.Perceives(id, client)
    ensures SameView(s, Announce(s, kind, Some(client), ids, build), id)
  {
    hide Apply, SameView, PublishAll, Targets, Built;
    var touched := Apply(s, TouchObservers(Some(client)));
    TouchingTheUnperceived(s, client, id);
    var targets := Targets(touched, kind, Some(client), ids);
    assert id !in targets;
    PublishingToOthers(touched, Built(targets, build), id);
    SameViewChains(s, touched, PublishAll(touched, Built(targets, build)), id);
  }
}
