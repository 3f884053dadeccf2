/**
 The event account of one session among all the others: whatever the policy state goes through, what a
 subscribed session was handed, what waits for it and what it is owed add up.
 */
module SessionAccount {
  import opened Basics
  import opened EventQueue
  import opened AgentPolicy
  import Noninterference

  /** What the manager does, as far as one session's stream can tell it apart. */
  datatype Move =
    | Announced(kind: EventKind, subject: Option<ClientId>, ids: seq<SessionId>, build: SessionId -> Option<Event>)
    | Delivered
    | Bounced
    | Drained
    | Other(op: Op)

  /** The operation neither writes to the session's stream nor opens, closes or replaces it. */
  predicate LeavesStream(op: Op, id: SessionId)
  {
    match op
    case Open(session, _) => session != id
    case Close(session) => session != id
    case Subscribe(session, _) => session != id
    case PopEvent(session) => session != id
    case RequeueEvent(session, _) => session != id
    case TakeEvents(session) => session != id
    case Publish(events) => forall i :: 0 <= i < |events| ==> events[i].0 != id
    case _ => true
  }

  /** A change is announced to a listing of the sessions, this one once among them, and is never itself a start-over event. */
  ghost predicate Legal(move: Move, id: SessionId)
  {
    match move
    case Announced(_, _, ids, build) => Once(ids, id) && (build(id).Some? ==> !build(id).value.ResyncRequired?)
    case Other(op) => LeavesStream(op, id)
    case _ => true
  }

  ghost predicate Once(ids: seq<SessionId>, id: SessionId)
  {
    exists k :: 0 <= k < |ids| && ids[k] == id && forall j :: 0 <= j < |ids| && j != k ==> ids[j] != id
  }

  function MoveOn(s: State, move: Move, id: SessionId): (s': State)
  {
    match move
    case Announced(kind, subject, ids, build) => Noninterference.Announce(s, kind, subject, ids, build)
    case Delivered => Apply(s, PopEvent(id))
    case Bounced =>
      var popped := Popped(s, id);
      var s' := Apply(s, PopEvent(id));
      if popped.None? then s' else Apply(s', RequeueEvent(id, popped.value))
    case Drained => Apply(s, TakeEvents(id))
    case Other(op) => Apply(s, op)
  }

  function HandedOver(s: State, move: Move, id: SessionId): (es: seq<Envelope>)
  {
    match move
    case Delivered => if Popped(s, id).Some? then [Popped(s, id).value] else []
    case Drained => Taken(s, id)
    case _ => []
  }

  function MovesOn(s: State, moves: seq<Move>, id: SessionId): (s': State)
    decreases |moves|
  {
    if moves == [] then s else MovesOn(MoveOn(s, moves[0], id), moves[1..], id)
  }

  function AllHanded(s: State, moves: seq<Move>, id: SessionId): (es: seq<Envelope>)
    decreases |moves|
  {
    if moves == [] then [] else HandedOver(s, moves[0], id) + AllHanded(MoveOn(s, moves[0], id), moves[1..], id)
  }

  /** The session subscribes to an announced change and is not passed over. */
  predicate Tells(s: State, move: Move, id: SessionId)
  {
    move.Announced? && s.Subscribes(id, move.kind, move.subject) && move.build(id).Some?
  }

  /** The event a move publishes to the session, stamped with the counter it just advanced. */
  function PublishedBy(s: State, move: Move, id: SessionId): (es: seq<Envelope>)
  {
    if Tells(s, move, id) then [Envelope(SaturatingNext(s.sessions[id].sequence), move.build(id).value)] else []
  }

  function AllPublished(s: State, moves: seq<Move>, id: SessionId): (es: seq<Envelope>)
    decreases |moves|
  {
    if moves == [] then [] else PublishedBy(s, moves[0], id) + AllPublished(MoveOn(s, moves[0], id), moves[1..], id)
  }

  // ------------------------------------------------ one move on the stream

  predicate Subscribed(s: State, id: SessionId)
  {
    id in s.sessions && s.sessions[id].subscription.Some?
  }

  /** The stream as the session's record holds it, with both sides of its account. */
  function StreamOf(s: State, id: SessionId, published: seq<Envelope>, delivered: seq<Envelope>): (m: Stream)
    requires Subscribed(s, id)
  {
    Stream(s.sessions[id].subscription.value, s.sessions[id].sequence, published, delivered)
  }

  /** What a move is to the stream: one of its steps, or nothing. */
  function StepOf(s: State, move: Move, id: SessionId): (step: Option<Step>)
  {
    match move
    case Announced(kind, subject, _, build) =>
      if Tells(s, move, id) then Some(Step.Announce(build(id).value))
      else if s.Observes(id, subject) then Some(Observe) else None
    case Delivered => Some(Deliver)
    case Bounced => Some(Bounce)
    case Drained => Some(Drain)
    case Other(op) => if op.TouchObservers? && s.Observes(id, op.subject) then Some(Observe) else None
  }

  function Stepped(m: Stream, step: Option<Step>): (m': Stream)
  {
    if step.None? then m else Next(m, step.value)
  }

  lemma PublishToOthers(s: State, events: seq<(SessionId, Event)>, id: SessionId)
    requires id in s.sessions && forall i :: 0 <= i < |events| ==> events[i].0 != id
    ensures id in PublishAll(s, events).sessions && PublishAll(s, events).sessions[id] == s.sessions[id]
  {
    Noninterference.PublishKeepsOthers(s, events, id);
  }

  /** A batch with one event for the session pushes that one, wherever it stands. */
  lemma {:induction false} PublishOnceTo(s: State, events: seq<(SessionId, Event)>, id: SessionId, k: nat)
    requires Subscribed(s, id) && k < |events| && events[k].0 == id
    requires forall j :: 0 <= j < |events| && j != k ==> events[j].0 != id
    ensures var session := s.sessions[id];
            var s' := PublishAll(s, events);
            && id in s'.sessions
            && s'.sessions[id] == session.(subscription := Some(Push(session.subscription.value,
                                                                      Envelope(session.sequence, events[k].1))))
  {
    hide Push;
    var last := |events| - 1;
    if k == last {
      PublishToOthers(s, events[..last], id);
    } else {
      PublishOnceTo(s, events[..last], id, k);
    }
  }

  lemma {:induction false} TargetsOnce(s: State, kind: EventKind, subject: Option<ClientId>, ids: seq<SessionId>, id: SessionId, k: nat)
    returns (at: nat)
    requires k < |ids| && ids[k] == id && (forall j :: 0 <= j < |ids| && j != k ==> ids[j] != id)
    requires s.Subscribes(id, kind, subject)
    ensures var targets := Noninterference.Targets(s, kind, subject, ids);
            at < |targets| && targets[at] == id && forall j :: 0 <= j < |targets| && j != at ==> targets[j] != id
  {
    var last := |ids| - 1;
    if k == last {
      at := |Noninterference.Targets(s, kind, subject, ids[..last])|;
      assert id !in Noninterference.Targets(s, kind, subject, ids[..last]);
    } else {
      at := TargetsOnce(s, kind, subject, ids[..last], id, k);
    }
  }

  lemma {:induction false} BuiltOnce(targets: seq<SessionId>, build: SessionId -> Option<Event>, id: SessionId, k: nat)
    returns (at: nat)
    requires k < |targets| && targets[k] == id && (forall j :: 0 <= j < |targets| && j != k ==> targets[j] != id)
    requires build(id).Some?
    ensures var events := Noninterference.Built(targets, build);
            && at < |events| && events[at] == (id, build(id).value)
            && forall j :: 0 <= j < |events| && j != at ==> events[j].0 != id
  {
    var last := |targets| - 1;
    if k == last {
      at := |Noninterference.Built(targets[..last], build)|;
      assert id !in targets[..last];
    } else {
      at := BuiltOnce(targets[..last], build, id, k);
    }
  }

  lemma TouchedSession(s: State, subject: Option<ClientId>, id: SessionId)
    requires Subscribed(s, id)
    ensures var s' := Apply(s, TouchObservers(subject));
            && Subscribed(s', id) && s'.visibility == s.visibility
            && s'.sessions[id] == s.sessions[id].(sequence := if s.Observes(id, subject)
                                                            then SaturatingNext(s.sessions[id].sequence)
                                                            else s.sessions[id].sequence)
    ensures forall kind :: Apply(s, TouchObservers(subject)).Subscribes(id, kind, subject) <==> s.Subscribes(id, kind, subject)
  {
  }

  lemma AnnouncementIsAStep(s: State, move: Move, id: SessionId)
    requires Subscribed(s, id) && move.Announced? && Legal(move, id)
    ensures var s' := MoveOn(s, move, id);
            Subscribed(s', id) &&
            forall published, delivered ::
              StreamOf(s', id, published + PublishedBy(s, move, id), delivered)
              == Stepped(StreamOf(s, id, published, delivered), StepOf(s, move, id))
  {
    hide Push;
    var touched := Apply(s, TouchObservers(move.subject));
    TouchedSession(s, move.subject, id);
    var targets := Noninterference.Targets(touched, move.kind, move.subject, move.ids);
    var events := Noninterference.Built(targets, move.build);
    if Tells(s, move, id) {
      var k :| 0 <= k < |move.ids| && move.ids[k] == id && forall j :: 0 <= j < |move.ids| && j != k ==> move.ids[j] != id;
      var at := TargetsOnce(touched, move.kind, move.subject, move.ids, id, k);
      at := BuiltOnce(targets, move.build, id, at);
      PublishOnceTo(touched, events, id, at);
    } else {
      assert id !in targets || move.build(id).None?;
      PublishToOthers(touched, events, id);
    }
    hide Apply, Noninterference.Announce;
    forall published: seq<Envelope> ensures published + [] == published {
    }
  }

  lemma BounceIsAStep(s: State, id: SessionId)
    requires Subscribed(s, id)
    ensures var s' := MoveOn(s, Bounced, id);
            Subscribed(s', id) &&
            forall published, delivered ::
              StreamOf(s', id, published, delivered) == Next(StreamOf(s, id, published, delivered), Bounce)
  {
    hide Pop, Requeue;
  }

  lemma OtherIsAStep(s: State, op: Op, id: SessionId)
    requires Subscribed(s, id) && LeavesStream(op, id)
    ensures var s' := Apply(s, op);
            Subscribed(s', id) &&
            forall published, delivered ::
              StreamOf(s', id, published, delivered) == Stepped(StreamOf(s, id, published, delivered), StepOf(s, Other(op), id))
  {
    if op.Publish? {
      PublishToOthers(s, op.events, id);
    }
    hide Push, Pop, Take, Requeue;
  }

  /** Every move is a step of the session's stream, or nothing to it, and hands over and publishes what the step does. */
  lemma MoveIsAStep(s: State, move: Move, id: SessionId, published: seq<Envelope>, delivered: seq<Envelope>)
    requires Subscribed(s, id) && Legal(move, id)
    ensures Subscribed(MoveOn(s, move, id), id)
    ensures StreamOf(MoveOn(s, move, id), id, published + PublishedBy(s, move, id), delivered + HandedOver(s, move, id))
         == Stepped(StreamOf(s, id, published, delivered), StepOf(s, move, id))
  {
    assert published + [] == published && delivered + [] == delivered;
    match move
    case Announced(_, _, _, _) => AnnouncementIsAStep(s, move, id);
    case Bounced => BounceIsAStep(s, id);
    case Other(op) => OtherIsAStep(s, op, id);
    case Delivered => hide Pop;
    case Drained => hide Take;
  }

  // ------------------------------------------------------- whole runs

  ghost predicate AllLegal(moves: seq<Move>, id: SessionId)
  {
    forall i :: 0 <= i < |moves| ==> Legal(moves[i], id)
  }

  lemma StepGrowth(m: Stream, step: Option<Step>)
    requires step.Some? ==> Fits(m, step.value)
    ensures Stepped(m, step).sequence <= m.sequence + 1 && |Stepped(m, step).published| <= |m.published| + 1
  {
  }

  lemma {:induction false} MovesKeepAccount(s: State, moves: seq<Move>, id: SessionId, published: seq<Envelope>,
                                            delivered: seq<Envelope>)
    requires Subscribed(s, id) && AllLegal(moves, id)
    requires s.sessions[id].sequence + |moves| < U64_MAX && |published| + |moves| < U64_MAX
    requires Balanced(StreamOf(s, id, published, delivered)) && Stamped(StreamOf(s, id, published, delivered))
    ensures var s' := MovesOn(s, moves, id);
            Subscribed(s', id) &&
            var m := StreamOf(s', id, published + AllPublished(s, moves, id), delivered + AllHanded(s, moves, id));
            Balanced(m) && Stamped(m)
    decreases |moves|
  {
    hide Balanced, Stamped, MoveOn, HandedOver, PublishedBy, StepOf, Next, Subscribed;
    assert published + [] == published && delivered + [] == delivered;
    if moves != [] {
      var move := moves[0];
      var m := StreamOf(s, id, published, delivered);
      MoveIsAStep(s, move, id, published, delivered);
      StepIsFit(s, move, id, m);
      StepGrowth(m, StepOf(s, move, id));
      if StepOf(s, move, id).Some? {
        StepKeeps(m, StepOf(s, move, id).value);
      }
      var s', published', delivered' := MoveOn(s, move, id), published + PublishedBy(s, move, id), delivered + HandedOver(s, move, id);
      MovesKeepAccount(s', moves[1..], id, published', delivered');
      assert published' + AllPublished(s', moves[1..], id) == published + AllPublished(s, moves, id);
      assert delivered' + AllHanded(s', moves[1..], id) == delivered + AllHanded(s, moves, id);
    }
  }

  lemma StepIsFit(s: State, move: Move, id: SessionId, m: Stream)
    requires Legal(move, id) && m.sequence < U64_MAX && |m.published| < U64_MAX
    ensures StepOf(s, move, id).Some? ==> Fits(m, StepOf(s, move, id).value)
  {
  }

  // ------------------------------------------- what reaches the session

  /** The session is open and the subject, if there is one, is a client it may perceive. */
  ghost predicate MayNotice(s: State, id: SessionId, subject: Option<ClientId>)
  {
    id in s.sessions && (subject.Some? ==> MayPerceive(s, id, subject.value))
  }

  /** An announcement of a kind that was asked for, or of one that always goes out, about something the session may perceive. */
  ghost predicate Reaches(s: State, move: Move, id: SessionId, kinds: set<EventKind>)
  {
    && move.Announced?
    && (move.kind == SessionControl || move.kind == Resync || kinds == {} || move.kind in kinds)
    && MayNotice(s, id, move.subject)
    && move.build(id).Some?
  }

  /** The desktop changed in a way the session may notice. */
  ghost predicate Noticed(s: State, move: Move, id: SessionId)
  {
    || (move.Announced? && MayNotice(s, id, move.subject))
    || (move.Other? && move.op.TouchObservers? && MayNotice(s, id, move.op.subject))
  }

  /** The events that reach a session asking for `kinds`, each stamped with how many changes it may have noticed by then. */
  ghost function Announcements(s: State, moves: seq<Move>, id: SessionId, kinds: set<EventKind>, sequence: nat)
    : (es: seq<Envelope>)
    decreases |moves|
  {
    if moves == [] then []
    else
      var next := if Noticed(s, moves[0], id) then sequence + 1 else sequence;
      (if Reaches(s, moves[0], id, kinds) then [Envelope(next, moves[0].build(id).value)] else [])
      + Announcements(MoveOn(s, moves[0], id), moves[1..], id, kinds, next)
  }

  lemma ObservesIsMayNotice(s: State, id: SessionId, subject: Option<ClientId>)
    ensures s.Observes(id, subject) <==> MayNotice(s, id, subject)
  {
  }

  /** A move publishes to the session exactly what reaches it, and advances its counter exactly when it is noticed. */
  lemma MovePublishesWhatReaches(s: State, move: Move, id: SessionId)
    requires Subscribed(s, id) && Legal(move, id) && s.sessions[id].sequence < U64_MAX
    ensures var session, s' := s.sessions[id], MoveOn(s, move, id);
            && Subscribed(s', id) && s'.sessions[id].subscription.value.kinds == session.subscription.value.kinds
            && s'.sessions[id].sequence == (if Noticed(s, move, id) then session.sequence + 1 else session.sequence)
            && PublishedBy(s, move, id) == (if Reaches(s, move, id, session.subscription.value.kinds)
                                            then [Envelope(session.sequence + 1, move.build(id).value)] else [])
  {
    MoveIsAStep(s, move, id, [], []);
    StepKeepsKinds(StreamOf(s, id, [], []), StepOf(s, move, id));
    match move
    case Announced(_, subject, _, _) => ObservesIsMayNotice(s, id, subject);
    case Other(op) =>
      if op.TouchObservers? {
        ObservesIsMayNotice(s, id, op.subject);
      }
    case _ =>
    hide MoveOn, State.Observes, MayNotice, Push, Pop, Take, Requeue;
  }

  lemma StepKeepsKinds(m: Stream, step: Option<Step>)
    ensures Stepped(m, step).s.kinds == m.s.kinds
    ensures Stepped(m, step).sequence
         == if step.Some? && (step.value.Observe? || step.value.Announce?) then SaturatingNext(m.sequence) else m.sequence
  {
  }

  lemma {:induction false} MovesPublishWhatReaches(s: State, moves: seq<Move>, id: SessionId)
    requires Subscribed(s, id) && AllLegal(moves, id) && s.sessions[id].sequence + |moves| < U64_MAX
    ensures AllPublished(s, moves, id)
         == Announcements(s, moves, id, s.sessions[id].subscription.value.kinds, s.sessions[id].sequence)
    decreases |moves|
  {
    hide Legal, MoveOn, PublishedBy, Noticed, Reaches;
    if moves != [] {
      MovePublishesWhatReaches(s, moves[0], id);
      MovesPublishWhatReaches(MoveOn(s, moves[0], id), moves[1..], id);
      ReachingIsNoticed(s, moves[0], id, s.sessions[id].subscription.value.kinds);
    }
  }

  lemma ReachingIsNoticed(s: State, move: Move, id: SessionId, kinds: set<EventKind>)
    ensures Reaches(s, move, id, kinds) ==> Noticed(s, move, id)
  {
  }

  /**
   From a session's subscription on, in any run of the whole policy state: the events of the kinds it asked
   for about what it may perceive, and no others, reach it. What it was handed is these events, in order, with
   each start-over notice standing for exactly the number it states; the rest is queued or owed; stamps rise.
   */
  lemma SessionAccountIsExact(s: State, id: SessionId, kinds: set<EventKind>, moves: seq<Move>)
    requires id in s.sessions && AllLegal(moves, id) && s.sessions[id].sequence + |moves| < U64_MAX
    ensures var start := Apply(s, Subscribe(id, kinds));
            var end := MovesOn(start, moves, id);
            var published := Announcements(start, moves, id, kinds, s.sessions[id].sequence);
            var handed := AllHanded(start, moves, id);
            && Subscribed(end, id)
            && Explains(published, handed) && Ascending(published) && Ascending(handed)
            && var q := end.sessions[id].subscription.value;
               && |q.queue| <= MAX_QUEUED_EVENTS && (q.resync ==> q.queue == [])
               && Consumed(handed) + |q.queue| + (if q.resync then q.dropped else 0) == |published|
               && (!q.resync ==> q.queue == published[Consumed(handed)..])
  {
    var start := Apply(s, Subscribe(id, kinds));
    SubscribingStartsTheAccount(kinds, s.sessions[id].sequence);
    MovesKeepAccount(start, moves, id, [], []);
    MovesPublishWhatReaches(start, moves, id);
    var published, handed := AllPublished(start, moves, id), AllHanded(start, moves, id);
    hide Explains, Consumed, MovesOn, AllPublished, AllHanded, Announcements;
    assert [] + published == published && [] + handed == handed;
  }

  lemma {:induction false} MovesKeepWhole(s: State, moves: seq<Move>, id: SessionId, published: seq<Envelope>,
                                          delivered: seq<Envelope>)
    requires Subscribed(s, id) && AllLegal(moves, id) && |published + AllPublished(s, moves, id)| <= 512
    requires Whole(StreamOf(s, id, published, delivered))
    ensures var s' := MovesOn(s, moves, id);
            Subscribed(s', id) &&
            Whole(StreamOf(s', id, published + AllPublished(s, moves, id), delivered + AllHanded(s, moves, id)))
    decreases |moves|
  {
    hide Whole, MoveOn, HandedOver, Next, Subscribed, Legal;
    assert published + [] == published && delivered + [] == delivered;
    if moves != [] {
      var move := moves[0];
      var m := StreamOf(s, id, published, delivered);
      MoveIsAStep(s, move, id, published, delivered);
      var step := StepOf(s, move, id);
      if step.Some? {
        AnnouncedIsLegal(s, move, id);
        WholeUntilFull(m, step.value);
      }
      var s', published', delivered' := MoveOn(s, move, id), published + PublishedBy(s, move, id), delivered + HandedOver(s, move, id);
      assert published' + AllPublished(s', moves[1..], id) == published + AllPublished(s, moves, id);
      assert delivered' + AllHanded(s', moves[1..], id) == delivered + AllHanded(s, moves, id);
      MovesKeepWhole(s', moves[1..], id, published', delivered');
    }
  }

  lemma AnnouncedIsLegal(s: State, move: Move, id: SessionId)
    requires Legal(move, id)
    ensures var step := StepOf(s, move, id);
            step.Some? && step.value.Announce? ==> !step.value.event.ResyncRequired? && |PublishedBy(s, move, id)| == 1
  {
  }

  /** While no more than 512 events have reached a session, it was handed all of them but those that still wait. */
  lemma NothingIsLostUntilFull(s: State, id: SessionId, kinds: set<EventKind>, moves: seq<Move>)
    requires id in s.sessions && AllLegal(moves, id) && s.sessions[id].sequence + |moves| < U64_MAX
    requires |Announcements(Apply(s, Subscribe(id, kinds)), moves, id, kinds, s.sessions[id].sequence)| <= 512
    ensures var start := Apply(s, Subscribe(id, kinds));
            var end := MovesOn(start, moves, id);
            && Subscribed(end, id) && !end.sessions[id].subscription.value.resync
            && AllHanded(start, moves, id) + end.sessions[id].subscription.value.queue
               == Announcements(start, moves, id, kinds, s.sessions[id].sequence)
  {
    var start := Apply(s, Subscribe(id, kinds));
    MovesPublishWhatReaches(start, moves, id);
    var published, handed := AllPublished(start, moves, id), AllHanded(start, moves, id);
    hide MovesOn, AllPublished, AllHanded, Announcements;
    assert [] + published == published && [] + handed == handed;
    MovesKeepWhole(start, moves, id, [], []);
  }

  /** A delivery hands something over exactly while something waits or is owed, and a drain leaves nothing of either. */
  lemma WaitingIsHandedOver(s: State, id: SessionId)
    requires Subscribed(s, id)
    ensures var q, waits := s.sessions[id].subscription.value, s.sessions[id].subscription.value.queue;
            var drained := MoveOn(s, Drained, id).sessions[id].subscription.value;
            && (HandedOver(s, Delivered, id) != [] <==> q.resync || waits != [])
            && (HandedOver(s, Drained, id) != [] <==> q.resync || waits != [])
            && !drained.resync && drained.queue == []
  {
  }
}
