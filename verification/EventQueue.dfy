/**
 One session's event stream: a bounded queue that collapses to a single "start over" notice, and the
 exact account of what each delivered envelope stands for.
 */
module EventQueue {
  import opened Basics

  const MAX_QUEUED_EVENTS: nat := 512

  datatype EventKind =
    | ClientMapped | ClientClosed | TitleChanged | FocusChanged | StateChanged | GeometryChanged
    | WorkspaceSwitched | HumanActivity | SessionControl | Resync

  datatype Event = Notice(kind: EventKind, payload: nat) | ResyncRequired(dropped: nat)
  datatype Envelope = Envelope(sequence: nat, event: Event)

  predicate IsFilterable(kind: EventKind)
  {
    !kind.SessionControl? && !kind.Resync?
  }

  /** Kinds to deliver (none means all), the backlog, and what is owed after an overflow. */
  datatype Subscription = Subscription(kinds: set<EventKind>, queue: seq<Envelope>, dropped: nat, resync: bool)
  {
    predicate Wants(kind: EventKind)
    {
      !IsFilterable(kind) || kinds == {} || kind in kinds
    }
  }

  function Fresh(kinds: set<EventKind>): (s: Subscription)
  {
    Subscription(kinds, [], 0, false)
  }

  function SaturatingAdd(a: nat, b: nat): (sum: nat)
    ensures a + b <= U64_MAX ==> sum == a + b
  {
    if a + b <= U64_MAX then a + b else U64_MAX
  }

  /** Queues an envelope, or drops the whole backlog with it when the queue is full. */
  function Push(s: Subscription, e: Envelope): (s': Subscription)
  {
    if |s.queue| >= MAX_QUEUED_EVENTS
    then s.(dropped := SaturatingAdd(s.dropped, |s.queue| + 1), queue := [], resync := true)
    else if s.resync then s.(dropped := SaturatingAdd(s.dropped, 1))
    else s.(queue := s.queue + [e])
  }

  /** Takes the next envelope; an owed notice comes first and clears everything behind it. */
  function Pop(s: Subscription, sequence: nat): (popped: (Subscription, Option<Envelope>))
  {
    if s.resync then (s.(resync := false, dropped := 0, queue := []), Some(Envelope(sequence, ResyncRequired(s.dropped))))
    else if s.queue == [] then (s, None)
    else (s.(queue := s.queue[1..]), Some(s.queue[0]))
  }

  /** Takes everything that should be sent now. */
  function Take(s: Subscription, sequence: nat): (taken: (Subscription, seq<Envelope>))
  {
    if s.resync then (s.(resync := false, dropped := 0, queue := []), [Envelope(sequence, ResyncRequired(s.dropped))])
    else (s.(queue := []), s.queue)
  }

  /** Hands an undelivered envelope back. */
  function Requeue(s: Subscription, e: Envelope): (s': Subscription)
  {
    if e.event.ResyncRequired? then s.(resync := true, dropped := e.event.dropped)
    else s.(queue := [e] + s.queue)
  }

  // ------------------------------------------------------ the account

  /** How many published events one delivered envelope stands for. */
  function Covers(e: Envelope): (n: nat)
  {
    if e.event.ResyncRequired? then e.event.dropped else 1
  }

  function Consumed(delivered: seq<Envelope>): (n: nat)
  {
    if delivered == [] then 0
    else Consumed(delivered[..|delivered| - 1]) + Covers(delivered[|delivered| - 1])
  }

  /** Every delivered event is the next published one; every notice stands for the ones skipped there. */
  ghost predicate Explains(published: seq<Envelope>, delivered: seq<Envelope>)
  {
    delivered != [] ==>
      var last := |delivered| - 1;
      var before := Consumed(delivered[..last]);
      && Explains(published, delivered[..last])
      && before + Covers(delivered[last]) <= |published|
      && (!delivered[last].event.ResyncRequired? ==> delivered[last] == published[before])
  }

  /** A stream in motion: the subscription, the session's counter, and both sides of the account. */
  datatype Stream = Stream(s: Subscription, sequence: nat, published: seq<Envelope>, delivered: seq<Envelope>)

  ghost predicate Balanced(m: Stream)
  {
    && Explains(m.published, m.delivered)
    && |m.s.queue| <= MAX_QUEUED_EVENTS
    && (m.s.resync ==> m.s.queue == [] && m.s.dropped >= 1 && Consumed(m.delivered) + m.s.dropped == |m.published|)
    && (!m.s.resync ==> m.s.dropped == 0 && Consumed(m.delivered) <= |m.published|
                        && m.s.queue == m.published[Consumed(m.delivered)..])
    && (forall i :: 0 <= i < |m.published| ==> !m.published[i].event.ResyncRequired?)
  }

  ghost predicate Ascending(envelopes: seq<Envelope>)
  {
    forall i, j :: 0 <= i < j < |envelopes| ==> envelopes[i].sequence < envelopes[j].sequence
  }

  /** Stamps rise strictly on both sides, and what is still ahead is newer than anything delivered. */
  ghost predicate Stamped(m: Stream)
  {
    && Ascending(m.published) && Ascending(m.delivered)
    && (forall i :: 0 <= i < |m.published| ==> 1 <= m.published[i].sequence <= m.sequence)
    && (forall i :: 0 <= i < |m.delivered| ==> m.delivered[i].sequence <= m.sequence)
    && Ahead(m.delivered, m.published, Consumed(m.delivered))
  }

  ghost predicate Ahead(delivered: seq<Envelope>, published: seq<Envelope>, from: nat)
  {
    forall i, j :: 0 <= i < |delivered| && from <= j < |published| ==> delivered[i].sequence < published[j].sequence
  }

  /** What may happen to a stream: an observed change with or without an event, a delivery, a bounce. */
  datatype Step = Observe | Announce(event: Event) | Deliver | Bounce | Drain

  /** The desktop moved: the counter advances before the event is stamped with it. */
  function Next(m: Stream, step: Step): (m': Stream)
  {
    match step
    case Observe => m.(sequence := SaturatingNext(m.sequence))
    case Announce(event) =>
      var sequence := SaturatingNext(m.sequence);
      var e := Envelope(sequence, event);
      Stream(Push(m.s, e), sequence, m.published + [e], m.delivered)
    case Deliver =>
      var (s, popped) := Pop(m.s, m.sequence);
      if popped.None? then m.(s := s) else m.(s := s, delivered := m.delivered + [popped.value])
    case Bounce =>
      var (s, popped) := Pop(m.s, m.sequence);
      if popped.None? then m.(s := s) else m.(s := Requeue(s, popped.value))
    case Drain =>
      var (s, taken) := Take(m.s, m.sequence);
      m.(s := s, delivered := m.delivered + taken)
  }

  ghost predicate Fits(m: Stream, step: Step)
  {
    && m.sequence < U64_MAX && |m.published| < U64_MAX
    && (step.Announce? ==> !step.event.ResyncRequired?)
  }

  function Play(m: Stream, steps: seq<Step>): (m': Stream)
    decreases |steps|
  {
    if steps == [] then m else Play(Next(m, steps[0]), steps[1..])
  }

  ghost predicate AllFit(m: Stream, steps: seq<Step>)
    decreases |steps|
  {
    steps != [] ==> Fits(m, steps[0]) && AllFit(Next(m, steps[0]), steps[1..])
  }

  /** A refused delivery changes nothing, exactly unless the queue's head is itself a start-over event. */
  lemma BounceRestores(s: Subscription, sequence: nat)
    requires s.resync ==> s.queue == []
    requires !s.resync ==> s.dropped == 0
    ensures var (s', popped) := Pop(s, sequence);
            (popped.Some? && Requeue(s', popped.value) != s)
            <==> (!s.resync && s.queue != [] && s.queue[0].event.ResyncRequired?)
  {
    if !s.resync && s.queue != [] {
      assert [s.queue[0]] + s.queue[1..] == s.queue;
    }
  }

  lemma DeliveredOneMore(published: seq<Envelope>, delivered: seq<Envelope>, e: Envelope)
    requires Explains(published, delivered)
    requires Consumed(delivered) + Covers(e) <= |published|
    requires !e.event.ResyncRequired? ==> e == published[Consumed(delivered)]
    ensures Explains(published, delivered + [e]) && Consumed(delivered + [e]) == Consumed(delivered) + Covers(e)
  {
    assert (delivered + [e])[..|delivered|] == delivered;
  }

  lemma {:induction false} MorePublishedStillExplains(published: seq<Envelope>, delivered: seq<Envelope>, e: Envelope)
    requires Explains(published, delivered)
    ensures Explains(published + [e], delivered)
  {
    if delivered != [] {
      MorePublishedStillExplains(published, delivered[..|delivered| - 1], e);
    }
  }

  lemma AnnounceKeeps(m: Stream, event: Event)
    requires Balanced(m) && Stamped(m) && Fits(m, Announce(event))
    ensures Balanced(Next(m, Announce(event))) && Stamped(Next(m, Announce(event)))
  {
    AnnounceBalances(m, event);
    hide Explains, Consumed, Push;
    var m' := Next(m, Announce(event));
    assert m'.published == m.published + [Envelope(m.sequence + 1, event)];
  }

  lemma AnnounceBalances(m: Stream, event: Event)
    requires Balanced(m) && Fits(m, Announce(event))
    ensures Balanced(Next(m, Announce(event)))
  {
    var m' := Next(m, Announce(event));
    var e := Envelope(m.sequence + 1, event);
    MorePublishedStillExplains(m.published, m.delivered, e);
    hide Explains, Consumed;
    if !m.s.resync {
      assert m'.published[Consumed(m.delivered)..] == m.s.queue + [e];
    }
  }

  lemma DeliverKeeps(m: Stream)
    requires Balanced(m) && Stamped(m)
    ensures Balanced(Next(m, Deliver)) && Stamped(Next(m, Deliver))
  {
    hide Explains, Consumed;
    var (_, popped) := Pop(m.s, m.sequence);
    if popped.Some? {
      var e := popped.value;
      if !m.s.resync {
        assert m.s.queue[0] == m.published[Consumed(m.delivered)];
        assert m.published[Consumed(m.delivered)..][1..] == m.published[Consumed(m.delivered) + 1..];
      } else {
        assert m.published[|m.published| - 1].sequence <= m.sequence;
      }
      DeliveredOneMore(m.published, m.delivered, e);
    }
  }

  /** Draining is delivering until nothing is left. */
  lemma {:induction false} DrainIsDeliveries(m: Stream)
    requires Balanced(m) && Stamped(m)
    ensures Balanced(Next(m, Drain)) && Stamped(Next(m, Drain))
    decreases |m.s.queue|
  {
    hide Explains, Consumed, Stamped, Balanced;
    if m.s.resync {
      DeliverKeeps(m);
      assert Next(m, Drain) == Next(m, Deliver);
    } else if m.s.queue == [] {
      assert Next(m, Drain) == m;
    } else {
      DeliverKeeps(m);
      var m' := Next(m, Deliver);
      DrainIsDeliveries(m');
      assert m.s.queue == [m.s.queue[0]] + m.s.queue[1..];
      assert m.delivered + m.s.queue == m.delivered + [m.s.queue[0]] + m.s.queue[1..];
      assert Next(m, Drain) == Next(m', Drain);
    }
  }

  lemma StepKeeps(m: Stream, step: Step)
    requires Balanced(m) && Stamped(m) && Fits(m, step)
    ensures Balanced(Next(m, step)) && Stamped(Next(m, step))
  {
    match step
    case Observe =>
    case Announce(event) => AnnounceKeeps(m, event);
    case Deliver => DeliverKeeps(m);
    case Bounce =>
      if !m.s.resync && m.s.queue != [] {
        assert m.s.queue[0] == m.published[Consumed(m.delivered)];
      }
      BounceRestores(m.s, m.sequence);
    case Drain => DrainIsDeliveries(m);
  }

  /**
   From subscribing on, however publishing, delivering and refused deliveries interleave: delivered
   events are the published ones in order, each start-over notice stands for exactly the number it
   states, the rest is queued or owed, the queue stays bounded and is empty while a notice is owed,
   and delivered stamps strictly increase.
   */
  lemma {:induction false} AccountIsExact(m: Stream, steps: seq<Step>)
    requires Balanced(m) && Stamped(m) && AllFit(m, steps)
    ensures var m' := Play(m, steps);
            && Explains(m'.published, m'.delivered) && Ascending(m'.delivered)
            && |m'.s.queue| <= MAX_QUEUED_EVENTS && (m'.s.resync ==> m'.s.queue == [])
            && Consumed(m'.delivered) + |m'.s.queue| + (if m'.s.resync then m'.s.dropped else 0) == |m'.published|
            && (!m'.s.resync ==> m'.s.queue == m'.published[Consumed(m'.delivered)..])
    decreases |steps|
  {
    if steps != [] {
      StepKeeps(m, steps[0]);
      AccountIsExact(Next(m, steps[0]), steps[1..]);
    }
  }

  /** Nothing was ever dropped: what was published was delivered or waits, in order. */
  ghost predicate Whole(m: Stream)
  {
    && !m.s.resync && m.delivered + m.s.queue == m.published
    && forall i :: 0 <= i < |m.published| ==> !m.published[i].event.ResyncRequired?
  }

  /** No event is dropped before 512 have been published. */
  lemma WholeUntilFull(m: Stream, step: Step)
    requires Whole(m) && (step.Announce? ==> !step.event.ResyncRequired? && |m.published| < 512)
    ensures Whole(Next(m, step))
  {
    assert |m.s.queue| <= |m.published|;
    match step
    case Observe =>
    case Announce(event) =>
      var e := Envelope(SaturatingNext(m.sequence), event);
      assert m.delivered + (m.s.queue + [e]) == m.published + [e];
    case Deliver =>
      if m.s.queue != [] {
        assert m.delivered + [m.s.queue[0]] + m.s.queue[1..] == m.delivered + m.s.queue;
      }
    case Bounce =>
      if m.s.queue != [] {
        assert m.published[|m.delivered|] == m.s.queue[0];
        assert [m.s.queue[0]] + m.s.queue[1..] == m.s.queue;
      }
    case Drain =>
      assert m.delivered + m.s.queue + [] == m.published;
  }

  lemma SubscribingStartsTheAccount(kinds: set<EventKind>, sequence: nat)
    ensures Balanced(Stream(Fresh(kinds), sequence, [], [])) && Stamped(Stream(Fresh(kinds), sequence, [], []))
  {
    var m := Stream(Fresh(kinds), sequence, [], []);
    assert Explains(m.published, m.delivered) && Consumed(m.delivered) == 0;
    hide Explains, Consumed;
    assert m.published[0..] == [];
  }
}
