/**
 The agent seat's transport: an acceptor and one reader per session hand messages to a bounded inbox,
 wake the event loop at most once per drain, and the loop drains the inbox. Every atomic action of
 every thread is one step, so a run is any interleaving.
 */
module SeatTransport {
  import opened Basics

  const INBOX_QUEUE: nat := 256

  type SessionId = nat
  type Content = nat
  type Fault = nat

  datatype Message =
    | Connected(session: SessionId)
    | Frame(session: SessionId, content: Content)
    | Faulted(session: SessionId, error: Fault)
    | Disconnected(session: SessionId)

  /** What a companion's stream holds: well-formed frames, then its end or something unreadable. */
  datatype Ending = Closed | Unreadable(error: Fault)
  datatype Wire = Wire(frames: seq<Content>, ending: Ending)

  /** A delivery sends, then swaps the wake flag, then wakes the loop if the flag was clear. */
  datatype Phase = Sending | Swapping | Waking
  datatype Delivery = Idle | Delivering(message: Message, phase: Phase)
  {
    predicate In(phase: Phase)
    {
      Delivering? && this.phase == phase
    }
  }

  /** What a thread does after its delivery; a reader has handed on `handed` messages of its wire. */
  datatype Task = Listening | Splitting(session: SessionId) | Reading(handed: nat) | Over
  datatype Thread = Thread(task: Task, delivery: Delivery)

  datatype Loop = Waiting | Starting | Draining

  /** The acceptor is thread 0; the reader of session `q` is thread `q`. */
  datatype Seat = Seat(
    nextSession: SessionId,
    threads: map<nat, Thread>,
    refused: set<SessionId>,
    inbox: seq<Message>,
    open: bool,
    pending: bool,
    woken: bool,
    loop: Loop,
    taken: seq<Message>,
    calls: nat,
    drains: nat)
  {
    ghost function Busy(phase: Phase): set<nat>
    {
      set t | t in threads && threads[t].delivery.In(phase)
    }

    function With(t: nat, thread: Thread): Seat
    {
      this.(threads := threads[t := thread])
    }
  }

  const ACCEPTOR: nat := 0
  const FRESH_SEAT: Seat :=
    Seat(1, map[ACCEPTOR := Thread(Listening, Idle)], {}, [], true, false, false, Waiting, [], 0, 0)

  // ------------------------------------------------------- the steps

  datatype Step =
    | Accept              // a companion with readable credentials connects
    | StopListening
    | RefuseSession       // its stream cannot be split, or its writer cannot start
    | LoseReader          // its reader cannot start
    | StartReader
    | Read(session: SessionId)
    | Send(t: nat)
    | Fail(t: nat)        // the inbox has no receiver any more
    | Swap(t: nat)
    | Wake(t: nat)
    | Answer              // the event loop notices a wake
    | Visit               // or comes by for an unrelated reason
    | Clear
    | Take
    | Rest
    | Close

  function NextMessage(wire: SessionId -> Wire, q: SessionId, handed: nat): (m: Message)
    ensures m.session == q
  {
    var w := wire(q);
    if handed < |w.frames| then Frame(q, w.frames[handed])
    else if w.ending.Closed? then Disconnected(q)
    else Faulted(q, w.ending.error)
  }

  predicate Idles(s: Seat, t: nat, task: Task)
  {
    t in s.threads && s.threads[t] == Thread(task, Idle)
  }

  predicate Doing(s: Seat, t: nat, phase: Phase)
  {
    t in s.threads && s.threads[t].delivery.In(phase)
  }

  predicate Enabled(wire: SessionId -> Wire, s: Seat, step: Step)
  {
    match step
    case Accept => Idles(s, ACCEPTOR, Listening)
    case StopListening => Idles(s, ACCEPTOR, Listening)
    case RefuseSession => ACCEPTOR in s.threads && s.threads[ACCEPTOR].task.Splitting? && s.threads[ACCEPTOR].delivery.Idle?
    case LoseReader => ACCEPTOR in s.threads && s.threads[ACCEPTOR].task.Splitting? && s.threads[ACCEPTOR].delivery.Idle?
    case StartReader => ACCEPTOR in s.threads && s.threads[ACCEPTOR].task.Splitting? && s.threads[ACCEPTOR].delivery.Idle?
    case Read(q) =>
      q != ACCEPTOR && q in s.threads && s.threads[q].delivery.Idle? && s.threads[q].task.Reading?
      && s.threads[q].task.handed <= |wire(q).frames|
    case Send(t) => Doing(s, t, Sending) && s.open && |s.inbox| < INBOX_QUEUE
    case Fail(t) => Doing(s, t, Sending) && !s.open
    case Swap(t) => Doing(s, t, Swapping)
    case Wake(t) => Doing(s, t, Waking)
    case Answer => s.open && s.loop.Waiting? && s.woken
    case Visit => s.open && s.loop.Waiting?
    case Clear => s.open && s.loop.Starting?
    case Take => s.open && s.loop.Draining? && s.inbox != []
    case Rest => s.open && s.loop.Draining? && s.inbox == []
    case Close => s.open && s.loop.Waiting?
  }

  function Next(wire: SessionId -> Wire, s: Seat, step: Step): (s': Seat)
    requires Enabled(wire, s, step)
  {
    match step
    case Accept =>
      s.With(ACCEPTOR, Thread(Splitting(s.nextSession), Delivering(Connected(s.nextSession), Sending)))
      .(nextSession := s.nextSession + 1)
    case StopListening => s.With(ACCEPTOR, Thread(Over, Idle))
    case RefuseSession =>
      var q := s.threads[ACCEPTOR].task.session;
      s.With(ACCEPTOR, Thread(Listening, Delivering(Disconnected(q), Sending))).(refused := s.refused + {q})
    case LoseReader => s.With(ACCEPTOR, Thread(Listening, Idle))
    case StartReader =>
      var q := s.threads[ACCEPTOR].task.session;
      s.(threads := s.threads[ACCEPTOR := Thread(Listening, Idle)][q := Thread(Reading(0), Idle)])
    case Read(q) =>
      var handed := s.threads[q].task.handed;
      s.With(q, Thread(Reading(handed + 1), Delivering(NextMessage(wire, q, handed), Sending)))
    case Send(t) =>
      var thread := s.threads[t];
      s.With(t, thread.(delivery := thread.delivery.(phase := Swapping)))
      .(inbox := s.inbox + [thread.delivery.message])
    case Fail(t) =>
      var thread := s.threads[t];
      s.With(t, Thread(if thread.delivery.message.Disconnected? then thread.task else Over, Idle))
    case Swap(t) =>
      var thread := s.threads[t];
      if s.pending then s.With(t, thread.(delivery := Idle))
      else
        s.With(t, thread.(delivery := thread.delivery.(phase := Waking))).(pending := true, calls := s.calls + 1)
    case Wake(t) => s.With(t, s.threads[t].(delivery := Idle)).(woken := true)
    case Answer => s.(loop := Starting, woken := false)
    case Visit => s.(loop := Starting)
    case Clear => s.(loop := Draining, pending := false, drains := s.drains + 1)
    case Take => s.(inbox := s.inbox[1..], taken := s.taken + [s.inbox[0]])
    case Rest => s.(loop := Waiting)
    case Close => s.(open := false, inbox := [])
  }

  /** A run is a sequence of steps each enabled where it happens. */
  predicate Runs(wire: SessionId -> Wire, s: Seat, steps: seq<Step>)
    decreases |steps|
  {
    steps != [] ==> Enabled(wire, s, steps[0]) && Runs(wire, Next(wire, s, steps[0]), steps[1..])
  }

  function After(wire: SessionId -> Wire, s: Seat, steps: seq<Step>): (s': Seat)
    requires Runs(wire, s, steps)
    decreases |steps|
  {
    if steps == [] then s else After(wire, Next(wire, s, steps[0]), steps[1..])
  }

  // -------------------------------------------------- what threads do

  /** Only the acceptor opens sessions, and it is never ahead of the newest one. */
  predicate AcceptorShaped(s: Seat)
  {
    && ACCEPTOR in s.threads && s.nextSession > 0
    && var a := s.threads[ACCEPTOR]; var q := s.nextSession - 1;
    match a.task
    case Splitting(session) =>
      session == q && Unheld(s, q) && q !in s.refused && (a.delivery.Idle? || a.delivery.message == Connected(q))
    case Listening => a.delivery.Idle? || (a.delivery.message == Disconnected(q) && Unheld(s, q) && q in s.refused)
    case Over => a.delivery.Idle?
    case Reading(_) => false
  }

  predicate Unheld(s: Seat, q: SessionId)
  {
    q > 0 && q !in s.threads
  }

  predicate ReaderShaped(wire: SessionId -> Wire, s: Seat, q: SessionId)
    requires q in s.threads
  {
    && q < s.nextSession && q !in s.refused
    && var t := s.threads[q];
    match t.task
    case Reading(handed) =>
      && handed <= |wire(q).frames| + 1
      && (t.delivery.Delivering? ==> handed > 0 && t.delivery.message == NextMessage(wire, q, handed - 1))
    case Over => t.delivery.Idle?
    case _ => false
  }

  ghost predicate Shaped(wire: SessionId -> Wire, s: Seat)
  {
    && AcceptorShaped(s)
    && (forall q :: q in s.refused ==> 0 < q < s.nextSession)
    && (forall q :: q in s.threads && q != ACCEPTOR ==> ReaderShaped(wire, s, q))
  }

  predicate ByAcceptor(step: Step)
  {
    step.Accept? || step.StopListening? || step.RefuseSession? || step.LoseReader? || step.StartReader?
  }

  lemma OwnStepKeepsAcceptor(wire: SessionId -> Wire, s: Seat, step: Step)
    requires Shaped(wire, s) && Enabled(wire, s, step) && ByAcceptor(step)
    ensures var s' := Next(wire, s, step); AcceptorShaped(s') && forall q :: q in s'.refused ==> 0 < q < s'.nextSession
  {
    hide NextMessage;
    assert s.nextSession !in s.threads by {
      assert s.nextSession in s.threads ==> ReaderShaped(wire, s, s.nextSession);
    }
    hide ReaderShaped;
  }

  lemma StepKeepsAcceptor(wire: SessionId -> Wire, s: Seat, step: Step)
    requires Shaped(wire, s) && Enabled(wire, s, step)
    ensures var s' := Next(wire, s, step); AcceptorShaped(s') && forall q :: q in s'.refused ==> 0 < q < s'.nextSession
  {
    if ByAcceptor(step) {
      OwnStepKeepsAcceptor(wire, s, step);
    } else {
      hide NextMessage, ReaderShaped;
    }
  }

  lemma StepKeepsReader(wire: SessionId -> Wire, s: Seat, step: Step, q: SessionId)
    requires Shaped(wire, s) && Enabled(wire, s, step) && q in Next(wire, s, step).threads && q != ACCEPTOR
    ensures ReaderShaped(wire, Next(wire, s, step), q)
  {
    hide NextMessage;
    if q in s.threads {
      assert ReaderShaped(wire, s, q);
    }
  }

  lemma StepKeepsShape(wire: SessionId -> Wire, s: Seat, step: Step)
    requires Shaped(wire, s) && Enabled(wire, s, step)
    ensures Shaped(wire, Next(wire, s, step))
  {
    hide Enabled, Next, AcceptorShaped, ReaderShaped;
    StepKeepsAcceptor(wire, s, step);
    var s' := Next(wire, s, step);
    forall q | q in s'.threads && q != ACCEPTOR ensures ReaderShaped(wire, s', q) {
      StepKeepsReader(wire, s, step, q);
    }
  }

  // ------------------------------------------------ no wake-up is lost

  /** The flag is set only while a wake is on its way, and messages wait only while someone will come. */
  ghost predicate Signalled(s: Seat)
  {
    && (s.pending ==> s.woken || s.loop.Starting? || s.Busy(Waking) != {})
    && (s.inbox != [] ==> s.woken || !s.loop.Waiting? || s.Busy(Swapping) != {} || s.Busy(Waking) != {})
    && s.calls <= s.drains + (if s.pending then 1 else 0)
    && |s.inbox| <= INBOX_QUEUE
  }

  lemma StepKeepsSignals(wire: SessionId -> Wire, s: Seat, step: Step)
    requires Shaped(wire, s) && Signalled(s) && Enabled(wire, s, step)
    ensures Signalled(Next(wire, s, step))
  {
    hide NextMessage, ReaderShaped;
    var s' := Next(wire, s, step);
    match step
    case Send(t) => MovesOn(wire, s, step, t);
    case Swap(t) => MovesOn(wire, s, step, t);
    case Wake(t) =>
    case _ => KeepsBusy(wire, s, step);
  }

  lemma MovesOn(wire: SessionId -> Wire, s: Seat, step: Step, t: nat)
    requires step == Send(t) || step == Swap(t) || step == Wake(t)
    requires Enabled(wire, s, step)
    ensures var s' := Next(wire, s, step);
            match step
            case Send(_) => s'.Busy(Swapping) == s.Busy(Swapping) + {t} && s'.Busy(Waking) == s.Busy(Waking)
            case Swap(_) =>
              && t in s.Busy(Swapping) && s'.Busy(Swapping) == s.Busy(Swapping) - {t} && t !in s.Busy(Waking)
              && s'.Busy(Waking) == if s.pending then s.Busy(Waking) else s.Busy(Waking) + {t}
            case _ => t in s.Busy(Waking) && s'.Busy(Swapping) == s.Busy(Swapping) && s'.Busy(Waking) == s.Busy(Waking) - {t}
  {
  }

  /** Other steps neither start nor end anyone's wake-up. */
  lemma KeepsBusy(wire: SessionId -> Wire, s: Seat, step: Step)
    requires Shaped(wire, s) && Enabled(wire, s, step) && !step.Send? && !step.Swap? && !step.Wake?
    ensures Next(wire, s, step).Busy(Swapping) == s.Busy(Swapping)
    ensures Next(wire, s, step).Busy(Waking) == s.Busy(Waking)
  {
    hide NextMessage, ReaderShaped;
  }

  lemma {:induction false} RunKeepsSignals(wire: SessionId -> Wire, s: Seat, steps: seq<Step>)
    requires Shaped(wire, s) && Signalled(s) && Runs(wire, s, steps)
    ensures Shaped(wire, After(wire, s, steps)) && Signalled(After(wire, s, steps))
    decreases |steps|
  {
    if steps != [] {
      StepKeepsShape(wire, s, steps[0]);
      StepKeepsSignals(wire, s, steps[0]);
      RunKeepsSignals(wire, Next(wire, s, steps[0]), steps[1..]);
    }
  }

  lemma FreshIsShaped(wire: SessionId -> Wire)
    ensures Shaped(wire, FRESH_SEAT) && Signalled(FRESH_SEAT)
  {
  }

  /** Under any interleaving, a message waits only while a wake, a waker or the loop is on its way. */
  lemma NoWakeupIsLost(wire: SessionId -> Wire, steps: seq<Step>)
    requires Runs(wire, FRESH_SEAT, steps)
    ensures var s := After(wire, FRESH_SEAT, steps);
            && (s.inbox != [] ==> s.woken || !s.loop.Waiting? || s.Busy(Swapping) != {} || s.Busy(Waking) != {})
            && s.calls <= s.drains + 1
            && |s.inbox| <= INBOX_QUEUE
  {
    FreshIsShaped(wire);
    RunKeepsSignals(wire, FRESH_SEAT, steps);
  }

  // ------------------------------------------- a full inbox is emptied

  predicate Internal(step: Step)
  {
    step.Swap? || step.Wake? || step.Answer? || step.Visit? || step.Clear? || step.Take? || step.Rest?
  }

  /** How many internal steps can pass before the loop takes a message. */
  ghost function Distance(s: Seat): (n: nat)
  {
    2 * |s.Busy(Swapping)| + |s.Busy(Waking)| + (match s.loop case Waiting => 2 case Starting => 1 case Draining => 0)
  }

  function InternalSteps(steps: seq<Step>): (n: nat)
    decreases |steps|
  {
    if steps == [] then 0 else (if Internal(steps[0]) then 1 else 0) + InternalSteps(steps[1..])
  }

  lemma DistanceFalls(wire: SessionId -> Wire, s: Seat, step: Step)
    requires Shaped(wire, s) && Enabled(wire, s, step)
    requires s.inbox != [] && !step.Take? && !step.Send? && !step.Close?
    ensures Distance(Next(wire, s, step)) == Distance(s) - (if Internal(step) then 1 else 0)
         || (step.Swap? && Distance(Next(wire, s, step)) == Distance(s) - 2)
  {
    if step.Swap? || step.Wake? {
      DeliveryCloser(wire, s, step, step.t);
    } else {
      KeepsBusy(wire, s, step);
    }
    hide NextMessage, Shaped, Seat.Busy;
  }

  lemma DeliveryCloser(wire: SessionId -> Wire, s: Seat, step: Step, t: nat)
    requires step == Swap(t) || step == Wake(t)
    requires Enabled(wire, s, step)
    ensures Distance(Next(wire, s, step)) == Distance(s) - 1
         || (step.Swap? && Distance(Next(wire, s, step)) == Distance(s) - 2)
  {
    MovesOn(wire, s, step, t);
    hide Seat.Busy;
  }

  /** Whatever else happens, a waiting message leaves the loop an internal step to make. */
  lemma SomeoneCanMove(wire: SessionId -> Wire, s: Seat)
    requires Signalled(s) && s.open && s.inbox != []
    ensures exists step :: Internal(step) && !step.Visit? && Enabled(wire, s, step)
  {
    if s.loop.Starting? {
      assert Enabled(wire, s, Clear);
    } else if s.loop.Draining? {
      assert Enabled(wire, s, Take);
    } else if s.woken {
      assert Enabled(wire, s, Answer);
    } else if s.Busy(Swapping) != {} {
      var t :| t in s.Busy(Swapping);
      assert Enabled(wire, s, Swap(t));
    } else {
      var t :| t in s.Busy(Waking);
      assert Enabled(wire, s, Wake(t));
    }
  }

  predicate Without(steps: seq<Step>)
  {
    forall i :: 0 <= i < |steps| ==> !steps[i].Take? && !steps[i].Close?
  }

  /**
   A full inbox never strands its senders: until the loop takes a message, some internal step other
   than an unrelated visit is always enabled, and only a bounded number of internal steps can pass.
   */
  lemma {:induction false} FullInboxIsTaken(wire: SessionId -> Wire, s: Seat, steps: seq<Step>)
    requires Shaped(wire, s) && Signalled(s) && s.open && |s.inbox| == INBOX_QUEUE
    requires Runs(wire, s, steps) && Without(steps)
    ensures InternalSteps(steps) <= Distance(s)
    ensures exists step :: Internal(step) && !step.Visit? && Enabled(wire, After(wire, s, steps), step)
    decreases |steps|
  {
    if steps == [] {
      SomeoneCanMove(wire, s);
    } else {
      var step := steps[0];
      StepKeepsShape(wire, s, step);
      StepKeepsSignals(wire, s, step);
      DistanceFalls(wire, s, step);
      FullInboxIsTaken(wire, Next(wire, s, step), steps[1..]);
    }
  }

  // ----------------------------------------- what the loop sees

  function About(q: SessionId, messages: seq<Message>): (mine: seq<Message>)
  {
    if messages == [] then []
    else
      var last := |messages| - 1;
      About(q, messages[..last]) + (if messages[last].session == q then [messages[last]] else [])
  }

  /** What a session's reader has told once it handed on `handed` messages. */
  function Told(wire: SessionId -> Wire, q: SessionId, handed: nat): (messages: seq<Message>)
    ensures |messages| == handed + 1
  {
    if handed == 0 then [Connected(q)] else Told(wire, q, handed - 1) + [NextMessage(wire, q, handed - 1)]
  }

  /** All a session can ever tell: its frames in wire order and one ending, or a refusal. */
  function WholeStory(wire: SessionId -> Wire, q: SessionId): (messages: seq<Message>)
  {
    Told(wire, q, |wire(q).frames| + 1)
  }

  function Refusal(q: SessionId): seq<Message>
  {
    [Connected(q), Disconnected(q)]
  }

  /** What has been sent about a session, told from the threads alone. */
  function Sent(wire: SessionId -> Wire, s: Seat, q: SessionId): (messages: seq<Message>)
    requires Shaped(wire, s)
  {
    if q == 0 || q >= s.nextSession then []
    else if q in s.threads then
      var t := s.threads[q];
      if t.task.Over? then [] else Told(wire, q, t.task.handed - (if t.delivery.In(Sending) then 1 else 0))
    else
      var unsent := s.threads[ACCEPTOR].delivery.In(Sending) && s.threads[ACCEPTOR].delivery.message.session == q;
      if q in s.refused then (if unsent then [Connected(q)] else Refusal(q))
      else if unsent then [] else [Connected(q)]
  }

  /** The inbox and what was taken from it tell each session's story so far, and no more. */
  ghost predicate Faithful(wire: SessionId -> Wire, s: Seat)
  {
    && Shaped(wire, s)
    && (s.open ==> forall q :: About(q, s.taken + s.inbox) == Sent(wire, s, q))
    && (s.open ==> forall q :: q in s.threads ==> !s.threads[q].task.Over? || q == ACCEPTOR)
    && (!s.open ==> s.inbox == [] && forall q :: OwnStory(wire, q, About(q, s.taken)))
  }

  ghost predicate OwnStory(wire: SessionId -> Wire, q: SessionId, told: seq<Message>)
  {
    told <= WholeStory(wire, q) || told <= Refusal(q)
  }

  lemma AboutOneMore(q: SessionId, messages: seq<Message>, m: Message)
    ensures About(q, messages + [m]) == About(q, messages) + (if m.session == q then [m] else [])
  {
    assert (messages + [m])[..|messages|] == messages;
  }

  lemma {:induction false} AboutPrefix(q: SessionId, left: seq<Message>, right: seq<Message>)
    ensures About(q, left) <= About(q, left + right)
  {
    if right == [] {
      assert left + right == left;
    } else {
      var last := |right| - 1;
      AboutPrefix(q, left, right[..last]);
      assert left + right == left + right[..last] + [right[last]];
      AboutOneMore(q, left + right[..last], right[last]);
    }
  }

  lemma {:induction false} ToldPrefix(wire: SessionId -> Wire, q: SessionId, less: nat, more: nat)
    requires less <= more
    ensures Told(wire, q, less) <= Told(wire, q, more)
  {
    if less < more {
      ToldPrefix(wire, q, less, more - 1);
    }
  }

  lemma SentIsOwnStory(wire: SessionId -> Wire, s: Seat, q: SessionId)
    requires Shaped(wire, s)
    ensures OwnStory(wire, q, Sent(wire, s, q))
  {
    if q in s.threads && q != ACCEPTOR {
      assert ReaderShaped(wire, s, q);
      if s.threads[q].task.Reading? {
        var t := s.threads[q];
        ToldPrefix(wire, q, t.task.handed - (if t.delivery.In(Sending) then 1 else 0), |wire(q).frames| + 1);
      }
    } else {
      assert [Connected(q)] <= Refusal(q);
    }
  }

  /** Sending adds exactly the message in hand to its own session's story. */
  lemma SendTells(wire: SessionId -> Wire, s: Seat, t: nat, q: SessionId)
    requires Shaped(wire, s) && Enabled(wire, s, Send(t)) && Shaped(wire, Next(wire, s, Send(t)))
    requires t != ACCEPTOR ==> !s.threads[t].task.Over?
    ensures var m := s.threads[t].delivery.message;
            Sent(wire, Next(wire, s, Send(t)), q) == Sent(wire, s, q) + (if m.session == q then [m] else [])
  {
    hide NextMessage;
    if t != ACCEPTOR {
      assert ReaderShaped(wire, s, t);
    }
    if q in s.threads && q != ACCEPTOR {
      assert ReaderShaped(wire, s, q);
    }
  }

  lemma AcceptorTellsNothing(wire: SessionId -> Wire, s: Seat, step: Step, q: SessionId)
    requires Shaped(wire, s) && Enabled(wire, s, step) && Shaped(wire, Next(wire, s, step)) && ByAcceptor(step)
    ensures Sent(wire, Next(wire, s, step), q) == Sent(wire, s, q)
  {
    assert Told(wire, q, 0) == [Connected(q)];
    hide NextMessage, Told, Refusal;
  }

  lemma OthersTellNothing(wire: SessionId -> Wire, s: Seat, step: Step, q: SessionId)
    requires Shaped(wire, s) && Enabled(wire, s, step) && Shaped(wire, Next(wire, s, step))
    requires !step.Send? && !step.Fail? && !ByAcceptor(step)
    ensures Sent(wire, Next(wire, s, step), q) == Sent(wire, s, q)
  {
    hide NextMessage, Told, Refusal, AcceptorShaped, ReaderShaped;
  }

  lemma StepKeepsTold(wire: SessionId -> Wire, s: Seat, step: Step, q: SessionId)
    requires Faithful(wire, s) && s.open && Enabled(wire, s, step) && Shaped(wire, Next(wire, s, step)) && !step.Close?
    ensures var s' := Next(wire, s, step); About(q, s'.taken + s'.inbox) == Sent(wire, s', q)
  {
    hide Shaped, NextMessage, Sent, OwnStory, About;
    var s' := Next(wire, s, step);
    if step.Send? {
      var m := s.threads[step.t].delivery.message;
      SendTells(wire, s, step.t, q);
      AboutOneMore(q, s.taken + s.inbox, m);
      assert s'.taken + s'.inbox == s.taken + s.inbox + [m];
    } else {
      if ByAcceptor(step) {
        AcceptorTellsNothing(wire, s, step, q);
      } else {
        OthersTellNothing(wire, s, step, q);
      }
      assert s'.taken + s'.inbox == s.taken + s.inbox;
    }
  }

  lemma ClosingTold(wire: SessionId -> Wire, s: Seat, q: SessionId)
    requires Faithful(wire, s) && s.open
    ensures OwnStory(wire, q, About(q, s.taken))
  {
    hide Shaped, Sent, OwnStory, About;
    SentIsOwnStory(wire, s, q);
    AboutPrefix(q, s.taken, s.inbox);
    PrefixOfOwnStory(wire, q, About(q, s.taken), About(q, s.taken + s.inbox));
  }

  lemma StepKeepsFaithful(wire: SessionId -> Wire, s: Seat, step: Step)
    requires Faithful(wire, s) && Enabled(wire, s, step)
    ensures Faithful(wire, Next(wire, s, step))
  {
    StepKeepsShape(wire, s, step);
    hide Shaped, NextMessage, Sent, OwnStory, About;
    if step.Close? {
      forall q ensures OwnStory(wire, q, About(q, s.taken)) {
        ClosingTold(wire, s, q);
      }
    } else if s.open {
      var s' := Next(wire, s, step);
      forall q ensures About(q, s'.taken + s'.inbox) == Sent(wire, s', q) {
        StepKeepsTold(wire, s, step, q);
      }
    }
  }

  lemma PrefixOfOwnStory(wire: SessionId -> Wire, q: SessionId, less: seq<Message>, more: seq<Message>)
    requires less <= more && OwnStory(wire, q, more)
    ensures OwnStory(wire, q, less)
  {
  }

  lemma {:induction false} RunKeepsFaithful(wire: SessionId -> Wire, s: Seat, steps: seq<Step>)
    requires Faithful(wire, s) && Runs(wire, s, steps)
    ensures Faithful(wire, After(wire, s, steps))
    decreases |steps|
  {
    if steps != [] {
      StepKeepsFaithful(wire, s, steps[0]);
      RunKeepsFaithful(wire, Next(wire, s, steps[0]), steps[1..]);
    }
  }

  lemma FreshIsFaithful(wire: SessionId -> Wire)
    ensures Faithful(wire, FRESH_SEAT)
  {
    assert FRESH_SEAT.taken + FRESH_SEAT.inbox == [];
  }

  /** A connection, the wire's frames one by one, and after the last the wire's own ending; or a connection and its refusal. */
  ghost predicate Truthful(wire: Wire, q: SessionId, told: seq<Message>)
  {
    var n := |wire.frames|;
    || told <= [Connected(q), Disconnected(q)]
    || (&& 1 <= |told| <= n + 2
        && told[0] == Connected(q)
        && (forall i :: 0 <= i < n && i + 1 < |told| ==> told[i + 1] == Frame(q, wire.frames[i]))
        && (|told| == n + 2 && wire.ending == Closed ==> told[n + 1] == Disconnected(q))
        && (|told| == n + 2 && wire.ending.Unreadable? ==> told[n + 1] == Faulted(q, wire.ending.error)))
  }

  lemma {:induction false} ToldAt(wire: SessionId -> Wire, q: SessionId, handed: nat, i: nat)
    requires i <= handed <= |wire(q).frames| + 1
    ensures var w, m := wire(q), Told(wire, q, handed)[i];
            && (i == 0 ==> m == Connected(q))
            && (0 < i <= |w.frames| ==> m == Frame(q, w.frames[i - 1]))
            && (i == |w.frames| + 1 ==> m == if w.ending.Closed? then Disconnected(q) else Faulted(q, w.ending.error))
    decreases handed
  {
    if i < handed {
      ToldAt(wire, q, handed - 1, i);
    }
  }

  lemma OwnStoryIsTruthful(wire: SessionId -> Wire, q: SessionId, told: seq<Message>)
    requires OwnStory(wire, q, told)
    ensures Truthful(wire(q), q, told)
  {
    if !(told <= Refusal(q)) {
      var n := |wire(q).frames|;
      var whole := WholeStory(wire, q);
      forall i | 0 <= i < |told|
        ensures i == 0 ==> told[i] == Connected(q)
        ensures 0 < i <= n ==> told[i] == Frame(q, wire(q).frames[i - 1])
        ensures i == n + 1 ==> told[i] == if wire(q).ending.Closed? then Disconnected(q) else Faulted(q, wire(q).ending.error)
      {
        assert told[i] == whole[i];
        ToldAt(wire, q, n + 1, i);
      }
    }
  }

  /**
   Under any interleaving the event loop sees, of each session, one connection, then its frames in
   wire order, then at most one ending and nothing after, or a connection and its refusal; and while
   the seat is open nothing a thread has sent is missing from the inbox and what was taken.
   */
  lemma SessionsAreToldInOrder(wire: SessionId -> Wire, steps: seq<Step>, q: SessionId)
    requires Runs(wire, FRESH_SEAT, steps)
    ensures var s := After(wire, FRESH_SEAT, steps);
            && OwnStory(wire, q, About(q, s.taken)) && Truthful(wire(q), q, About(q, s.taken))
            && Shaped(wire, s) && (s.open ==> About(q, s.taken + s.inbox) == Sent(wire, s, q))
  {
    FreshIsFaithful(wire);
    RunKeepsFaithful(wire, FRESH_SEAT, steps);
    var s := After(wire, FRESH_SEAT, steps);
    if s.open {
      SentIsOwnStory(wire, s, q);
      AboutPrefix(q, s.taken, s.inbox);
    }
    OwnStoryIsTruthful(wire, q, About(q, s.taken));
    hide Truthful;
  }

  // ------------------------------------------ which stories end

  predicate Ends(messages: seq<Message>)
  {
    messages != [] && (messages[|messages| - 1].Faulted? || messages[|messages| - 1].Disconnected?)
  }

  /** The session was announced and has neither a reader nor a refusal, and the acceptor is done with it. */
  predicate Lost(s: Seat, q: SessionId)
  {
    && 0 < q < s.nextSession && q !in s.threads && q !in s.refused
    && ACCEPTOR in s.threads && s.threads[ACCEPTOR].task != Splitting(q)
  }

  lemma {:induction false} ToldEnds(wire: SessionId -> Wire, q: SessionId, handed: nat)
    requires handed <= |wire(q).frames| + 1
    ensures Ends(Told(wire, q, handed)) <==> handed == |wire(q).frames| + 1
  {
  }

  /**
   What has been sent about a session ends exactly when its refusal has been sent or its reader has sent
   the last message of its wire: not while it is being set up or read, and not once its reader was lost.
   */
  lemma StoryEndsExactlyWhen(wire: SessionId -> Wire, steps: seq<Step>, q: SessionId)
    requires Runs(wire, FRESH_SEAT, steps) && After(wire, FRESH_SEAT, steps).open
    ensures var s := After(wire, FRESH_SEAT, steps);
            var unsent := Doing(s, if q in s.refused then ACCEPTOR else q, Sending);
            Ends(About(q, s.taken + s.inbox)) <==>
              || (q in s.refused && !(unsent && s.threads[ACCEPTOR].delivery.message.session == q))
              || (q != ACCEPTOR && q in s.threads && s.threads[q].task == Reading(|wire(q).frames| + 1) && !unsent)
  {
    var s := After(wire, FRESH_SEAT, steps);
    SessionsAreToldInOrder(wire, steps, q);
    FreshIsFaithful(wire);
    RunKeepsFaithful(wire, FRESH_SEAT, steps);
    if q in s.threads && q != ACCEPTOR {
      assert ReaderShaped(wire, s, q);
      if s.threads[q].task.Reading? {
        ToldEnds(wire, q, s.threads[q].task.handed - (if s.threads[q].delivery.In(Sending) then 1 else 0));
      }
    }
    hide Told, NextMessage;
  }

  /** A session is lost exactly by losing its reader, or with the acceptor once the seat is closed, and stays lost. */
  lemma LosingIsForGood(wire: SessionId -> Wire, s: Seat, step: Step, q: SessionId)
    requires Shaped(wire, s) && Enabled(wire, s, step) && 0 < q < s.nextSession
    ensures Lost(Next(wire, s, step), q) <==>
              || Lost(s, q)
              || ((step.LoseReader? || step == Fail(ACCEPTOR)) && s.threads[ACCEPTOR].task == Splitting(q))
    ensures s.open ==> step != Fail(ACCEPTOR)
  {
    hide NextMessage, ReaderShaped;
  }

  /** A lost session has said that it connected and will not say anything else. */
  ghost predicate Silenced(wire: SessionId -> Wire, s: Seat, q: SessionId)
  {
    && Faithful(wire, s) && Lost(s, q)
    && About(q, s.taken + s.inbox) <= [Connected(q)]
  }

  lemma StaysSilenced(wire: SessionId -> Wire, s: Seat, step: Step, q: SessionId)
    requires Silenced(wire, s, q) && Enabled(wire, s, step)
    ensures Silenced(wire, Next(wire, s, step), q)
  {
    StepKeepsFaithful(wire, s, step);
    LosingIsForGood(wire, s, step, q);
    var s' := Next(wire, s, step);
    var said, said' := s.taken + s.inbox, s'.taken + s'.inbox;
    if step.Send? {
      NotAboutTheLost(wire, s, step.t, q);
    }
    Entering(wire, s, step);
    hide Faithful, Lost, About, Next, Enabled;
    if step.Send? {
      AboutOneMore(q, said, s.threads[step.t].delivery.message);
    } else if step.Close? {
      AboutPrefix(q, s.taken, s.inbox);
    }
  }

  /** Sending adds the message in hand, closing drops the inbox, and nothing else changes what was said. */
  lemma Entering(wire: SessionId -> Wire, s: Seat, step: Step)
    requires Enabled(wire, s, step)
    ensures var s' := Next(wire, s, step);
            s'.taken + s'.inbox == if step.Send? then s.taken + s.inbox + [s.threads[step.t].delivery.message]
                                   else if step.Close? then s.taken
                                   else s.taken + s.inbox
  {
    hide NextMessage;
  }

  lemma NotAboutTheLost(wire: SessionId -> Wire, s: Seat, t: nat, q: SessionId)
    requires Shaped(wire, s) && Lost(s, q) && Doing(s, t, Sending)
    ensures s.threads[t].delivery.message.session != q
  {
    hide NextMessage;
    if t != ACCEPTOR {
      assert ReaderShaped(wire, s, t);
    }
  }

  lemma {:induction false} RunStaysSilenced(wire: SessionId -> Wire, s: Seat, steps: seq<Step>, q: SessionId)
    requires Silenced(wire, s, q) && Runs(wire, s, steps)
    ensures Silenced(wire, After(wire, s, steps), q)
    decreases |steps|
  {
    hide Silenced;
    if steps != [] {
      StaysSilenced(wire, s, steps[0], q);
      RunStaysSilenced(wire, Next(wire, s, steps[0]), steps[1..], q);
    }
  }

  /** Once its reader could not start, the loop never sees more of a session than its connection, whatever follows. */
  lemma LostSessionsNeverEnd(wire: SessionId -> Wire, before: seq<Step>, after: seq<Step>, q: SessionId)
    requires Runs(wire, FRESH_SEAT, before) && Lost(After(wire, FRESH_SEAT, before), q)
    requires After(wire, FRESH_SEAT, before).open && Runs(wire, After(wire, FRESH_SEAT, before), after)
    ensures var s := After(wire, After(wire, FRESH_SEAT, before), after);
            && About(q, s.taken) <= [Connected(q)] && !Ends(About(q, s.taken))
            && (s.open ==> About(q, s.taken + s.inbox) == [Connected(q)])
  {
    var s := After(wire, FRESH_SEAT, before);
    FreshIsFaithful(wire);
    RunKeepsFaithful(wire, FRESH_SEAT, before);
    LostSaid(wire, s, q);
    RunStaysSilenced(wire, s, after, q);
    var end := After(wire, s, after);
    AboutPrefix(q, end.taken, end.inbox);
    if end.open {
      LostSaid(wire, end, q);
    }
  }

  lemma LostSaid(wire: SessionId -> Wire, s: Seat, q: SessionId)
    requires Faithful(wire, s) && s.open && Lost(s, q)
    ensures About(q, s.taken + s.inbox) == [Connected(q)] && Silenced(wire, s, q)
  {
    hide About;
    assert Shaped(wire, s);
    assert Sent(wire, s, q) == [Connected(q)];
  }

  /** Five steps lose a session: one connection is announced and its reader does not start. */
  lemma ASessionIsLost(wire: SessionId -> Wire, steps: seq<Step>)
    requires steps == [Accept, Send(ACCEPTOR), Swap(ACCEPTOR), Wake(ACCEPTOR), LoseReader]
    ensures Runs(wire, FRESH_SEAT, steps)
    ensures var s := After(wire, FRESH_SEAT, steps); s.open && Lost(s, 1) && s.inbox == [Connected(1)]
  {
    var accepted, sent, swapped, woken, lost := LosingSteps(wire);
    hide Next, Enabled, Lost;
    Onward(wire, woken, steps, 4);
    Onward(wire, swapped, steps, 3);
    Onward(wire, sent, steps, 2);
    Onward(wire, accepted, steps, 1);
    Onward(wire, FRESH_SEAT, steps, 0);
    assert steps[0..] == steps && steps[5..] == [];
  }

  lemma LosingSteps(wire: SessionId -> Wire) returns (accepted: Seat, sent: Seat, swapped: Seat, woken: Seat, lost: Seat)
    ensures Enabled(wire, FRESH_SEAT, Accept) && accepted == Next(wire, FRESH_SEAT, Accept)
    ensures Enabled(wire, accepted, Send(ACCEPTOR)) && sent == Next(wire, accepted, Send(ACCEPTOR))
    ensures Enabled(wire, sent, Swap(ACCEPTOR)) && swapped == Next(wire, sent, Swap(ACCEPTOR))
    ensures Enabled(wire, swapped, Wake(ACCEPTOR)) && woken == Next(wire, swapped, Wake(ACCEPTOR))
    ensures Enabled(wire, woken, LoseReader) && lost == Next(wire, woken, LoseReader)
    ensures lost.open && Lost(lost, 1) && lost.inbox == [Connected(1)]
  {
    accepted := Next(wire, FRESH_SEAT, Accept);
    sent := Next(wire, accepted, Send(ACCEPTOR));
    swapped := Next(wire, sent, Swap(ACCEPTOR));
    woken := Next(wire, swapped, Wake(ACCEPTOR));
    lost := Next(wire, woken, LoseReader);
  }

  lemma Onward(wire: SessionId -> Wire, s: Seat, steps: seq<Step>, k: nat)
    requires k < |steps| && Enabled(wire, s, steps[k]) && Runs(wire, Next(wire, s, steps[k]), steps[k + 1..])
    ensures Runs(wire, s, steps[k..]) && After(wire, s, steps[k..]) == After(wire, Next(wire, s, steps[k]), steps[k + 1..])
  {
    assert steps[k..][1..] == steps[k + 1..];
  }

  /** No session is announced twice: a second connection message never carries a used number. */
  lemma SessionsAreDistinct(wire: SessionId -> Wire, steps: seq<Step>, i: nat, j: nat)
    requires Runs(wire, FRESH_SEAT, steps)
    requires i < j < |After(wire, FRESH_SEAT, steps).taken|
    ensures var taken := After(wire, FRESH_SEAT, steps).taken;
            taken[i].Connected? && taken[j].Connected? ==> taken[i].session != taken[j].session
  {
    var taken := After(wire, FRESH_SEAT, steps).taken;
    if taken[i].Connected? && taken[j].Connected? && taken[i].session == taken[j].session {
      var q := taken[i].session;
      SessionsAreToldInOrder(wire, steps, q);
      var k := AboutKeeps(q, taken, i, j);
      StoryConnectsOnce(wire, q, |wire(q).frames| + 1);
    }
  }

  /** Two messages about a session keep their order and stay apart in what is said about it. */
  lemma {:induction false} AboutKeeps(q: SessionId, messages: seq<Message>, i: nat, j: nat) returns (k: nat)
    requires i < j < |messages| && messages[i].session == q && messages[j].session == q
    ensures 0 < k < |About(q, messages)| && About(q, messages)[k] == messages[j]
  {
    var last := |messages| - 1;
    if j < last {
      k := AboutKeeps(q, messages[..last], i, j);
    } else {
      k := |About(q, messages[..last])|;
      Mentioned(q, messages[..last], i);
    }
  }

  lemma {:induction false} Mentioned(q: SessionId, messages: seq<Message>, i: nat)
    requires i < |messages| && messages[i].session == q
    ensures About(q, messages) != []
  {
    if i < |messages| - 1 {
      Mentioned(q, messages[..|messages| - 1], i);
    }
  }

  lemma {:induction false} StoryConnectsOnce(wire: SessionId -> Wire, q: SessionId, handed: nat)
    ensures forall k :: 0 < k <= handed ==> !Told(wire, q, handed)[k].Connected?
  {
    if handed > 0 {
      StoryConnectsOnce(wire, q, handed - 1);
    }
  }

  // -------------------------------------------- the shared operations

  /** Left alone, a delivery is what `SeatContext.Deliver` does. */
  lemma UninterruptedDelivery(wire: SessionId -> Wire, s: Seat, t: nat)
    requires Enabled(wire, s, Send(t))
    ensures var sent := Next(wire, s, Send(t));
            Enabled(wire, sent, Swap(t)) &&
            var s' := Next(wire, sent, Swap(t));
            && s'.inbox == s.inbox + [s.threads[t].delivery.message] && s'.taken == s.taken
            && s'.pending && s'.calls == s.calls + (if s.pending then 0 else 1)
            && (s.pending <==> s'.threads[t].delivery.Idle?)
  {
  }

  /** Left alone, a drain is what `SeatContext.TakeInbound` does. */
  lemma {:induction false} UninterruptedDrain(wire: SessionId -> Wire, s: Seat)
    requires s.open && s.loop.Draining?
    ensures var takes := seq(|s.inbox|, _ => Take);
            Runs(wire, s, takes) && After(wire, s, takes) == s.(inbox := [], taken := s.taken + s.inbox)
    decreases |s.inbox|
  {
    if s.inbox != [] {
      var s' := Next(wire, s, Take);
      UninterruptedDrain(wire, s');
      assert seq(|s.inbox|, _ => Take)[1..] == seq(|s'.inbox|, _ => Take);
      assert s.taken + s.inbox == s'.taken + s'.inbox;
    } else {
      assert s.taken + s.inbox == s.taken;
    }
  }

  /** The parts of the seat that the threads and the loop share, with the operations they run on them. */
  class SeatContext {
    var inbox: seq<Message>
    var pending: bool
    var calls: nat

    constructor ()
      ensures inbox == [] && !pending && calls == 0
    {
      inbox, pending, calls := [], false, 0;
    }

    /** Calls the manager only if nobody has since the last drain began. */
    method Wake()
      modifies this`pending, this`calls
      ensures pending && calls == old(calls) + (if old(pending) then 0 else 1)
    {
      var was := pending;
      pending := true;
      if was {
        return;
      }
      calls := calls + 1;
    }

    /** Hands a message to the loop once there is room for it, and wakes the loop. */
    method Deliver(m: Message)
      requires |inbox| < INBOX_QUEUE
      modifies this
      ensures inbox == old(inbox) + [m]
      ensures pending && calls == old(calls) + (if old(pending) then 0 else 1)
    {
      inbox := inbox + [m];
      Wake();
    }

    /** Empties the inbox in order; a later delivery wakes the loop again. */
    method TakeInbound() returns (inbound: seq<Message>)
      modifies this`inbox, this`pending
      ensures inbound == old(inbox) && inbox == [] && !pending
    {
      pending := false;
      inbound := [];
      while inbox != []
        invariant inbound + inbox == old(inbox) && !pending
        decreases |inbox|
      {
        inbound := inbound + [inbox[0]];
        inbox := inbox[1..];
      }
    }
  }
}
