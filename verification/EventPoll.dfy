/**
 The companion's side of a session: calls and polls read the same stream, and events that arrive
 during a call are buffered for the next poll.
 */
module EventPoll {
  import opened Basics

  const MAX_BUFFERED_EVENTS: nat := 4096

  datatype Envelope = Envelope(sequence: nat, event: nat)

  datatype ServerMessage =
    | Response(id: nat, outcome: nat)
    | Event(envelope: Envelope)
    | Welcome
    | Goodbye

  // ------------------------------------------------- filters by cursor

  function After(events: seq<Envelope>, cursor: nat): (later: seq<Envelope>)
    ensures forall e :: e in later <==> e in events && e.sequence > cursor
  {
    if events == [] then []
    else After(events[..|events| - 1], cursor)
         + (if events[|events| - 1].sequence > cursor then [events[|events| - 1]] else [])
  }

  function UpTo(events: seq<Envelope>, cursor: nat): (earlier: seq<Envelope>)
    ensures forall e :: e in earlier <==> e in events && e.sequence <= cursor
    ensures |earlier| <= |events|
  {
    if events == [] then []
    else UpTo(events[..|events| - 1], cursor)
         + (if events[|events| - 1].sequence <= cursor then [events[|events| - 1]] else [])
  }

  // ------------------------------------------------- the session as a value

  /** What is buffered, what is still to arrive, every event buffered so far and how many were evicted. */
  datatype Desk = Desk(events: seq<Envelope>, arrivals: seq<ServerMessage>, received: seq<Envelope>, evicted: nat)

  function Buffered(d: Desk, e: Envelope): (d': Desk)
  {
    var full := |d.events| >= MAX_BUFFERED_EVENTS;
    d.(events := (if full then d.events[1..] else d.events) + [e],
       received := d.received + [e],
       evicted := d.evicted + (if full then 1 else 0))
  }

  /** Reads until the answer to request `id`, buffering events on the way. */
  function CallOn(d: Desk, id: nat): (r: (Desk, Result<nat>))
    decreases |d.arrivals|
  {
    if d.arrivals == [] then (d, Err)
    else
      var rest := d.(arrivals := d.arrivals[1..]);
      match d.arrivals[0]
      case Response(answered, outcome) => if answered == id then (rest, Ok(outcome)) else CallOn(rest, id)
      case Event(e) => CallOn(Buffered(rest, e), id)
      case Welcome => (rest, Err)
      case Goodbye => (rest, Err)
  }

  /** Answers with what is buffered after the cursor, waiting for at most `patience` frames to find any. */
  function PollOn(d: Desk, cursor: nat, patience: nat): (r: (Desk, Result<seq<Envelope>>))
    decreases patience
  {
    var ready := After(d.events, cursor);
    if ready != [] then (d.(events := UpTo(d.events, cursor)), Ok(ready))
    else if patience == 0 then (d, Ok([]))
    else if d.arrivals == [] then (d, Err)
    else
      var rest := d.(arrivals := d.arrivals[1..]);
      match d.arrivals[0]
      case Event(e) => PollOn(Buffered(rest, e), cursor, patience - 1)
      case Goodbye => (rest, Err)
      case _ => PollOn(rest, cursor, patience - 1)
  }

  // --------------------------------------------------------- the client

  class Seat {
    var events: seq<Envelope>
    var nextRequest: nat
    var arrivals: seq<ServerMessage>
    ghost var received: seq<Envelope>
    ghost var evicted: nat

    ghost function View(): Desk
      reads this
    {
      Desk(events, arrivals, received, evicted)
    }

    constructor (arrivals: seq<ServerMessage>)
      ensures View() == Desk([], arrivals, [], 0) && nextRequest == 1
    {
      events, nextRequest, this.arrivals := [], 1, arrivals;
      received, evicted := [], 0;
    }

    method Buffer(e: Envelope)
      modifies this`events, this`received, this`evicted
      ensures View() == Buffered(old(View()), e)
    {
      if |events| >= MAX_BUFFERED_EVENTS {
        events := events[1..];
        evicted := evicted + 1;
      }
      events := events + [e];
      received := received + [e];
    }

    method Receive() returns (message: Result<ServerMessage>)
      modifies this`arrivals
      ensures old(arrivals) == [] ==> message == Err && arrivals == []
      ensures old(arrivals) != [] ==> message == Ok(old(arrivals)[0]) && arrivals == old(arrivals)[1..]
    {
      if arrivals == [] {
        return Err;
      }
      message := Ok(arrivals[0]);
      arrivals := arrivals[1..];
    }

    /** One request and its answer. */
    method Call() returns (outcome: Result<nat>)
      modifies this
      ensures (View(), outcome) == CallOn(old(View()), old(nextRequest)) && nextRequest == old(nextRequest) + 1
    {
      var id := nextRequest;
      nextRequest := nextRequest + 1;
      while true
        invariant nextRequest == old(nextRequest) + 1
        invariant CallOn(View(), id) == CallOn(old(View()), old(nextRequest))
        decreases |arrivals|
      {
        var message := Receive();
        if message.Err? {
          return Err;
        }
        match message.value {
          case Response(answered, result) =>
            if answered == id {
              return Ok(result);
            }
          case Event(e) =>
            Buffer(e);
          case Welcome =>
            return Err;
          case Goodbye =>
            return Err;
        }
      }
    }

    /** Splits the buffer at a cursor, as the poll filters and then retains it. */
    method Split(cursor: nat) returns (ready: seq<Envelope>, kept: seq<Envelope>)
      ensures ready == After(events, cursor) && kept == UpTo(events, cursor)
    {
      ready, kept := [], [];
      for i := 0 to |events|
        invariant ready == After(events[..i], cursor) && kept == UpTo(events[..i], cursor)
      {
        assert events[..i + 1][..i] == events[..i];
        if events[i].sequence > cursor {
          ready := ready + [events[i]];
        } else {
          kept := kept + [events[i]];
        }
      }
      assert events[..|events|] == events;
    }

    method PollEvents(cursor: nat, patience: nat) returns (ready: Result<seq<Envelope>>)
      modifies this
      ensures (View(), ready) == PollOn(old(View()), cursor, patience) && nextRequest == old(nextRequest)
    {
      hide After, UpTo;
      var left: nat := patience;
      while true
        invariant left <= patience && nextRequest == old(nextRequest)
        invariant PollOn(View(), cursor, left) == PollOn(old(View()), cursor, patience)
        decreases left
      {
        var found, kept := Split(cursor);
        if found != [] {
          events := kept;
          return Ok(found);
        }
        if left == 0 {
          return Ok([]);
        }
        var message := Receive();
        if message.Err? {
          return Err;
        }
        match message.value {
          case Event(e) =>
            Buffer(e);
          case Goodbye =>
            return Err;
          case _ =>
        }
        left := left - 1;
      }
    }
  }

  // ------------------------------------------------------- exactly once

  ghost predicate Ascending(events: seq<Envelope>)
  {
    forall i, j :: 0 <= i < j < |events| ==> events[i].sequence < events[j].sequence
  }

  function Events(arrivals: seq<ServerMessage>): (events: seq<Envelope>)
  {
    if arrivals == [] then []
    else (if arrivals[0].Event? then [arrivals[0].envelope] else []) + Events(arrivals[1..])
  }

  /** A session in use: the agent's cursor and everything its polls have returned. */
  datatype Use = Use(desk: Desk, cursor: nat, delivered: seq<Envelope>)

  datatype Action = Call(id: nat) | Poll(patience: nat)

  /** The agent polls from the highest sequence it was given. */
  function Act(u: Use, action: Action): (u': Use)
  {
    match action
    case Call(id) => u.(desk := CallOn(u.desk, id).0)
    case Poll(patience) =>
      var (desk, ready) := PollOn(u.desk, u.cursor, patience);
      if ready.Err? || ready.value == [] then u.(desk := desk)
      else Use(desk, ready.value[|ready.value| - 1].sequence, u.delivered + ready.value)
  }

  function Acts(u: Use, actions: seq<Action>): (u': Use)
    decreases |actions|
  {
    if actions == [] then u else Acts(Act(u, actions[0]), actions[1..])
  }

  /** Everything received and everything still to come is stamped in order. */
  ghost predicate InOrder(d: Desk)
  {
    Ascending(d.received + Events(d.arrivals))
  }

  /** Nothing after the first cursor is lost, repeated or reordered. */
  ghost predicate Exact(u: Use, first: nat)
  {
    && u.delivered + After(u.desk.events, u.cursor) == After(u.desk.received, first)
    && (u.cursor == first || exists e :: e in u.desk.received && u.cursor == e.sequence && first <= e.sequence)
    && (forall e :: e in u.desk.events ==> e in u.desk.received)
    && |u.desk.events| <= MAX_BUFFERED_EVENTS
  }

  lemma AfterOneMore(events: seq<Envelope>, e: Envelope, cursor: nat)
    ensures After(events + [e], cursor) == After(events, cursor) + (if e.sequence > cursor then [e] else [])
  {
    assert (events + [e])[..|events|] == events;
  }

  lemma {:induction false} NothingAfter(events: seq<Envelope>, cursor: nat)
    requires forall e :: e in events ==> e.sequence <= cursor
    ensures After(events, cursor) == []
  {
    if events != [] {
      NothingAfter(events[..|events| - 1], cursor);
    }
  }

  /** Buffering an event keeps the account, as long as nothing had to be evicted for it. */
  lemma BufferKeeps(u: Use, first: nat, e: Envelope)
    requires Exact(u, first) && |u.desk.events| < MAX_BUFFERED_EVENTS
    requires forall r :: r in u.desk.received ==> r.sequence < e.sequence
    ensures Exact(u.(desk := Buffered(u.desk, e)), first)
  {
    hide After;
    AfterOneMore(u.desk.events, e, u.cursor);
    AfterOneMore(u.desk.received, e, first);
    assert e in u.desk.received + [e];
    assert forall r :: r in u.desk.received ==> r in u.desk.received + [e];
  }

  /** Reading one frame that is buffered if it is an event and passed over otherwise. */
  function Arrived(d: Desk): (d': Desk)
    requires d.arrivals != []
  {
    var rest := d.(arrivals := d.arrivals[1..]);
    if d.arrivals[0].Event? then Buffered(rest, d.arrivals[0].envelope) else rest
  }

  lemma ArrivalStaysInOrder(d: Desk)
    requires InOrder(d) && d.arrivals != []
    ensures InOrder(Arrived(d))
    ensures d.arrivals[0].Event? ==> forall r :: r in d.received ==> r.sequence < d.arrivals[0].envelope.sequence
  {
    var all := d.received + Events(d.arrivals);
    if d.arrivals[0].Event? {
      var e := d.arrivals[0].envelope;
      assert all == (d.received + [e]) + Events(d.arrivals[1..]);
      assert all[|d.received|] == e;
      forall r | r in d.received ensures r.sequence < e.sequence {
        var i :| 0 <= i < |d.received| && d.received[i] == r;
        assert all[i] == r;
      }
    } else {
      assert all == d.received + Events(d.arrivals[1..]);
    }
  }

  lemma ArrivalKeeps(u: Use, first: nat)
    requires Exact(u, first) && InOrder(u.desk) && u.desk.arrivals != []
    requires Arrived(u.desk).evicted == u.desk.evicted
    ensures Exact(u.(desk := Arrived(u.desk)), first)
  {
    ArrivalStaysInOrder(u.desk);
    hide After;
    if u.desk.arrivals[0].Event? {
      var rest := u.(desk := u.desk.(arrivals := u.desk.arrivals[1..]));
      assert Exact(rest, first);
      BufferKeeps(rest, first, u.desk.arrivals[0].envelope);
    }
  }

  lemma {:induction false} CallStaysInOrder(d: Desk, id: nat)
    requires InOrder(d)
    ensures d.evicted <= CallOn(d, id).0.evicted && InOrder(CallOn(d, id).0)
    decreases |d.arrivals|
  {
    hide InOrder;
    if d.arrivals != [] {
      ArrivalStaysInOrder(d);
      CallStaysInOrder(Arrived(d), id);
    }
  }

  lemma {:induction false} CallKeeps(u: Use, first: nat, id: nat)
    requires Exact(u, first) && InOrder(u.desk) && CallOn(u.desk, id).0.evicted == u.desk.evicted
    ensures Exact(u.(desk := CallOn(u.desk, id).0), first)
    decreases |u.desk.arrivals|
  {
    hide InOrder, Exact;
    if u.desk.arrivals != [] {
      var d' := Arrived(u.desk);
      ArrivalStaysInOrder(u.desk);
      CallStaysInOrder(d', id);
      ArrivalKeeps(u, first);
      var next := u.desk.arrivals[0];
      if next.Event? || (next.Response? && next.id != id) {
        CallKeeps(u.(desk := d'), first, id);
      } else {
        assert CallOn(u.desk, id).0 == d';
      }
    }
  }

  lemma {:induction false} PollStaysInOrder(d: Desk, cursor: nat, patience: nat)
    requires InOrder(d)
    ensures d.evicted <= PollOn(d, cursor, patience).0.evicted && InOrder(PollOn(d, cursor, patience).0)
    decreases patience
  {
    hide After, UpTo;
    if After(d.events, cursor) == [] && patience > 0 && d.arrivals != [] {
      ArrivalStaysInOrder(d);
      PollStaysInOrder(Arrived(d), cursor, patience - 1);
    }
  }

  /** Returning what is after the cursor moves it from the buffer to the agent. */
  lemma ReturningKeeps(u: Use, first: nat)
    requires Exact(u, first) && After(u.desk.events, u.cursor) != []
    ensures var ready := After(u.desk.events, u.cursor);
            Exact(Use(u.desk.(events := UpTo(u.desk.events, u.cursor)), ready[|ready| - 1].sequence, u.delivered + ready), first)
  {
    var ready := After(u.desk.events, u.cursor);
    var last := ready[|ready| - 1];
    assert last in ready;
    NothingAfter(UpTo(u.desk.events, u.cursor), last.sequence);
    hide After, UpTo;
    assert u.delivered + ready + [] == u.delivered + ready;
  }

  lemma {:induction false} PollKeeps(u: Use, first: nat, patience: nat)
    requires Exact(u, first) && InOrder(u.desk) && PollOn(u.desk, u.cursor, patience).0.evicted == u.desk.evicted
    ensures Exact(Act(u, Poll(patience)), first)
    decreases patience
  {
    hide After, UpTo, InOrder, Exact;
    if After(u.desk.events, u.cursor) != [] {
      ReturningKeeps(u, first);
    } else if patience > 0 && u.desk.arrivals != [] {
      var d' := Arrived(u.desk);
      ArrivalStaysInOrder(u.desk);
      PollStaysInOrder(d', u.cursor, patience - 1);
      ArrivalKeeps(u, first);
      if u.desk.arrivals[0].Goodbye? {
        assert Act(u, Poll(patience)) == u.(desk := d');
      } else {
        PollKeeps(u.(desk := d'), first, patience - 1);
      }
    }
  }

  lemma ActStaysInOrder(u: Use, action: Action)
    requires InOrder(u.desk)
    ensures u.desk.evicted <= Act(u, action).desk.evicted && InOrder(Act(u, action).desk)
  {
    hide After, UpTo, InOrder;
    match action
    case Call(id) => CallStaysInOrder(u.desk, id);
    case Poll(patience) => PollStaysInOrder(u.desk, u.cursor, patience);
  }

  lemma {:induction false} ActsStayInOrder(u: Use, actions: seq<Action>)
    requires InOrder(u.desk)
    ensures u.desk.evicted <= Acts(u, actions).desk.evicted
    decreases |actions|
  {
    hide InOrder;
    if actions != [] {
      ActStaysInOrder(u, actions[0]);
      ActsStayInOrder(Act(u, actions[0]), actions[1..]);
    }
  }

  /**
   However calls and polls interleave, and wherever calls fail or polls come back empty: while nothing
   overflowed, what the polls returned and what a poll would return now are the events received after
   the first cursor, each once and in arrival order.
   */
  lemma {:induction false} PollingIsExactlyOnce(u: Use, first: nat, actions: seq<Action>)
    requires Exact(u, first) && InOrder(u.desk) && Acts(u, actions).desk.evicted == u.desk.evicted
    ensures Exact(Acts(u, actions), first)
    decreases |actions|
  {
    hide InOrder, Exact;
    if actions != [] {
      var u' := Act(u, actions[0]);
      ActStaysInOrder(u, actions[0]);
      ActsStayInOrder(u', actions[1..]);
      assert u'.desk.evicted == u.desk.evicted;
      match actions[0] {
        case Call(id) => CallKeeps(u, first, id);
        case Poll(patience) => PollKeeps(u, first, patience);
      }
      PollingIsExactlyOnce(u', first, actions[1..]);
    }
  }

  /** A fresh session starts with nothing owed, whatever cursor the agent brings. */
  lemma FreshSessionIsExact(arrivals: seq<ServerMessage>, first: nat)
    ensures Exact(Use(Desk([], arrivals, [], 0), first, []), first)
  {
  }

  /** A frame a call passes over on the way to its own answer. */
  predicate Passed(message: ServerMessage, id: nat)
  {
    message.Event? || (message.Response? && message.id != id)
  }

  function FirstStop(arrivals: seq<ServerMessage>, id: nat): (k: nat)
    ensures k <= |arrivals| && (forall j :: 0 <= j < k ==> Passed(arrivals[j], id))
    ensures k < |arrivals| ==> !Passed(arrivals[k], id)
  {
    if arrivals == [] || !Passed(arrivals[0], id) then 0 else 1 + FirstStop(arrivals[1..], id)
  }

  /**
   A call stops at the first frame it does not pass over, answers exactly when that is the response to
   its own request, has buffered the events before it and left everything after it unread.
   */
  lemma {:induction false} CallAnswersItsOwnRequest(d: Desk, id: nat)
    ensures var k := FirstStop(d.arrivals, id);
            var (d', r) := CallOn(d, id);
            && r == (if k < |d.arrivals| && d.arrivals[k].Response? then Ok(d.arrivals[k].outcome) else Err)
            && d'.received == d.received + Events(d.arrivals[..k])
            && d'.arrivals == (if k < |d.arrivals| then d.arrivals[k + 1..] else [])
    decreases |d.arrivals|
  {
    var k := FirstStop(d.arrivals, id);
    if k == 0 {
      assert d.arrivals[..0] == [];
      assert d.received + [] == d.received;
    } else {
      hide FirstStop;
      assert k == 1 + FirstStop(d.arrivals[1..], id);
      CallAnswersItsOwnRequest(Arrived(d), id);
      assert d.arrivals[..k][1..] == d.arrivals[1..][..k - 1];
      if d.arrivals[0].Event? {
        var e := d.arrivals[0].envelope;
        var later := Events(d.arrivals[1..][..k - 1]);
        assert (d.received + [e]) + later == d.received + ([e] + later);
      }
    }
  }

  /** A poll leaves nothing after its cursor behind, and comes back empty only after all its patience. */
  lemma {:induction false} PollLeavesNothingBehind(d: Desk, cursor: nat, patience: nat)
    ensures var (d', ready) := PollOn(d, cursor, patience);
            ready.Ok? ==>
              && After(d'.events, cursor) == []
              && (forall e :: e in ready.value ==> e.sequence > cursor)
              && (ready.value == [] ==> patience <= |d.arrivals| && d'.arrivals == d.arrivals[patience..])
    decreases patience
  {
    if After(d.events, cursor) != [] {
      NothingAfter(UpTo(d.events, cursor), cursor);
    } else if patience > 0 && d.arrivals != [] && !d.arrivals[0].Goodbye? {
      hide After;
      PollLeavesNothingBehind(Arrived(d), cursor, patience - 1);
      assert patience <= |d.arrivals| ==> d.arrivals[1..][patience - 1..] == d.arrivals[patience..];
    }
  }

  /** The buffer is bounded whatever arrives. */
  lemma {:induction false} BufferStaysBounded(u: Use, actions: seq<Action>)
    requires |u.desk.events| <= MAX_BUFFERED_EVENTS
    ensures |Acts(u, actions).desk.events| <= MAX_BUFFERED_EVENTS
    decreases |actions|
  {
    hide After;
    if actions != [] {
      match actions[0] {
        case Call(id) => CallStaysBounded(u.desk, id);
        case Poll(patience) => PollStaysBounded(u.desk, u.cursor, patience);
      }
      BufferStaysBounded(Act(u, actions[0]), actions[1..]);
    }
  }

  lemma {:induction false} CallStaysBounded(d: Desk, id: nat)
    requires |d.events| <= MAX_BUFFERED_EVENTS
    ensures |CallOn(d, id).0.events| <= MAX_BUFFERED_EVENTS
    decreases |d.arrivals|
  {
    if d.arrivals != [] {
      CallStaysBounded(Arrived(d), id);
    }
  }

  lemma {:induction false} PollStaysBounded(d: Desk, cursor: nat, patience: nat)
    requires |d.events| <= MAX_BUFFERED_EVENTS
    ensures |PollOn(d, cursor, patience).0.events| <= MAX_BUFFERED_EVENTS
    decreases patience
  {
    hide After;
    if patience > 0 && d.arrivals != [] {
      PollStaysBounded(Arrived(d), cursor, patience - 1);
    }
  }

  // ------------------------------------------------- what a poll answers

  /** Exactly the events after the cursor, in the order they were buffered. */
  ghost predicate PicksLater(events: seq<Envelope>, cursor: nat, later: seq<Envelope>, at: seq<nat>)
  {
    PickedAt(later, events, at) && forall k :: 0 <= k < |events| ==> (k in at <==> events[k].sequence > cursor)
  }

  lemma {:induction false} AfterKeepsOrder(events: seq<Envelope>, cursor: nat) returns (at: seq<nat>)
    ensures PicksLater(events, cursor, After(events, cursor), at)
  {
    if events == [] {
      return [];
    }
    var last := |events| - 1;
    var before := AfterKeepsOrder(events[..last], cursor);
    at := if events[last].sequence > cursor then before + [last] else before;
    PickLast(events, cursor, After(events[..last], cursor), before);
  }

  lemma PickLast(events: seq<Envelope>, cursor: nat, later: seq<Envelope>, at: seq<nat>)
    requires events != [] && PicksLater(events[..|events| - 1], cursor, later, at)
    ensures var last := |events| - 1;
            if events[last].sequence > cursor then PicksLater(events, cursor, later + [events[last]], at + [last])
            else PicksLater(events, cursor, later, at)
  {
    var last := |events| - 1;
    var front := events[..last];
    assert last !in at;
    forall k | 0 <= k < last ensures k in at <==> events[k].sequence > cursor {
      assert k in at <==> front[k].sequence > cursor;
    }
    var longer := at + [last];
    assert forall k :: k in longer <==> k in at || k == last;
  }

  /** The frame neither ends a poll nor carries anything it waits for. */
  predicate Quiet(message: ServerMessage, cursor: nat)
  {
    !message.Goodbye? && (message.Event? ==> message.envelope.sequence <= cursor)
  }

  ghost predicate QuietUntil(arrivals: seq<ServerMessage>, cursor: nat, n: nat)
  {
    n <= |arrivals| && forall k :: 0 <= k < n ==> Quiet(arrivals[k], cursor)
  }

  /**
   With nothing buffered after the cursor, the first frame that is not quiet decides: an event is the answer by
   itself and a goodbye is an error. Patience running out is an empty answer, the stream running out an error.
   */
  lemma {:induction false} PollAnswersExactly(d: Desk, cursor: nat, patience: nat, n: nat)
    requires forall e :: e in d.events ==> e.sequence <= cursor
    requires n <= patience && QuietUntil(d.arrivals, cursor, n)
    ensures var answer := PollOn(d, cursor, patience).1;
            && (n == patience ==> answer == Ok([]))
            && (n < patience && n == |d.arrivals| ==> answer == Err)
            && (n < patience && n < |d.arrivals| && d.arrivals[n].Goodbye? ==> answer == Err)
            && (n < patience && n < |d.arrivals| && d.arrivals[n].Event? && d.arrivals[n].envelope.sequence > cursor ==>
                  answer == Ok([d.arrivals[n].envelope]))
    decreases patience
  {
    PollStep(d, cursor, patience);
    hide PollOn, Buffered, Quiet;
    if n > 0 {
      assert Quiet(d.arrivals[0], cursor);
      var next := Arrived(d);
      QuietFrame(d, cursor);
      assert QuietUntil(next.arrivals, cursor, n - 1);
      PollAnswersExactly(next, cursor, patience - 1, n - 1);
    }
  }

  lemma QuietFrame(d: Desk, cursor: nat)
    requires d.arrivals != [] && Quiet(d.arrivals[0], cursor) && forall e :: e in d.events ==> e.sequence <= cursor
    ensures forall e :: e in Arrived(d).events ==> e.sequence <= cursor
  {
  }

  /** One look at the stream when nothing buffered is after the cursor. */
  lemma PollStep(d: Desk, cursor: nat, patience: nat)
    requires forall e :: e in d.events ==> e.sequence <= cursor
    ensures var answer := PollOn(d, cursor, patience).1;
            && (patience == 0 ==> answer == Ok([]))
            && (patience > 0 && d.arrivals == [] ==> answer == Err)
            && (patience > 0 && d.arrivals != [] ==>
                  var first := d.arrivals[0];
                  && (first.Goodbye? ==> answer == Err)
                  && (first.Event? && first.envelope.sequence > cursor ==> answer == Ok([first.envelope]))
                  && (Quiet(first, cursor) ==> answer == PollOn(Arrived(d), cursor, patience - 1).1))
  {
    NothingLater(d.events, cursor);
    if patience > 0 && d.arrivals != [] && d.arrivals[0].Event? && d.arrivals[0].envelope.sequence > cursor {
      OnlyLastLater(d.(arrivals := d.arrivals[1..]), d.arrivals[0].envelope, cursor);
    }
    hide After, UpTo, Buffered;
  }

  lemma {:induction false} NothingLater(events: seq<Envelope>, cursor: nat)
    requires forall e :: e in events ==> e.sequence <= cursor
    ensures After(events, cursor) == []
  {
    if events != [] {
      NothingLater(events[..|events| - 1], cursor);
    }
  }

  lemma OnlyLastLater(d: Desk, e: Envelope, cursor: nat)
    requires (forall e :: e in d.events ==> e.sequence <= cursor) && e.sequence > cursor
    ensures After(Buffered(d, e).events, cursor) == [e]
  {
    var kept := if |d.events| >= MAX_BUFFERED_EVENTS then d.events[1..] else d.events;
    NothingLater(kept, cursor);
    assert (kept + [e])[..|kept|] == kept;
  }
}
