/** The policy state as the object the manager owns: each method is the operation of module AgentPolicy. */
module AgentStateObject {
  import opened Basics
  import opened EventQueue
  import opened AgentPolicy

  class AgentState {
    var sessions: map<SessionId, Session>
    var visibility: map<ClientId, Visibility>
    var generations: map<ClientId, nat>

    ghost function View(): State
      reads this
    {
      State(sessions, visibility, generations)
    }

    constructor ()
      ensures View() == State(map[], map[], map[])
    {
      sessions, visibility, generations := map[], map[], map[];
    }

    method Open(session: SessionId, grant: Grant)
      modifies this
      ensures View() == Apply(old(View()), Op.Open(session, grant))
    {
      sessions := sessions[session := Session(grant, Active, None, 0, 1)];
    }

    method Close(session: SessionId) returns (closed: bool)
      modifies this
      ensures View() == Apply(old(View()), Op.Close(session)) && closed == (session in old(sessions))
    {
      closed := session in sessions;
      sessions := sessions - {session};
    }

    method SetGrant(session: SessionId, grant: Grant) returns (found: bool)
      modifies this
      ensures View() == Apply(old(View()), Op.SetGrant(session, grant)) && found == (session in old(sessions))
    {
      found := session in sessions;
      if found {
        sessions := sessions[session := sessions[session].(grant := grant)];
      }
    }

    method IssueAction(session: SessionId) returns (action: Option<nat>)
      modifies this
      ensures View() == Apply(old(View()), Op.IssueAction(session))
      ensures action == if session in old(sessions) then Some(old(sessions[session].nextAction)) else None
    {
      if session !in sessions {
        return None;
      }
      action := Some(sessions[session].nextAction);
      sessions := sessions[session := sessions[session].(nextAction := SaturatingNext(sessions[session].nextAction))];
    }

    /** Replaces any previous subscription and its backlog. */
    method Subscribe(session: SessionId, kinds: set<EventKind>) returns (found: bool)
      modifies this
      ensures View() == Apply(old(View()), Op.Subscribe(session, kinds)) && found == (session in old(sessions))
    {
      found := session in sessions;
      if found {
        sessions := sessions[session := sessions[session].(subscription := Some(Fresh(kinds)))];
      }
    }

    /** Sets every session's status, even a revoked one's, and reports which changed. */
    method SetAllStatuses(status: Status) returns (changed: set<SessionId>)
      modifies this
      ensures View() == Apply(old(View()), SetAll(status))
      ensures changed == set id | id in old(sessions) && old(sessions)[id].status != status
    {
      changed := set id | id in sessions && sessions[id].status != status;
      var left := changed;
      ghost var start := sessions;
      while left != {}
        invariant left <= changed && sessions.Keys == start.Keys
        invariant visibility == old(visibility) && generations == old(generations)
        invariant forall id :: id in start ==>
                    sessions[id] == if id in changed && id !in left then start[id].(status := status) else start[id]
        decreases left
      {
        var id :| id in left;
        left := left - {id};
        sessions := sessions[id := sessions[id].(status := status)];
      }
      assert sessions == map id | id in start :: start[id].(status := status);
    }

    /** Stamps and queues already-built events, one at a time. */
    method PublishEvents(events: seq<(SessionId, Event)>)
      modifies this
      ensures View() == Apply(old(View()), Publish(events))
    {
      hide Push;
      ghost var start := View();
      for i := 0 to |events|
        invariant View() == PublishAll(start, events[..i])
      {
        assert events[..i + 1][..i] == events[..i];
        var (id, event) := events[i];
        if id in sessions && sessions[id].subscription.Some? {
          var session := sessions[id];
          var queued := Push(session.subscription.value, Envelope(session.sequence, event));
          sessions := sessions[id := session.(subscription := Some(queued))];
        }
      }
      assert events[..|events|] == events;
    }

    /** Advances the counter of every session that could observe a change. */
    method TouchObserversOf(subject: Option<ClientId>)
      modifies this
      ensures View() == Apply(old(View()), TouchObservers(subject))
    {
      ghost var start := View();
      var observers := set id | id in sessions && (subject.None? || PerceivesNow(id, subject.value));
      var left := observers;
      while left != {}
        invariant left <= observers && sessions.Keys == start.sessions.Keys
        invariant visibility == start.visibility && generations == start.generations
        invariant forall id :: id in start.sessions ==>
                    sessions[id] == if id in observers && id !in left
                                    then start.sessions[id].(sequence := SaturatingNext(start.sessions[id].sequence))
                                    else start.sessions[id]
        decreases left
      {
        var id :| id in left;
        left := left - {id};
        sessions := sessions[id := sessions[id].(sequence := SaturatingNext(sessions[id].sequence))];
      }
    }

    /** True exactly for the clients some world model given to the session may describe. */
    predicate PerceivesNow(session: SessionId, client: ClientId)
      reads this
      ensures PerceivesNow(session, client) <==> View().Perceives(session, client)
      ensures forall w: World ::
                Describe(View(), session, client, w).Some? <==> PerceivesNow(session, client) && client in w.managed
    {
      session in sessions && !(client in visibility && visibility[client].Hidden?) && sessions[session].grant.Covers(client)
    }

    method Pop(session: SessionId) returns (e: Option<Envelope>)
      modifies this
      ensures View() == Apply(old(View()), PopEvent(session)) && e == Popped(old(View()), session)
    {
      if session !in sessions || sessions[session].subscription.None? {
        return None;
      }
      var state := sessions[session];
      var q := state.subscription.value;
      if q.resync {
        e := Some(Envelope(state.sequence, ResyncRequired(q.dropped)));
        q := q.(resync := false, dropped := 0, queue := []);
      } else if q.queue != [] {
        e := Some(q.queue[0]);
        q := q.(queue := q.queue[1..]);
      } else {
        e := None;
      }
      sessions := sessions[session := state.(subscription := Some(q))];
    }

    method Requeue(session: SessionId, e: Envelope)
      modifies this
      ensures View() == Apply(old(View()), RequeueEvent(session, e))
    {
      if session !in sessions || sessions[session].subscription.None? {
        return;
      }
      var q := sessions[session].subscription.value;
      if e.event.ResyncRequired? {
        q := q.(resync := true, dropped := e.event.dropped);
      } else {
        q := q.(queue := [e] + q.queue);
      }
      sessions := sessions[session := sessions[session].(subscription := Some(q))];
    }

    method TakeAll(session: SessionId) returns (es: seq<Envelope>)
      modifies this
      ensures View() == Apply(old(View()), TakeEvents(session)) && es == Taken(old(View()), session)
    {
      if session !in sessions || sessions[session].subscription.None? {
        return [];
      }
      var state := sessions[session];
      var q := state.subscription.value;
      if q.resync {
        es := [Envelope(state.sequence, ResyncRequired(q.dropped))];
        q := q.(resync := false, dropped := 0, queue := []);
      } else {
        es := [];
        while q.queue != []
          invariant !q.resync && es + q.queue == state.subscription.value.queue
          invariant q.(queue := []) == state.subscription.value.(queue := [])
          invariant sessions == old(sessions) && visibility == old(visibility) && generations == old(generations)
          decreases |q.queue|
        {
          es := es + [q.queue[0]];
          q := q.(queue := q.queue[1..]);
        }
      }
      sessions := sessions[session := state.(subscription := Some(q))];
    }

    /** Ratchets a client's visibility and records it in the scopes it matches. */
    method Observe(client: ClientId, level: Visibility, inScope: set<SessionId>)
      modifies this
      ensures View() == Apply(old(View()), ObserveClient(client, level, inScope))
    {
      visibility := visibility[client := if client in visibility then MorePrivate(visibility[client], level) else level];
      if client !in generations {
        generations := generations[client := 1];
      }
      IncludeIn(client, inScope);
    }

    /** Adds a client to the scopes of the sessions it matched. */
    method IncludeIn(client: ClientId, inScope: set<SessionId>)
      modifies this`sessions
      ensures sessions == map id | id in old(sessions) ::
                            if id in inScope then old(sessions)[id].(grant := old(sessions)[id].grant.Include(client)) else old(sessions)[id]
    {
      ghost var start := sessions;
      var matching := set id | id in sessions && id in inScope;
      var left := matching;
      while left != {}
        invariant left <= matching && sessions.Keys == start.Keys
        invariant forall id :: id in start ==>
                    sessions[id] == if id in matching && id !in left
                                    then start[id].(grant := start[id].grant.Include(client))
                                    else start[id]
        decreases left
      {
        var id :| id in left;
        left := left - {id};
        sessions := sessions[id := sessions[id].(grant := sessions[id].grant.Include(client))];
      }
    }

    method Forget(client: ClientId)
      modifies this
      ensures View() == Apply(old(View()), ForgetClient(client))
    {
      visibility := visibility - {client};
      generations := generations - {client};
      sessions := map id | id in sessions :: sessions[id].(grant := sessions[id].grant.Forget(client));
    }

    method Touch(client: ClientId) returns (generation: nat)
      modifies this
      ensures View() == Apply(old(View()), Op.Touch(client)) && generation == generations[client]
    {
      generation := if client in generations then SaturatingNext(generations[client]) else 1;
      generations := generations[client := generation];
    }
  }
}
