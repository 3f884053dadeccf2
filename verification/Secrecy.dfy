/**
 What one session can learn from whole runs: two runs that differ only in secret clients, in whether they
 exist as well as in what they do, give it the same sequence, the same events and the same world model.
 */
module Secrecy {
  import opened Basics
  import opened EventQueue
  import opened AgentPolicy
  import opened Noninterference

  // -------------------------------------------- agreement apart from secrets

  ghost predicate AgreesOn(a: State, b: State, id: SessionId, c: ClientId)
  {
    (a.Perceives(id, c) <==> b.Perceives(id, c)) && (a.Perceives(id, c) ==> SameClient(a, b, c))
  }

  /** The same session record, and agreement on every client that is not secret. */
  ghost predicate SameApart(a: State, b: State, id: SessionId, h: set<ClientId>)
  {
    && (id in a.sessions <==> id in b.sessions)
    && (id in a.sessions ==> SameSession(a.sessions[id], b.sessions[id]))
    && forall c :: c !in h ==> AgreesOn(a, b, id, c)
  }

  /** What one run may do alone: what the session cannot notice, and anything at all with a secret client it does not perceive. */
  predicate Alone(s: State, op: Op, id: SessionId, h: set<ClientId>)
  {
    || Unseen(s, op, id)
    || (Subject(op).Some? && Subject(op).value in h && (op.TouchObservers? ==> !s.Perceives(id, Subject(op).value)))
  }

  /** The grant covers no client, secrets apart, that the states show differently. */
  ghost predicate CoveredAlikeApart(a: State, b: State, grant: Grant, h: set<ClientId>)
  {
    forall c :: c !in h && grant.Covers(c) ==>
      || (a.VisibilityOf(c).Hidden? && b.VisibilityOf(c).Hidden?)
      || (!a.VisibilityOf(c).Hidden? && !b.VisibilityOf(c).Hidden? && SameClient(a, b, c))
  }

  /** What both runs may do: an operation whose effect on the session, secrets apart, is the same from either state. */
  ghost predicate ForeseenApart(a: State, b: State, op: Op, id: SessionId, h: set<ClientId>)
  {
    match op
    case ObserveClient(client, _, _) => client in h || Foreseen(a, b, op, id)
    case TouchObservers(subject) =>
      subject.Some? && subject.value in h ==> (a.Perceives(id, subject.value) <==> b.Perceives(id, subject.value))
    case Open(session, grant) => session == id ==> CoveredAlikeApart(a, b, grant, h)
    case SetGrant(session, grant) => session == id && id in a.sessions ==> CoveredAlikeApart(a, b, grant, h)
    case _ => true
  }

  lemma SameViewIsSameApart(a: State, b: State, id: SessionId, h: set<ClientId>)
    requires SameView(a, b, id)
    ensures SameApart(a, b, id, h)
  {
  }

  lemma SameApartChains(a: State, b: State, c: State, id: SessionId, h: set<ClientId>)
    requires SameApart(a, b, id, h) && SameApart(b, c, id, h)
    ensures SameApart(a, c, id, h)
  {
    forall k | k !in h ensures AgreesOn(a, c, id, k) {
      assert AgreesOn(a, b, id, k) && AgreesOn(b, c, id, k);
    }
  }

  lemma SameApartIsSymmetric(a: State, b: State, id: SessionId, h: set<ClientId>)
    requires SameApart(a, b, id, h)
    ensures SameApart(b, a, id, h)
  {
    forall k | k !in h ensures AgreesOn(b, a, id, k) {
      assert AgreesOn(a, b, id, k);
    }
  }

  /** A turn one run takes alone changes nothing but secrets. */
  lemma AloneKeepsApart(s: State, op: Op, id: SessionId, h: set<ClientId>)
    requires Alone(s, op, id, h)
    ensures SameApart(s, Apply(s, op), id, h)
  {
    if Unseen(s, op, id) {
      UnseenKeepsView(s, op, id);
      hide Apply, SameView;
      SameViewIsSameApart(s, Apply(s, op), id, h);
    }
  }

  lemma {:induction false} PublishKeepsSameSession(a: State, b: State, events: seq<(SessionId, Event)>, id: SessionId)
    requires (id in a.sessions <==> id in b.sessions) && (id in a.sessions ==> SameSession(a.sessions[id], b.sessions[id]))
    ensures var a', b' := PublishAll(a, events), PublishAll(b, events);
            (id in a'.sessions <==> id in b'.sessions) && (id in a'.sessions ==> SameSession(a'.sessions[id], b'.sessions[id]))
  {
    hide Push;
    if events != [] {
      PublishKeepsSameSession(a, b, events[..|events| - 1], id);
    }
  }

  lemma ObservingKeepsAgreement(a: State, b: State, op: Op, id: SessionId, c: ClientId)
    requires op.ObserveClient? && AgreesOn(a, b, id, c) && (id in a.sessions <==> id in b.sessions)
    requires id in a.sessions ==> SameSession(a.sessions[id], b.sessions[id])
    requires c == op.client ==> Foreseen(a, b, op, id)
    ensures AgreesOn(Apply(a, op), Apply(b, op), id, c)
  {
    if !a.Perceives(id, op.client) && !b.Perceives(id, op.client) {
      ObservingUncovers(a, op.client, op.level, op.inScope, id);
      ObservingUncovers(b, op.client, op.level, op.inScope, id);
    }
    hide SameSession;
  }

  lemma GrantingKeepsAgreement(a: State, b: State, op: Op, grant: Grant, id: SessionId, h: set<ClientId>, c: ClientId)
    requires op == Open(id, grant) || (op == SetGrant(id, grant) && id in a.sessions && id in b.sessions)
    requires c !in h && CoveredAlikeApart(a, b, grant, h)
    ensures AgreesOn(Apply(a, op), Apply(b, op), id, c)
  {
    var a', b' := Apply(a, op), Apply(b, op);
    assert a'.Perceives(id, c) <==> !a.VisibilityOf(c).Hidden? && grant.Covers(c);
    assert b'.Perceives(id, c) <==> !b.VisibilityOf(c).Hidden? && grant.Covers(c);
    assert SameClient(a', b', c) <==> SameClient(a, b, c);
  }

  lemma ForgettingKeepsAgreement(a: State, b: State, client: ClientId, id: SessionId, c: ClientId)
    requires AgreesOn(a, b, id, c) && (id in a.sessions <==> id in b.sessions)
    requires id in a.sessions ==> SameSession(a.sessions[id], b.sessions[id])
    ensures AgreesOn(Apply(a, ForgetClient(client)), Apply(b, ForgetClient(client)), id, c)
  {
  }

  lemma TouchingKeepsAgreement(a: State, b: State, client: ClientId, id: SessionId, c: ClientId)
    requires AgreesOn(a, b, id, c)
    ensures AgreesOn(Apply(a, Touch(client)), Apply(b, Touch(client)), id, c)
  {
    if a.Perceives(id, c) {
      TouchAgrees(a, b, client, c);
    }
  }

  /** The other operations leave perception as it is. */
  lemma QuietKeepsAgreement(a: State, b: State, op: Op, id: SessionId, c: ClientId)
    requires AgreesOn(a, b, id, c)
    requires !MovesPerception(op, id) && !op.ForgetClient? && !op.Touch? && (op.Close? ==> op.session != id)
    ensures AgreesOn(Apply(a, op), Apply(b, op), id, c)
  {
    if op.Publish? {
      PublishNamesNoClient(a, op.events);
      PublishNamesNoClient(b, op.events);
    } else {
      PerceptionUnmoved(a, op, id);
      PerceptionUnmoved(b, op, id);
      hide Apply;
    }
  }

  /** Whatever operation both runs take, agreement on a client that is not secret survives it when that was foreseen. */
  lemma ClientStaysAgreed(a: State, b: State, op: Op, id: SessionId, h: set<ClientId>, c: ClientId)
    requires SameApart(a, b, id, h) && c !in h && ForeseenApart(a, b, op, id, h)
    ensures AgreesOn(Apply(a, op), Apply(b, op), id, c)
  {
    assert AgreesOn(a, b, id, c);
    if op.ObserveClient? {
      ObservingKeepsAgreement(a, b, op, id, c);
    } else if (op.Open? || op.SetGrant?) && op.session == id {
      if op.Open? || id in a.sessions {
        GrantingKeepsAgreement(a, b, op, op.grant, id, h, c);
      }
    } else if op.ForgetClient? {
      ForgettingKeepsAgreement(a, b, op.client, id, c);
    } else if op.Touch? {
      TouchingKeepsAgreement(a, b, op.client, id, c);
    } else if op != Close(id) {
      QuietKeepsAgreement(a, b, op, id, c);
    }
    hide SameClient, SameSession, Foreseen, CoveredAlikeApart;
  }

  /** An operation both runs take keeps them alike, secrets apart, when that was foreseen. */
  lemma CommonKeepsApart(a: State, b: State, op: Op, id: SessionId, h: set<ClientId>)
    requires SameApart(a, b, id, h) && ForeseenApart(a, b, op, id, h)
    ensures SameApart(Apply(a, op), Apply(b, op), id, h)
  {
    forall c | c !in h ensures AgreesOn(Apply(a, op), Apply(b, op), id, c) {
      ClientStaysAgreed(a, b, op, id, h, c);
    }
    if op.Publish? {
      PublishKeepsSameSession(a, b, op.events, id);
    } else {
      if op.TouchObservers? && op.subject.Some? && op.subject.value !in h {
        assert AgreesOn(a, b, id, op.subject.value);
      }
      hide Apply, SameSession;
      CommonKeepsSession(a, b, op, id);
    }
  }

  // ------------------------------------------------------- paired runs

  /** One turn of two runs side by side. */
  datatype Turn = Both(op: Op) | OnlyLeft(op: Op) | OnlyRight(op: Op)

  /** What the turn hands the session's transport. */
  function Handed(s: State, op: Op, id: SessionId): (es: seq<Envelope>)
  {
    if op == PopEvent(id) then (if Popped(s, id).Some? then [Popped(s, id).value] else [])
    else if op == TakeEvents(id) then Taken(s, id)
    else []
  }

  datatype Pair = Pair(left: State, right: State, leftLog: seq<Envelope>, rightLog: seq<Envelope>)

  function Advance(p: Pair, turn: Turn, id: SessionId): (p': Pair)
  {
    match turn
    case Both(op) => Pair(Apply(p.left, op), Apply(p.right, op),
                          p.leftLog + Handed(p.left, op, id), p.rightLog + Handed(p.right, op, id))
    case OnlyLeft(op) => p.(left := Apply(p.left, op), leftLog := p.leftLog + Handed(p.left, op, id))
    case OnlyRight(op) => p.(right := Apply(p.right, op), rightLog := p.rightLog + Handed(p.right, op, id))
  }

  function Play(p: Pair, turns: seq<Turn>, id: SessionId): (p': Pair)
    decreases |turns|
  {
    if turns == [] then p else Play(Advance(p, turns[0], id), turns[1..], id)
  }

  /** Read off the states before the turn: a run alone touches secrets or nothing, and a shared operation was foreseen. */
  ghost predicate Discreet(p: Pair, turn: Turn, id: SessionId, h: set<ClientId>)
  {
    match turn
    case Both(op) => ForeseenApart(p.left, p.right, op, id, h)
    case OnlyLeft(op) => Alone(p.left, op, id, h)
    case OnlyRight(op) => Alone(p.right, op, id, h)
  }

  ghost predicate AllDiscreet(p: Pair, turns: seq<Turn>, id: SessionId, h: set<ClientId>)
    decreases |turns|
  {
    turns != [] ==> Discreet(p, turns[0], id, h) && AllDiscreet(Advance(p, turns[0], id), turns[1..], id, h)
  }

  ghost predicate Alike(p: Pair, id: SessionId, h: set<ClientId>)
  {
    SameApart(p.left, p.right, id, h) && p.leftLog == p.rightLog
  }

  lemma SameHanded(a: State, b: State, op: Op, id: SessionId, h: set<ClientId>)
    requires SameApart(a, b, id, h)
    ensures Handed(a, op, id) == Handed(b, op, id)
  {
    hide Pop, Take;
  }

  lemma AloneHandsNothing(s: State, op: Op, id: SessionId, h: set<ClientId>)
    requires Alone(s, op, id, h)
    ensures Handed(s, op, id) == []
  {
  }

  lemma TurnKeepsAlike(p: Pair, turn: Turn, id: SessionId, h: set<ClientId>)
    requires Alike(p, id, h) && Discreet(p, turn, id, h)
    ensures Alike(Advance(p, turn, id), id, h)
  {
    match turn {
      case Both(op) =>
        CommonKeepsApart(p.left, p.right, op, id, h);
        SameHanded(p.left, p.right, op, id, h);
      case OnlyLeft(op) =>
        AloneKeepsApart(p.left, op, id, h);
        AloneHandsNothing(p.left, op, id, h);
        SameApartIsSymmetric(p.left, Apply(p.left, op), id, h);
        SameApartChains(Apply(p.left, op), p.left, p.right, id, h);
      case OnlyRight(op) =>
        AloneKeepsApart(p.right, op, id, h);
        AloneHandsNothing(p.right, op, id, h);
        SameApartChains(p.left, p.right, Apply(p.right, op), id, h);
    }
    hide SameApart, Apply, Handed, Alone, ForeseenApart;
  }

  lemma {:induction false} RunsStayAlike(p: Pair, turns: seq<Turn>, id: SessionId, h: set<ClientId>)
    requires Alike(p, id, h) && AllDiscreet(p, turns, id, h)
    ensures Alike(Play(p, turns, id), id, h)
    decreases |turns|
  {
    hide Alike, Discreet;
    if turns != [] {
      TurnKeepsAlike(p, turns[0], id, h);
      RunsStayAlike(Advance(p, turns[0], id), turns[1..], id, h);
    }
  }

  // -------------------------------------------------------- snapshots

  predicate Holds(w: World, c: ClientId)
  {
    c in w.order || c in w.stacking || w.focused == Some(c)
  }

  function Outside(clients: seq<ClientId>, h: set<ClientId>): (rest: seq<ClientId>)
    ensures forall c :: c in rest <==> c in clients && c !in h
  {
    if clients == [] then []
    else (if clients[0] in h then [] else [clients[0]]) + Outside(clients[1..], h)
  }

  /**
   Two desktops that look the same through what the session perceives, secrets apart; the secret clients
   either of them holds are unperceived there.
   */
  ghost predicate SameWorldApart(a: State, b: State, id: SessionId, h: set<ClientId>, v: World, w: World)
  {
    && v.outputs == w.outputs && v.outputAt == w.outputAt && v.workspaces == w.workspaces
    && v.current == w.current && v.showingDesktop == w.showingDesktop
    && (forall c :: c in h && Holds(v, c) ==> !a.Perceives(id, c))
    && (forall c :: c in h && Holds(w, c) ==> !b.Perceives(id, c))
    && Seen(a, id, Outside(v.order, h)) == Seen(a, id, Outside(w.order, h))
    && Seen(a, id, Outside(v.stacking, h)) == Seen(a, id, Outside(w.stacking, h))
    && (forall c :: c !in h && a.Perceives(id, c) ==>
          && (v.focused == Some(c) <==> w.focused == Some(c))
          && (c in v.managed <==> c in w.managed)
          && (c in v.managed ==> v.managed[c] == w.managed[c]))
  }

  lemma {:induction false} SecretsAreUnseen(s: State, id: SessionId, clients: seq<ClientId>, h: set<ClientId>)
    requires forall c :: c in clients && c in h ==> !s.Perceives(id, c)
    ensures Seen(s, id, clients) == Seen(s, id, Outside(clients, h))
  {
    if clients != [] {
      SecretsAreUnseen(s, id, clients[1..], h);
      if clients[0] !in h {
        assert Outside(clients, h)[1..] == Outside(clients[1..], h);
      } else {
        assert Outside(clients, h) == Outside(clients[1..], h);
      }
    }
  }

  lemma {:induction false} SeenAlike(a: State, b: State, id: SessionId, clients: seq<ClientId>, h: set<ClientId>)
    requires SameApart(a, b, id, h) && forall c :: c in clients ==> c !in h
    ensures Seen(a, id, clients) == Seen(b, id, clients)
  {
    if clients != [] {
      assert AgreesOn(a, b, id, clients[0]);
      SeenAlike(a, b, id, clients[1..], h);
    }
  }

  lemma {:induction false} DescribedAlike(a: State, b: State, id: SessionId, order: seq<ClientId>, h: set<ClientId>,
                                          v: World, w: World)
    requires SameApart(a, b, id, h) && SameWorldApart(a, b, id, h, v, w)
    requires forall c :: c in order ==> c !in h && a.Perceives(id, c)
    ensures DescribeAll(a, id, order, v) == DescribeAll(b, id, order, w)
  {
    if order != [] {
      DescribedAlike(a, b, id, order[1..], h, v, w);
      assert order[0] in order;
      assert AgreesOn(a, b, id, order[0]);
      assert Describe(a, id, order[0], v) == Describe(b, id, order[0], w);
    }
  }

  /** What is seen of two such desktops is the same list, and no secret is on it. */
  lemma SeenOfBoth(a: State, b: State, id: SessionId, h: set<ClientId>, left: seq<ClientId>, right: seq<ClientId>)
    requires SameApart(a, b, id, h)
    requires forall c :: c in left && c in h ==> !a.Perceives(id, c)
    requires forall c :: c in right && c in h ==> !b.Perceives(id, c)
    requires Seen(a, id, Outside(left, h)) == Seen(a, id, Outside(right, h))
    ensures Seen(a, id, left) == Seen(b, id, right)
    ensures forall c :: c in Seen(a, id, left) ==> c !in h && a.Perceives(id, c) && b.Perceives(id, c)
  {
    SecretsAreUnseen(a, id, left, h);
    SecretsAreUnseen(b, id, right, h);
    SeenAlike(a, b, id, Outside(right, h), h);
  }

  lemma SnapshotsAgreeApart(a: State, b: State, id: SessionId, h: set<ClientId>, v: World, w: World)
    requires SameApart(a, b, id, h) && SameWorldApart(a, b, id, h, v, w)
    ensures SnapshotOf(a, id, v) == SnapshotOf(b, id, w)
  {
    SeenOfBoth(a, b, id, h, v.order, w.order);
    SeenOfBoth(a, b, id, h, v.stacking, w.stacking);
    var perceived := Seen(a, id, v.order);
    DescribesOnlySeen(a, id, v.order, v);
    DescribesOnlySeen(b, id, w.order, w);
    DescribedAlike(a, b, id, perceived, h, v, w);
    WithinOnlySeen(a, id, v.stacking, perceived);
    WithinOnlySeen(b, id, w.stacking, perceived);
  }

  /**
   Two runs from one state that differ only in what the session cannot notice, among it whether and how
   secret clients exist, give it the same sequence, the same queued events, the same delivered events, and
   the same world model over any two desktops that look the same to it, secrets apart.
   */
  lemma RunsAreIndistinguishable(s: State, turns: seq<Turn>, id: SessionId, h: set<ClientId>, v: World, w: World)
    requires AllDiscreet(Pair(s, s, [], []), turns, id, h)
    requires var p := Play(Pair(s, s, [], []), turns, id); SameWorldApart(p.left, p.right, id, h, v, w)
    ensures var p := Play(Pair(s, s, [], []), turns, id);
            && p.leftLog == p.rightLog
            && (id in p.left.sessions <==> id in p.right.sessions)
            && (id in p.left.sessions ==> SameSession(p.left.sessions[id], p.right.sessions[id]))
            && SnapshotOf(p.left, id, v) == SnapshotOf(p.right, id, w)
  {
    var p := Pair(s, s, [], []);
    assert SameApart(s, s, id, h);
    RunsStayAlike(p, turns, id, h);
    var p' := Play(p, turns, id);
    SnapshotsAgreeApart(p'.left, p'.right, id, h, v, w);
    hide Play, AllDiscreet, SnapshotOf, SameSession, SameWorldApart;
  }

  // ------------------------------------------- a client that never was

  predicate NamesClient(op: Op, c: ClientId)
  {
    Subject(op) == Some(c)
  }

  /** The same run had the client never existed. */
  function RunWithout(ops: seq<Op>, c: ClientId): (rest: seq<Op>)
    ensures forall op :: op in rest <==> op in ops && !NamesClient(op, c)
    decreases |ops|
  {
    if ops == [] then []
    else (if NamesClient(ops[0], c) then [] else [ops[0]]) + RunWithout(ops[1..], c)
  }

  function AllHanded(s: State, ops: seq<Op>, id: SessionId): (es: seq<Envelope>)
    decreases |ops|
  {
    if ops == [] then [] else Handed(s, ops[0], id) + AllHanded(Apply(s, ops[0]), ops[1..], id)
  }

  /** Changes to the client are announced only while the session does not perceive it. */
  ghost predicate NeverShown(s: State, ops: seq<Op>, c: ClientId, id: SessionId)
    decreases |ops|
  {
    ops != [] ==>
      && (ops[0] == TouchObservers(Some(c)) ==> !s.Perceives(id, c))
      && NeverShown(Apply(s, ops[0]), ops[1..], c, id)
  }

  /** The two runs side by side: the operations naming the client happen on the left alone. */
  function SideBySide(ops: seq<Op>, c: ClientId): (turns: seq<Turn>)
    decreases |ops|
  {
    if ops == [] then []
    else [if NamesClient(ops[0], c) then OnlyLeft(ops[0]) else Both(ops[0])] + SideBySide(ops[1..], c)
  }

  predicate KnownAlike(a: State, b: State, d: ClientId)
  {
    && (d in a.visibility <==> d in b.visibility) && (d in a.visibility ==> a.visibility[d] == b.visibility[d])
    && (d in a.generations <==> d in b.generations) && (d in a.generations ==> a.generations[d] == b.generations[d])
  }

  /** Alike in everything the policy remembers of other clients. */
  ghost predicate SameButFor(a: State, b: State, c: ClientId)
  {
    forall d :: d != c ==> KnownAlike(a, b, d)
  }

  lemma NamingTouchesOne(a: State, b: State, op: Op, c: ClientId)
    requires SameButFor(a, b, c) && NamesClient(op, c)
    ensures SameButFor(Apply(a, op), b, c)
  {
    forall d | d != c ensures KnownAlike(Apply(a, op), b, d) {
      assert KnownAlike(a, b, d);
    }
  }

  lemma CommonKeepsButFor(a: State, b: State, op: Op, c: ClientId)
    requires SameButFor(a, b, c) && !NamesClient(op, c)
    ensures SameButFor(Apply(a, op), Apply(b, op), c)
  {
    if op.Publish? {
      PublishNamesNoClient(a, op.events);
      PublishNamesNoClient(b, op.events);
    }
    forall d | d != c ensures KnownAlike(Apply(a, op), Apply(b, op), d) {
      assert KnownAlike(a, b, d);
    }
  }

  lemma CommonIsForeseen(a: State, b: State, op: Op, c: ClientId, id: SessionId)
    requires SameButFor(a, b, c) && !NamesClient(op, c)
    ensures ForeseenApart(a, b, op, id, {c})
  {
    forall d | d != c
      ensures a.VisibilityOf(d) == b.VisibilityOf(d) && SameClient(a, b, d)
    {
      assert KnownAlike(a, b, d);
    }
  }

  lemma {:induction false} SideBySideIsDiscreet(p: Pair, ops: seq<Op>, c: ClientId, id: SessionId)
    requires SameButFor(p.left, p.right, c) && NeverShown(p.left, ops, c, id)
    ensures AllDiscreet(p, SideBySide(ops, c), id, {c})
    ensures var end := Play(p, SideBySide(ops, c), id);
            && end.left == Run(p.left, ops) && end.right == Run(p.right, RunWithout(ops, c))
            && end.leftLog == p.leftLog + AllHanded(p.left, ops, id)
            && end.rightLog == p.rightLog + AllHanded(p.right, RunWithout(ops, c), id)
    decreases |ops|
  {
    hide Apply, Handed, Alone, ForeseenApart, SameButFor, NamesClient;
    if ops == [] {
      assert p.leftLog + [] == p.leftLog && p.rightLog + [] == p.rightLog;
      return;
    }
    var op := ops[0];
    var turns := SideBySide(ops, c);
    var p' := Advance(p, turns[0], id);
    assert turns[1..] == SideBySide(ops[1..], c);
    if NamesClient(op, c) {
      NamingTouchesOne(p.left, p.right, op, c);
      NamingIsAlone(p.left, op, c, id);
      AloneHandsNothing(p.left, op, id, {c});
      assert RunWithout(ops, c) == RunWithout(ops[1..], c);
    } else {
      CommonKeepsButFor(p.left, p.right, op, c);
      CommonIsForeseen(p.left, p.right, op, c, id);
      assert RunWithout(ops, c)[1..] == RunWithout(ops[1..], c);
    }
    SideBySideIsDiscreet(p', ops[1..], c, id);
    LogsJoin(p.leftLog, Handed(p.left, op, id), AllHanded(Apply(p.left, op), ops[1..], id));
    if !NamesClient(op, c) {
      LogsJoin(p.rightLog, Handed(p.right, op, id), AllHanded(Apply(p.right, op), RunWithout(ops[1..], c), id));
    }
  }

  lemma NamingIsAlone(s: State, op: Op, c: ClientId, id: SessionId)
    requires NamesClient(op, c) && (op == TouchObservers(Some(c)) ==> !s.Perceives(id, c))
    ensures Alone(s, op, id, {c})
  {
  }

  lemma LogsJoin(log: seq<Envelope>, next: seq<Envelope>, rest: seq<Envelope>)
    ensures (log + next) + rest == log + (next + rest)
  {
  }

  lemma {:induction false} DroppedIsOutside(clients: seq<ClientId>, c: ClientId)
    ensures Outside(Dropped(clients, c), {c}) == Outside(clients, {c}) == Dropped(clients, c)
    ensures c !in Dropped(clients, c)
  {
    if clients != [] {
      DroppedIsOutside(clients[1..], c);
      if clients[0] != c {
        assert Dropped(clients, c)[1..] == Dropped(clients[1..], c);
      } else {
        assert Dropped(clients, c) == Dropped(clients[1..], c);
      }
    }
  }

  /**
   A client whose changes were announced only while a session did not perceive it might, to that session,
   never have existed: the run without it gives the same record, the same deliveries, and the same world
   model of the desktop without it, as long as the session does not perceive it on the desktop there is.
   */
  lemma UnshownMightNeverHaveBeen(s: State, ops: seq<Op>, c: ClientId, id: SessionId, w: World)
    requires NeverShown(s, ops, c, id)
    requires Holds(w, c) ==> !Run(s, ops).Perceives(id, c)
    ensures var left, right := Run(s, ops), Run(s, RunWithout(ops, c));
            && AllHanded(s, ops, id) == AllHanded(s, RunWithout(ops, c), id)
            && (id in left.sessions <==> id in right.sessions)
            && (id in left.sessions ==> SameSession(left.sessions[id], right.sessions[id]))
            && SnapshotOf(left, id, w) == SnapshotOf(right, id, Without(w, c))
  {
    var p := Pair(s, s, [], []);
    SideBySideIsDiscreet(p, ops, c, id);
    WithoutIsAlike(Run(s, ops), Run(s, RunWithout(ops, c)), id, c, w);
    hide Play, AllDiscreet, SnapshotOf, SameSession, SameWorldApart, AllHanded, Run, RunWithout, SideBySide, Without;
    RunsAreIndistinguishable(s, SideBySide(ops, c), id, {c}, w, Without(w, c));
    assert [] + AllHanded(s, ops, id) == AllHanded(s, ops, id);
    assert [] + AllHanded(s, RunWithout(ops, c), id) == AllHanded(s, RunWithout(ops, c), id);
  }

  lemma WithoutIsAlike(a: State, b: State, id: SessionId, c: ClientId, w: World)
    requires Holds(w, c) ==> !a.Perceives(id, c)
    ensures SameWorldApart(a, b, id, {c}, w, Without(w, c))
  {
    DroppedIsOutside(w.order, c);
    DroppedIsOutside(w.stacking, c);
    hide Seen;
  }

  // ------------------------------------------------ the hidden client

  lemma {:induction false} HiddenIsNeverShown(s: State, ops: seq<Op>, c: ClientId, id: SessionId)
    requires s.VisibilityOf(c).Hidden? && ForgetClient(c) !in ops
    ensures NeverShown(s, ops, c, id)
    decreases |ops|
  {
    if ops != [] {
      HiddenStaysUnperceived(s, [], c, id);
      VisibilityRatchets(s, ops[..1], c);
      assert Run(s, ops[..1]) == Apply(s, ops[0]) by {
        assert ops[..1][1..] == [];
        assert Run(Apply(s, ops[0]), []) == Apply(s, ops[0]);
      }
      hide Apply, Run;
      HiddenIsNeverShown(Apply(s, ops[0]), ops[1..], c, id);
    }
  }

  lemma {:induction false} UnnamedIsNeverShown(s: State, ops: seq<Op>, c: ClientId, id: SessionId)
    requires forall op :: op in ops ==> !NamesClient(op, c)
    ensures NeverShown(s, ops, c, id)
    decreases |ops|
  {
    if ops != [] {
      assert ops[0] in ops;
      assert ops[0] != TouchObservers(Some(c));
      hide Apply;
      UnnamedIsNeverShown(Apply(s, ops[0]), ops[1..], c, id);
    }
  }

  lemma {:induction false} NeverShownJoins(s: State, first: seq<Op>, second: seq<Op>, c: ClientId, id: SessionId)
    requires NeverShown(s, first, c, id) && NeverShown(Run(s, first), second, c, id)
    ensures NeverShown(s, first + second, c, id) && Run(s, first + second) == Run(Run(s, first), second)
    decreases |first|
  {
    hide Apply;
    if first == [] {
      assert first + second == second;
    } else {
      NeverShownJoins(Apply(s, first[0]), first[1..], second, c, id);
      assert (first + second)[1..] == first[1..] + second;
    }
  }

  /** A client's life from its first, hidden sight: anything else may happen meanwhile, but it is not forgotten. */
  function HiddenLife(before: seq<Op>, c: ClientId, scopes: set<SessionId>, during: seq<Op>): (ops: seq<Op>)
  {
    before + ([ObserveClient(c, Hidden, scopes)] + during)
  }

  lemma HiddenLifeIsNeverShown(s: State, before: seq<Op>, c: ClientId, scopes: set<SessionId>, during: seq<Op>, id: SessionId)
    requires (forall op :: op in before ==> !NamesClient(op, c)) && ForgetClient(c) !in during
    ensures NeverShown(s, HiddenLife(before, c, scopes, during), c, id)
    ensures Run(s, HiddenLife(before, c, scopes, during)).VisibilityOf(c).Hidden?
  {
    UnnamedIsNeverShown(s, before, c, id);
    var met := Run(s, before);
    var observe := ObserveClient(c, Hidden, scopes);
    var seen := Apply(met, observe);
    assert seen.VisibilityOf(c).Hidden?;
    HiddenIsNeverShown(seen, during, c, id);
    VisibilityRatchets(seen, during, c);
    assert ([observe] + during)[1..] == during;
    hide Apply;
    assert NeverShown(met, [observe] + during, c, id);
    assert Run(met, [observe] + during) == Run(seen, during);
    NeverShownJoins(s, before, [observe] + during, c, id);
  }

  /**
   A hidden client is indistinguishable from one that never existed: observed as hidden when it appears,
   it leaves every session, scoped or not, the record, the deliveries and the world model of the run in
   which nothing ever named it, on any desktop while it lives, and on any without it once it is forgotten.
   */
  lemma HiddenMightNeverHaveBeen(s: State, before: seq<Op>, c: ClientId, scopes: set<SessionId>, during: seq<Op>,
                                 after: seq<Op>, id: SessionId, w: World)
    requires (forall op :: op in before ==> !NamesClient(op, c)) && ForgetClient(c) !in during
    requires after != [] ==> after[0] == ForgetClient(c) && !Holds(w, c)
    requires forall op :: op in after[if after == [] then 0 else 1..] ==> !NamesClient(op, c)
    ensures var ops := HiddenLife(before, c, scopes, during) + after;
            var left, right := Run(s, ops), Run(s, RunWithout(ops, c));
            && AllHanded(s, ops, id) == AllHanded(s, RunWithout(ops, c), id)
            && (id in left.sessions <==> id in right.sessions)
            && (id in left.sessions ==> SameSession(left.sessions[id], right.sessions[id]))
            && SnapshotOf(left, id, w) == SnapshotOf(right, id, Without(w, c))
  {
    var life := HiddenLife(before, c, scopes, during);
    HiddenLifeIsNeverShown(s, before, c, scopes, during, id);
    var lived := Run(s, life);
    if after == [] {
      assert life + after == life;
    } else {
      UnnamedIsNeverShown(Apply(lived, after[0]), after[1..], c, id);
      hide Apply;
      assert NeverShown(lived, after, c, id);
      NeverShownJoins(s, life, after, c, id);
    }
    hide Apply, NeverShown, HiddenLife;
    UnshownMightNeverHaveBeen(s, life + after, c, id, w);
  }
}
