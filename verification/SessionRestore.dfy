/**
 Matching remembered clients against new ones: which saved entries are kept as unambiguous, and what a
 run of single-use lookups can return.
 */
module SessionRestore {
  import opened Basics

  const SESSION_VERSION: nat := 1

  /** What a match must agree on besides a stable key. */
  datatype Shape = Shape(
    application: Option<string>,
    title: string,
    instance: string,
    class_: string,
    role: string,
    kind: string)

  datatype Identity = Identity(session: Option<string>, command: seq<string>, shape: Shape)
  {
    predicate Matches(other: Identity)
    {
      var processStable := (session.Some? && session == other.session) || (command != [] && command == other.command);
      var nativeStable := shape.application.Some? && shape.application == other.shape.application
                          && shape.title == other.shape.title;
      (processStable || nativeStable) && shape == other.shape
    }

    /** Has some key to be recognized by. */
    predicate Keyed()
    {
      session.Some? || command != [] || shape.application.Some?
    }

    /** Cannot be recognized by a session identity and by a command that might belong to different clients. */
    predicate Pinned()
    {
      shape.application.Some? || session.None? || command == []
    }
  }

  datatype Client = Client(identity: Identity, state: nat)

  // --------------------------------------------------- the match relation

  lemma MatchesIsSymmetric(a: Identity, b: Identity)
    ensures a.Matches(b) <==> b.Matches(a)
    ensures a.Matches(a) <==> a.Keyed()
  {
  }

  /** The native shape agrees in every part, and the session, the command or the application identity vouches for it. */
  lemma RecognizedExactly(a: Identity, b: Identity)
    ensures a.Matches(b) <==>
              && a.shape.application == b.shape.application && a.shape.title == b.shape.title
              && a.shape.instance == b.shape.instance && a.shape.class_ == b.shape.class_
              && a.shape.role == b.shape.role && a.shape.kind == b.shape.kind
              && (|| (a.session.Some? && b.session == a.session)
                  || (a.command != [] && b.command == a.command)
                  || a.shape.application.Some?)
  {
  }

  /** A saved entry known by its session alone and one known by its command alone both match the whole, not each other. */
  function BySession(q: Identity): Identity
  {
    q.(command := [])
  }

  function ByCommand(q: Identity): Identity
  {
    q.(session := None)
  }

  lemma HalvesMatchOnlyTheWhole(q: Identity)
    requires !q.Pinned()
    ensures BySession(q).Matches(q) && q.Matches(ByCommand(q)) && !BySession(q).Matches(ByCommand(q))
    ensures BySession(q).Keyed() && ByCommand(q).Keyed()
  {
  }

  /** Matching passes through an identity to any two others exactly when that identity is pinned. */
  lemma TransitiveExactlyThroughPinned(q: Identity)
    ensures q.Pinned() <==> forall a: Identity, b: Identity :: a.Matches(q) && q.Matches(b) ==> a.Matches(b)
  {
    if !q.Pinned() {
      HalvesMatchOnlyTheWhole(q);
    }
  }

  // --------------------------------------------------------- the restore

  /** Matches no other entry of the snapshot. */
  predicate Alone(clients: seq<Client>, i: nat)
    requires i < |clients|
  {
    forall j :: 0 <= j < |clients| && j != i ==> !clients[i].identity.Matches(clients[j].identity)
  }

  /** The slots a snapshot is restored from: entries that match another are dropped on both sides. */
  function Slots(version: nat, clients: seq<Client>): (slots: seq<Option<Client>>)
    ensures version == SESSION_VERSION ==> |slots| == |clients|
    ensures version == SESSION_VERSION ==>
              forall i :: 0 <= i < |slots| ==> slots[i] == if Alone(clients, i) then Some(clients[i]) else None
  {
    if version != SESSION_VERSION then []
    else seq(|clients|, i requires 0 <= i < |clients| => if Alone(clients, i) then Some(clients[i]) else None)
  }

  /** The slot a lookup takes: the first that matches, or none. */
  function FirstMatch(slots: seq<Option<Client>>, q: Identity): (at: nat)
    ensures at <= |slots|
    ensures at < |slots| ==> Fits(slots[at], q)
    ensures forall i :: 0 <= i < at ==> !Fits(slots[i], q)
  {
    if slots == [] || Fits(slots[0], q) then 0 else 1 + FirstMatch(slots[1..], q)
  }

  predicate Fits(slot: Option<Client>, q: Identity)
  {
    slot.Some? && slot.value.identity.Matches(q)
  }

  function Took(slots: seq<Option<Client>>, q: Identity): (r: (seq<Option<Client>>, Option<Client>))
  {
    var at := FirstMatch(slots, q);
    if at < |slots| then (slots[at := None], slots[at]) else (slots, None)
  }

  class SessionRestore {
    var clients: seq<Option<Client>>

    /** Drops every entry that matches another, comparing each pair once. */
    constructor (version: nat, saved: seq<Client>)
      ensures clients == Slots(version, saved)
    {
      var slots: seq<Option<Client>> := [];
      if version == SESSION_VERSION {
        var duplicates := MarkDuplicates(saved);
        for i := 0 to |saved|
          invariant |slots| == i && slots == Slots(version, saved)[..i]
        {
          slots := slots + [if duplicates[i] then None else Some(saved[i])];
        }
      }
      clients := slots;
    }

    method TakeMatch(q: Identity) returns (client: Option<Client>)
      modifies this
      ensures (clients, client) == Took(old(clients), q)
    {
      for i := 0 to |clients|
        invariant clients == old(clients) && forall k :: 0 <= k < i ==> !Fits(clients[k], q)
      {
        if clients[i].Some? && clients[i].value.identity.Matches(q) {
          client := clients[i];
          clients := clients[i := None];
          return;
        }
      }
      client := None;
    }
  }

  method MarkDuplicates(saved: seq<Client>) returns (duplicates: seq<bool>)
    ensures |duplicates| == |saved| && forall i :: 0 <= i < |saved| ==> (duplicates[i] <==> !Alone(saved, i))
  {
    duplicates := seq(|saved|, _ => false);
    for left := 0 to |saved|
      invariant |duplicates| == |saved|
      invariant forall i :: 0 <= i < |saved| ==> (duplicates[i] <==> MetMatch(saved, i, left, 0))
    {
      for right := left + 1 to |saved|
        invariant |duplicates| == |saved|
        invariant forall i :: 0 <= i < |saved| ==> (duplicates[i] <==> MetMatch(saved, i, left, right))
      {
        if saved[left].identity.Matches(saved[right].identity) {
          duplicates := duplicates[left := true][right := true];
        }
      }
    }
  }

  /** Matched some entry among the pairs compared so far: all from before `left`, and `left` with those before `right`. */
  ghost predicate MetMatch(saved: seq<Client>, i: nat, left: nat, right: nat)
    requires i < |saved|
  {
    exists j :: 0 <= j < |saved| && j != i && Compared(i, j, left, right) && saved[i].identity.Matches(saved[j].identity)
  }

  ghost predicate Compared(i: nat, j: nat, left: nat, right: nat)
  {
    var low, high := if i < j then i else j, if i < j then j else i;
    low < left || (low == left && high < right)
  }

  // ----------------------------------------------- what lookups return

  function Left(slots: seq<Option<Client>>): (clients: multiset<Client>)
  {
    if slots == [] then multiset{}
    else Left(slots[..|slots| - 1]) + (if slots[|slots| - 1].Some? then multiset{slots[|slots| - 1].value} else multiset{})
  }

  function TakeAll(slots: seq<Option<Client>>, queries: seq<Identity>): (r: (seq<Option<Client>>, multiset<Client>))
  {
    if queries == [] then (slots, multiset{})
    else
      var (before, taken) := TakeAll(slots, queries[..|queries| - 1]);
      var (after, client) := Took(before, queries[|queries| - 1]);
      (after, if client.Some? then taken + multiset{client.value} else taken)
  }

  lemma {:induction false} EmptyingASlot(slots: seq<Option<Client>>, at: nat)
    requires at < |slots| && slots[at].Some?
    ensures Left(slots) == Left(slots[at := None]) + multiset{slots[at].value}
  {
    var last := |slots| - 1;
    if at < last {
      EmptyingASlot(slots[..last], at);
      assert slots[at := None][..last] == slots[..last][at := None];
    } else {
      assert slots[at := None][..last] == slots[..last];
    }
  }

  /** Any run of lookups: what it returned and what is left are the kept entries, so each is returned at most once. */
  lemma {:induction false} LookupsConserve(slots: seq<Option<Client>>, queries: seq<Identity>)
    ensures var (rest, taken) := TakeAll(slots, queries); Left(rest) + taken == Left(slots)
  {
    if queries != [] {
      var last := |queries| - 1;
      LookupsConserve(slots, queries[..last]);
      var before := TakeAll(slots, queries[..last]).0;
      var at := FirstMatch(before, queries[last]);
      if at < |before| {
        EmptyingASlot(before, at);
      }
    }
  }

  // ------------------------------------------- when lookups are unambiguous

  /** No two kept entries fit the query. */
  ghost predicate Unambiguous(slots: seq<Option<Client>>, q: Identity)
  {
    forall i, j :: 0 <= i < j < |slots| ==> !(Fits(slots[i], q) && Fits(slots[j], q))
  }

  /** Whatever was saved, a query fits at most one kept entry, exactly when it is pinned. */
  lemma UnambiguousExactlyWhenPinned(q: Identity)
    ensures q.Pinned() <==> forall clients: seq<Client> :: Unambiguous(Slots(SESSION_VERSION, clients), q)
  {
    if q.Pinned() {
      forall clients: seq<Client> ensures Unambiguous(Slots(SESSION_VERSION, clients), q) {
        PinnedIsUnambiguous(clients, q);
      }
    } else {
      var clients := [Client(BySession(q), 0), Client(ByCommand(q), 0)];
      HalvesMatchOnlyTheWhole(q);
      MatchesIsSymmetric(q, ByCommand(q));
      MatchesIsSymmetric(BySession(q), ByCommand(q));
      var slots := Slots(SESSION_VERSION, clients);
      assert Alone(clients, 0) && Alone(clients, 1);
      assert Fits(slots[0], q) && Fits(slots[1], q);
      assert !Unambiguous(slots, q);
    }
  }

  lemma PinnedIsUnambiguous(clients: seq<Client>, q: Identity)
    requires q.Pinned()
    ensures Unambiguous(Slots(SESSION_VERSION, clients), q)
  {
    var slots := Slots(SESSION_VERSION, clients);
    forall i, j | 0 <= i < j < |slots| ensures !(Fits(slots[i], q) && Fits(slots[j], q)) {
      MatchesIsSymmetric(clients[j].identity, q);
      TransitiveExactlyThroughPinned(q);
      var left, right := clients[i].identity, clients[j].identity;
      assert left.Matches(q) && q.Matches(right) ==> left.Matches(right);
    }
  }

  /** The entry with this value is kept, said of the saved entries as a bag. */
  predicate KeptInBag(bag: multiset<Client>, c: Client)
  {
    bag[c] == 1 && forall o :: o in bag && o != c ==> !c.identity.Matches(o.identity)
  }

  lemma KeptIsAboutTheBag(clients: seq<Client>, i: nat)
    requires i < |clients| && clients[i].identity.Keyed()
    ensures Alone(clients, i) <==> KeptInBag(multiset(clients), clients[i])
  {
    var c := clients[i];
    assert clients == clients[..i] + [c] + clients[i + 1..];
    var others := clients[..i] + clients[i + 1..];
    assert multiset(clients) == multiset(others) + multiset{c};
    assert multiset(clients)[c] == 1 <==> c !in others;
    if Alone(clients, i) {
      forall o | o in multiset(clients) && o != c ensures !c.identity.Matches(o.identity) {
        var j :| 0 <= j < |clients| && clients[j] == o;
      }
      forall k | 0 <= k < |others| ensures others[k] != c {
        assert others[k] == clients[if k < i then k else k + 1];
      }
    } else {
      var j :| 0 <= j < |clients| && j != i && c.identity.Matches(clients[j].identity);
      assert others[if j < i then j else j - 1] == clients[j];
      assert clients[j] in multiset(clients);
    }
  }

  /** A pinned query's answer does not depend on the order in which the clients were saved. */
  lemma PinnedIgnoresOrder(a: seq<Client>, b: seq<Client>, q: Identity)
    requires q.Pinned() && multiset(a) == multiset(b)
    ensures Took(Slots(SESSION_VERSION, a), q).1 == Took(Slots(SESSION_VERSION, b), q).1
  {
    AnswerSurvives(a, b, q);
    AnswerSurvives(b, a, q);
  }

  lemma AnswerSurvives(a: seq<Client>, b: seq<Client>, q: Identity)
    requires q.Pinned() && multiset(a) == multiset(b)
    ensures var answer := Took(Slots(SESSION_VERSION, a), q).1;
            answer.Some? ==> Took(Slots(SESSION_VERSION, b), q).1 == answer
  {
    var slots, other := Slots(SESSION_VERSION, a), Slots(SESSION_VERSION, b);
    var at := FirstMatch(slots, q);
    if at < |slots| {
      var c := a[at];
      assert c.identity.Keyed();
      KeptIsAboutTheBag(a, at);
      assert c in multiset(b);
      var j :| 0 <= j < |b| && b[j] == c;
      KeptIsAboutTheBag(b, j);
      assert Fits(other[j], q);
      PinnedIsUnambiguous(b, q);
      var found := FirstMatch(other, q);
      assert found == j;
    }
  }
}
