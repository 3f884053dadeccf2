/**
 The thread that runs one disposable helper at a time: it takes commands in order, refuses work while
 busy, kills on cancellation, deadline or failure, reaps before it goes on, and answers. The methods
 write a log of what they do; the log is read back by a small protocol whose properties are proved.
 */
module HelperRunner {
  import opened Basics

  type Generation = nat
  type Request = nat

  datatype Command = Start(generation: Generation, request: Request) | Cancel(generation: Generation) | Stop

  datatype Result = Unavailable | Parsed(payload: nat)

  datatype Event =
    | Took(command: Command)
    | HungUp
    | MadeDirectory(generation: Generation)
    | RemovedDirectory(generation: Generation)
    | Spawned(generation: Generation)
    | Reaped(generation: Generation, success: bool)
    | Answered(generation: Generation, result: Result)

  // ------------------------------------------------------- the protocol

  datatype Mode =
    | Idle
    | Chosen(generation: Generation)
    | Prepared(generation: Generation)
    | Active(generation: Generation)
    | Refusing(generation: Generation, other: Generation)
    | Dying(generation: Generation, final: bool)
    | Ended(generation: Generation, success: bool)
    | Dropped(generation: Generation, final: bool)
    | Owing(generation: Generation, success: bool)
    | Done
  {
    predicate HasChild()
    {
      Active? || Refusing? || Dying?
    }

    predicate HasDirectory()
    {
      Prepared? || HasChild() || Ended? || Dropped?
    }

    /** How many answers to `g` are still to come. */
    function Owed(g: Generation): (n: nat)
    {
      (if (Chosen? || Prepared? || Active? || Refusing? || Ended? || Owing?) && generation == g then 1 else 0)
      + (if Refusing? && other == g then 1 else 0)
    }

    /** Whether an event ends the active work without an answer. */
    predicate Drops(e: Event)
    {
      Active? && (e.HungUp? || (e.Took? && (e.command.Stop? || e.command == Cancel(generation))))
    }
  }

  function Advance(m: Mode, e: Event): (m': Option<Mode>)
  {
    match (m, e)
    case (Idle, Took(Start(g, _))) => Some(Chosen(g))
    case (Idle, Took(Cancel(_))) => Some(Idle)
    case (Idle, Took(Stop)) => Some(Done)
    case (Idle, HungUp) => Some(Done)
    case (Chosen(g), Answered(a, r)) => if a == g && r.Unavailable? then Some(Idle) else None
    case (Chosen(g), MadeDirectory(a)) => if a == g then Some(Prepared(g)) else None
    case (Prepared(g), Spawned(a)) => if a == g then Some(Active(g)) else None
    case (Prepared(g), RemovedDirectory(a)) => if a == g then Some(Owing(g, false)) else None
    case (Active(g), Reaped(a, success)) => if a == g then Some(Ended(g, success)) else None
    case (Active(g), Took(Start(other, _))) => Some(Refusing(g, other))
    case (Active(g), Took(Cancel(a))) => Some(if a == g then Dying(g, false) else Active(g))
    case (Active(g), Took(Stop)) => Some(Dying(g, true))
    case (Active(g), HungUp) => Some(Dying(g, true))
    case (Refusing(g, other), Answered(a, r)) => if a == other && r.Unavailable? then Some(Active(g)) else None
    case (Dying(g, final), Reaped(a, _)) => if a == g then Some(Mode.Dropped(g, final)) else None
    case (Dropped(g, final), RemovedDirectory(a)) => if a == g then Some(if final then Done else Idle) else None
    case (Ended(g, success), RemovedDirectory(a)) => if a == g then Some(Owing(g, success)) else None
    case (Owing(g, success), Answered(a, r)) => if a == g && (success || r.Unavailable?) then Some(Idle) else None
    case _ => None
  }

  /** Where a log leaves the protocol, if it followed it. */
  function Reached(log: seq<Event>): (m: Option<Mode>)
  {
    if log == [] then Some(Idle)
    else
      var last := |log| - 1;
      var before := Reached(log[..last]);
      if before.None? then None else Advance(before.value, log[last])
  }

  // ------------------------------------------------------- the accounts

  datatype Entry = Starts(g: Generation) | Answers(g: Generation) | Drops(g: Generation) | Spawns | Reaps | Makes | Removes
  {
    predicate Counts(before: Option<Mode>, e: Event)
    {
      match this
      case Starts(g) => e.Took? && e.command.Start? && e.command.generation == g
      case Answers(g) => e.Answered? && e.generation == g
      case Drops(g) => before.Some? && before.value.Drops(e) && before.value.generation == g
      case Spawns => e.Spawned?
      case Reaps => e.Reaped?
      case Makes => e.MadeDirectory?
      case Removes => e.RemovedDirectory?
    }
  }

  function Tally(log: seq<Event>, entry: Entry): (n: nat)
  {
    if log == [] then 0
    else
      var last := |log| - 1;
      Tally(log[..last], entry) + if entry.Counts(Reached(log[..last]), log[last]) then 1 else 0
  }

  /**
   However a run goes: every start was answered exactly once, was dropped while active by its own
   cancellation, a stop or a hang-up, or is the one still owed; at most one helper is alive; and at
   most one private directory exists.
   */
  lemma {:induction false} LogBalances(log: seq<Event>, g: Generation)
    requires Reached(log).Some?
    ensures var m := Reached(log).value;
            && Tally(log, Starts(g)) == Tally(log, Answers(g)) + Tally(log, Drops(g)) + m.Owed(g)
            && Tally(log, Spawns) == Tally(log, Reaps) + (if m.HasChild() then 1 else 0)
            && Tally(log, Makes) == Tally(log, Removes) + (if m.HasDirectory() then 1 else 0)
  {
    if log != [] {
      LogBalances(log[..|log| - 1], g);
    }
  }

  /** Each helper is reaped before the next is spawned. */
  lemma ReapedBeforeTheNext(log: seq<Event>, i: nat, j: nat)
    requires Reached(log).Some? && i < j < |log| && log[i].Spawned? && log[j].Spawned?
    ensures exists k :: i < k < j && log[k].Reaped? && log[k].generation == log[i].generation
  {
    PrefixFollows(log, i + 1);
    PrefixFollows(log, j + 1);
    assert log[..i + 1][..i] == log[..i] && log[..j + 1][..j] == log[..j];
    assert Reached(log[..i + 1]) == Some(Active(log[i].generation));
    if forall k :: i < k < j ==> !(log[k].Reaped? && log[k].generation == log[i].generation) {
      ChildLives(log, i + 1, j);
      assert false;
    }
  }

  lemma {:induction false} PrefixFollows(log: seq<Event>, n: nat)
    requires Reached(log).Some? && n <= |log|
    ensures Reached(log[..n]).Some?
    decreases |log|
  {
    if n < |log| {
      PrefixFollows(log[..|log| - 1], n);
      assert log[..|log| - 1][..n] == log[..n];
    } else {
      assert log[..n] == log;
    }
  }

  lemma {:induction false} ChildLives(log: seq<Event>, start: nat, stop: nat)
    requires start <= stop <= |log| && Reached(log).Some?
    requires Reached(log[..start]).Some? && Reached(log[..start]).value.HasChild()
    requires var g := Reached(log[..start]).value.generation;
             forall k :: start <= k < stop ==> !(log[k].Reaped? && log[k].generation == g)
    ensures Reached(log[..stop]).Some? && Reached(log[..stop]).value.HasChild()
    ensures Reached(log[..stop]).value.generation == Reached(log[..start]).value.generation
    decreases stop
  {
    if start < stop {
      ChildLives(log, start, stop - 1);
      PrefixFollows(log, stop);
      assert log[..stop][..stop - 1] == log[..stop - 1];
    }
  }

  /** A finished run owes nothing and leaves nothing behind. */
  lemma FinishedRunsAreSettled(log: seq<Event>, g: Generation)
    requires Reached(log) == Some(Done)
    ensures Tally(log, Starts(g)) == Tally(log, Answers(g)) + Tally(log, Drops(g))
    ensures Tally(log, Spawns) == Tally(log, Reaps) && Tally(log, Makes) == Tally(log, Removes)
  {
    LogBalances(log, g);
  }

  /** Work that runs to its end with nobody interfering is answered, whoever else asks meanwhile. */
  lemma {:induction false} UndisturbedWorkIsAnswered(log: seq<Event>, g: Generation)
    requires Reached(log) == Some(Done)
    requires forall i :: 0 <= i < |log| ==> log[i] != Took(Cancel(g))
    requires forall i :: 0 <= i < |log| && Reached(log[..i]) == Some(Active(g)) ==> log[i] != Took(Stop) && log[i] != HungUp
    ensures Tally(log, Starts(g)) == Tally(log, Answers(g))
  {
    FinishedRunsAreSettled(log, g);
    NothingDropped(log, g, |log|);
    assert log[..|log|] == log;
  }

  lemma {:induction false} NothingDropped(log: seq<Event>, g: Generation, n: nat)
    requires n <= |log|
    requires forall i :: 0 <= i < |log| ==> log[i] != Took(Cancel(g))
    requires forall i :: 0 <= i < |log| && Reached(log[..i]) == Some(Active(g)) ==> log[i] != Took(Stop) && log[i] != HungUp
    ensures Tally(log[..n], Drops(g)) == 0
  {
    if n > 0 {
      NothingDropped(log, g, n - 1);
      assert log[..n][..n - 1] == log[..n - 1];
    }
  }

  /** The commands taken, in the order they were taken. */
  function Heard(log: seq<Event>): (commands: seq<Command>)
  {
    if log == [] then []
    else
      var last := |log| - 1;
      Heard(log[..last]) + if log[last].Took? then [log[last].command] else []
  }

  predicate StopHeard(log: seq<Event>)
  {
    Heard(log) != [] && Heard(log)[|Heard(log)| - 1].Stop?
  }

  // ------------------------------------------------------- the runner

  /** What polling the child says, and whether a command, or the end of them, is there within the interval. */
  datatype Child = StillRunning | Exited(success: bool) | Unknown
  datatype Tick = Tick(child: Child, pastDeadline: bool, ready: bool)

  datatype Spawn = NotStarted | KilledEarly | Started

  /** How the world answers one attempt; the deadline has passed once the ticks are used up. */
  datatype Script = Script(directory: bool, spawn: Spawn, ticks: seq<Tick>, output: Result)

  /** Whether the child exits well before it is given up on. */
  predicate EndsWell(ticks: seq<Tick>)
    decreases |ticks|
  {
    if ticks == [] then false
    else
      match ticks[0].child
      case Exited(success) => success
      case Unknown => false
      case StillRunning => !ticks[0].pastDeadline && EndsWell(ticks[1..])
  }

  /** The answer an attempt gives if nobody interferes. */
  function Answer(script: Script): (result: Result)
  {
    if script.directory && script.spawn.Started? && EndsWell(script.ticks) then script.output else Unavailable
  }

  /** The child exits with success at the i-th look, alive and in time at every look before. */
  ghost predicate EndsWellAt(ticks: seq<Tick>, i: nat)
  {
    && i < |ticks| && ticks[i].child == Exited(true)
    && forall j :: 0 <= j < i ==> ticks[j].child == StillRunning && !ticks[j].pastDeadline
  }

  lemma {:induction false} EndsWellExactly(ticks: seq<Tick>)
    ensures EndsWell(ticks) <==> exists i: nat :: EndsWellAt(ticks, i)
  {
    if ticks != [] {
      var rest := ticks[1..];
      EndsWellExactly(rest);
      if EndsWell(ticks) && ticks[0].child.StillRunning? {
        var i: nat :| EndsWellAt(rest, i);
        assert EndsWellAt(ticks, i + 1) by {
          assert forall j :: 0 < j < i + 1 ==> ticks[j] == rest[j - 1];
        }
      } else if EndsWell(ticks) {
        assert EndsWellAt(ticks, 0);
      }
      if i: nat :| EndsWellAt(ticks, i) {
        if i > 0 {
          assert ticks[0].child == StillRunning && !ticks[0].pastDeadline;
          assert EndsWellAt(rest, i - 1) by {
            assert forall j :: 0 <= j < i - 1 ==> rest[j] == ticks[j + 1];
          }
        }
      }
    }
  }

  /** The helper's output is the answer exactly when it started in a directory of its own and exited well in time. */
  lemma AnsweredExactly(script: Script)
    ensures Answer(script) == if script.directory && script.spawn == Started && (exists i: nat :: EndsWellAt(script.ticks, i))
                              then script.output else Unavailable
  {
    EndsWellExactly(script.ticks);
  }

  class Runner {
    const helper: bool
    const world: nat -> Script
    var mailbox: seq<Command>
    var attempts: nat
    var log: seq<Event>

    constructor (helper: bool, world: nat -> Script, commands: seq<Command>)
      ensures this.helper == helper && this.world == world
      ensures mailbox == commands && log == []
    {
      this.helper, this.world := helper, world;
      mailbox, attempts, log := commands, 0, [];
    }

    /** Everything sent so far: what was heard, then what waits. */
    ghost function Queue(): seq<Command>
      reads this
    {
      Heard(log) + mailbox
    }

    method Note(e: Event)
      requires !e.Took?
      modifies this`log
      ensures log == old(log) + [e]
      ensures Reached(log) == if Reached(old(log)).None? then None else Advance(Reached(old(log)).value, e)
      ensures Queue() == old(Queue()) && Heard(log) == Heard(old(log))
    {
      log := log + [e];
      assert log[..|log| - 1] == old(log);
    }

    /** Takes the next command, or notices that nobody can send one any more. */
    method Receive() returns (command: Option<Command>)
      modifies this`mailbox, this`log
      ensures Queue() == old(Queue()) && |mailbox| <= |old(mailbox)|
      ensures command.Some? ==> Heard(log) == Heard(old(log)) + [command.value]
      ensures old(mailbox) == [] ==> command == None && mailbox == [] && log == old(log) + [HungUp]
      ensures old(mailbox) != [] ==>
                command == Some(old(mailbox)[0]) && mailbox == old(mailbox)[1..] && log == old(log) + [Took(command.value)]
      ensures Reached(log) == if Reached(old(log)).None? then None else Advance(Reached(old(log)).value, log[|log| - 1])
    {
      if mailbox == [] {
        Note(HungUp);
        return None;
      }
      command := Some(mailbox[0]);
      mailbox := mailbox[1..];
      log := log + [Took(command.value)];
      assert log[..|log| - 1] == old(log);
    }

    method Complete(generation: Generation, result: Result)
      modifies this`log
      ensures log == old(log) + [Answered(generation, result)]
      ensures Reached(log) == if Reached(old(log)).None? then None
                              else Advance(Reached(old(log)).value, Answered(generation, result))
      ensures Queue() == old(Queue()) && Heard(log) == Heard(old(log))
    {
      Note(Answered(generation, result));
    }

    /** Serves commands until told to stop or left alone. */
    method Run()
      requires log == []
      modifies this
      ensures Reached(log) == Some(Done) && Queue() == old(mailbox)
      ensures mailbox == [] || StopHeard(log)
      ensures !helper ==> attempts == old(attempts)
    {
      hide Reached, Heard;
      EmptyLog();
      while true
        invariant Reached(log) == Some(Idle) && Queue() == old(mailbox)
        invariant !helper ==> attempts == old(attempts)
        decreases |mailbox|
      {
        var command := Receive();
        if command.None? {
          return;
        }
        match command.value {
          case Start(generation, request) =>
            if !helper {
              Complete(generation, Unavailable);
              continue;
            }
            var keep := RunOne(generation, request);
            if !keep {
              return;
            }
          case Cancel(_) =>
          case Stop =>
            return;
        }
      }
    }

    /** Runs one helper to its answer or its cancellation, refusing whatever else is asked meanwhile. */
    method RunOne(generation: Generation, request: Request) returns (keep: bool)
      requires Reached(log) == Some(Chosen(generation))
      modifies this
      ensures Reached(log) == Some(if keep then Idle else Done)
      ensures attempts == old(attempts) + 1 && log != []
      ensures log[|log| - 1].Answered? ==> log[|log| - 1] == Answered(generation, Answer(world(old(attempts))))
      ensures !log[|log| - 1].Answered? ==> log[|log| - 1] == RemovedDirectory(generation)
      ensures Queue() == old(Queue()) && |mailbox| <= |old(mailbox)|
      ensures !keep ==> mailbox == [] || StopHeard(log)
    {
      hide Reached, Heard;
      var script := world(attempts);
      attempts := attempts + 1;
      if !script.directory {
        Complete(generation, Unavailable);
        return true;
      }
      Note(MadeDirectory(generation));
      if !script.spawn.Started? {
        if script.spawn.KilledEarly? {
          Note(Spawned(generation));
          Note(Reaped(generation, false));
        }
        Note(RemovedDirectory(generation));
        Complete(generation, Unavailable);
        return true;
      }
      Note(Spawned(generation));
      var success, cancelled;
      keep, cancelled, success := Wait(generation, script.ticks);
      Note(Reaped(generation, success));
      Note(RemovedDirectory(generation));
      if !cancelled {
        Complete(generation, if success then script.output else Unavailable);
      }
    }

    /** Polls the child and the mailbox until the child exits, fails, times out or is cancelled. */
    method Wait(generation: Generation, ticks: seq<Tick>) returns (keep: bool, cancelled: bool, success: bool)
      requires Reached(log) == Some(Active(generation))
      modifies this`mailbox, this`log
      ensures Reached(log) == Some(if cancelled then Dying(generation, !keep) else Active(generation))
      ensures Queue() == old(Queue()) && |mailbox| <= |old(mailbox)|
      ensures !keep ==> cancelled && (mailbox == [] || StopHeard(log))
      ensures !cancelled ==> success == EndsWell(ticks)
    {
      hide Reached, Heard;
      for i := 0 to |ticks|
        invariant Reached(log) == Some(Active(generation))
        invariant Queue() == old(Queue()) && |mailbox| <= |old(mailbox)|
        invariant EndsWell(ticks) == EndsWell(ticks[i..])
      {
        var tick := ticks[i];
        assert ticks[i..][1..] == ticks[i + 1..];
        match tick.child {
          case Exited(exitedWell) =>
            return true, false, exitedWell;
          case Unknown =>
            return true, false, false;
          case StillRunning =>
        }
        if tick.pastDeadline {
          return true, false, false;
        }
        if !tick.ready {
          continue;
        }
        var command := Receive();
        if command.None? {
          return false, true, false;
        }
        match command.value {
          case Cancel(value) =>
            if value == generation {
              return true, true, false;
            }
          case Start(other, _) =>
            Complete(other, Unavailable);
          case Stop =>
            return false, true, false;
        }
      }
      return true, false, false;
    }
  }

  lemma EmptyLog()
    ensures Reached([]) == Some(Idle) && Heard([]) == []
  {
  }
}
