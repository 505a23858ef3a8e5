/** Order of lifecycle events and of teardown, over every interleaving. */
module ClientLifecycle {
  import opened ClientMachine

  /** The one order in which a client goes through its life. */
  const LIFE: seq<Entry> := [
    Emitted(STARTING),
    Emitted(STARTED),
    Emitted(SHUTTING_DOWN),
    LocalTeardown,
    CpShutdownResolved,
    InvocationServiceShut,
    ConnectionManagerShut,
    Emitted(SHUTDOWN)]

  /** The log without failover attempts. */
  function Milestones(log: seq<Entry>): seq<Entry> {
    if log == [] then []
    else
      var front := Milestones(log[..|log| - 1]);
      if log[|log| - 1].AttemptStarted? then front else front + [log[|log| - 1]]
  }

  /** The lifecycle events alone, in the order they are emitted. */
  function Events(log: seq<Entry>): seq<LifecycleState> {
    if log == [] then []
    else
      var front := Events(log[..|log| - 1]);
      if log[|log| - 1].Emitted? then front + [log[|log| - 1].state] else front
  }

  lemma MilestonesSnoc(log: seq<Entry>, e: Entry)
    ensures Milestones(log + [e]) == if e.AttemptStarted? then Milestones(log) else Milestones(log) + [e]
  {
    assert (log + [e])[..|log|] == log;
  }

  lemma LastApart<T>(a: seq<T>, b: seq<T>)
    requires b != []
    ensures a + b == a + b[..|b| - 1] + [b[|b| - 1]]
  {
  }

  lemma {:induction false} MilestonesAppend(log: seq<Entry>, more: seq<Entry>)
    requires forall e :: e in more ==> !e.AttemptStarted?
    ensures Milestones(log + more) == Milestones(log) + more
  {
    if more == [] {
      assert log + more == log;
    } else {
      var n := |more| - 1;
      assert more[n] in more && forall e :: e in more[..n] ==> e in more;
      MilestonesAppend(log, more[..n]);
      MilestonesSnoc(log + more[..n], more[n]);
      LastApart(log, more);
      LastApart(Milestones(log), more);
    }
  }

  /** How much of a life a shutdown call has completed. */
  function Reached(d: Shutdown): nat {
    match d
    case Ignored => 0
    case Begun => 3
    case AwaitingCp => 4
    case ServicesShut => 7
    case Finished => 8
    case Abandoned(reached) => reached
  }

  ghost predicate Effective(s: State, i: int) {
    0 <= i < |s.shutdowns| && s.shutdowns[i] != Ignored
  }

  /** What every step keeps. */
  ghost predicate Orderly(s: State) {
    && (forall i, j :: Effective(s, i) && Effective(s, j) ==> i == j)
    && (forall i :: Effective(s, i) ==>
          !s.active && 3 <= Reached(s.shutdowns[i]) <= 8 && Milestones(s.log) == LIFE[..Reached(s.shutdowns[i])])
    && (s.active ==> Milestones(s.log) == LIFE[..2])
    && (s.init.NotCalled? || s.init.Starting? ==> !s.active && forall i :: !Effective(s, i))
    && (!s.active && (forall i :: !Effective(s, i)) ==>
          || (s.init.NotCalled? && Milestones(s.log) == [])
          || ((s.init.Starting? || s.init.Thrown?) && Milestones(s.log) == LIFE[..1]))
  }

  lemma {:induction false} StartingKeepsOrder(s: State)
    requires Orderly(s) && s.init.NotCalled?
    ensures Orderly(InitStep(s))
  {
    MilestonesSnoc(s.log, Emitted(STARTING));
    assert forall i :: Effective(InitStep(s), i) <==> Effective(s, i);
  }

  lemma {:induction false} StartedKeepsOrder(s: State)
    requires Orderly(s) && s.init.Starting?
    ensures Orderly(InitStep(s))
  {
    MilestonesSnoc(s.log, Emitted(STARTED));
    assert Milestones(InitStep(s).log) == LIFE[..2];
    assert forall i :: Effective(InitStep(s), i) <==> Effective(s, i);
  }

  lemma {:induction false} InitKeepsOrder(s: State)
    requires Orderly(s)
    ensures Orderly(InitStep(s))
  {
    match s.init
    case NotCalled => StartingKeepsOrder(s);
    case Starting => StartedKeepsOrder(s);
    case _ =>
      var s' := InitStep(s);
      assert s'.log == s.log && s'.shutdowns == s.shutdowns && s'.active == s.active;
      assert forall i :: Effective(s', i) <==> Effective(s, i);
  }

  lemma ShutdownCallKeepsOrder(s: State)
    requires Orderly(s) && !s.init.NotCalled? && !s.init.Starting?
    ensures Orderly(CallShutdown(s))
  {
    var s' := CallShutdown(s);
    MilestonesSnoc(s.log, Emitted(SHUTTING_DOWN));
    if s.active {
      assert Effective(s', |s.shutdowns|);
      assert forall i :: Effective(s', i) && i < |s.shutdowns| ==> Effective(s, i);
    } else {
      assert forall i :: Effective(s', i) <==> Effective(s, i);
    }
  }

  lemma IdleShutdownCallKeepsOrder(s: State)
    requires Orderly(s) && (s.init.NotCalled? || s.init.Starting?)
    ensures Orderly(CallShutdown(s))
  {
    assert forall i :: Effective(CallShutdown(s), i) <==> Effective(s, i);
  }

  lemma RejectedKeepsOrder(s: State)
    requires Orderly(s) && !s.init.NotCalled? && !s.init.Starting? && !s.init.Thrown?
    ensures Orderly(CallShutdown(s.(init := Rejected)))
  {
    var r := s.(init := Rejected);
    assert forall i :: Effective(r, i) <==> Effective(s, i);
    ShutdownCallKeepsOrder(r);
  }

  lemma InitFailureKeepsOrder(s: State)
    requires Orderly(s)
    ensures Orderly(InitFailure(s))
  {
    match s.init
    case Starting => assert forall i :: Effective(InitFailure(s), i) <==> Effective(s, i);
    case Announced => assert forall i :: Effective(InitFailure(s), i) <==> Effective(s, i);
    case Connecting => RejectedKeepsOrder(s);
    case Joining => RejectedKeepsOrder(s);
    case StartingServices => RejectedKeepsOrder(s);
    case SendingState => RejectedKeepsOrder(s);
    case _ =>
  }

  /** The one effective shutdown call moves on, logging the next stretch of a life. */
  lemma ProgressKeepsOrder(s: State, s': State, i: nat, d: Shutdown, more: seq<Entry>)
    requires Orderly(s) && Effective(s, i) && d != Ignored
    requires s' == s.(shutdowns := s.shutdowns[i := d], log := s.log + more)
    requires forall e :: e in more ==> !e.AttemptStarted?
    requires 3 <= Reached(d) <= 8 && LIFE[..Reached(d)] == LIFE[..Reached(s.shutdowns[i])] + more
    ensures Orderly(s')
  {
    MilestonesAppend(s.log, more);
    assert forall j :: Effective(s', j) <==> Effective(s, j);
  }

  lemma ShutdownStepKeepsOrder(s: State, i: nat)
    requires Orderly(s)
    ensures Orderly(ShutdownStep(s, i))
  {
    if i < |s.shutdowns| {
      var s' := ShutdownStep(s, i);
      match s.shutdowns[i]
      case Begun => ProgressKeepsOrder(s, s', i, AwaitingCp, [LocalTeardown]);
      case AwaitingCp =>
        ProgressKeepsOrder(s, s', i, ServicesShut, [CpShutdownResolved, InvocationServiceShut, ConnectionManagerShut]);
      case ServicesShut => ProgressKeepsOrder(s, s', i, Finished, [Emitted(SHUTDOWN)]);
      case _ =>
    }
  }

  lemma ShutdownFailureKeepsOrder(s: State, i: nat, completed: nat)
    requires Orderly(s)
    ensures Orderly(ShutdownFailure(s, i, completed))
  {
    if i < |s.shutdowns| {
      var s' := ShutdownFailure(s, i, completed);
      match s.shutdowns[i]
      case Begun =>
        assert s.log + [] == s.log;
        ProgressKeepsOrder(s, s', i, Abandoned(3), []);
      case AwaitingCp =>
        var done := if completed < 3 then completed else 2;
        ProgressKeepsOrder(s, s', i, Abandoned(4 + done), [CpShutdownResolved, InvocationServiceShut][..done]);
      case _ =>
    }
  }

  lemma FailoverKeepsOrder(s: State, a: Action)
    requires Orderly(s) && (a.FailoverCall? || a.AttemptResolved? || a.AttemptRejected?)
    ensures Orderly(Step(s, a))
  {
    var s' := Step(s, a);
    assert s'.log == s.log || exists c, k :: s'.log == s.log + [AttemptStarted(c, k)];
    if s'.log != s.log {
      var c, k :| s'.log == s.log + [AttemptStarted(c, k)];
      MilestonesSnoc(s.log, AttemptStarted(c, k));
    }
    assert forall i :: Effective(s', i) <==> Effective(s, i);
  }

  lemma StepKeepsOrder(s: State, a: Action)
    requires Orderly(s)
    ensures Orderly(Step(s, a))
  {
    match a
    case InitProceed => InitKeepsOrder(s);
    case InitFail => InitFailureKeepsOrder(s);
    case ShutdownCall =>
      if s.init.NotCalled? || s.init.Starting? { IdleShutdownCallKeepsOrder(s); } else { ShutdownCallKeepsOrder(s); }
    case ShutdownProceed(i) => ShutdownStepKeepsOrder(s, i);
    case ShutdownFail(i, completed) => ShutdownFailureKeepsOrder(s, i, completed);
    case _ => FailoverKeepsOrder(s, a);
  }

  lemma {:induction false} RunsAreOrderly(maxTryCount: nat, actions: seq<Action>)
    ensures Orderly(Run(Fresh(maxTryCount), actions))
  {
    if actions == [] {
    } else {
      RunsAreOrderly(maxTryCount, actions[..|actions| - 1]);
      StepKeepsOrder(Run(Fresh(maxTryCount), actions[..|actions| - 1]), actions[|actions| - 1]);
    }
  }

  // ---------------------------------------------------------------- what the order gives

  /**
    Whatever start, shutdown calls, listeners and failures do, a client only ever moves
    along its one life. So nothing happens twice, and SHUTDOWN is emitted only after the CP
    shutdown resolved and the invocation service and connection manager were shut.
   */
  lemma LifeIsAPrefix(maxTryCount: nat, actions: seq<Action>)
    ensures Milestones(Run(Fresh(maxTryCount), actions).log) <= LIFE
  {
    var s := Run(Fresh(maxTryCount), actions);
    RunsAreOrderly(maxTryCount, actions);
    if i :| Effective(s, i) {
      assert Milestones(s.log) == LIFE[..Reached(s.shutdowns[i])];
    }
  }

  lemma {:induction false} EventsOfMilestones(log: seq<Entry>)
    ensures Events(Milestones(log)) == Events(log)
  {
    if log == [] {
    } else {
      var n := |log| - 1;
      EventsOfMilestones(log[..n]);
      assert (Milestones(log[..n]) + [log[n]])[..|Milestones(log[..n])|] == Milestones(log[..n]);
    }
  }

  lemma {:induction false} EventsOfPrefix(a: seq<Entry>, b: seq<Entry>)
    requires a <= b
    ensures Events(a) <= Events(b)
  {
    if a == b {
    } else {
      EventsOfPrefix(a, b[..|b| - 1]);
    }
  }

  lemma EventsOfLife()
    ensures Events(LIFE) == [STARTING, STARTED, SHUTTING_DOWN, SHUTDOWN]
  {
    assert LIFE[..1] == [LIFE[0]] && LIFE[..1][..0] == [];
    assert LIFE[..2][..1] == LIFE[..1] && LIFE[..3][..2] == LIFE[..2] && LIFE[..4][..3] == LIFE[..3];
    assert LIFE[..5][..4] == LIFE[..4] && LIFE[..6][..5] == LIFE[..5] && LIFE[..7][..6] == LIFE[..6];
    assert Events(LIFE[..1]) == [STARTING];
    assert Events(LIFE[..2]) == [STARTING, STARTED];
    assert Events(LIFE[..3]) == [STARTING, STARTED, SHUTTING_DOWN];
    assert Events(LIFE[..4]) == Events(LIFE[..3]);
    assert Events(LIFE[..5]) == Events(LIFE[..4]);
    assert Events(LIFE[..6]) == Events(LIFE[..5]);
    assert Events(LIFE[..7]) == Events(LIFE[..6]);
  }

  /** What is emitted is a prefix of the four events in order. */
  lemma EventOrder(maxTryCount: nat, actions: seq<Action>)
    ensures Events(Run(Fresh(maxTryCount), actions).log) <= [STARTING, STARTED, SHUTTING_DOWN, SHUTDOWN]
  {
    var log := Run(Fresh(maxTryCount), actions).log;
    LifeIsAPrefix(maxTryCount, actions);
    EventsOfMilestones(log);
    EventsOfPrefix(Milestones(log), LIFE);
    EventsOfLife();
  }

  /** At most one of the shutdown calls does any teardown; a client is running until that call. */
  lemma SingleTeardown(maxTryCount: nat, actions: seq<Action>, i: int, j: int)
    requires Effective(Run(Fresh(maxTryCount), actions), i)
    ensures !Run(Fresh(maxTryCount), actions).active
    ensures Effective(Run(Fresh(maxTryCount), actions), j) ==> i == j
  {
    RunsAreOrderly(maxTryCount, actions);
  }

  /**
    Once a started client has stopped running and no shutdown call is still under way or
    was abandoned, its whole life is over.
   */
  lemma QuietMeansComplete(maxTryCount: nat, actions: seq<Action>)
    requires var s := Run(Fresh(maxTryCount), actions);
             && Emitted(STARTED) in Milestones(s.log)
             && !s.active
             && forall d :: d in s.shutdowns ==> d.Ignored? || d.Finished?
    ensures Milestones(Run(Fresh(maxTryCount), actions).log) == LIFE
  {
    var s := Run(Fresh(maxTryCount), actions);
    RunsAreOrderly(maxTryCount, actions);
    assert exists i :: Effective(s, i);
    var i :| Effective(s, i);
    assert s.shutdowns[i] in s.shutdowns;
    assert LIFE[..8] == LIFE;
  }

  /** A start that fails once connecting has begun never leaves the client running. */
  lemma {:induction false} RejectedStartStops(maxTryCount: nat, actions: seq<Action>)
    ensures Run(Fresh(maxTryCount), actions).init.Rejected? ==> !Run(Fresh(maxTryCount), actions).active
  {
    if actions == [] {
    } else {
      RejectedStartStops(maxTryCount, actions[..|actions| - 1]);
    }
  }

  /**
    A failed start leaves the client running exactly if the failure came before connecting
    and neither a shutdown nor anything else has come after STARTED.
   */
  lemma {:induction false} FailedStartRunsIff(maxTryCount: nat, actions: seq<Action>)
    requires var init := Run(Fresh(maxTryCount), actions).init; init.Thrown? || init.Rejected?
    ensures var s := Run(Fresh(maxTryCount), actions);
            s.active <==> s.init.Thrown? && Milestones(s.log) == LIFE[..2]
  {
    var s := Run(Fresh(maxTryCount), actions);
    RunsAreOrderly(maxTryCount, actions);
    RejectedStartStops(maxTryCount, actions);
    assert forall k :: 0 <= k <= 8 ==> |LIFE[..k]| == k;
    if !s.active && (exists i :: Effective(s, i)) {
      var i :| Effective(s, i);
      assert |Milestones(s.log)| == Reached(s.shutdowns[i]);
    }
  }

  /** A start that throws right after STARTED leaves the client running. */
  lemma ThrownStartRuns(maxTryCount: nat)
    ensures var s := Run(Fresh(maxTryCount), [InitProceed, InitProceed, InitFail]);
            s.init.Thrown? && s.active
  {
    var s := Fresh(maxTryCount);
    assert Run(s, [InitProceed]) == Step(s, InitProceed) by {
      RunSnoc(s, [], InitProceed);
    }
    assert Run(s, [InitProceed, InitProceed]) == Step(Step(s, InitProceed), InitProceed) by {
      RunSnoc(s, [InitProceed], InitProceed);
    }
    RunSnoc(s, [InitProceed, InitProceed], InitFail);
    assert [InitProceed, InitProceed] + [InitFail] == [InitProceed, InitProceed, InitFail];
  }
}
