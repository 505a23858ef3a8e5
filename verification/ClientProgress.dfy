/**
  How far start and shutdown come, told by the actions of a run alone: how often each was
  taken a step further, whether it failed, and what the failure does.
 */
module ClientProgress {
  import opened ClientMachine
  import opened ClientLifecycle

  /** How often start has been taken a step further. */
  function StartSteps(actions: seq<Action>): nat {
    if actions == [] then 0
    else
      StartSteps(actions[..|actions| - 1]) + if actions[|actions| - 1].InitProceed? then 1 else 0
  }

  /** How often shutdown call `i` has been taken a step further. */
  function ShutdownSteps(actions: seq<Action>, i: nat): nat {
    if actions == [] then 0
    else
      var a := actions[|actions| - 1];
      ShutdownSteps(actions[..|actions| - 1], i) + if a.ShutdownProceed? && a.shutdown == i then 1 else 0
  }

  // ---------------------------------------------------------------- start

  /** The stage of start after the given number of steps. */
  function StageAfter(steps: nat): Init {
    if steps == 0 then NotCalled
    else if steps == 1 then Starting
    else if steps == 2 then Announced
    else if steps == 3 then Connecting
    else if steps == 4 then Joining
    else if steps == 5 then StartingServices
    else if steps == 6 then SendingState
    else Initialized
  }

  lemma {:induction false} StartStage(maxTryCount: nat, actions: seq<Action>)
    requires InitFail !in actions
    ensures Run(Fresh(maxTryCount), actions).init == StageAfter(StartSteps(actions))
  {
    if actions == [] {
    } else {
      var n := |actions| - 1;
      StartStage(maxTryCount, actions[..n]);
      assert actions[n] in actions;
    }
  }

  lemma EventsSnoc(log: seq<Entry>, e: Entry)
    ensures Events(log + [e]) == if e.Emitted? then Events(log) + [e.state] else Events(log)
  {
    assert (log + [e])[..|log|] == log;
  }

  /** What has happened after so many steps of start and nothing that stops the client. */
  ghost predicate Begins(s: State, steps: nat) {
    && (s.active <==> steps >= 2)
    && s.shutdowns == []
    && Events(s.log) == [STARTING, STARTED][..if steps < 2 then steps else 2]
  }

  lemma {:induction false} StartStepBegins(s: State, steps: nat)
    requires Begins(s, steps) && s.init == StageAfter(steps)
    ensures Begins(InitStep(s), steps + 1)
  {
    EventsSnoc(s.log, Emitted(STARTING));
    EventsSnoc(s.log, Emitted(STARTED));
  }

  lemma {:induction false} OtherStepBegins(s: State, a: Action, steps: nat)
    requires Begins(s, steps) && a != InitProceed && a != InitFail && a != ShutdownCall
    ensures Begins(Step(s, a), steps)
  {
    var s' := Step(s, a);
    if s'.log != s.log {
      EventsSnoc(s.log, s'.log[|s.log|]);
      assert s'.log == s.log + [s'.log[|s.log|]];
    }
  }

  /**
    While nothing fails and nobody shuts the client down, STARTING is emitted with the first
    step of start and STARTED with the second; from then on, and not before, it runs.
   */
  lemma {:induction false} StartProgress(maxTryCount: nat, actions: seq<Action>)
    requires InitFail !in actions && ShutdownCall !in actions
    ensures var s, steps := Run(Fresh(maxTryCount), actions), StartSteps(actions);
            && (s.active <==> steps >= 2)
            && s.shutdowns == []
            && Events(s.log) == [STARTING, STARTED][..if steps < 2 then steps else 2]
  {
    if actions == [] {
    } else {
      var front, a := actions[..|actions| - 1], actions[|actions| - 1];
      assert a in actions;
      StartProgress(maxTryCount, front);
      StartStage(maxTryCount, front);
      if a.InitProceed? {
        StartStepBegins(Run(Fresh(maxTryCount), front), StartSteps(front));
      } else {
        OtherStepBegins(Run(Fresh(maxTryCount), front), a, StartSteps(front));
      }
    }
  }

  /**
    What a failure of start does, told by how far start had come. Within the first two steps
    it is rethrown and the client stays as it is. After the third step, and until the
    seventh, the client does not run afterwards: if it ran, SHUTTING_DOWN is emitted and one
    more shutdown call is under way.
   */
  lemma {:induction false} FailedStart(maxTryCount: nat, actions: seq<Action>)
    requires InitFail !in actions
    ensures var s := Run(Fresh(maxTryCount), actions);
            var s', steps := Run(Fresh(maxTryCount), actions + [InitFail]), StartSteps(actions);
            && (steps < 3 || steps > 6 ==> s'.active == s.active && s'.log == s.log && s'.shutdowns == s.shutdowns)
            && (3 <= steps <= 6 ==>
                  && !s'.active
                  && s'.log == (if s.active then s.log + [Emitted(SHUTTING_DOWN)] else s.log)
                  && s'.shutdowns == s.shutdowns + [if s.active then Begun else Ignored])
            && s'.index == s.index && s'.calls == s.calls
  {
    StartStage(maxTryCount, actions);
    RunSnoc(Fresh(maxTryCount), actions, InitFail);
  }

  ghost predicate StartOver(s: State) {
    s.init.Thrown? || s.init.Rejected?
  }

  lemma {:induction false} OverStays(s: State, more: seq<Action>)
    requires StartOver(s)
    ensures Run(s, more).init == s.init
  {
    if more == [] {
    } else {
      OverStays(s, more[..|more| - 1]);
    }
  }

  /** A failure after the first and before the seventh step ends start: no later step of it does anything. */
  lemma FailedStartIsOver(maxTryCount: nat, actions: seq<Action>, more: seq<Action>)
    requires InitFail !in actions && 1 <= StartSteps(actions) <= 6
    ensures var s := Run(Fresh(maxTryCount), actions + [InitFail] + more);
            Step(s, InitProceed) == s && Step(s, InitFail) == s
  {
    StartStage(maxTryCount, actions);
    RunSnoc(Fresh(maxTryCount), actions, InitFail);
    RunConcat(Fresh(maxTryCount), actions + [InitFail], more);
    OverStays(Run(Fresh(maxTryCount), actions + [InitFail]), more);
  }

  // ---------------------------------------------------------------- shutdown

  /** How much of a life is over once an effective shutdown call has been taken this far. */
  function LifeAfter(steps: nat): nat {
    if steps == 0 then 3 else if steps == 1 then 4 else if steps == 2 then 7 else 8
  }

  ghost predicate FailsShutdown(a: Action, i: nat) {
    a.ShutdownFail? && a.shutdown == i
  }

  /** Call `i` has been taken the given number of steps and has not failed. */
  ghost predicate At(s: State, i: nat, steps: nat) {
    && i < |s.shutdowns| && s.shutdowns[i] != Ignored && !s.shutdowns[i].Abandoned?
    && Reached(s.shutdowns[i]) == LifeAfter(steps)
  }

  lemma {:induction false} StepAt(s: State, a: Action, i: nat, steps: nat)
    requires At(s, i, steps) && !FailsShutdown(a, i)
    ensures At(Step(s, a), i, if a.ShutdownProceed? && a.shutdown == i then steps + 1 else steps)
  {
  }

  lemma {:induction false} ShutdownStage(s: State, more: seq<Action>, i: nat)
    requires At(s, i, 0) && forall a :: a in more ==> !FailsShutdown(a, i)
    ensures At(Run(s, more), i, ShutdownSteps(more, i))
  {
    if more == [] {
    } else {
      var front, a := more[..|more| - 1], more[|more| - 1];
      assert a in more;
      assert forall b :: b in front ==> b in more;
      ShutdownStage(s, front, i);
      StepAt(Run(s, front), a, i, ShutdownSteps(front, i));
    }
  }

  lemma {:induction false} OrderlyAt(s: State, i: nat, steps: nat)
    requires Orderly(s) && At(s, i, steps)
    ensures !s.active && Milestones(s.log) == LIFE[..LifeAfter(steps)]
  {
    assert Effective(s, i);
  }

  /**
    A shutdown call on a running client goes through the rest of its life, however its steps
    are interleaved with anything else and as long as it does not fail itself: after no, one,
    two and three steps of it, 3, 4, 7 and all 8 of the milestones have happened.
   */
  lemma {:induction false} ShutdownProgress(maxTryCount: nat, before: seq<Action>, more: seq<Action>)
    requires Run(Fresh(maxTryCount), before).active
    requires var i := |Run(Fresh(maxTryCount), before).shutdowns|; forall a :: a in more ==> !FailsShutdown(a, i)
    ensures var i := |Run(Fresh(maxTryCount), before).shutdowns|;
            var s := Run(Fresh(maxTryCount), before + [ShutdownCall] + more);
            && !s.active
            && Milestones(s.log) == LIFE[..LifeAfter(ShutdownSteps(more, i))]
  {
    var i := |Run(Fresh(maxTryCount), before).shutdowns|;
    RunSnoc(Fresh(maxTryCount), before, ShutdownCall);
    RunConcat(Fresh(maxTryCount), before + [ShutdownCall], more);
    ShutdownStage(Run(Fresh(maxTryCount), before + [ShutdownCall]), more, i);
    RunsAreOrderly(maxTryCount, before + [ShutdownCall] + more);
    OrderlyAt(Run(Fresh(maxTryCount), before + [ShutdownCall] + more), i, ShutdownSteps(more, i));
  }

  /** The shutdown that a failed start begins goes the same way. */
  lemma {:induction false} FailedStartShutsDown(maxTryCount: nat, before: seq<Action>, more: seq<Action>)
    requires InitFail !in before && 3 <= StartSteps(before) <= 6 && Run(Fresh(maxTryCount), before).active
    requires var i := |Run(Fresh(maxTryCount), before).shutdowns|; forall a :: a in more ==> !FailsShutdown(a, i)
    ensures var i := |Run(Fresh(maxTryCount), before).shutdowns|;
            var s := Run(Fresh(maxTryCount), before + [InitFail] + more);
            && !s.active
            && Milestones(s.log) == LIFE[..LifeAfter(ShutdownSteps(more, i))]
  {
    var i := |Run(Fresh(maxTryCount), before).shutdowns|;
    FailedStart(maxTryCount, before);
    RunConcat(Fresh(maxTryCount), before + [InitFail], more);
    ShutdownStage(Run(Fresh(maxTryCount), before + [InitFail]), more, i);
    RunsAreOrderly(maxTryCount, before + [InitFail] + more);
    OrderlyAt(Run(Fresh(maxTryCount), before + [InitFail] + more), i, ShutdownSteps(more, i));
  }

  lemma {:induction false} AbandonedStays(s: State, more: seq<Action>, i: nat)
    requires i < |s.shutdowns| && s.shutdowns[i].Abandoned?
    ensures i < |Run(s, more).shutdowns| && Run(s, more).shutdowns[i] == s.shutdowns[i]
  {
    if more == [] {
    } else {
      AbandonedStays(s, more[..|more| - 1], i);
    }
  }

  lemma {:induction false} FailureAt(s: State, i: nat, steps: nat, completed: nat)
    requires At(s, i, steps) && steps <= 1
    ensures var d := ShutdownFailure(s, i, completed).shutdowns[i];
            d == Abandoned(if steps == 0 then 3 else 4 + if completed < 3 then completed else 2)
  {
  }

  lemma {:induction false} OrderlyAbandoned(s: State, i: nat, reached: nat)
    requires Orderly(s) && i < |s.shutdowns| && s.shutdowns[i] == Abandoned(reached) && reached <= 6
    ensures Milestones(s.log) == LIFE[..reached] && Emitted(SHUTDOWN) !in Milestones(s.log)
  {
    assert Effective(s, i);
  }

  /**
    A shutdown that fails in its first or second step never comes to its end: whatever
    follows, exactly the milestones reached stay, with those of the second step that were
    completed, and SHUTDOWN is not emitted.
   */
  lemma {:induction false} FailedShutdown(maxTryCount: nat, before: seq<Action>, more: seq<Action>, completed: nat,
                                          rest: seq<Action>)
    requires Run(Fresh(maxTryCount), before).active
    requires var i := |Run(Fresh(maxTryCount), before).shutdowns|;
             ShutdownSteps(more, i) <= 1 && forall a :: a in more ==> !FailsShutdown(a, i)
    ensures var i := |Run(Fresh(maxTryCount), before).shutdowns|;
            var s := Run(Fresh(maxTryCount), before + [ShutdownCall] + more + [ShutdownFail(i, completed)] + rest);
            var done := if completed < 3 then completed else 2;
            && Milestones(s.log) == LIFE[..if ShutdownSteps(more, i) == 0 then 3 else 4 + done]
            && Emitted(SHUTDOWN) !in Milestones(s.log)
  {
    var s0 := Fresh(maxTryCount);
    var i := |Run(s0, before).shutdowns|;
    var failing := before + [ShutdownCall] + more;
    var failed := failing + [ShutdownFail(i, completed)];
    RunSnoc(s0, before, ShutdownCall);
    RunConcat(s0, before + [ShutdownCall], more);
    ShutdownStage(Run(s0, before + [ShutdownCall]), more, i);
    RunSnoc(s0, failing, ShutdownFail(i, completed));
    FailureAt(Run(s0, failing), i, ShutdownSteps(more, i), completed);
    RunConcat(s0, failed, rest);
    AbandonedStays(Run(s0, failed), rest, i);
    RunsAreOrderly(maxTryCount, failed + rest);
    OrderlyAbandoned(Run(s0, failed + rest), i, Run(s0, failed).shutdowns[i].reached);
  }
}
