/** Cluster failover: what every interleaving keeps, and what one undisturbed call does. */
module ClientFailover {
  import opened ClientMachine
  import opened ClientLifecycle
  import opened RoundRobin

  // ---------------------------------------------------------------- every interleaving

  /** A step only adds to the log, and an attempt is added alone, by a running client. */
  lemma StepExtendsLog(s: State, a: Action)
    ensures s.log <= Step(s, a).log
    ensures forall j :: |s.log| <= j < |Step(s, a).log| && Step(s, a).log[j].AttemptStarted? ==>
              s.active && j == |s.log|
  {
  }

  /** Whenever an attempt starts, the client has started and has not begun to shut down. */
  ghost predicate AttemptsInsideLife(log: seq<Entry>) {
    forall j :: 0 <= j < |log| && log[j].AttemptStarted? ==> Milestones(log[..j]) == LIFE[..2]
  }

  lemma {:induction false} NoAttemptOutsideLife(maxTryCount: nat, actions: seq<Action>)
    ensures AttemptsInsideLife(Run(Fresh(maxTryCount), actions).log)
  {
    if actions == [] {
    } else {
      var n := |actions| - 1;
      var s := Run(Fresh(maxTryCount), actions[..n]);
      var s' := Step(s, actions[n]);
      NoAttemptOutsideLife(maxTryCount, actions[..n]);
      RunsAreOrderly(maxTryCount, actions[..n]);
      StepExtendsLog(s, actions[n]);
      forall j | 0 <= j < |s'.log| && s'.log[j].AttemptStarted?
        ensures Milestones(s'.log[..j]) == LIFE[..2]
      {
        if j < |s.log| {
          assert s'.log[..j] == s.log[..j] && s'.log[j] == s.log[j];
        } else {
          assert s'.log[..j] == s.log;
        }
      }
    }
  }

  lemma {:induction false} MilestonesKeepEntry(log: seq<Entry>, i: nat)
    requires i < |log| && !log[i].AttemptStarted?
    ensures log[i] in Milestones(log)
  {
    var n := |log| - 1;
    if i == n {
    } else {
      MilestonesKeepEntry(log[..n], i);
    }
  }

  /** No attempt follows the start of a shutdown. */
  lemma NoAttemptAfterShutdown(maxTryCount: nat, actions: seq<Action>, i: nat, j: nat)
    requires var log := Run(Fresh(maxTryCount), actions).log;
             i < |log| && j < |log| && log[i] == Emitted(SHUTTING_DOWN) && log[j].AttemptStarted?
    ensures j < i
  {
    var log := Run(Fresh(maxTryCount), actions).log;
    NoAttemptOutsideLife(maxTryCount, actions);
    if i < j {
      MilestonesKeepEntry(log[..j], i);
      assert false;
    }
  }

  /** The attempts in the log, and those of one call. */
  function Attempts(log: seq<Entry>): seq<Entry> {
    if log == [] then []
    else
      var front := Attempts(log[..|log| - 1]);
      if log[|log| - 1].AttemptStarted? then front + [log[|log| - 1]] else front
  }

  function AttemptsBy(log: seq<Entry>, c: nat): nat {
    if log == [] then 0
    else
      AttemptsBy(log[..|log| - 1], c)
      + if log[|log| - 1].AttemptStarted? && log[|log| - 1].call == c then 1 else 0
  }

  /** How many attempts a call has started. */
  function Made(call: Call): nat {
    match call
    case Awaiting(tryCount, _) => tryCount + 1
    case Settled(_, made) => made
  }

  /** The shared index counts the attempts of all calls, and each call stays within its budget. */
  ghost predicate Accounted(s: State) {
    && |Attempts(s.log)| == s.index
    && (forall k :: 0 <= k < s.index ==> Attempts(s.log)[k].AttemptStarted? && Attempts(s.log)[k].index == k + 1)
    && (forall c :: 0 <= c < |s.calls| ==> AttemptsBy(s.log, c) == Made(s.calls[c]) <= s.maxTryCount)
    && (forall c :: 0 <= c < |s.calls| && s.calls[c].Awaiting? ==> s.calls[c].index <= s.index)
    && (forall c :: c >= |s.calls| ==> AttemptsBy(s.log, c) == 0)
  }

  lemma AttemptsSnoc(log: seq<Entry>, e: Entry)
    ensures Attempts(log + [e]) == if e.AttemptStarted? then Attempts(log) + [e] else Attempts(log)
    ensures forall c: nat ::
              AttemptsBy(log + [e], c) == AttemptsBy(log, c) + if e.AttemptStarted? && e.call == c then 1 else 0
  {
    assert (log + [e])[..|log|] == log;
  }

  lemma {:induction false} AttemptsUnchanged(log: seq<Entry>, more: seq<Entry>)
    requires forall e :: e in more ==> !e.AttemptStarted?
    ensures Attempts(log + more) == Attempts(log)
    ensures forall c: nat :: AttemptsBy(log + more, c) == AttemptsBy(log, c)
  {
    if more == [] {
      assert log + more == log;
    } else {
      var n := |more| - 1;
      AttemptsUnchanged(log, more[..n]);
      AttemptsSnoc(log + more[..n], more[n]);
      assert log + more == log + more[..n] + [more[n]];
    }
  }

  /** A call starts at most one new attempt of its own. */
  lemma {:induction false} CallKeepsAccounts(s: State, s': State, c: nat, tryCount: nat)
    requires Accounted(s) && c <= |s.calls| && tryCount <= s.maxTryCount
    requires AttemptsBy(s.log, c) == tryCount
    requires var (t, k) := DoTryNextCluster(s, c, tryCount);
             s' == t.(calls := if c < |s.calls| then s.calls[c := k] else s.calls + [k])
    ensures Accounted(s')
  {
    AttemptsSnoc(s.log, AttemptStarted(c, s.index + 1));
  }

  /** The calls are as they were, and what was logged since are no attempts. */
  ghost predicate OnlyLogs(s: State, s': State) {
    && s'.index == s.index && s'.calls == s.calls && s'.maxTryCount == s.maxTryCount
    && s.log <= s'.log && forall e :: e in s'.log[|s.log|..] ==> !e.AttemptStarted?
  }

  lemma AddedOnlyLogs(s: State, s': State, more: seq<Entry>)
    requires s'.index == s.index && s'.calls == s.calls && s'.maxTryCount == s.maxTryCount
    requires s'.log == s.log + more && forall e :: e in more ==> !e.AttemptStarted?
    ensures OnlyLogs(s, s')
  {
    assert s'.log[|s.log|..] == more;
  }

  lemma {:induction false} InitOnlyLogs(s: State)
    ensures OnlyLogs(s, InitStep(s))
  {
    AddedOnlyLogs(s, InitStep(s), if s.init.NotCalled? then [Emitted(STARTING)]
                                  else if s.init.Starting? then [Emitted(STARTED)] else []);
  }

  lemma {:induction false} CallShutdownOnlyLogs(s: State)
    ensures OnlyLogs(s, CallShutdown(s))
  {
    AddedOnlyLogs(s, CallShutdown(s), if s.active then [Emitted(SHUTTING_DOWN)] else []);
  }

  lemma {:induction false} InitFailureOnlyLogs(s: State)
    ensures OnlyLogs(s, InitFailure(s))
  {
    CallShutdownOnlyLogs(s.(init := Rejected));
  }

  lemma {:induction false} ShutdownOnlyLogs(s: State, i: nat)
    ensures OnlyLogs(s, ShutdownStep(s, i))
  {
    var more := ShutdownStep(s, i).log[|s.log|..];
    AddedOnlyLogs(s, ShutdownStep(s, i), more);
  }

  lemma {:induction false} ShutdownFailureOnlyLogs(s: State, i: nat, completed: nat)
    ensures OnlyLogs(s, ShutdownFailure(s, i, completed))
  {
    var more := ShutdownFailure(s, i, completed).log[|s.log|..];
    AddedOnlyLogs(s, ShutdownFailure(s, i, completed), more);
  }

  lemma {:induction false} OthersKeepCalls(s: State, a: Action)
    requires !a.FailoverCall? && !a.AttemptResolved? && !a.AttemptRejected?
    ensures OnlyLogs(s, Step(s, a))
  {
    match a
    case InitProceed => InitOnlyLogs(s);
    case InitFail => InitFailureOnlyLogs(s);
    case ShutdownCall => CallShutdownOnlyLogs(s);
    case ShutdownProceed(i) => ShutdownOnlyLogs(s, i);
    case ShutdownFail(i, completed) => ShutdownFailureOnlyLogs(s, i, completed);
  }

  lemma OthersKeepAccounts(s: State, s': State)
    requires Accounted(s) && OnlyLogs(s, s')
    ensures Accounted(s')
  {
    var more := s'.log[|s.log|..];
    assert s'.log == s.log + more;
    AttemptsUnchanged(s.log, more);
  }

  lemma StepKeepsAccounts(s: State, a: Action)
    requires Accounted(s)
    ensures Accounted(Step(s, a))
  {
    match a
    case FailoverCall => CallKeepsAccounts(s, Step(s, a), |s.calls|, 0);
    case AttemptResolved(c, connected) =>
      if c < |s.calls| && s.calls[c].Awaiting? && !connected {
        var t := s.calls[c].tryCount + 1;
        CallKeepsAccounts(s, Step(s, a), c, t);
      }
    case AttemptRejected(c) =>
    case _ =>
      OthersKeepCalls(s, a);
      OthersKeepAccounts(s, Step(s, a));
  }

  /**
    Over every interleaving of failover calls, start and shutdown: the index has advanced by
    exactly the number of attempts, the attempts used the indexes 1, 2, 3, ... in order, and
    no call has made more than `maxTryCount` of them.
   */
  lemma {:induction false} RunsAreAccounted(maxTryCount: nat, actions: seq<Action>)
    ensures Accounted(Run(Fresh(maxTryCount), actions))
    ensures Run(Fresh(maxTryCount), actions).maxTryCount == maxTryCount
  {
    if actions == [] {
    } else {
      RunsAreAccounted(maxTryCount, actions[..|actions| - 1]);
      StepKeepsAccounts(Run(Fresh(maxTryCount), actions[..|actions| - 1]), actions[|actions| - 1]);
    }
  }

  // ---------------------------------------------------------------- every call ends

  /** How often attempts of call `c` have resolved in a run. */
  function Resolutions(actions: seq<Action>, c: nat): nat {
    if actions == [] then 0
    else
      Resolutions(actions[..|actions| - 1], c)
      + if actions[|actions| - 1].AttemptResolved? && actions[|actions| - 1].call == c then 1 else 0
  }

  /** A call still waiting has used up one unit of its budget for every resolution. */
  lemma {:induction false} WaitingCallHasProgressed(s: State, actions: seq<Action>, c: nat)
    requires c < |s.calls| && s.calls[c].Awaiting?
    ensures c < |Run(s, actions).calls|
    ensures Run(s, actions).calls[c].Awaiting? ==>
              Run(s, actions).calls[c].tryCount == s.calls[c].tryCount + Resolutions(actions, c)
  {
    if actions == [] {
    } else {
      WaitingCallHasProgressed(s, actions[..|actions| - 1], c);
    }
  }

  lemma {:induction false} SettledStays(s: State, actions: seq<Action>, c: nat)
    requires c < |s.calls| && s.calls[c].Settled?
    ensures c < |Run(s, actions).calls| && Run(s, actions).calls[c] == s.calls[c]
  {
    if actions == [] {
    } else {
      SettledStays(s, actions[..|actions| - 1], c);
    }
  }

  /** A call is settled for good once as many attempts have resolved as its budget had left, whatever else happens. */
  lemma CallsEnd(maxTryCount: nat, before: seq<Action>, after: seq<Action>, c: nat)
    requires c < |Run(Fresh(maxTryCount), before).calls|
    requires var call := Run(Fresh(maxTryCount), before).calls[c];
             call.Settled? || Resolutions(after, c) >= maxTryCount - call.tryCount
    ensures var s := Run(Fresh(maxTryCount), before + after);
            c < |s.calls| && s.calls[c].Settled?
  {
    var s := Run(Fresh(maxTryCount), before);
    RunConcat(Fresh(maxTryCount), before, after);
    RunsAreAccounted(maxTryCount, before + after);
    if s.calls[c].Awaiting? {
      WaitingCallHasProgressed(s, after, c);
    } else {
      SettledStays(s, after, c);
    }
  }

  // ---------------------------------------------------------------- one undisturbed call

  /** Position in the ring of `n` candidate clusters. */
  function Position(index: nat, n: nat): (p: nat)
    requires n > 0
    ensures p < n
  {
    index % n
  }

  /** The actions by which the attempts of call `c` resolve one after the other. */
  function Resolving(c: nat, outcomes: seq<bool>): seq<Action> {
    if outcomes == [] then []
    else Resolving(c, outcomes[..|outcomes| - 1]) + [AttemptResolved(c, outcomes[|outcomes| - 1])]
  }

  /** Attempts that `outcomes` calls for: up to and including the first success. */
  function Needed(outcomes: seq<bool>): (m: nat)
    ensures m <= |outcomes|
    ensures forall i :: 0 <= i < m - 1 ==> !outcomes[i]
    ensures true in outcomes ==> m > 0 && outcomes[m - 1]
    ensures true !in outcomes ==> m == |outcomes|
  {
    if outcomes == [] then 0
    else if outcomes[0] then 1
    else 1 + Needed(outcomes[1..])
  }

  lemma {:induction false} NeededSnoc(front: seq<bool>, last: bool)
    ensures Needed(front + [last]) == if true in front then Needed(front) else |front| + 1
  {
    if front == [] {
    } else {
      assert (front + [last])[1..] == front[1..] + [last];
      NeededSnoc(front[1..], last);
    }
  }

  /** Log entries of `m` attempts of call `c` following index `start`. */
  function AttemptEntries(c: nat, start: nat, m: nat): seq<Entry> {
    if m == 0 then [] else AttemptEntries(c, start, m - 1) + [AttemptStarted(c, start + m)]
  }

  /** Call `c` of an undisturbed run after the given outcomes, none of which exceeds the budget. */
  function CallAfter(s: State, outcomes: seq<bool>): (Call, nat)
    requires |outcomes| <= s.maxTryCount
  {
    var m := Needed(outcomes);
    if true in outcomes then (Settled(Fulfilled(true), m), m)
    else if m == s.maxTryCount then (Settled(Fulfilled(false), m), m)
    else (Awaiting(m, s.index + m + 1), m + 1)
  }

  function After(s: State, outcomes: seq<bool>): State
    requires |outcomes| <= s.maxTryCount
  {
    var (call, m) := CallAfter(s, outcomes);
    s.(calls := s.calls + [call], index := s.index + m, log := s.log + AttemptEntries(|s.calls|, s.index, m))
  }

  lemma FirstAttempt(s: State)
    requires s.active
    ensures Step(s, FailoverCall) == After(s, [])
  {
    var c := |s.calls|;
    assert AttemptEntries(c, s.index, 1) == AttemptEntries(c, s.index, 0) + [AttemptStarted(c, s.index + 1)];
    assert s.log + AttemptEntries(c, s.index, 0) == s.log;
  }

  lemma NextAttempt(s: State, front: seq<bool>, last: bool)
    requires s.active && |front| < s.maxTryCount
    ensures Step(After(s, front), AttemptResolved(|s.calls|, last)) == After(s, front + [last])
  {
    NeededSnoc(front, last);
    var c, t := |s.calls|, After(s, front);
    var (call, m) := CallAfter(s, front);
    assert t.calls[c] == call;
    assert s.calls + [call][0 := call] == s.calls + [call];
    if true in front {
      assert true in front + [last];
    } else {
      assert true in front + [last] <==> last;
      assert forall k: Call :: t.calls[c := k] == s.calls + [k];
      assert t.log + [AttemptStarted(c, s.index + m + 1)] == s.log + AttemptEntries(c, s.index, m + 1);
    }
  }

  lemma {:induction false} UndisturbedCall(s: State, outcomes: seq<bool>)
    requires s.active && |outcomes| <= s.maxTryCount
    ensures Run(s, [FailoverCall] + Resolving(|s.calls|, outcomes)) == After(s, outcomes)
  {
    var c := |s.calls|;
    if outcomes == [] {
      assert [FailoverCall] + Resolving(c, outcomes) == [] + [FailoverCall];
      RunSnoc(s, [], FailoverCall);
      FirstAttempt(s);
    } else {
      var n := |outcomes| - 1;
      var front := outcomes[..n];
      UndisturbedCall(s, front);
      var before := [FailoverCall] + Resolving(c, front);
      assert [FailoverCall] + Resolving(c, outcomes) == before + [AttemptResolved(c, outcomes[n])];
      RunSnoc(s, before, AttemptResolved(c, outcomes[n]));
      NextAttempt(s, front, outcomes[n]);
      assert outcomes == front + [outcomes[n]];
    }
  }

  /**
    For every list of outcomes of the attempts within the budget, the call tries the
    positions after the current one in turn, resolves to true exactly when some attempt
    succeeds, and then the current cluster is the one that succeeded.
   */
  lemma UndisturbedResult(s: State, outcomes: seq<bool>)
    requires s.active && |outcomes| == s.maxTryCount
    ensures var c, m := |s.calls|, Needed(outcomes);
            var s' := Run(s, [FailoverCall] + Resolving(c, outcomes));
            && s'.log == s.log + AttemptEntries(c, s.index, m)
            && s'.calls == s.calls + [Settled(Fulfilled(true in outcomes), m)]
            && s'.index == s.index + m
            && (true in outcomes ==> m > 0 && outcomes[m - 1]
                                     && s'.log[|s'.log| - 1] == AttemptStarted(c, s'.index))
            && (true !in outcomes ==> m == s.maxTryCount)
  {
    UndisturbedCall(s, outcomes);
    if true in outcomes {
      var c, m := |s.calls|, Needed(outcomes);
      assert AttemptEntries(c, s.index, m)[|AttemptEntries(c, s.index, m)| - 1] == AttemptStarted(c, s.index + m);
    }
  }

  /** How many of the attempts in a stretch of the log went to position `p`. */
  function AttemptsAt(log: seq<Entry>, n: nat, p: nat): nat
    requires n > 0
  {
    if log == [] then 0
    else
      var e := log[|log| - 1];
      AttemptsAt(log[..|log| - 1], n, p) + if e.AttemptStarted? && Position(e.index, n) == p then 1 else 0
  }

  lemma {:induction false} AttemptsAtAreVisits(c: nat, start: nat, m: nat, n: nat, p: nat)
    requires n > 0
    ensures AttemptsAt(AttemptEntries(c, start, m), n, p) == Visits(start, m, n, p)
  {
    if m == 0 {
    } else {
      AttemptsAtAreVisits(c, start, m - 1, n, p);
      var front := AttemptEntries(c, start, m - 1);
      assert (front + [AttemptStarted(c, start + m)])[..|front|] == front;
    }
  }

  /**
    When every attempt fails, the positions share the budget evenly, a budget of at least
    the number of candidates reaches all of them, and the client is back at the cluster it
    started from exactly when the number of candidates divides the budget.
   */
  lemma FailingCallIsFair(s: State, outcomes: seq<bool>, n: nat, p: nat, q: nat)
    requires s.active && |outcomes| == s.maxTryCount && true !in outcomes && p < n && q < n
    ensures var s' := Run(s, [FailoverCall] + Resolving(|s.calls|, outcomes));
            && s.log <= s'.log
            && var tried := s'.log[|s.log|..];
            && AttemptsAt(tried, n, p) <= AttemptsAt(tried, n, q) + 1
            && (s.maxTryCount >= n ==> AttemptsAt(tried, n, p) >= 1)
            && (Position(s'.index, n) == Position(s.index, n) <==> s.maxTryCount % n == 0)
  {
    var c, m := |s.calls|, s.maxTryCount;
    UndisturbedResult(s, outcomes);
    var s' := Run(s, [FailoverCall] + Resolving(c, outcomes));
    assert s'.log[|s.log|..] == AttemptEntries(c, s.index, m);
    AttemptsAtAreVisits(c, s.index, m, n, p);
    AttemptsAtAreVisits(c, s.index, m, n, q);
    VisitsAreFair(s.index, m, n, p, q);
    ReturnsIffDivides(s.index, m, n);
  }

  lemma {:induction false} EntriesLength(c: nat, start: nat, m: nat)
    ensures |AttemptEntries(c, start, m)| == m
  {
    if m == 0 {
    } else {
      EntriesLength(c, start, m - 1);
    }
  }

  lemma ProductIsFactor(m: nat, n: nat)
    requires n > 0
    ensures m == m * n <==> n == 1 || m == 0
  {
    if n > 1 && m > 0 {
      assert m * n >= m * 2;
    }
  }

  /**
    The documentation multiplies the budget by the number of clusters. The code makes
    `maxTryCount` attempts in all, which is that product only for one cluster or no budget.
   */
  lemma BudgetIsNotPerCluster(s: State, outcomes: seq<bool>, n: nat)
    requires s.active && |outcomes| == s.maxTryCount && true !in outcomes && n > 0
    ensures var s' := Run(s, [FailoverCall] + Resolving(|s.calls|, outcomes));
            && |s'.log| - |s.log| == s.maxTryCount
            && (|s'.log| - |s.log| == s.maxTryCount * n <==> n == 1 || s.maxTryCount == 0)
  {
    UndisturbedResult(s, outcomes);
    EntriesLength(|s.calls|, s.index, s.maxTryCount);
    ProductIsFactor(s.maxTryCount, n);
  }

  /** Without a budget, or on a client that is not running, a call resolves to false and touches nothing. */
  lemma IdleCallChangesNothing(s: State)
    requires s.maxTryCount == 0 || !s.active
    ensures Step(s, FailoverCall) == s.(calls := s.calls + [Settled(Fulfilled(false), 0)])
  {
  }

  /** Without a budget no run makes any attempt. */
  lemma {:induction false} NoBudgetNoAttempt(maxTryCount: nat, actions: seq<Action>)
    ensures maxTryCount == 0 ==> Run(Fresh(maxTryCount), actions).index == 0
  {
    if actions == [] {
    } else {
      var front, a := actions[..|actions| - 1], actions[|actions| - 1];
      NoBudgetNoAttempt(maxTryCount, front);
      RunsAreAccounted(maxTryCount, front);
      if !a.FailoverCall? && !a.AttemptResolved? && !a.AttemptRejected? {
        OthersKeepCalls(Run(Fresh(maxTryCount), front), a);
      }
    }
  }

  /**
    A rejected attempt fails its call for good, after the attempts the call has made, and
    changes nothing else: no further attempt is started for it.
   */
  lemma {:induction false} RejectedCall(maxTryCount: nat, actions: seq<Action>, c: nat, more: seq<Action>)
    requires c < |Run(Fresh(maxTryCount), actions).calls| && Run(Fresh(maxTryCount), actions).calls[c].Awaiting?
    ensures var s := Run(Fresh(maxTryCount), actions);
            var s' := Run(Fresh(maxTryCount), actions + [AttemptRejected(c)]);
            var s'' := Run(Fresh(maxTryCount), actions + [AttemptRejected(c)] + more);
            && s'.log == s.log && s'.index == s.index && s'.active == s.active
            && |s'.calls| == |s.calls|
            && (forall d :: 0 <= d < |s.calls| && d != c ==> s'.calls[d] == s.calls[d])
            && c < |s''.calls| && s''.calls[c] == Settled(Failed, AttemptsBy(s.log, c))
  {
    RunsAreAccounted(maxTryCount, actions);
    RunSnoc(Fresh(maxTryCount), actions, AttemptRejected(c));
    RunConcat(Fresh(maxTryCount), actions + [AttemptRejected(c)], more);
    SettledStays(Run(Fresh(maxTryCount), actions + [AttemptRejected(c)]), more, c);
  }

  // ---------------------------------------------------------------- calls that overlap

  /** Entry `j` of the log is the latest attempt of call `c`. */
  ghost predicate LatestAttempt(log: seq<Entry>, j: int, c: nat) {
    && 0 <= j < |log| && log[j].AttemptStarted? && log[j].call == c
    && forall i :: j < i < |log| && log[i].AttemptStarted? ==> log[i].call != c
  }

  /** The attempt a call waits for is its latest one, and the call knows its index. */
  ghost predicate WaitsForLatest(s: State) {
    forall c :: 0 <= c < |s.calls| && s.calls[c].Awaiting? ==>
      exists j :: LatestAttempt(s.log, j, c) && s.log[j].index == s.calls[c].index
  }

  lemma LatestOfNone(log: seq<Entry>, more: seq<Entry>, j: int, c: nat)
    requires LatestAttempt(log, j, c)
    requires forall e :: e in more && e.AttemptStarted? ==> e.call != c
    ensures LatestAttempt(log + more, j, c)
  {
    forall i | j < i < |log + more| && (log + more)[i].AttemptStarted? ensures (log + more)[i].call != c {
      if i >= |log| {
        assert (log + more)[i] in more;
      }
    }
  }

  /** What a step adds to the log holds no attempt of a call that goes on waiting as before. */
  lemma {:induction false} StepAddsNoAttempt(s: State, a: Action, c: nat)
    requires c < |s.calls| && s.calls[c].Awaiting?
    requires c < |Step(s, a).calls| && Step(s, a).calls[c] == s.calls[c]
    ensures s.log <= Step(s, a).log
    ensures forall e :: e in Step(s, a).log[|s.log|..] && e.AttemptStarted? ==> e.call != c
  {
    if !a.FailoverCall? && !a.AttemptResolved? && !a.AttemptRejected? {
      OthersKeepCalls(s, a);
    } else {
      assert Step(s, a).log == s.log || Step(s, a).log[|s.log|..] == [Step(s, a).log[|s.log|]];
    }
  }

  lemma StepStartsLatest(s: State, a: Action, c: nat)
    requires c < |Step(s, a).calls| && Step(s, a).calls[c].Awaiting?
    requires c < |s.calls| ==> Step(s, a).calls[c] != s.calls[c]
    ensures LatestAttempt(Step(s, a).log, |s.log|, c)
    ensures Step(s, a).log[|s.log|].index == Step(s, a).calls[c].index
  {
  }

  lemma {:induction false} RunsWaitForLatest(maxTryCount: nat, actions: seq<Action>)
    ensures WaitsForLatest(Run(Fresh(maxTryCount), actions))
  {
    if actions == [] {
    } else {
      var n := |actions| - 1;
      RunsWaitForLatest(maxTryCount, actions[..n]);
      var s, a := Run(Fresh(maxTryCount), actions[..n]), actions[n];
      var s' := Step(s, a);
      forall c | 0 <= c < |s'.calls| && s'.calls[c].Awaiting?
        ensures exists j :: LatestAttempt(s'.log, j, c) && s'.log[j].index == s'.calls[c].index
      {
        if c < |s.calls| && s'.calls[c] == s.calls[c] {
          StepAddsNoAttempt(s, a, c);
          var j :| LatestAttempt(s.log, j, c) && s.log[j].index == s.calls[c].index;
          LatestOfNone(s.log, s'.log[|s.log|..], j, c);
          assert s'.log == s.log + s'.log[|s.log|..];
        } else {
          StepStartsLatest(s, a, c);
        }
      }
    }
  }

  lemma LastOfConcat<T>(a: seq<T>, b: seq<T>)
    requires b != []
    ensures (a + b)[..|a + b| - 1] == a + b[..|b| - 1] && (a + b)[|a + b| - 1] == b[|b| - 1]
  {
  }

  lemma Associate<T>(a: seq<T>, b: seq<T>, c: seq<T>)
    ensures a + b + c == a + (b + c)
  {
  }

  lemma {:induction false} AttemptsConcat(a: seq<Entry>, b: seq<Entry>)
    ensures Attempts(a + b) == Attempts(a) + Attempts(b)
  {
    if b == [] {
      assert a + b == a;
    } else {
      var n := |b| - 1;
      AttemptsConcat(a, b[..n]);
      LastOfConcat(a, b);
      Associate(Attempts(a), Attempts(b[..n]), [b[n]]);
    }
  }

  /** The index has moved past an attempt by exactly the attempts started since. */
  lemma {:induction false} AttemptsSince(s: State, j: nat)
    requires Accounted(s) && j < |s.log| && s.log[j].AttemptStarted?
    ensures s.index == s.log[j].index + |Attempts(s.log[j + 1..])|
  {
    var upTo := s.log[..j + 1];
    assert s.log == upTo + s.log[j + 1..];
    AttemptsConcat(upTo, s.log[j + 1..]);
    assert upTo == s.log[..j] + [s.log[j]];
    AttemptsSnoc(s.log[..j], s.log[j]);
    var k := |Attempts(upTo)| - 1;
    assert Attempts(s.log)[k] == s.log[j];
  }

  /**
    When an attempt of a waiting call succeeds, in any run: the cluster it went to is the
    current one if and only if the attempts that any calls started since are a multiple of
    the number of candidates.
   */
  lemma {:induction false} OverlappingSuccess(maxTryCount: nat, actions: seq<Action>, c: nat, j: int, n: nat)
    requires var s := Run(Fresh(maxTryCount), actions);
             c < |s.calls| && s.calls[c].Awaiting? && LatestAttempt(s.log, j, c)
    requires n > 0
    ensures var s := Run(Fresh(maxTryCount), actions);
            var s' := Step(s, AttemptResolved(c, true));
            && s.calls[c].index == s.log[j].index
            && s'.calls[c] == Settled(Fulfilled(true), s.calls[c].tryCount + 1)
            && (Position(s'.index, n) == Position(s.log[j].index, n) <==> |Attempts(s.log[j + 1..])| % n == 0)
  {
    var s := Run(Fresh(maxTryCount), actions);
    RunsAreAccounted(maxTryCount, actions);
    RunsWaitForLatest(maxTryCount, actions);
    AttemptsSince(s, j);
    ReturnsIffDivides(s.log[j].index, |Attempts(s.log[j + 1..])|, n);
  }

  lemma {:induction false} NoAttempts(log: seq<Entry>)
    requires forall e :: e in log ==> !e.AttemptStarted?
    ensures Attempts(log) == []
  {
    if log == [] {
    } else {
      NoAttempts(log[..|log| - 1]);
    }
  }

  lemma {:induction false} NoneSince(log: seq<Entry>, j: int, c: nat)
    requires LatestAttempt(log, j, c)
    requires forall i :: j < i < |log| && log[i].AttemptStarted? ==> log[i].call == c
    ensures |Attempts(log[j + 1..])| == 0
  {
    forall e | e in log[j + 1..] ensures !e.AttemptStarted? {
      var i :| 0 <= i < |log[j + 1..]| && log[j + 1..][i] == e;
      assert log[j + 1 + i] == e;
    }
    NoAttempts(log[j + 1..]);
  }

  /**
    If no other call has started an attempt since, a success makes its cluster the current
    one, whatever start, shutdown and rejections came in between.
   */
  lemma {:induction false} UncontestedSuccess(maxTryCount: nat, actions: seq<Action>, c: nat, j: int, n: nat)
    requires var s := Run(Fresh(maxTryCount), actions);
             && c < |s.calls| && s.calls[c].Awaiting? && LatestAttempt(s.log, j, c)
             && forall i :: j < i < |s.log| && s.log[i].AttemptStarted? ==> s.log[i].call == c
    requires n > 0
    ensures var s := Run(Fresh(maxTryCount), actions);
            Position(Step(s, AttemptResolved(c, true)).index, n) == Position(s.log[j].index, n)
  {
    var s := Run(Fresh(maxTryCount), actions);
    OverlappingSuccess(maxTryCount, actions, c, j, n);
    NoneSince(s.log, j, c);
    assert 0 % n == 0;
  }

  /** Every failover call of the run was made after all earlier ones had settled. */
  ghost predicate OneAtATime(maxTryCount: nat, actions: seq<Action>) {
    forall i :: 0 <= i < |actions| && actions[i].FailoverCall? ==>
      forall call :: call in Run(Fresh(maxTryCount), actions[..i]).calls ==> call.Settled?
  }

  ghost predicate WaiterHoldsIndex(s: State) {
    forall c :: 0 <= c < |s.calls| && s.calls[c].Awaiting? ==>
      && s.calls[c].index == s.index
      && forall d :: 0 <= d < |s.calls| && s.calls[d].Awaiting? ==> c == d
  }

  lemma StepKeepsWaiter(s: State, a: Action)
    requires WaiterHoldsIndex(s)
    requires a.FailoverCall? ==> forall call :: call in s.calls ==> call.Settled?
    ensures WaiterHoldsIndex(Step(s, a))
  {
    if a.FailoverCall? {
      assert forall c :: 0 <= c < |s.calls| ==> s.calls[c] in s.calls;
    } else if !a.AttemptResolved? && !a.AttemptRejected? {
      OthersKeepCalls(s, a);
    }
  }

  /**
    A client that awaits each failover call before making the next, which start and shutdown
    may interrupt at any point: whenever an attempt succeeds, its cluster is the current one.
   */
  lemma {:induction false} SequentialSuccess(maxTryCount: nat, actions: seq<Action>)
    requires OneAtATime(maxTryCount, actions)
    ensures WaiterHoldsIndex(Run(Fresh(maxTryCount), actions))
    ensures var s := Run(Fresh(maxTryCount), actions);
            forall c :: 0 <= c < |s.calls| && s.calls[c].Awaiting? ==>
              Step(s, AttemptResolved(c, true)).index == s.calls[c].index
  {
    if actions == [] {
    } else {
      var n := |actions| - 1;
      var front := actions[..n];
      forall i | 0 <= i < n && front[i].FailoverCall?
        ensures forall call :: call in Run(Fresh(maxTryCount), front[..i]).calls ==> call.Settled?
      {
        assert front[..i] == actions[..i] && actions[i].FailoverCall?;
      }
      SequentialSuccess(maxTryCount, front);
      StepKeepsWaiter(Run(Fresh(maxTryCount), front), actions[n]);
    }
  }

  lemma OverlappingCallsDisagree()
    ensures var started := Step(Step(Fresh(4), InitProceed), InitProceed);
            var s := Step(Step(started, FailoverCall), FailoverCall);
            && s.calls == [Awaiting(0, 1), Awaiting(0, 2)]
            && Position(Step(s, AttemptResolved(0, true)).index, 2) != Position(s.calls[0].index, 2)
  {
  }
}
