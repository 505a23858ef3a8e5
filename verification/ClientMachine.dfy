/**
  Start, shutdown and failover of one client as a step machine. A step is a piece of code
  that runs without giving way: up to the point where lifecycle listeners are called, a
  promise is awaited or the call returns. Steps of all activities interleave freely, so a
  listener that calls back into the client is one of the interleavings. An action that is
  not possible in a state leaves the state as it is; a run is any list of actions.
 */
module ClientMachine {

  datatype LifecycleState = STARTING | STARTED | SHUTTING_DOWN | SHUTDOWN

  /** What can be observed of a client. */
  datatype Entry =
    | Emitted(state: LifecycleState)
    | LocalTeardown
    | CpShutdownResolved
    | InvocationServiceShut
    | ConnectionManagerShut
    | AttemptStarted(call: nat, index: nat)

  /** Where the one `init` of a client is. */
  datatype Init =
    | NotCalled
    | Starting
    | Announced
    | Connecting
    | Joining
    | StartingServices
    | SendingState
    | Initialized
    | Thrown
    | Rejected

  /** Where one call of `shutdown` is. */
  datatype Shutdown =
    | Ignored
    | Begun
    | AwaitingCp
    | ServicesShut
    | Finished
    | Abandoned(reached: nat)

  datatype Outcome = Fulfilled(connected: bool) | Failed

  /** Where one call of `tryNextCluster` is. */
  datatype Call =
    | Awaiting(tryCount: nat, index: nat)
    | Settled(outcome: Outcome, made: nat)

  datatype State = State(
    maxTryCount: nat,
    active: bool,
    init: Init,
    shutdowns: seq<Shutdown>,
    index: nat,
    calls: seq<Call>,
    log: seq<Entry>)

  datatype Action =
    | InitProceed
    | InitFail
    | ShutdownCall
    | ShutdownProceed(shutdown: nat)
    | ShutdownFail(shutdown: nat, completed: nat)
    | FailoverCall
    | AttemptResolved(call: nat, connected: bool)
    | AttemptRejected(call: nat)

  function Fresh(maxTryCount: nat): State {
    State(maxTryCount, false, NotCalled, [], 0, [], [])
  }

  // ---------------------------------------------------------------- steps

  /** The synchronous part of a shutdown call: a client that is not running ignores it. */
  function CallShutdown(s: State): State {
    if s.active then
      s.(active := false, shutdowns := s.shutdowns + [Begun], log := s.log + [Emitted(SHUTTING_DOWN)])
    else
      s.(shutdowns := s.shutdowns + [Ignored])
  }

  function InitStep(s: State): State {
    match s.init
    case NotCalled => s.(init := Starting, log := s.log + [Emitted(STARTING)])
    case Starting => s.(init := Announced, active := true, log := s.log + [Emitted(STARTED)])
    case Announced => s.(init := Connecting)
    case Connecting => s.(init := Joining)
    case Joining => s.(init := StartingServices)
    case StartingServices => s.(init := SendingState)
    case SendingState => s.(init := Initialized)
    case _ => s
  }

  /** An exception before the first promise escapes; later ones end in the handler that shuts the client down. */
  function InitFailure(s: State): State {
    match s.init
    case Starting => s.(init := Thrown)
    case Announced => s.(init := Thrown)
    case Connecting => CallShutdown(s.(init := Rejected))
    case Joining => CallShutdown(s.(init := Rejected))
    case StartingServices => CallShutdown(s.(init := Rejected))
    case SendingState => CallShutdown(s.(init := Rejected))
    case _ => s
  }

  function ShutdownStep(s: State, i: nat): State {
    if i >= |s.shutdowns| then s
    else
      match s.shutdowns[i]
      case Begun => s.(shutdowns := s.shutdowns[i := AwaitingCp], log := s.log + [LocalTeardown])
      case AwaitingCp =>
        s.(shutdowns := s.shutdowns[i := ServicesShut],
           log := s.log + [CpShutdownResolved, InvocationServiceShut, ConnectionManagerShut])
      case ServicesShut => s.(shutdowns := s.shutdowns[i := Finished], log := s.log + [Emitted(SHUTDOWN)])
      case _ => s
  }

  /** A listener, the CP shutdown or one of the two services fails; `completed` says how far the last stage came. */
  function ShutdownFailure(s: State, i: nat, completed: nat): State {
    if i >= |s.shutdowns| then s
    else
      match s.shutdowns[i]
      case Begun => s.(shutdowns := s.shutdowns[i := Abandoned(3)])
      case AwaitingCp =>
        var done := if completed < 3 then completed else 2;
        s.(shutdowns := s.shutdowns[i := Abandoned(4 + done)],
           log := s.log + [CpShutdownResolved, InvocationServiceShut][..done])
      case _ => s
  }

  /** The call with id `c` starts its attempt number `tryCount + 1`, or gives up. */
  function DoTryNextCluster(s: State, c: nat, tryCount: nat): (State, Call) {
    if !s.active || tryCount >= s.maxTryCount then
      (s, Settled(Fulfilled(false), tryCount))
    else
      (s.(index := s.index + 1, log := s.log + [AttemptStarted(c, s.index + 1)]), Awaiting(tryCount, s.index + 1))
  }

  function CallTryNextCluster(s: State): State {
    var (s', call) := DoTryNextCluster(s, |s.calls|, 0);
    s'.(calls := s.calls + [call])
  }

  function ResolveAttempt(s: State, c: nat, connected: bool): State {
    if c >= |s.calls| || s.calls[c].Settled? then s
    else if connected then s.(calls := s.calls[c := Settled(Fulfilled(true), s.calls[c].tryCount + 1)])
    else
      var (s', call) := DoTryNextCluster(s, c, s.calls[c].tryCount + 1);
      s'.(calls := s.calls[c := call])
  }

  function RejectAttempt(s: State, c: nat): State {
    if c >= |s.calls| || s.calls[c].Settled? then s
    else s.(calls := s.calls[c := Settled(Failed, s.calls[c].tryCount + 1)])
  }

  function Step(s: State, a: Action): State {
    match a
    case InitProceed => InitStep(s)
    case InitFail => InitFailure(s)
    case ShutdownCall => CallShutdown(s)
    case ShutdownProceed(i) => ShutdownStep(s, i)
    case ShutdownFail(i, completed) => ShutdownFailure(s, i, completed)
    case FailoverCall => CallTryNextCluster(s)
    case AttemptResolved(c, connected) => ResolveAttempt(s, c, connected)
    case AttemptRejected(c) => RejectAttempt(s, c)
  }

  function Run(s: State, actions: seq<Action>): State {
    if actions == [] then s
    else Step(Run(s, actions[..|actions| - 1]), actions[|actions| - 1])
  }

  lemma RunSnoc(s: State, actions: seq<Action>, a: Action)
    ensures Run(s, actions + [a]) == Step(Run(s, actions), a)
  {
    assert (actions + [a])[..|actions|] == actions;
  }

  lemma {:induction false} RunConcat(s: State, first: seq<Action>, second: seq<Action>)
    ensures Run(s, first + second) == Run(Run(s, first), second)
  {
    if second == [] {
      assert first + second == first;
    } else {
      var n := |second| - 1;
      RunConcat(s, first, second[..n]);
      assert (first + second)[..|first + second| - 1] == first + second[..n];
    }
  }
}
