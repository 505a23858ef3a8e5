/**
  The objects behind the step machine: each method is one step of the code, and changes the
  fields the way the corresponding action of the machine says. Methods that call listeners
  are split at the call, since a listener may call back into the client.
 */
module ClientObjects {
  import opened ClientMachine
  import opened ClientFailover
  import opened ClientLifecycle

  /** What can be observed of a client, in order, and whether it was running at each point. */
  class Trace {
    ghost var log: seq<Entry>
    ghost var running: seq<bool>
    ghost var attempted: seq<string>    // the clusters that the attempts were made for

    constructor ()
      ensures log == [] && running == [] && attempted == []
    {
      log, running, attempted := [], [], [];
    }

    ghost method Record(e: Entry, active: bool)
      modifies this`log, this`running
      ensures log == old(log) + [e] && running == old(running) + [active]
    {
      log, running := log + [e], running + [active];
    }

    ghost method Attempt(cluster: string)
      modifies this`attempted
      ensures attempted == old(attempted) + [cluster]
    {
      attempted := attempted + [cluster];
    }
  }

  class LifecycleService {
    var active: bool
    const trace: Trace

    constructor (trace: Trace)
      ensures !active && this.trace == trace
    {
      active := false;
      this.trace := trace;
    }

    method IsRunning() returns (running: bool)
      ensures running == active
    {
      running := active;
    }

    /** First half of `start`, up to the listeners of STARTING. */
    method BeginStart()
      modifies trace`log, trace`running
      ensures trace.log == old(trace.log) + [Emitted(STARTING)]
      ensures trace.running == old(trace.running) + [active]
    {
      trace.Record(Emitted(STARTING), active);
    }

    /** Second half of `start`: the client runs already when STARTED is emitted. */
    method CompleteStart()
      modifies this, trace`log, trace`running
      ensures active && trace.log == old(trace.log) + [Emitted(STARTED)]
      ensures trace.running == old(trace.running) + [true]
    {
      active := true;
      trace.Record(Emitted(STARTED), active);
    }

    /** The client does not run any more when SHUTTING_DOWN is emitted. */
    method OnShutdownStart()
      modifies this, trace`log, trace`running
      ensures !active && trace.log == old(trace.log) + [Emitted(SHUTTING_DOWN)]
      ensures trace.running == old(trace.running) + [false]
    {
      active := false;
      trace.Record(Emitted(SHUTTING_DOWN), active);
    }

    method OnShutdownFinished()
      modifies trace`log, trace`running
      ensures trace.log == old(trace.log) + [Emitted(SHUTDOWN)]
      ensures trace.running == old(trace.running) + [active]
    {
      trace.Record(Emitted(SHUTDOWN), active);
    }
  }

  class ClusterFailoverService {
    const maxTryCount: nat
    const candidateClusters: seq<string>
    const lifecycleService: LifecycleService
    var index: nat

    constructor (maxTryCount: nat, candidateClusters: seq<string>, lifecycleService: LifecycleService)
      ensures this.maxTryCount == maxTryCount && this.candidateClusters == candidateClusters
      ensures this.lifecycleService == lifecycleService && index == 0
    {
      this.maxTryCount := maxTryCount;
      this.candidateClusters := candidateClusters;
      this.lifecycleService := lifecycleService;
      index := 0;
    }

    method Current() returns (cluster: string)
      requires |candidateClusters| > 0
      ensures cluster == candidateClusters[Position(index, |candidateClusters|)]
    {
      cluster := candidateClusters[index % |candidateClusters|];
    }

    method Next() returns (cluster: string)
      requires |candidateClusters| > 0
      modifies this
      ensures index == old(index) + 1
      ensures cluster == candidateClusters[Position(index, |candidateClusters|)]
    {
      index := index + 1;
      cluster := candidateClusters[index % |candidateClusters|];
    }

    /** One round of the retry loop, up to the promise of the attempt it starts for call `c`. */
    method DoTryNext(c: nat, tryCount: nat) returns (call: Call)
      requires |candidateClusters| > 0
      modifies this, lifecycleService.trace
      ensures lifecycleService.active && tryCount < maxTryCount ==>
                && index == old(index) + 1
                && call == Awaiting(tryCount, index)
                && lifecycleService.trace.log == old(lifecycleService.trace.log) + [AttemptStarted(c, index)]
                && lifecycleService.trace.attempted
                   == old(lifecycleService.trace.attempted)
                      + [candidateClusters[Position(index, |candidateClusters|)]]
      ensures !lifecycleService.active || tryCount >= maxTryCount ==>
                && index == old(index)
                && call == Settled(Fulfilled(false), tryCount)
                && lifecycleService.trace.log == old(lifecycleService.trace.log)
                && lifecycleService.trace.attempted == old(lifecycleService.trace.attempted)
    {
      var running := lifecycleService.IsRunning();
      if !running || tryCount >= maxTryCount {
        return Settled(Fulfilled(false), tryCount);
      }
      var cluster := Next();
      lifecycleService.trace.Record(AttemptStarted(c, index), running);
      lifecycleService.trace.Attempt(cluster);
      call := Awaiting(tryCount, index);
    }
  }

  datatype FailoverConfig = NoFailover | Failover(tryCount: nat, clusters: seq<string>)

  /** The failover budget and candidates a client is built with. */
  method FailoverSettings(config: string, failover: FailoverConfig) returns (tryCount: nat, clusters: seq<string>)
    ensures failover.NoFailover? ==> tryCount == 0 && clusters == [config]
    ensures failover.Failover? ==> tryCount == failover.tryCount && clusters == failover.clusters
  {
    match failover
    case NoFailover => tryCount, clusters := 0, [config];
    case Failover(count, names) => tryCount, clusters := count, names;
  }

  /** The attempts so far went to the candidates behind the first one, round and round. */
  ghost predicate InTurn(attempted: seq<string>, clusters: seq<string>, index: nat)
    requires |clusters| > 0
  {
    |attempted| == index && forall k :: 0 <= k < |attempted| ==> attempted[k] == clusters[(k + 1) % |clusters|]
  }

  /** A client with its unfinished calls of `init`, `shutdown` and `tryNextCluster`. */
  class HazelcastClient {
    const trace: Trace
    const lifecycleService: LifecycleService
    const clusterFailoverService: ClusterFailoverService
    var init: Init
    var shutdowns: seq<Shutdown>
    var calls: seq<Call>

    ghost predicate Valid()
      reads trace, clusterFailoverService
    {
      && lifecycleService.trace == trace
      && clusterFailoverService.lifecycleService == lifecycleService
      && |clusterFailoverService.candidateClusters| > 0
      && InTurn(trace.attempted, clusterFailoverService.candidateClusters, clusterFailoverService.index)
    }

    ghost function Value(): State
      reads this, trace, lifecycleService, clusterFailoverService
    {
      State(clusterFailoverService.maxTryCount, lifecycleService.active, init, shutdowns,
            clusterFailoverService.index, calls, trace.log)
    }

    constructor (config: string, failover: FailoverConfig)
      requires failover.Failover? ==> |failover.clusters| > 0
      ensures Valid()
      ensures Value() == Fresh(if failover.Failover? then failover.tryCount else 0)
      ensures fresh(trace) && fresh(lifecycleService) && fresh(clusterFailoverService)
      ensures failover.NoFailover? ==> clusterFailoverService.candidateClusters == [config]
      ensures failover.Failover? ==> clusterFailoverService.candidateClusters == failover.clusters
    {
      var tryCount, clusters := FailoverSettings(config, failover);
      var t := new Trace();
      var l := new LifecycleService(t);
      var f := new ClusterFailoverService(tryCount, clusters, l);
      trace := t;
      lifecycleService := l;
      clusterFailoverService := f;
      init := NotCalled;
      shutdowns := [];
      calls := [];
    }

    method ProceedInit()
      requires Valid()
      modifies this, lifecycleService, trace
      ensures Valid()
      ensures Value() == Step(old(Value()), InitProceed)
    {
      match init
      case NotCalled =>
        lifecycleService.BeginStart();
        init := Starting;
      case Starting =>
        lifecycleService.CompleteStart();
        init := Announced;
      case Announced => init := Connecting;
      case Connecting => init := Joining;
      case Joining => init := StartingServices;
      case StartingServices => init := SendingState;
      case SendingState => init := Initialized;
      case _ =>
    }

    /** `shutdown` up to the listeners of SHUTTING_DOWN. */
    method BeginShutdown()
      requires Valid()
      modifies this, lifecycleService, trace
      ensures Valid()
      ensures Value() == Step(old(Value()), ShutdownCall)
    {
      var running := lifecycleService.IsRunning();
      if !running {
        shutdowns := shutdowns + [Ignored];
        return;
      }
      lifecycleService.OnShutdownStart();
      shutdowns := shutdowns + [Begun];
    }

    method FailInit()
      requires Valid()
      modifies this, lifecycleService, trace
      ensures Valid()
      ensures Value() == Step(old(Value()), InitFail)
    {
      if init == Starting || init == Announced {
        init := Thrown;
      } else if init == Connecting || init == Joining || init == StartingServices || init == SendingState {
        init := Rejected;
        BeginShutdown();
      }
    }

    method ProceedShutdown(i: nat)
      requires Valid()
      modifies this, trace
      ensures Valid()
      ensures Value() == Step(old(Value()), ShutdownProceed(i))
    {
      if i >= |shutdowns| {
        return;
      }
      match shutdowns[i]
      case Begun =>
        trace.Record(LocalTeardown, lifecycleService.active);
        shutdowns := shutdowns[i := AwaitingCp];
      case AwaitingCp =>
        trace.Record(CpShutdownResolved, lifecycleService.active);
        trace.Record(InvocationServiceShut, lifecycleService.active);
        trace.Record(ConnectionManagerShut, lifecycleService.active);
        shutdowns := shutdowns[i := ServicesShut];
      case ServicesShut =>
        lifecycleService.OnShutdownFinished();
        shutdowns := shutdowns[i := Finished];
      case _ =>
    }

    method TryNextCluster()
      requires Valid()
      modifies this, clusterFailoverService, trace
      ensures Valid()
      ensures Value() == Step(old(Value()), FailoverCall)
    {
      var call := clusterFailoverService.DoTryNext(|calls|, 0);
      calls := calls + [call];
    }

    method OnAttemptResolved(c: nat, connected: bool)
      requires Valid()
      modifies this, clusterFailoverService, trace
      ensures Valid()
      ensures Value() == Step(old(Value()), AttemptResolved(c, connected))
    {
      if c >= |calls| || calls[c].Settled? {
        return;
      }
      if connected {
        calls := calls[c := Settled(Fulfilled(true), calls[c].tryCount + 1)];
        return;
      }
      var call := clusterFailoverService.DoTryNext(c, calls[c].tryCount + 1);
      calls := calls[c := call];
    }

    method OnAttemptRejected(c: nat)
      requires Valid()
      modifies this
      ensures Valid()
      ensures Value() == Step(old(Value()), AttemptRejected(c))
    {
      if c < |calls| && calls[c].Awaiting? {
        calls := calls[c := Settled(Failed, calls[c].tryCount + 1)];
      }
    }

    /** A listener, the CP shutdown or a service throws; `completed` says how far the last stage came. */
    method FailShutdown(i: nat, completed: nat)
      requires Valid()
      modifies this, trace
      ensures Valid()
      ensures Value() == Step(old(Value()), ShutdownFail(i, completed))
    {
      if i >= |shutdowns| {
        return;
      }
      match shutdowns[i]
      case Begun => shutdowns := shutdowns[i := Abandoned(3)];
      case AwaitingCp =>
        if completed > 0 { trace.Record(CpShutdownResolved, lifecycleService.active); }
        if completed > 1 { trace.Record(InvocationServiceShut, lifecycleService.active); }
        shutdowns := shutdowns[i := Abandoned(4 + if completed < 3 then completed else 2)];
      case _ =>
    }

    /** Any one step. */
    method Perform(a: Action)
      requires Valid()
      modifies this, lifecycleService, clusterFailoverService, trace
      ensures Valid()
      ensures Value() == Step(old(Value()), a)
    {
      match a
      case InitProceed => ProceedInit();
      case InitFail => FailInit();
      case ShutdownCall => BeginShutdown();
      case ShutdownProceed(i) => ProceedShutdown(i);
      case ShutdownFail(i, completed) => FailShutdown(i, completed);
      case FailoverCall => TryNextCluster();
      case AttemptResolved(c, connected) => OnAttemptResolved(c, connected);
      case AttemptRejected(c) => OnAttemptRejected(c);
    }

    /** Any list of steps. */
    method PerformAll(actions: seq<Action>)
      requires Valid()
      modifies this, lifecycleService, clusterFailoverService, trace
      ensures Valid()
      ensures Value() == Run(old(Value()), actions)
    {
      assert actions[..0] == [];
      for i := 0 to |actions|
        invariant Valid() && Value() == Run(old(Value()), actions[..i])
      {
        assert actions[..i + 1] == actions[..i] + [actions[i]];
        RunSnoc(old(Value()), actions[..i], actions[i]);
        Perform(actions[i]);
      }
      assert actions[..|actions|] == actions;
    }
  }

  /**
    A client driven from its construction: the object goes through the states of the machine,
    every attempt goes to the configured cluster at its index, round and round, and so does
    the current cluster; without a failover configuration that is always the one configured.
   */
  method Drive(config: string, failover: FailoverConfig, actions: seq<Action>)
    returns (client: HazelcastClient, current: string)
    requires failover.Failover? ==> |failover.clusters| > 0
    ensures client.Valid()
    ensures client.Value() == Run(Fresh(if failover.Failover? then failover.tryCount else 0), actions)
    ensures Milestones(client.trace.log) <= LIFE
    ensures |Attempts(client.trace.log)| == |client.trace.attempted| == client.clusterFailoverService.index
    ensures failover.NoFailover? ==> current == config && client.trace.attempted == []
    ensures failover.Failover? ==>
              && current == failover.clusters[client.clusterFailoverService.index % |failover.clusters|]
              && forall k :: 0 <= k < |client.trace.attempted| ==>
                   && Attempts(client.trace.log)[k].AttemptStarted?
                   && client.trace.attempted[k]
                      == failover.clusters[Attempts(client.trace.log)[k].index % |failover.clusters|]
  {
    client := new HazelcastClient(config, failover);
    client.PerformAll(actions);
    ghost var budget := if failover.Failover? then failover.tryCount else 0;
    LifeIsAPrefix(budget, actions);
    RunsAreAccounted(budget, actions);
    NoBudgetNoAttempt(budget, actions);
    current := client.clusterFailoverService.Current();
  }
}
