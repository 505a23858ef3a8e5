/**
  The registry of local proxies and its reconciliation with the objects the cluster knows.
  All creations of a pass are registered at once and then complete in any order; a new
  reliable topic brings a ring buffer with it. Only completion of all of them lets the pass
  destroy what the cluster does not know.
 */
module ProxyRegistry {
  import opened Strings

  const SEPARATOR := '/'
  const TOPIC_SERVICE := "hz:impl:reliableTopicService"
  const RINGBUFFER_SERVICE := "hz:impl:ringbufferService"
  const RINGBUFFER_PREFIX := "_hz_rb_"

  /** A distributed object as the cluster reports it. */
  datatype Info = Info(name: string, serviceName: string)

  /** The promise under a key: not yet initialized, waiting for its ring buffer, or an object. */
  datatype Cell =
    | Registered(info: Info)
    | AwaitingRingbuffer(info: Info)
    | Ready(number: nat)

  type Registry = map<string, Cell>

  function Namespace(info: Info): string {
    info.serviceName + [SEPARATOR] + info.name
  }

  predicate IsTopic(info: Info) {
    info.serviceName == TOPIC_SERVICE
  }

  function Ringbuffer(info: Info): (r: Info)
    ensures !IsTopic(r)
  {
    assert RINGBUFFER_SERVICE[9] != TOPIC_SERVICE[9];
    Info(RINGBUFFER_PREFIX + info.name, RINGBUFFER_SERVICE)
  }

  lemma TopicIsNotItsRingbuffer(info: Info)
    requires IsTopic(info)
    ensures Namespace(info) != Namespace(Ringbuffer(info))
  {
    assert Namespace(info)[9] == TOPIC_SERVICE[9] == 'e';
    assert Namespace(Ringbuffer(info))[9] == RINGBUFFER_SERVICE[9] == 'i';
  }

  // ---------------------------------------------------------------- keys

  /**
    How a key is taken apart again when local objects are recreated on a new cluster; the
    source's search answers -1 if nothing is found.
   */
  function SplitKey(key: string): Info {
    var i := IndexOf(key, SEPARATOR);
    if i < |key| then Info(key[i + 1..], key[..i]) else Info(key, "")
  }

  /** Taking a key apart gives back the object exactly when its service name has no separator. */
  lemma SplitKeyInverts(info: Info)
    ensures SplitKey(Namespace(info)) == info <==> SEPARATOR !in info.serviceName
  {
    var key, k := Namespace(info), |info.serviceName|;
    assert key[k] == SEPARATOR && key[..k] == info.serviceName && key[k + 1..] == info.name;
    if SEPARATOR !in info.serviceName {
      FirstIndex(key, SEPARATOR, k);
    } else {
      var i := IndexOf(key, SEPARATOR);
      var j :| 0 <= j < k && info.serviceName[j] == SEPARATOR;
      assert key[j] == SEPARATOR;
    }
  }

  // ---------------------------------------------------------------- one pass

  function GetOrCreate(registry: Registry, info: Info): Registry {
    if Namespace(info) in registry then registry else registry[Namespace(info) := Registered(info)]
  }

  function CreateAll(registry: Registry, remote: seq<Info>): Registry {
    if remote == [] then registry
    else GetOrCreate(CreateAll(registry, remote[..|remote| - 1]), remote[|remote| - 1])
  }

  function Namespaces(remote: seq<Info>): set<string> {
    set info | info in remote :: Namespace(info)
  }

  predicate AllReady(registry: Registry) {
    forall key :: key in registry ==> registry[key].Ready?
  }

  datatype State = State(
    registry: Registry,
    local: set<string>,
    done: set<nat>,
    failed: bool,
    nextObject: nat)

  datatype Action =
    | Initialize(key: string)
    | RingbufferReady(key: string)
    | Fail(key: string)
    | Complete(creation: nat)

  /** The state right after all creations of a pass have been requested. */
  function Begin(registry: Registry, remote: seq<Info>, nextObject: nat): State {
    State(CreateAll(registry, remote), registry.Keys, {}, false, nextObject)
  }

  function Settle(s: State, key: string): State {
    s.(registry := s.registry[key := Ready(s.nextObject)], nextObject := s.nextObject + 1)
  }

  /** `initializeLocalProxy`: a topic first asks for its ring buffer. */
  function InitializeProxy(s: State, key: string): State {
    if key !in s.registry || !s.registry[key].Registered? then s
    else
      var info := s.registry[key].info;
      if IsTopic(info) then
        s.(registry := GetOrCreate(s.registry, Ringbuffer(info))[key := AwaitingRingbuffer(info)])
      else
        Settle(s, key)
  }

  function Step(remote: seq<Info>, s: State, a: Action): State {
    match a
    case Initialize(key) => InitializeProxy(s, key)
    case RingbufferReady(key) =>
      if key in s.registry && s.registry[key].AwaitingRingbuffer?
         && var buffer := Namespace(Ringbuffer(s.registry[key].info));
            buffer in s.registry && s.registry[buffer].Ready?
      then Settle(s, key) else s
    case Fail(key) =>
      if key in s.registry && !s.registry[key].Ready?
      then s.(registry := s.registry - {key}, failed := true) else s
    case Complete(i) =>
      if i < |remote| && Namespace(remote[i]) in s.registry && s.registry[Namespace(remote[i])].Ready?
      then s.(local := s.local - {Namespace(remote[i])}, done := s.done + {i}) else s
  }

  function Run(remote: seq<Info>, s: State, actions: seq<Action>): State {
    if actions == [] then s
    else Step(remote, Run(remote, s, actions[..|actions| - 1]), actions[|actions| - 1])
  }

  /** All creations have completed, so the leftovers are destroyed. */
  ghost predicate AllCreated(remote: seq<Info>, s: State) {
    !s.failed && forall i: nat :: i < |remote| ==> i in s.done
  }

  function DestroyLeftovers(s: State): Registry {
    s.registry - s.local
  }

  /** A whole pass that ends well, from one registry to the next. */
  ghost predicate Pass(registry: Registry, remote: seq<Info>, nextObject: nat, actions: seq<Action>, after: Registry) {
    var s := Run(remote, Begin(registry, remote, nextObject), actions);
    AllCreated(remote, s) && after == DestroyLeftovers(s)
  }

  // ---------------------------------------------------------------- what every step keeps

  lemma NamespacesOneMore(remote: seq<Info>)
    requires remote != []
    ensures Namespaces(remote) == Namespaces(remote[..|remote| - 1]) + {Namespace(remote[|remote| - 1])}
  {
    assert remote == remote[..|remote| - 1] + [remote[|remote| - 1]];
  }

  lemma {:induction false} CreateAllMeaning(registry: Registry, remote: seq<Info>)
    ensures CreateAll(registry, remote).Keys == registry.Keys + Namespaces(remote)
    ensures forall key :: key in registry ==> CreateAll(registry, remote)[key] == registry[key]
    ensures forall key :: key in CreateAll(registry, remote) && key !in registry ==>
              CreateAll(registry, remote)[key].Registered? && Namespace(CreateAll(registry, remote)[key].info) == key
  {
    if remote == [] {
    } else {
      var n := |remote| - 1;
      CreateAllMeaning(registry, remote[..n]);
      NamespacesOneMore(remote);
    }
  }

  /** Keys of the ring buffers of topics that a pass is about to create. */
  ghost function Buffers(begun: Registry): set<string> {
    set key | key in begun && begun[key].Registered? && IsTopic(begun[key].info) ::
      Namespace(Ringbuffer(begun[key].info))
  }

  /** A cell under creation still belongs to the object it was registered for. */
  ghost predicate CellOk(begun: Registry, s: State, key: string)
    requires key in s.registry
  {
    match s.registry[key]
    case Registered(info) => Namespace(info) == key && (key in begun ==> begun[key] == Registered(info))
    case AwaitingRingbuffer(info) =>
      && Namespace(info) == key && IsTopic(info) && key in begun && begun[key] == Registered(info)
      && Namespace(Ringbuffer(info)) in s.registry
    case Ready(_) =>
      key in begun && begun[key].Registered? && IsTopic(begun[key].info) ==>
        var buffer := Namespace(Ringbuffer(begun[key].info));
        buffer in s.registry && s.registry[buffer].Ready?
  }

  /** Everything but failures only moves creations forward. */
  ghost predicate Sound(begun: Registry, remote: seq<Info>, s: State) {
    && begun.Keys <= s.registry.Keys <= begun.Keys + Buffers(begun)
    && (forall key :: key in s.registry ==> CellOk(begun, s, key))
    && (forall key :: key in s.registry && key !in begun && s.registry[key].Registered? ==>
          !IsTopic(s.registry[key].info))
    && (forall i :: i in s.done ==>
          i < |remote| && Namespace(remote[i]) in s.registry && s.registry[Namespace(remote[i])].Ready?)
  }

  lemma StepKeepsReady(remote: seq<Info>, s: State, a: Action, key: string)
    requires key in s.registry && s.registry[key].Ready?
    ensures key in Step(remote, s, a).registry && Step(remote, s, a).registry[key] == s.registry[key]
  {
  }

  /** Objects that existed before the pass are untouched, even by a pass that fails. */
  lemma {:induction false} ExistingObjectKept(registry: Registry, remote: seq<Info>, nextObject: nat,
                                              actions: seq<Action>, key: string)
    requires AllReady(registry) && key in registry
    ensures var s := Run(remote, Begin(registry, remote, nextObject), actions);
            key in s.registry && s.registry[key] == registry[key]
  {
    CreateAllMeaning(registry, remote);
    if actions == [] {
    } else {
      var front := actions[..|actions| - 1];
      ExistingObjectKept(registry, remote, nextObject, front, key);
      StepKeepsReady(remote, Run(remote, Begin(registry, remote, nextObject), front), actions[|actions| - 1], key);
    }
  }

  /** The shared set has lost exactly the keys whose creations have completed. */
  ghost predicate LocalIsUncompleted(local: set<string>, remote: seq<Info>, s: State) {
    && (forall i :: i in s.done ==> i < |remote|)
    && s.local == local - set i | i in s.done :: Namespace(remote[i])
  }

  lemma CompletionStep(local: set<string>, remote: seq<Info>, s: State, a: Action)
    requires LocalIsUncompleted(local, remote, s)
    ensures LocalIsUncompleted(local, remote, Step(remote, s, a))
  {
    var s' := Step(remote, s, a);
    if a.Complete? && s' != s {
      assert (set i | i in s'.done :: Namespace(remote[i]))
          == (set i | i in s.done :: Namespace(remote[i])) + {Namespace(remote[a.creation])};
    }
  }

  lemma {:induction false} LocalShrinksByCompletion(registry: Registry, remote: seq<Info>, nextObject: nat,
                                                    actions: seq<Action>)
    ensures LocalIsUncompleted(registry.Keys, remote, Run(remote, Begin(registry, remote, nextObject), actions))
  {
    if actions == [] {
    } else {
      var s := Run(remote, Begin(registry, remote, nextObject), actions[..|actions| - 1]);
      LocalShrinksByCompletion(registry, remote, nextObject, actions[..|actions| - 1]);
      CompletionStep(registry.Keys, remote, s, actions[|actions| - 1]);
    }
  }

  /** The registry has not lost a key, and its objects are as they were. */
  ghost predicate Extends(s: State, s': State) {
    && s.registry.Keys <= s'.registry.Keys
    && forall key :: key in s.registry && s.registry[key].Ready? ==> s'.registry[key] == s.registry[key]
  }

  lemma SameCellOk(begun: Registry, s: State, s': State, key: string)
    requires Extends(s, s') && key in s.registry && s'.registry[key] == s.registry[key] && CellOk(begun, s, key)
    ensures CellOk(begun, s', key)
  {
  }

  lemma {:induction false} SettleKeepsSound(begun: Registry, remote: seq<Info>, s: State, key: string)
    requires Sound(begun, remote, s) && key in s.registry && !s.registry[key].Ready?
    requires key in begun && begun[key].Registered? && IsTopic(begun[key].info) ==>
               var buffer := Namespace(Ringbuffer(begun[key].info));
               buffer in s.registry && s.registry[buffer].Ready?
    ensures Sound(begun, remote, Settle(s, key))
  {
    var s' := Settle(s, key);
    assert Extends(s, s') && s'.registry.Keys == s.registry.Keys;
    forall k | k in s'.registry ensures CellOk(begun, s', k) {
      if k != key {
        SameCellOk(begun, s, s', k);
      }
    }
  }

  lemma {:induction false} TopicKeepsSound(begun: Registry, remote: seq<Info>, s: State, key: string)
    requires Sound(begun, remote, s) && key in s.registry && s.registry[key].Registered?
    requires IsTopic(s.registry[key].info)
    ensures Sound(begun, remote, InitializeProxy(s, key))
  {
    var info := s.registry[key].info;
    var buffer, s' := Namespace(Ringbuffer(info)), InitializeProxy(s, key);
    assert CellOk(begun, s, key);
    TopicIsNotItsRingbuffer(info);
    assert buffer in Buffers(begun);
    assert s'.registry[key] == AwaitingRingbuffer(info);
    assert buffer !in s.registry ==> s'.registry[buffer] == Registered(Ringbuffer(info));
    assert Extends(s, s') && s'.registry.Keys == s.registry.Keys + {buffer};
    forall k | k in s'.registry ensures CellOk(begun, s', k) {
      if k == key {
        assert begun[key] == Registered(info);
      } else if k in s.registry {
        assert s'.registry[k] == s.registry[k];
        SameCellOk(begun, s, s', k);
      } else {
        assert k == buffer;
      }
    }
  }

  lemma {:induction false} StepKeepsSound(begun: Registry, remote: seq<Info>, s: State, a: Action)
    requires Sound(begun, remote, s)
    ensures Step(remote, s, a).failed || Sound(begun, remote, Step(remote, s, a))
  {
    match a
    case Initialize(key) =>
      if key in s.registry && s.registry[key].Registered? {
        assert CellOk(begun, s, key);
        if IsTopic(s.registry[key].info) {
          TopicKeepsSound(begun, remote, s, key);
        } else {
          SettleKeepsSound(begun, remote, s, key);
        }
      }
    case RingbufferReady(key) =>
      if Step(remote, s, a) != s {
        assert CellOk(begun, s, key);
        SettleKeepsSound(begun, remote, s, key);
      }
    case Fail(key) =>
    case Complete(i) =>
      var s' := Step(remote, s, a);
      forall k | k in s'.registry ensures CellOk(begun, s', k) {
        assert CellOk(begun, s, k);
      }
  }

  lemma {:induction false} RunsAreSound(registry: Registry, remote: seq<Info>, nextObject: nat, actions: seq<Action>)
    requires AllReady(registry)
    ensures var s := Run(remote, Begin(registry, remote, nextObject), actions);
            s.failed || Sound(CreateAll(registry, remote), remote, s)
  {
    var begun := CreateAll(registry, remote);
    CreateAllMeaning(registry, remote);
    if actions == [] {
      var s := Begin(registry, remote, nextObject);
      forall k | k in s.registry ensures CellOk(begun, s, k) {
      }
    } else {
      var s := Run(remote, Begin(registry, remote, nextObject), actions[..|actions| - 1]);
      RunsAreSound(registry, remote, nextObject, actions[..|actions| - 1]);
      if !s.failed {
        StepKeepsSound(begun, remote, s, actions[|actions| - 1]);
      }
    }
  }

  lemma BufferIsNotATopic(info: Info, topic: Info)
    requires IsTopic(topic)
    ensures Namespace(Ringbuffer(info)) != Namespace(topic)
  {
    assert Namespace(topic)[9] == TOPIC_SERVICE[9] == 'e';
    assert Namespace(Ringbuffer(info))[9] == RINGBUFFER_SERVICE[9] == 'i';
  }

  /** A step that a cell under creation can make. */
  lemma CellCanMove(begun: Registry, remote: seq<Info>, s: State, key: string) returns (a: Action)
    requires Sound(begun, remote, s) && key in s.registry && !s.registry[key].Ready?
    ensures !a.Fail? && Step(remote, s, a) != s
  {
    assert CellOk(begun, s, key);
    match s.registry[key]
    case Registered(info) =>
      a := Initialize(key);
      assert Step(remote, s, a).registry[key] != s.registry[key];
    case AwaitingRingbuffer(info) =>
      var buffer := Namespace(Ringbuffer(info));
      assert CellOk(begun, s, buffer);
      if s.registry[buffer].Ready? {
        a := RingbufferReady(key);
        assert Step(remote, s, a).registry[key] != s.registry[key];
      } else {
        if s.registry[buffer].AwaitingRingbuffer? {
          BufferIsNotATopic(info, s.registry[buffer].info);
        }
        a := Initialize(buffer);
        assert Step(remote, s, a).registry[buffer] != s.registry[buffer];
      }
  }

  /** As long as nothing fails, a pass that is not finished can make a step. */
  lemma NoDeadlock(registry: Registry, remote: seq<Info>, nextObject: nat, actions: seq<Action>) returns (a: Action)
    requires AllReady(registry)
    requires var s := Run(remote, Begin(registry, remote, nextObject), actions);
             !s.failed && !AllCreated(remote, s)
    ensures var s := Run(remote, Begin(registry, remote, nextObject), actions);
            !a.Fail? && Step(remote, s, a) != s
  {
    var s := Run(remote, Begin(registry, remote, nextObject), actions);
    RunsAreSound(registry, remote, nextObject, actions);
    CreateAllMeaning(registry, remote);
    var i: nat :| i < |remote| && i !in s.done;
    var key := Namespace(remote[i]);
    assert remote[i] in remote;
    assert key in Namespaces(remote);
    if s.registry[key].Ready? {
      a := Complete(i);
      assert i in Step(remote, s, a).done;
    } else {
      a := CellCanMove(CreateAll(registry, remote), remote, s, key);
    }
  }

  // ---------------------------------------------------------------- objects are their own

  /** Different keys have different objects, all numbered below the next one. */
  ghost predicate Separate(registry: Registry, nextObject: nat) {
    && (forall key :: key in registry && registry[key].Ready? ==> registry[key].number < nextObject)
    && forall a, b :: a in registry && b in registry && a != b && registry[a].Ready? && registry[b].Ready? ==>
         registry[a].number != registry[b].number
  }

  /** Objects of keys that were not there at first were made since. */
  ghost predicate MadeSince(registry: Registry, first: nat, s: State) {
    && first <= s.nextObject
    && forall key :: key in s.registry && key !in registry && s.registry[key].Ready? ==> s.registry[key].number >= first
  }

  /** A step that makes no object. */
  lemma NothingMade(registry: Registry, first: nat, s: State, s': State)
    requires Separate(s.registry, s.nextObject) && MadeSince(registry, first, s) && s'.nextObject == s.nextObject
    requires forall key :: key in s'.registry && s'.registry[key].Ready? ==>
               key in s.registry && s'.registry[key] == s.registry[key]
    ensures Separate(s'.registry, s'.nextObject) && MadeSince(registry, first, s')
  {
  }

  lemma SettleMakesOne(registry: Registry, first: nat, s: State, key: string)
    requires Separate(s.registry, s.nextObject) && MadeSince(registry, first, s)
    requires key in s.registry && !s.registry[key].Ready?
    ensures Separate(Settle(s, key).registry, Settle(s, key).nextObject) && MadeSince(registry, first, Settle(s, key))
  {
    var s' := Settle(s, key);
    assert s'.registry[key] == Ready(s.nextObject);
    assert forall k :: k in s'.registry && k != key ==> k in s.registry && s'.registry[k] == s.registry[k];
  }

  lemma {:induction false} StepKeepsSeparate(registry: Registry, first: nat, remote: seq<Info>, s: State, a: Action)
    requires Separate(s.registry, s.nextObject) && MadeSince(registry, first, s)
    ensures Separate(Step(remote, s, a).registry, Step(remote, s, a).nextObject)
    ensures MadeSince(registry, first, Step(remote, s, a))
  {
    var s' := Step(remote, s, a);
    if s'.nextObject == s.nextObject {
      NothingMade(registry, first, s, s');
    } else {
      SettleMakesOne(registry, first, s, a.key);
    }
  }

  /**
    In every run of a pass, failing ones included: different keys have different objects, and
    the object of a key that was not there before differs from every object there was.
   */
  lemma {:induction false} ObjectsAreSeparate(registry: Registry, remote: seq<Info>, nextObject: nat,
                                              actions: seq<Action>)
    requires AllReady(registry) && Separate(registry, nextObject)
    ensures var s := Run(remote, Begin(registry, remote, nextObject), actions);
            && Separate(s.registry, s.nextObject)
            && MadeSince(registry, nextObject, s)
            && forall key, before ::
                 key in s.registry && key !in registry && s.registry[key].Ready? && before in registry ==>
                   s.registry[key].number != registry[before].number
  {
    CreateAllMeaning(registry, remote);
    if actions == [] {
    } else {
      var front := actions[..|actions| - 1];
      ObjectsAreSeparate(registry, remote, nextObject, front);
      StepKeepsSeparate(registry, nextObject, remote, Run(remote, Begin(registry, remote, nextObject), front),
                        actions[|actions| - 1]);
    }
  }

  /** A creation that fails leaves its key free, so that asking again starts a new creation; nothing else changes. */
  lemma FailureFreesTheKey(remote: seq<Info>, s: State, info: Info)
    requires Namespace(info) in s.registry && !s.registry[Namespace(info)].Ready?
    ensures var s' := Step(remote, s, Fail(Namespace(info)));
            && s'.failed && Namespace(info) !in s'.registry
            && (forall key :: key in s.registry && key != Namespace(info) ==>
                  key in s'.registry && s'.registry[key] == s.registry[key])
            && Namespace(info) in GetOrCreate(s'.registry, info)
            && GetOrCreate(s'.registry, info)[Namespace(info)] == Registered(info)
  {
  }

  // ---------------------------------------------------------------- every pass ends

  /** The keys a pass can touch, and of these the ones not yet registered, not yet initialized, not yet objects. */
  ghost function Touched(begun: Registry): set<string> {
    begun.Keys + Buffers(begun)
  }

  ghost function Unregistered(begun: Registry, s: State): set<string> {
    set key | key in Touched(begun) && key !in s.registry
  }

  ghost function Uninitialized(begun: Registry, s: State): set<string> {
    set key | key in Touched(begun) && (key in s.registry ==> s.registry[key].Registered?)
  }

  ghost function Unfinished(begun: Registry, s: State): set<string> {
    set key | key in Touched(begun) && (key in s.registry ==> !s.registry[key].Ready?)
  }

  ghost function Uncompleted(remote: seq<Info>, s: State): set<nat> {
    set i: nat | i < |remote| && i !in s.done
  }

  /** The steps left: the stages still ahead of every key, and the creations not completed. */
  ghost function Left(begun: Registry, remote: seq<Info>, s: State): nat {
    |Unregistered(begun, s)| + |Uninitialized(begun, s)| + |Unfinished(begun, s)| + |Uncompleted(remote, s)|
  }

  lemma {:induction false} SubsetSize<T>(a: set<T>, b: set<T>)
    requires a <= b
    ensures |a| <= |b| && (a != b ==> |a| < |b|)
  {
    assert b == a + (b - a) && a !! (b - a);
    assert |b| == |a| + |b - a|;
    assert a != b ==> b - a != {};
  }

  /** No set of what is ahead grows, and one of them shrinks. */
  lemma StepShrinks(begun: Registry, remote: seq<Info>, s: State, s': State)
    requires Unregistered(begun, s') <= Unregistered(begun, s)
    requires Uninitialized(begun, s') <= Uninitialized(begun, s)
    requires Unfinished(begun, s') <= Unfinished(begun, s)
    requires Uncompleted(remote, s') <= Uncompleted(remote, s)
    requires || Uninitialized(begun, s') != Uninitialized(begun, s)
             || Unfinished(begun, s') != Unfinished(begun, s)
             || Uncompleted(remote, s') != Uncompleted(remote, s)
    ensures Left(begun, remote, s') < Left(begun, remote, s)
  {
    SubsetSize(Unregistered(begun, s'), Unregistered(begun, s));
    SubsetSize(Uninitialized(begun, s'), Uninitialized(begun, s));
    SubsetSize(Unfinished(begun, s'), Unfinished(begun, s));
    SubsetSize(Uncompleted(remote, s'), Uncompleted(remote, s));
  }

  lemma SettleShrinks(begun: Registry, remote: seq<Info>, s: State, key: string)
    requires key in Touched(begun) && key in s.registry && !s.registry[key].Ready?
    ensures Left(begun, remote, Settle(s, key)) < Left(begun, remote, s)
  {
    assert key in Unfinished(begun, s) && key !in Unfinished(begun, Settle(s, key));
    StepShrinks(begun, remote, s, Settle(s, key));
  }

  lemma TopicShrinks(begun: Registry, remote: seq<Info>, s: State, key: string)
    requires key in Touched(begun) && key in s.registry && s.registry[key].Registered?
    requires IsTopic(s.registry[key].info)
    ensures Left(begun, remote, InitializeProxy(s, key)) < Left(begun, remote, s)
  {
    var s' := InitializeProxy(s, key);
    assert key in Uninitialized(begun, s) && key !in Uninitialized(begun, s');
    StepShrinks(begun, remote, s, s');
  }

  lemma CompletedTwice(local: set<string>, remote: seq<Info>, s: State, i: nat)
    requires LocalIsUncompleted(local, remote, s)
    ensures i in s.done ==> Step(remote, s, Complete(i)) == s
  {
    if i in s.done {
      assert Namespace(remote[i]) !in s.local;
      assert s.local - {Namespace(remote[i])} == s.local && s.done + {i} == s.done;
    }
  }

  lemma CompleteShrinks(begun: Registry, local: set<string>, remote: seq<Info>, s: State, i: nat)
    requires LocalIsUncompleted(local, remote, s) && Step(remote, s, Complete(i)) != s
    ensures Left(begun, remote, Step(remote, s, Complete(i))) < Left(begun, remote, s)
  {
    var s' := Step(remote, s, Complete(i));
    CompletedTwice(local, remote, s, i);
    assert i in Uncompleted(remote, s) && i !in Uncompleted(remote, s');
    StepShrinks(begun, remote, s, s');
  }

  /** Every step that does anything, failures apart, uses up some of what is left. */
  lemma {:induction false} StepUsesUp(begun: Registry, local: set<string>, remote: seq<Info>, s: State, a: Action)
    requires Sound(begun, remote, s) && LocalIsUncompleted(local, remote, s)
    requires !a.Fail? && Step(remote, s, a) != s
    ensures Left(begun, remote, Step(remote, s, a)) < Left(begun, remote, s)
  {
    match a
    case Initialize(key) =>
      if IsTopic(s.registry[key].info) {
        TopicShrinks(begun, remote, s, key);
      } else {
        SettleShrinks(begun, remote, s, key);
      }
    case RingbufferReady(key) => SettleShrinks(begun, remote, s, key);
    case Complete(i) => CompleteShrinks(begun, local, remote, s, i);
  }

  lemma RunSnoc(remote: seq<Info>, s: State, actions: seq<Action>, a: Action)
    ensures Run(remote, s, actions + [a]) == Step(remote, Run(remote, s, actions), a)
  {
    assert (actions + [a])[..|actions|] == actions;
  }

  /** Steps of a run that change anything. */
  ghost function Effective(remote: seq<Info>, s: State, actions: seq<Action>): nat {
    if actions == [] then 0
    else
      var n := |actions| - 1;
      Effective(remote, s, actions[..n])
      + if Run(remote, s, actions) != Run(remote, s, actions[..n]) then 1 else 0
  }

  /** A pass without failures makes no more steps than were left at its beginning: none goes on for ever. */
  lemma {:induction false} PassIsBounded(registry: Registry, remote: seq<Info>, nextObject: nat, actions: seq<Action>)
    requires AllReady(registry) && !Run(remote, Begin(registry, remote, nextObject), actions).failed
    ensures var s, begun := Begin(registry, remote, nextObject), CreateAll(registry, remote);
            Effective(remote, s, actions) + Left(begun, remote, Run(remote, s, actions)) <= Left(begun, remote, s)
  {
    if actions == [] {
    } else {
      var n := |actions| - 1;
      var s := Run(remote, Begin(registry, remote, nextObject), actions[..n]);
      assert Run(remote, Begin(registry, remote, nextObject), actions) == Step(remote, s, actions[n]);
      PassIsBounded(registry, remote, nextObject, actions[..n]);
      RunsAreSound(registry, remote, nextObject, actions[..n]);
      LocalShrinksByCompletion(registry, remote, nextObject, actions[..n]);
      if Step(remote, s, actions[n]) != s {
        StepUsesUp(CreateAll(registry, remote), registry.Keys, remote, s, actions[n]);
      }
    }
  }

  lemma {:induction false} StepTowardsEnd(registry: Registry, remote: seq<Info>, nextObject: nat, actions: seq<Action>)
    returns (a: Action)
    requires AllReady(registry)
    requires var s := Run(remote, Begin(registry, remote, nextObject), actions);
             !s.failed && !AllCreated(remote, s)
    ensures var s, begun := Begin(registry, remote, nextObject), CreateAll(registry, remote);
            && !Run(remote, s, actions + [a]).failed
            && Left(begun, remote, Run(remote, s, actions + [a])) < Left(begun, remote, Run(remote, s, actions))
  {
    var s := Run(remote, Begin(registry, remote, nextObject), actions);
    a := NoDeadlock(registry, remote, nextObject, actions);
    RunsAreSound(registry, remote, nextObject, actions);
    LocalShrinksByCompletion(registry, remote, nextObject, actions);
    StepUsesUp(CreateAll(registry, remote), registry.Keys, remote, s, a);
    RunSnoc(remote, Begin(registry, remote, nextObject), actions, a);
  }

  /** From every state without a failure the pass can be brought to its end. */
  lemma {:induction false} PassCanFinish(registry: Registry, remote: seq<Info>, nextObject: nat, actions: seq<Action>)
    returns (more: seq<Action>)
    requires AllReady(registry) && !Run(remote, Begin(registry, remote, nextObject), actions).failed
    ensures AllCreated(remote, Run(remote, Begin(registry, remote, nextObject), actions + more))
    decreases Left(CreateAll(registry, remote), remote, Run(remote, Begin(registry, remote, nextObject), actions))
  {
    if AllCreated(remote, Run(remote, Begin(registry, remote, nextObject), actions)) {
      more := [];
      assert actions + more == actions;
    } else {
      var a := StepTowardsEnd(registry, remote, nextObject, actions);
      var rest := PassCanFinish(registry, remote, nextObject, actions + [a]);
      more := [a] + rest;
      assert actions + more == actions + [a] + rest;
    }
  }

  // ---------------------------------------------------------------- what a pass does

  lemma KeyHasIndex(remote: seq<Info>, key: string) returns (i: nat)
    requires key in Namespaces(remote)
    ensures i < |remote| && Namespace(remote[i]) == key
  {
    var info :| info in remote && Namespace(info) == key;
    i :| i < |remote| && remote[i] == info;
  }

  /** Whatever order the creations complete in, exactly the local objects unknown to the cluster are destroyed. */
  lemma LeftoversAreLocalMinusRemote(registry: Registry, remote: seq<Info>, nextObject: nat, actions: seq<Action>)
    requires AllCreated(remote, Run(remote, Begin(registry, remote, nextObject), actions))
    ensures Run(remote, Begin(registry, remote, nextObject), actions).local == registry.Keys - Namespaces(remote)
  {
    var s := Run(remote, Begin(registry, remote, nextObject), actions);
    LocalShrinksByCompletion(registry, remote, nextObject, actions);
    var completed := set i | i in s.done :: Namespace(remote[i]);
    forall key ensures key in completed <==> key in Namespaces(remote) {
      if key in Namespaces(remote) {
        var i := KeyHasIndex(remote, key);
        assert i in s.done;
      }
    }
  }

  /** Ring buffers that a pass leaves in the registry although the cluster did not report them. */
  ghost function Strays(registry: Registry, remote: seq<Info>): set<string> {
    Buffers(CreateAll(registry, remote)) - registry.Keys - Namespaces(remote)
  }

  /** After all creations everything the pass touched is an object, ring buffers included. */
  lemma EverythingIsReady(registry: Registry, remote: seq<Info>, s: State)
    requires AllReady(registry) && AllCreated(remote, s)
    requires Sound(CreateAll(registry, remote), remote, s)
    requires forall key :: key in registry ==> key in s.registry && s.registry[key] == registry[key]
    ensures s.registry.Keys == registry.Keys + Namespaces(remote) + Buffers(CreateAll(registry, remote))
    ensures AllReady(s.registry)
  {
    var begun := CreateAll(registry, remote);
    CreateAllMeaning(registry, remote);
    forall key | key in begun ensures s.registry[key].Ready? {
      if key !in registry {
        var i := KeyHasIndex(remote, key);
        assert i in s.done;
      }
    }
    forall key | key in Buffers(begun) ensures key in s.registry && s.registry[key].Ready? {
      var topic :| topic in begun && begun[topic].Registered? && IsTopic(begun[topic].info)
                   && key == Namespace(Ringbuffer(begun[topic].info));
      assert CellOk(begun, s, topic);
    }
  }

  lemma KeysLeft<T>(r: set<T>, n: set<T>, b: set<T>)
    ensures r + n + b - (r - n) == n + (b - r - n)
  {
  }

  /** The keys after a pass: those of the cluster, and the ring buffers of newly created topics. */
  lemma {:induction false} KeysAfterPass(registry: Registry, remote: seq<Info>, nextObject: nat,
                                         actions: seq<Action>, after: Registry)
    requires AllReady(registry) && Pass(registry, remote, nextObject, actions, after)
    ensures after.Keys == Namespaces(remote) + Strays(registry, remote)
    ensures AllReady(after)
    ensures forall key :: key in registry && key in Namespaces(remote) ==> key in after && after[key] == registry[key]
  {
    var s := Run(remote, Begin(registry, remote, nextObject), actions);
    RunsAreSound(registry, remote, nextObject, actions);
    LeftoversAreLocalMinusRemote(registry, remote, nextObject, actions);
    forall key | key in registry ensures key in s.registry && s.registry[key] == registry[key] {
      ExistingObjectKept(registry, remote, nextObject, actions, key);
    }
    EverythingIsReady(registry, remote, s);
    KeysLeft(registry.Keys, Namespaces(remote), Buffers(CreateAll(registry, remote)));
  }

  /** Entry `i` is the first one with its key, so its object is the one registered. */
  ghost predicate FirstWithKey(remote: seq<Info>, i: int) {
    0 <= i < |remote| && forall j :: 0 <= j < i ==> Namespace(remote[j]) != Namespace(remote[i])
  }

  /** Every topic new to the client comes with a ring buffer that is local or reported. */
  ghost predicate BuffersAccountedFor(registry: Registry, remote: seq<Info>) {
    forall i :: FirstWithKey(remote, i) && IsTopic(remote[i]) && Namespace(remote[i]) !in registry ==>
      Namespace(Ringbuffer(remote[i])) in registry.Keys + Namespaces(remote)
  }

  lemma {:induction false} FirstIsRegistered(registry: Registry, remote: seq<Info>, i: int)
    requires FirstWithKey(remote, i) && Namespace(remote[i]) !in registry
    ensures Namespace(remote[i]) in CreateAll(registry, remote)
    ensures CreateAll(registry, remote)[Namespace(remote[i])] == Registered(remote[i])
  {
    var n := |remote| - 1;
    if i < n {
      FirstIsRegistered(registry, remote[..n], i);
    } else {
      CreateAllMeaning(registry, remote[..n]);
      if Namespace(remote[i]) in Namespaces(remote[..n]) {
        var j := KeyHasIndex(remote[..n], Namespace(remote[i]));
        assert false;
      }
    }
  }

  lemma {:induction false} FirstOccurrence(remote: seq<Info>, key: string) returns (i: nat)
    requires key in Namespaces(remote)
    ensures FirstWithKey(remote, i) && Namespace(remote[i]) == key
  {
    i := KeyHasIndex(remote, key);
    while exists j :: 0 <= j < i && Namespace(remote[j]) == key
      invariant i < |remote| && Namespace(remote[i]) == key
      decreases i
    {
      var j: nat :| j < i && Namespace(remote[j]) == key;
      i := j;
    }
  }

  lemma NoStraysIffAccountedFor(registry: Registry, remote: seq<Info>)
    requires AllReady(registry)
    ensures Strays(registry, remote) == {} <==> BuffersAccountedFor(registry, remote)
  {
    var begun := CreateAll(registry, remote);
    CreateAllMeaning(registry, remote);
    if Strays(registry, remote) == {} {
      forall i | FirstWithKey(remote, i) && IsTopic(remote[i]) && Namespace(remote[i]) !in registry
        ensures Namespace(Ringbuffer(remote[i])) in registry.Keys + Namespaces(remote)
      {
        FirstIsRegistered(registry, remote, i);
        var buffer := Namespace(Ringbuffer(remote[i]));
        assert buffer in Buffers(begun);
        assert buffer !in registry.Keys + Namespaces(remote) ==> buffer in Strays(registry, remote);
      }
    }
    if BuffersAccountedFor(registry, remote) {
      forall key | key in Buffers(begun) ensures key in registry.Keys + Namespaces(remote) {
        var topic :| topic in begun && begun[topic].Registered? && IsTopic(begun[topic].info)
                     && key == Namespace(Ringbuffer(begun[topic].info));
        var i := FirstOccurrence(remote, topic);
        FirstIsRegistered(registry, remote, i);
      }
    }
  }

  /**
    A pass leaves exactly the objects of the cluster if and only if every newly created
    topic has a ring buffer that was local or reported; otherwise the ring buffers stay.
   */
  lemma PassMirrorsClusterIff(registry: Registry, remote: seq<Info>, nextObject: nat,
                              actions: seq<Action>, after: Registry)
    requires AllReady(registry) && Pass(registry, remote, nextObject, actions, after)
    ensures after.Keys == Namespaces(remote) <==> BuffersAccountedFor(registry, remote)
  {
    KeysAfterPass(registry, remote, nextObject, actions, after);
    NoStraysIffAccountedFor(registry, remote);
  }

  lemma NothingNewNoStrays(registry: Registry, remote: seq<Info>)
    requires AllReady(registry) && Namespaces(remote) <= registry.Keys
    ensures Strays(registry, remote) == {}
  {
    CreateAllMeaning(registry, remote);
  }

  /** A pass over a registry that has all of the cluster's objects keeps those and drops the rest. */
  lemma PassOverSuperset(registry: Registry, remote: seq<Info>, nextObject: nat, actions: seq<Action>, after: Registry)
    requires AllReady(registry) && Namespaces(remote) <= registry.Keys
    requires Pass(registry, remote, nextObject, actions, after)
    ensures after.Keys == Namespaces(remote)
    ensures forall key :: key in after ==> after[key] == registry[key]
  {
    KeysAfterPass(registry, remote, nextObject, actions, after);
    NothingNewNoStrays(registry, remote);
  }

  /**
    A second pass with the same report creates nothing and ends with exactly the objects of
    the cluster. It changes nothing if and only if the first pass left no stray ring buffer.
   */
  lemma SecondPass(registry: Registry, remote: seq<Info>, n1: nat, first: seq<Action>, after: Registry,
                   n2: nat, second: seq<Action>, final: Registry)
    requires AllReady(registry)
    requires Pass(registry, remote, n1, first, after) && Pass(after, remote, n2, second, final)
    ensures final.Keys == Namespaces(remote) <= after.Keys
    ensures forall key :: key in final ==> final[key] == after[key]
    ensures final == after <==> BuffersAccountedFor(registry, remote)
  {
    KeysAfterPass(registry, remote, n1, first, after);
    PassOverSuperset(after, remote, n2, second, final);
    PassMirrorsClusterIff(registry, remote, n1, first, after);
  }

  /** One reported topic, unknown to the client, is enough: its ring buffer stays after the pass. */
  lemma NewTopicLeavesStray(topic: Info, nextObject: nat) returns (actions: seq<Action>, after: Registry)
    requires IsTopic(topic)
    ensures Pass(map[], [topic], nextObject, actions, after)
    ensures after.Keys == {"hz:impl:reliableTopicService/" + topic.name,
                           "hz:impl:ringbufferService/_hz_rb_" + topic.name}
    ensures Namespaces([topic]) == {"hz:impl:reliableTopicService/" + topic.name} != after.Keys
  {
    var key, buffer := Namespace(topic), Namespace(Ringbuffer(topic));
    var remote := [topic];
    TopicIsNotItsRingbuffer(topic);
    assert remote[..0] == [];
    assert CreateAll(map[], remote) == map[key := Registered(topic)];
    var s0 := Begin(map[], remote, nextObject);
    var a1 := [Initialize(key)];
    var a2 := a1 + [Initialize(buffer)];
    var a3 := a2 + [RingbufferReady(key)];
    actions := a3 + [Complete(0)];
    assert a1 == [] + [Initialize(key)];
    RunSnoc(remote, s0, [], Initialize(key));
    RunSnoc(remote, s0, a1, Initialize(buffer));
    RunSnoc(remote, s0, a2, RingbufferReady(key));
    RunSnoc(remote, s0, a3, Complete(0));
    var s1 := Run(remote, s0, a1);
    assert s1.registry == map[key := AwaitingRingbuffer(topic), buffer := Registered(Ringbuffer(topic))];
    var s2 := Run(remote, s0, a2);
    assert s2.registry == map[key := AwaitingRingbuffer(topic), buffer := Ready(nextObject)];
    var s3 := Run(remote, s0, a3);
    assert s3.registry == map[key := Ready(nextObject + 1), buffer := Ready(nextObject)];
    after := DestroyLeftovers(Run(remote, s0, actions));
    assert buffer !in Namespaces(remote) && Namespaces(remote) == {key};
    assert key == "hz:impl:reliableTopicService/" + topic.name;
    assert buffer == "hz:impl:ringbufferService/_hz_rb_" + topic.name;
  }

  // ---------------------------------------------------------------- the object

  class ProxyManager {
    var proxies: Registry
    var nextObject: nat

    constructor ()
      ensures proxies == map[] && nextObject == 0
    {
      proxies := map[];
      nextObject := 0;
    }

    /** The synchronous part: the key is taken before the object exists. */
    method GetOrCreateProxy(name: string, serviceName: string)
      modifies this`proxies
      ensures proxies == GetOrCreate(old(proxies), Info(name, serviceName))
    {
      var fullName := serviceName + [SEPARATOR] + name;
      if fullName in proxies {
        return;
      }
      proxies := proxies[fullName := Registered(Info(name, serviceName))];
    }

    method InitializeLocalProxy(key: string)
      requires key in proxies && proxies[key].Registered?
      modifies this
      ensures forall s: State :: s.registry == old(proxies) && s.nextObject == old(nextObject) ==>
                InitializeProxy(s, key) == s.(registry := proxies, nextObject := nextObject)
    {
      var info := proxies[key].info;
      if info.serviceName == TOPIC_SERVICE {
        GetOrCreateProxy(RINGBUFFER_PREFIX + info.name, RINGBUFFER_SERVICE);
        proxies := proxies[key := AwaitingRingbuffer(info)];
      } else {
        proxies := proxies[key := Ready(nextObject)];
        nextObject := nextObject + 1;
      }
    }

    method DestroyProxyLocally(key: string)
      modifies this`proxies
      ensures proxies == old(proxies) - {key}
    {
      if key in proxies {
        proxies := proxies - {key};
      }
    }

    /** The first half of a pass: remember the local keys and request every reported object. */
    method RequestCreations(remote: seq<Info>) returns (local: set<string>)
      modifies this`proxies
      ensures proxies == CreateAll(old(proxies), remote) && local == old(proxies).Keys
    {
      local := proxies.Keys;
      for i := 0 to |remote|
        invariant proxies == CreateAll(old(proxies), remote[..i])
      {
        GetOrCreateProxy(remote[i].name, remote[i].serviceName);
        assert remote[..i + 1][..i] == remote[..i];
      }
      assert remote[..|remote|] == remote;
    }

    /** The second half: destroy what is left of the local keys, in whatever order the set yields them. */
    method DestroyAll(local: set<string>)
      modifies this`proxies
      ensures proxies == old(proxies) - local
    {
      var rest := local;
      while rest != {}
        invariant rest <= local && proxies == old(proxies) - (local - rest)
        decreases rest
      {
        var key :| key in rest;
        DestroyProxyLocally(key);
        rest := rest - {key};
        assert local - rest == local - (rest + {key}) + {key};
      }
    }
  }
}
