/**
  The constant-concurrency scheduler of the benchmark: a fixed number of chains, each of
  which starts its next operation when its previous one finishes, over one shared counter.
  Operations finish in any order.
 */
module Benchmark {
  import opened Wrappers

  /** A chain waits for its initial no-op, has an operation in flight, or is over. */
  datatype Chain = Initial | InFlight | Ended | Broken

  datatype State = State(ops: nat, completed: nat, rejected: nat, chains: seq<Chain>)

  datatype Action = Resolve(chain: nat) | Reject(chain: nat)

  function Begin(concurrency: nat): State {
    State(0, 0, 0, seq(concurrency, i => Initial))
  }

  predicate Live(c: Chain) {
    c.Initial? || c.InFlight?
  }

  /** The promise of a chain resolves: the chain starts another operation while the total is not reached. */
  function OnResolved(total: real, s: State, i: nat): State {
    if i >= |s.chains| || !Live(s.chains[i]) then s
    else
      var finished := if s.chains[i].InFlight? then 1 else 0;
      if s.ops as real < total then
        s.(ops := s.ops + 1, completed := s.completed + finished, chains := s.chains[i := InFlight])
      else
        s.(completed := s.completed + finished, chains := s.chains[i := Ended])
  }

  function OnRejected(s: State, i: nat): State {
    if i >= |s.chains| || !s.chains[i].InFlight? then s
    else s.(rejected := s.rejected + 1, chains := s.chains[i := Broken])
  }

  function Step(total: real, s: State, a: Action): State {
    match a
    case Resolve(i) => OnResolved(total, s, i)
    case Reject(i) => OnRejected(s, i)
  }

  function Run(total: real, s: State, actions: seq<Action>): State {
    if actions == [] then s
    else Step(total, Run(total, s, actions[..|actions| - 1]), actions[|actions| - 1])
  }

  /** The total rounded up; a warm-up asks for a tenth of the total, which need not be whole. */
  function Ceiling(total: real): (n: nat)
    ensures total <= 0.0 ==> n == 0
    ensures total > 0.0 ==> n as real >= total && (n - 1) as real < total
  {
    if total <= 0.0 then 0
    else if total.Floor as real == total then total.Floor
    else total.Floor + 1
  }

  /** Comparing the counter with a fractional total is comparing it with the total rounded up. */
  lemma BelowTotal(ops: nat, total: real)
    ensures ops as real < total <==> ops < Ceiling(total)
  {
  }

  function Count(s: State, c: Chain): nat {
    multiset(s.chains)[c]
  }

  lemma {:induction false} ChainsAddUp(chains: seq<Chain>)
    ensures var m := multiset(chains);
            |chains| == m[Initial] + m[InFlight] + m[Ended] + m[Broken]
  {
    if chains == [] {
    } else {
      var n := |chains| - 1;
      ChainsAddUp(chains[..n]);
      assert chains == chains[..n] + [chains[n]];
      assert multiset(chains) == multiset(chains[..n]) + multiset{chains[n]};
      assert chains[n].Initial? || chains[n].InFlight? || chains[n].Ended? || chains[n].Broken?;
    }
  }

  /** What every completion order keeps. */
  ghost predicate Bounded(total: real, concurrency: nat, s: State) {
    && |s.chains| == concurrency
    && s.ops <= Ceiling(total)
    && s.ops == s.completed + s.rejected + Count(s, InFlight)
    && s.rejected == Count(s, Broken)
    && (Count(s, Ended) > 0 ==> s.ops == Ceiling(total))
  }

  /** Changing one chain moves one unit from its old kind to its new one. */
  lemma Recount(chains: seq<Chain>, i: nat, c: Chain, x: Chain)
    requires i < |chains|
    ensures multiset(chains)[chains[i]] > 0
    ensures multiset(chains[i := c])[x]
            == multiset(chains)[x] - (if x == chains[i] then 1 else 0) + (if x == c then 1 else 0)
  {
  }

  lemma RecountAll(chains: seq<Chain>, i: nat, c: Chain)
    requires i < |chains|
    ensures multiset(chains)[chains[i]] > 0
    ensures forall x: Chain :: multiset(chains[i := c])[x]
              == multiset(chains)[x] - (if x == chains[i] then 1 else 0) + (if x == c then 1 else 0)
  {
    forall x: Chain
      ensures multiset(chains[i := c])[x]
              == multiset(chains)[x] - (if x == chains[i] then 1 else 0) + (if x == c then 1 else 0)
    {
      Recount(chains, i, c, x);
    }
    Recount(chains, i, c, c);
  }

  lemma ResolveKeepsBounds(total: real, concurrency: nat, s: State, i: nat)
    requires Bounded(total, concurrency, s)
    ensures Bounded(total, concurrency, OnResolved(total, s, i))
  {
    BelowTotal(s.ops, total);
    if i < |s.chains| {
      RecountAll(s.chains, i, if s.ops as real < total then InFlight else Ended);
    }
  }

  lemma StepKeepsBounds(total: real, concurrency: nat, s: State, a: Action)
    requires Bounded(total, concurrency, s)
    ensures Bounded(total, concurrency, Step(total, s, a))
  {
    if a.Resolve? {
      ResolveKeepsBounds(total, concurrency, s, a.chain);
    } else if a.chain < |s.chains| {
      RecountAll(s.chains, a.chain, Broken);
    }
  }

  lemma BeginCounts(concurrency: nat)
    ensures Count(Begin(concurrency), Initial) == concurrency
    ensures forall c: Chain :: c != Initial ==> Count(Begin(concurrency), c) == 0
  {
    var chains := Begin(concurrency).chains;
    forall c: Chain | c != Initial ensures multiset(chains)[c] == 0 {
      assert c !in chains;
    }
    ChainsAddUp(chains);
  }

  lemma {:induction false} RunsAreBounded(total: real, concurrency: nat, actions: seq<Action>)
    ensures Bounded(total, concurrency, Run(total, Begin(concurrency), actions))
  {
    if actions == [] {
      BeginCounts(concurrency);
    } else {
      var n := |actions| - 1;
      RunsAreBounded(total, concurrency, actions[..n]);
      StepKeepsBounds(total, concurrency, Run(total, Begin(concurrency), actions[..n]), actions[n]);
    }
  }

  /** The counter never passes the total rounded up, and no more operations are in flight than chains exist. */
  lemma NeverTooMany(total: real, concurrency: nat, actions: seq<Action>)
    ensures var s := Run(total, Begin(concurrency), actions);
            && s.ops <= Ceiling(total)
            && Count(s, InFlight) <= concurrency
            && s.ops == s.completed + s.rejected + Count(s, InFlight)
  {
    RunsAreBounded(total, concurrency, actions);
    ChainsAddUp(Run(total, Begin(concurrency), actions).chains);
  }

  /** Until the total is reached the concurrency is constant: every chain past its no-op has an operation in flight. */
  lemma ConstantConcurrency(total: real, concurrency: nat, actions: seq<Action>)
    requires Run(total, Begin(concurrency), actions).ops < Ceiling(total)
    ensures var s := Run(total, Begin(concurrency), actions);
            Count(s, InFlight) + Count(s, Initial) + s.rejected == concurrency
  {
    RunsAreBounded(total, concurrency, actions);
    ChainsAddUp(Run(total, Begin(concurrency), actions).chains);
  }

  /**
    A chain whose operation fails is over for good: it has no operation in flight any more,
    starts none, and nothing of the other chains changes.
   */
  lemma {:induction false} FailureEndsChain(total: real, s: State, i: nat, more: seq<Action>)
    requires i < |s.chains| && s.chains[i] == InFlight
    ensures var s' := Step(total, s, Reject(i));
            && s'.ops == s.ops && s'.completed == s.completed && s'.rejected == s.rejected + 1
            && |s'.chains| == |s.chains|
            && (forall j :: 0 <= j < |s.chains| && j != i ==> s'.chains[j] == s.chains[j])
            && i < |Run(total, s', more).chains| && !Live(Run(total, s', more).chains[i])
  {
    if more == [] {
    } else {
      FailureEndsChain(total, s, i, more[..|more| - 1]);
    }
  }

  ghost predicate Over(s: State) {
    forall i :: 0 <= i < |s.chains| ==> !Live(s.chains[i])
  }

  /** A run in which no operation fails ends with the total rounded up, all completed, if there is a chain at all. */
  lemma ExactCount(total: real, concurrency: nat, actions: seq<Action>)
    requires Over(Run(total, Begin(concurrency), actions))
    requires Run(total, Begin(concurrency), actions).rejected == 0
    ensures var s := Run(total, Begin(concurrency), actions);
            && s.completed == s.ops
            && (s.ops == Ceiling(total) <==> concurrency > 0 || total <= 0.0)
  {
    var s := Run(total, Begin(concurrency), actions);
    RunsAreBounded(total, concurrency, actions);
    ChainsAddUp(s.chains);
    assert InFlight !in s.chains && Initial !in s.chains;
    assert Count(s, InFlight) == 0 && Count(s, Initial) == 0;
  }

  /** Work left: operations still to start and chains still alive. */
  function Measure(total: real, s: State): int {
    Ceiling(total) - s.ops + Count(s, Initial) + Count(s, InFlight)
  }

  /** Actions of a run that found their chain waiting. */
  function Effective(total: real, s: State, actions: seq<Action>): nat {
    if actions == [] then 0
    else
      var before := Run(total, s, actions[..|actions| - 1]);
      Effective(total, s, actions[..|actions| - 1])
      + if Step(total, before, actions[|actions| - 1]) != before then 1 else 0
  }

  lemma ResolveUsesOneUnit(total: real, s: State, i: nat)
    requires i < |s.chains| && Live(s.chains[i])
    ensures Measure(total, OnResolved(total, s, i)) == Measure(total, s) - 1
    ensures OnResolved(total, s, i) != s
  {
    RecountAll(s.chains, i, if s.ops as real < total then InFlight else Ended);
    assert s.ops as real >= total ==> OnResolved(total, s, i).chains[i] == Ended;
  }

  lemma RejectUsesOneUnit(total: real, s: State, i: nat)
    requires i < |s.chains| && s.chains[i].InFlight?
    ensures Measure(total, OnRejected(s, i)) == Measure(total, s) - 1
    ensures OnRejected(s, i) != s
  {
    RecountAll(s.chains, i, Broken);
  }

  lemma StepUsesOneUnit(total: real, s: State, a: Action)
    ensures Measure(total, Step(total, s, a)) == Measure(total, s) - if Step(total, s, a) != s then 1 else 0
  {
    if a.Resolve? && a.chain < |s.chains| && Live(s.chains[a.chain]) {
      ResolveUsesOneUnit(total, s, a.chain);
    } else if a.Reject? && a.chain < |s.chains| && s.chains[a.chain].InFlight? {
      RejectUsesOneUnit(total, s, a.chain);
    }
  }

  lemma {:induction false} EveryStepCounts(total: real, concurrency: nat, actions: seq<Action>)
    ensures var s := Begin(concurrency);
            Effective(total, s, actions) + Measure(total, Run(total, s, actions)) == Ceiling(total) + concurrency
  {
    if actions == [] {
      BeginCounts(concurrency);
    } else {
      var n := |actions| - 1;
      EveryStepCounts(total, concurrency, actions[..n]);
      StepUsesOneUnit(total, Run(total, Begin(concurrency), actions[..n]), actions[n]);
    }
  }

  /**
    Every run ends: no run makes more than the total rounded up plus the number of chains
    steps, and one without failures that is over has made exactly that many.
   */
  lemma RunLength(total: real, concurrency: nat, actions: seq<Action>)
    ensures Effective(total, Begin(concurrency), actions) <= Ceiling(total) + concurrency
    ensures concurrency > 0 && Over(Run(total, Begin(concurrency), actions))
            && Run(total, Begin(concurrency), actions).rejected == 0 ==>
              Effective(total, Begin(concurrency), actions) == Ceiling(total) + concurrency
  {
    var s := Run(total, Begin(concurrency), actions);
    EveryStepCounts(total, concurrency, actions);
    RunsAreBounded(total, concurrency, actions);
    if concurrency > 0 && Over(s) && s.rejected == 0 {
      ExactCount(total, concurrency, actions);
      assert InFlight !in s.chains && Initial !in s.chains;
    }
  }

  // ---------------------------------------------------------------- the object

  class BenchmarkRunner {
    const totalOps: real
    const concurrency: nat
    var ops: nat
    var chains: seq<Chain>          // what each chain waits for
    ghost var completed: nat
    ghost var rejected: nat

    ghost function Value(): State
      reads this
    {
      State(ops, completed, rejected, chains)
    }

    constructor (totalOps: real, concurrency: nat)
      ensures this.totalOps == totalOps && this.concurrency == concurrency
      ensures Value() == Begin(concurrency)
    {
      this.totalOps := totalOps;
      this.concurrency := concurrency;
      ops, chains := 0, Begin(concurrency).chains;
      completed, rejected := 0, 0;
    }

    method NextOp()
      modifies this`ops
      ensures ops == old(ops) + 1
    {
      ops := ops + 1;
    }

    /** What chain `i` does when the promise it waits for has resolved; answers whether it goes on. */
    method ChainNext(i: nat) returns (chained: bool)
      requires i < |chains| && Live(chains[i])
      modifies this
      ensures Value() == Step(totalOps, old(Value()), Resolve(i))
      ensures chained <==> old(ops) < Ceiling(totalOps)
    {
      BelowTotal(ops, totalOps);
      if chains[i].InFlight? {
        completed := completed + 1;
      }
      if ops as real < totalOps {
        NextOp();
        chains := chains[i := InFlight];
        return true;
      }
      chains := chains[i := Ended];
      return false;
    }

    /** Chain `i` breaks off when its operation fails. */
    method ChainFails(i: nat)
      requires i < |chains| && chains[i].InFlight?
      modifies this`chains, this`rejected
      ensures Value() == Step(totalOps, old(Value()), Reject(i))
    {
      chains := chains[i := Broken];
      rejected := rejected + 1;
    }

    /** The promise of some chain settles, no matter which and how. */
    method Advance() returns (a: Action)
      requires exists i :: 0 <= i < |chains| && Live(chains[i])
      modifies this
      ensures Value() == Step(totalOps, old(Value()), a) != old(Value())
      ensures a.Reject? <==> rejected == old(rejected) + 1
      ensures a.Resolve? <==> rejected == old(rejected)
    {
      var i: nat :| i < |chains| && Live(chains[i]);
      var fails: bool := *;
      if fails && chains[i].InFlight? {
        ChainFails(i);
        a := Reject(i);
      } else {
        var chained := ChainNext(i);
        a := Resolve(i);
      }
    }

    /**
      Runs all chains until none is alive. Which of them settles next, and whether its
      operation failed, is left open; the order taken is returned. The count is answered
      exactly if no operation failed.
     */
    method RunAll() returns (opsCount: Option<nat>, ghost order: seq<Action>)
      requires Value() == Begin(concurrency)
      modifies this
      ensures Value() == Run(totalOps, Begin(concurrency), order) && Over(Value())
      ensures opsCount.Some? <==> rejected == 0
      ensures opsCount.Some? ==> opsCount.value == ops == if concurrency > 0 then Ceiling(totalOps) else 0
    {
      order := [];
      var failed := false;
      RunsAreBounded(totalOps, concurrency, order);
      while exists i :: 0 <= i < |chains| && Live(chains[i])
        invariant Value() == Run(totalOps, Begin(concurrency), order) && (failed <==> rejected > 0)
        invariant Bounded(totalOps, concurrency, Value())
        invariant concurrency == 0 ==> ops == 0
        decreases Measure(totalOps, Value())
      {
        ghost var before := Value();
        var a := Advance();
        failed := failed || a.Reject?;
        assert (order + [a])[..|order|] == order;
        order := order + [a];
        StepKeepsBounds(totalOps, concurrency, before, a);
        StepUsesOneUnit(totalOps, before, a);
      }
      if failed {
        return None, order;
      }
      ExactCount(totalOps, concurrency, order);
      opsCount := Some(ops);
    }
  }
}
