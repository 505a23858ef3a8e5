/**
  The pipelined writer over every order of writes, process ticks, socket callbacks, drain
  events and closing: one socket write at a time, messages in the order they were given,
  none twice, and no message forgotten while the socket can take it.
 */
module PipelinedWriter {
  import opened Bytes
  import opened Framing
  import opened MessageWriter

  /** A message has at least one frame, and frames whose length can be written. */
  type WireMessage = m: Message | m != [] && AllFit(m) witness [Frame([], 0)]

  datatype State = State(
    queue: seq<WireMessage>,
    failed: bool,
    closed: bool,
    scheduled: bool,
    canWrite: bool,
    processing: bool,              // a call of `process` is due
    inFlight: seq<WireMessage>,    // the batch whose socket write has not called back yet
    accepted: seq<WireMessage>,    // every message taken so far
    resolved: seq<WireMessage>,    // those confirmed to their callers
    rejected: seq<WireMessage>,    // those whose callers got the write error
    dropped: seq<WireMessage>,     // those whose callers never hear of them
    sent: seq<WireMessage>)        // those whose bytes the socket was given

  datatype Action =
    | Write(message: WireMessage)
    | Process(accepts: bool)
    | Called(ok: bool)
    | Drained
    | Close

  const IDLE := State([], false, false, false, true, false, [], [], [], [], [], [])

  function Schedule(s: State): State {
    if !s.scheduled && s.canWrite then s.(scheduled := true, processing := true) else s
  }

  function DoProcess(threshold: nat, s: State, accepts: bool): State {
    if !s.processing then s
    else if s.failed then s.(processing := false)
    else
      var k := BatchFrom(s.queue, threshold, 0);
      if k == 0 then s.(processing := false, scheduled := false)
      else
        s.(processing := false, canWrite := accepts, queue := s.queue[k..], inFlight := s.queue[..k],
           sent := s.sent + s.queue[..k])
  }

  /** What is still queued is dropped without settling its promises. */
  function DoClose(s: State): State {
    s.(canWrite := false, closed := true, dropped := s.queue + s.dropped, queue := [])
  }

  function OnCalled(s: State, ok: bool): State {
    if s.inFlight == [] then s
    else if ok then
      var again := s.queue != [] && s.canWrite;
      s.(resolved := s.resolved + s.inFlight, inFlight := [], scheduled := again, processing := again)
    else
      DoClose(s.(failed := true, rejected := s.inFlight + s.queue + s.rejected, inFlight := [], queue := []))
  }

  function Step(threshold: nat, s: State, a: Action): State {
    match a
    case Write(m) =>
      // after an error the caller is rejected at once; after closing the call throws
      if s.failed || s.closed then s
      else Schedule(s.(queue := s.queue + [m], accepted := s.accepted + [m]))
    case Process(accepts) => DoProcess(threshold, s, accepts)
    case Called(ok) => OnCalled(s, ok)
    case Drained => Schedule(s.(canWrite := true))
    case Close => DoClose(s)
  }

  function Run(threshold: nat, actions: seq<Action>): State {
    if actions == [] then IDLE
    else Step(threshold, Run(threshold, actions[..|actions| - 1]), actions[|actions| - 1])
  }

  // ---------------------------------------------------------------- what every step keeps

  /** The control flags: one activity at a time, and no wake-up is lost unless the threshold admits no message. */
  ghost predicate Controlled(threshold: nat, s: State) {
    && !(s.processing && s.inFlight != [])
    && (!s.failed ==> (s.scheduled <==> s.processing || s.inFlight != []))
    && (s.failed ==> s.closed && !s.processing && s.scheduled && s.inFlight == [])
    && (s.closed ==> s.queue == [])
    && (threshold > 0 && s.queue != [] && s.canWrite ==> s.scheduled)
  }

  /** Where the accepted messages are. */
  ghost predicate Placed(s: State) {
    && s.accepted == s.resolved + s.inFlight + s.queue + s.rejected + s.dropped
    && (!s.closed ==> s.dropped == [])
    && (!s.failed ==> s.rejected == [])
    && s.sent <= s.accepted
    && (!s.failed ==> s.sent == s.resolved + s.inFlight)
  }

  lemma StepKeepsControl(threshold: nat, s: State, a: Action)
    requires Controlled(threshold, s)
    ensures Controlled(threshold, Step(threshold, s, a))
  {
    if a.Process? && s.processing && !s.failed && threshold > 0 {
      BatchIsMaximal(s.queue, threshold, 0);
    }
  }

  lemma TakeFromQueue<T>(all: seq<T>, resolved: seq<T>, queue: seq<T>, dropped: seq<T>, k: nat)
    requires all == resolved + [] + queue + [] + dropped && k <= |queue|
    ensures all == resolved + queue[..k] + queue[k..] + [] + dropped
    ensures resolved + [] + queue[..k] == resolved + queue[..k] <= all
  {
    assert queue == queue[..k] + queue[k..];
  }

  lemma Regroup<T>(r: seq<T>, f: seq<T>, q: seq<T>, d: seq<T>)
    ensures r + f + q + [] + d == (r + f) + [] + q + [] + d
    ensures r + f + q + [] + d == r + f + [] + [] + (q + d)
    ensures r + f + q + [] + d == r + [] + [] + (f + q + []) + ([] + d)
  {
  }

  lemma WritePlaces(threshold: nat, s: State, m: WireMessage)
    requires Placed(s)
    ensures Placed(Step(threshold, s, Write(m)))
  {
    if !s.failed && !s.closed {
      assert s.resolved + s.inFlight + s.queue + [] + [] + [m] == s.resolved + s.inFlight + (s.queue + [m]) + [] + [];
    }
  }

  lemma ProcessPlaces(threshold: nat, s: State, accepts: bool)
    requires Controlled(threshold, s) && Placed(s)
    ensures Placed(DoProcess(threshold, s, accepts))
  {
    if s.processing && !s.failed {
      TakeFromQueue(s.accepted, s.resolved, s.queue, s.dropped, BatchFrom(s.queue, threshold, 0));
    }
  }

  lemma ClosePlaces(threshold: nat, s: State)
    requires Controlled(threshold, s) && Placed(s)
    ensures Placed(DoClose(s))
  {
    if s.failed {
      assert s.queue + s.dropped == s.dropped;
    } else {
      Regroup(s.resolved, s.inFlight, s.queue, s.dropped);
    }
  }

  lemma CalledPlaces(threshold: nat, s: State, ok: bool)
    requires Controlled(threshold, s) && Placed(s) && s.inFlight != []
    ensures Placed(OnCalled(s, ok))
  {
    Regroup(s.resolved, s.inFlight, s.queue, s.dropped);
    assert s.resolved + s.inFlight + [] == s.resolved + s.inFlight;
  }

  lemma StepPlaces(threshold: nat, s: State, a: Action)
    requires Controlled(threshold, s) && Placed(s)
    ensures Placed(Step(threshold, s, a))
  {
    match a
    case Write(m) => WritePlaces(threshold, s, m);
    case Process(accepts) => ProcessPlaces(threshold, s, accepts);
    case Called(ok) => if s.inFlight != [] { CalledPlaces(threshold, s, ok); }
    case Drained =>
    case Close => ClosePlaces(threshold, s);
  }

  lemma {:induction false} RunsAreSound(threshold: nat, actions: seq<Action>)
    ensures Controlled(threshold, Run(threshold, actions)) && Placed(Run(threshold, actions))
  {
    if actions == [] {
    } else {
      var n := |actions| - 1;
      RunsAreSound(threshold, actions[..n]);
      StepKeepsControl(threshold, Run(threshold, actions[..n]), actions[n]);
      StepPlaces(threshold, Run(threshold, actions[..n]), actions[n]);
    }
  }

  // ---------------------------------------------------------------- what that gives

  /**
    The buffer shared by all writes is filled only by `process`, and `process` is never due
    while a socket write is under way; so no bytes change under the socket's hands.
   */
  lemma OneWriteAtATime(threshold: nat, actions: seq<Action>)
    requires Run(threshold, actions).inFlight != []
    ensures !Run(threshold, actions).processing
    ensures forall accepts :: Step(threshold, Run(threshold, actions), Process(accepts)) == Run(threshold, actions)
  {
    RunsAreSound(threshold, actions);
  }

  lemma EmptyMiddle<T>(a: seq<T>, b: seq<T>, c: seq<T>)
    ensures a + [] + [] + b + c == a + b + c
  {
  }

  /**
    Every accepted message is confirmed, under way, waiting, rejected or dropped, once and in
    order; an open writer has rejected and dropped none, and after a write error nothing waits.
   */
  lemma {:induction false} NothingDisappears(threshold: nat, actions: seq<Action>)
    ensures var s := Run(threshold, actions);
            && s.accepted == s.resolved + s.inFlight + s.queue + s.rejected + s.dropped
            && (!s.closed ==> s.rejected == [] && s.dropped == [])
            && (s.failed ==> s.accepted == s.resolved + s.rejected + s.dropped)
            && (!s.failed ==> s.rejected == [])
  {
    RunsAreSound(threshold, actions);
    var s := Run(threshold, actions);
    EmptyMiddle(s.resolved, s.rejected, s.dropped);
  }

  /** Closing an open writer drops exactly what is queued then; nothing else drops anything. */
  lemma OnlyClosingDrops(threshold: nat, s: State, a: Action)
    requires Controlled(threshold, s) && Placed(s)
    ensures Step(threshold, s, a).dropped == if a.Close? && !s.closed then s.queue else s.dropped
  {
    if a.Close? {
      assert [] + s.dropped == s.dropped && s.queue + [] == s.queue;
    }
    if a.Called? && s.inFlight != [] {
      assert [] + s.dropped == s.dropped;
    }
  }

  lemma ClosedStaysClosed(threshold: nat, s: State, a: Action)
    requires Controlled(threshold, s) && Placed(s) && s.closed
    ensures Step(threshold, s, a).closed
    ensures Step(threshold, s, a).dropped == s.dropped && Step(threshold, s, a).accepted == s.accepted
  {
    OnlyClosingDrops(threshold, s, a);
  }

  lemma RunSnoc(threshold: nat, actions: seq<Action>, a: Action)
    ensures Run(threshold, actions + [a]) == Step(threshold, Run(threshold, actions), a)
  {
    assert (actions + [a])[..|actions|] == actions;
  }

  /** The messages never settled are those queued when the writer was closed: from then on they stay as they are. */
  lemma {:induction false} DroppedForEver(threshold: nat, before: seq<Action>, more: seq<Action>)
    requires Run(threshold, before).closed
    ensures Run(threshold, before + more).closed
    ensures Run(threshold, before + more).dropped == Run(threshold, before).dropped
    ensures Run(threshold, before + more).accepted == Run(threshold, before).accepted
  {
    if more == [] {
      assert before + more == before;
    } else {
      var n := |more| - 1;
      DroppedForEver(threshold, before, more[..n]);
      assert before + more == before + more[..n] + [more[n]];
      RunSnoc(threshold, before + more[..n], more[n]);
      RunsAreSound(threshold, before + more[..n]);
      ClosedStaysClosed(threshold, Run(threshold, before + more[..n]), more[n]);
    }
  }

  /** The action closes the writer: a call of `close`, or an error of the write under way. */
  ghost predicate Closes(threshold: nat, actions: seq<Action>, i: int) {
    && 0 <= i < |actions|
    && (actions[i] == Close || (actions[i] == Called(false) && Run(threshold, actions[..i]).inFlight != []))
  }

  lemma StepCloses(threshold: nat, s: State, a: Action)
    ensures Step(threshold, s, a).closed <==> s.closed || a == Close || (a == Called(false) && s.inFlight != [])
  {
  }

  lemma {:induction false} ClosesInFront(threshold: nat, actions: seq<Action>, a: Action, i: int)
    requires i < |actions|
    ensures Closes(threshold, actions + [a], i) <==> Closes(threshold, actions, i)
  {
    if 0 <= i {
      assert (actions + [a])[..i] == actions[..i];
    }
  }

  lemma {:induction false} ClosesLast(threshold: nat, actions: seq<Action>, a: Action)
    ensures Closes(threshold, actions + [a], |actions|)
            <==> a == Close || (a == Called(false) && Run(threshold, actions).inFlight != [])
  {
    assert (actions + [a])[..|actions|] == actions;
  }

  /** A writer is closed exactly once it was closed or a write has failed. */
  lemma {:induction false} ClosedIff(threshold: nat, actions: seq<Action>)
    ensures Run(threshold, actions).closed <==> exists i :: Closes(threshold, actions, i)
  {
    if actions == [] {
    } else {
      var n := |actions| - 1;
      var front, a := actions[..n], actions[n];
      assert actions == front + [a];
      ClosedIff(threshold, front);
      StepCloses(threshold, Run(threshold, front), a);
      forall i | i < n ensures Closes(threshold, actions, i) <==> Closes(threshold, front, i) {
        ClosesInFront(threshold, front, a, i);
      }
      ClosesLast(threshold, front, a);
    }
  }

  /** Exactly what is written before the writer is closed is accepted. */
  lemma {:induction false} AcceptedIffOpen(threshold: nat, actions: seq<Action>, a: Action)
    ensures Run(threshold, actions + [a]).accepted
            == if a.Write? && !Run(threshold, actions).closed then Run(threshold, actions).accepted + [a.message]
               else Run(threshold, actions).accepted
  {
    RunSnoc(threshold, actions, a);
    RunsAreSound(threshold, actions);
  }

  lemma FailedStep(threshold: nat, s: State, a: Action)
    requires s.failed && Controlled(threshold, s)
    ensures var s' := Step(threshold, s, a);
            s'.failed && s'.sent == s.sent && s'.resolved == s.resolved && s'.rejected == s.rejected
  {
  }

  /** A run that goes on from a state. */
  function From(threshold: nat, s: State, actions: seq<Action>): State {
    if actions == [] then s
    else Step(threshold, From(threshold, s, actions[..|actions| - 1]), actions[|actions| - 1])
  }

  lemma {:induction false} FailedStaysFailed(threshold: nat, s: State, more: seq<Action>)
    requires s.failed && Controlled(threshold, s)
    ensures var s' := From(threshold, s, more);
            s'.failed && Controlled(threshold, s') && s'.sent == s.sent && s'.resolved == s.resolved
            && s'.rejected == s.rejected
  {
    if more == [] {
    } else {
      var front, a := more[..|more| - 1], more[|more| - 1];
      FailedStaysFailed(threshold, s, front);
      StepKeepsControl(threshold, From(threshold, s, front), a);
      FailedStep(threshold, From(threshold, s, front), a);
    }
  }

  lemma LastOfBoth<T>(a: seq<T>, b: seq<T>)
    requires b != []
    ensures a + b == a + b[..|b| - 1] + [b[|b| - 1]]
  {
  }

  lemma {:induction false} RunFrom(threshold: nat, before: seq<Action>, more: seq<Action>)
    ensures Run(threshold, before + more) == From(threshold, Run(threshold, before), more)
  {
    if more == [] {
      assert before + more == before;
    } else {
      var n := |more| - 1;
      RunFrom(threshold, before, more[..n]);
      LastOfBoth(before, more);
      RunSnoc(threshold, before + more[..n], more[n]);
    }
  }

  /**
    What becomes of the batch under way: if the socket took it, its callers are told so, in
    order, and nobody is rejected. If not, its callers and those of everything queued get the
    error, and from then on nothing is sent, confirmed or rejected any more.
   */
  lemma {:induction false} BatchOutcome(threshold: nat, actions: seq<Action>, more: seq<Action>)
    requires Run(threshold, actions).inFlight != []
    ensures var s := Run(threshold, actions);
            var taken := Run(threshold, actions + [Called(true)]);
            && taken.resolved == s.resolved + s.inFlight && taken.rejected == s.rejected && taken.queue == s.queue
            && taken.inFlight == []
    ensures var s := Run(threshold, actions);
            var failed := Run(threshold, actions + [Called(false)] + more);
            && failed.rejected == s.inFlight + s.queue
            && failed.resolved == s.resolved && failed.sent == s.sent
  {
    var s := Run(threshold, actions);
    RunsAreSound(threshold, actions);
    RunSnoc(threshold, actions, Called(true));
    RunSnoc(threshold, actions, Called(false));
    StepKeepsControl(threshold, s, Called(false));
    RunFrom(threshold, actions + [Called(false)], more);
    FailedStaysFailed(threshold, Step(threshold, s, Called(false)), more);
    assert s.inFlight + s.queue + [] == s.inFlight + s.queue;
  }

  lemma FullStep(threshold: nat, s: State, a: Action)
    requires !s.canWrite && !s.processing && a != Drained
    ensures var s' := Step(threshold, s, a); !s'.canWrite && !s'.processing && s'.sent == s.sent
  {
  }

  lemma {:induction false} FullStays(threshold: nat, s: State, more: seq<Action>)
    requires !s.canWrite && !s.processing && Drained !in more
    ensures var s' := From(threshold, s, more); !s'.canWrite && !s'.processing && s'.sent == s.sent
  {
    if more == [] {
    } else {
      var front, a := more[..|more| - 1], more[|more| - 1];
      assert a in more;
      FullStays(threshold, s, front);
      FullStep(threshold, From(threshold, s, front), a);
    }
  }

  /** Once the socket has said that it is full, nothing is sent before it has drained. */
  lemma {:induction false} NothingSentWhileFull(threshold: nat, actions: seq<Action>, more: seq<Action>)
    requires Drained !in more
    requires Run(threshold, actions + [Process(false)]).sent != Run(threshold, actions).sent
    ensures Run(threshold, actions + [Process(false)] + more).sent == Run(threshold, actions + [Process(false)]).sent
  {
    RunSnoc(threshold, actions, Process(false));
    RunFrom(threshold, actions + [Process(false)], more);
    FullStays(threshold, Run(threshold, actions + [Process(false)]), more);
  }

  /** Nothing has been sent or settled. */
  ghost predicate Silent(s: State) {
    s.sent == [] && s.resolved == [] && s.inFlight == [] && s.rejected == [] && !s.failed
  }

  lemma ZeroStepStaysSilent(s: State, a: Action)
    requires Silent(s)
    ensures Silent(Step(0, s, a))
  {
    assert BatchFrom(s.queue, 0, 0) == 0;
  }

  /** With a threshold of zero no batch ever takes a message, so nothing is sent and nothing settled. */
  lemma {:induction false} ZeroThresholdSendsNothing(actions: seq<Action>)
    ensures Silent(Run(0, actions))
  {
    if actions == [] {
    } else {
      var n := |actions| - 1;
      ZeroThresholdSendsNothing(actions[..n]);
      ZeroStepStaysSilent(Run(0, actions[..n]), actions[n]);
    }
  }

  /** An open writer whose socket can take more and that has nothing under way has confirmed every message. */
  lemma NoLostWakeUp(threshold: nat, actions: seq<Action>)
    requires threshold > 0
    requires var s := Run(threshold, actions);
             !s.closed && s.canWrite && !s.processing && s.inFlight == []
    ensures Run(threshold, actions).resolved == Run(threshold, actions).accepted
  {
    RunsAreSound(threshold, actions);
  }

  /** The work before an open writer is idle with an empty queue: steps of its own, of the socket and drains. */
  function Work(s: State): nat {
    4 * |s.queue|
    + (if s.inFlight != [] then 2 else 0)
    + (if s.processing then 1 else 0)
    + (if s.canWrite then 0 else 2)
  }

  /** What the writer or its socket does next if nothing goes wrong. */
  function NextAction(s: State): Action {
    if s.inFlight != [] then Called(true) else if s.processing then Process(true) else Drained
  }

  lemma NextActionWorks(threshold: nat, s: State)
    requires threshold > 0 && Controlled(threshold, s) && Placed(s) && !s.closed
    requires s.queue != [] || s.inFlight != []
    ensures var s' := Step(threshold, s, NextAction(s));
            Work(s') < Work(s) && !s'.closed && s'.accepted == s.accepted
  {
    if s.processing && s.inFlight == [] {
      BatchIsMaximal(s.queue, threshold, 0);
    }
  }

  lemma NothingLeft<T>(a: seq<T>)
    ensures a + [] + [] + [] + [] == a
  {
  }

  /**
    From every reachable state of an open writer with a positive threshold, if the socket
    confirms and drains and nothing more is asked, every accepted message is confirmed.
   */
  lemma {:induction false} AllCanBeConfirmed(threshold: nat, actions: seq<Action>) returns (more: seq<Action>)
    requires threshold > 0 && !Run(threshold, actions).closed
    ensures forall a :: a in more ==> a == Process(true) || a == Called(true) || a == Drained
    ensures Run(threshold, actions + more).accepted == Run(threshold, actions).accepted
    ensures Run(threshold, actions + more).resolved == Run(threshold, actions).accepted
    decreases Work(Run(threshold, actions))
  {
    var s := Run(threshold, actions);
    RunsAreSound(threshold, actions);
    if s.queue == [] && s.inFlight == [] {
      more := [];
      assert actions + more == actions;
      NothingLeft(s.resolved);
    } else {
      var a := NextAction(s);
      NextActionWorks(threshold, s);
      assert (actions + [a])[..|actions|] == actions;
      var rest := AllCanBeConfirmed(threshold, actions + [a]);
      more := [a] + rest;
      assert actions + more == actions + [a] + rest;
    }
  }

  lemma BytesSnoc(ms: seq<WireMessage>, i: nat)
    requires i < |ms|
    ensures MessagesBytes(ms[..i + 1]) == MessagesBytes(ms[..i]) + MessageBytes(ms[i])
  {
    assert ms[..i + 1] == ms[..i] + [ms[i]];
    MessagesBytesConcat(ms[..i], [ms[i]]);
    assert [ms[i]][1..] == [];
    assert MessagesBytes([ms[i]]) == MessageBytes(ms[i]) + [];
  }

  lemma {:induction false} QueueLengthIsExact(ms: seq<WireMessage>)
    ensures |MessagesBytes(ms)| == QueueLength(ms)
    ensures QueueLength(ms) == 0 <==> ms == []
  {
    if ms == [] {
    } else {
      var n := |ms| - 1;
      QueueLengthIsExact(ms[..n]);
      BytesSnoc(ms, n);
      assert ms[..n + 1] == ms;
      MessageLength(ms[n]);
    }
  }

  lemma PickedBatch(queue: seq<WireMessage>, threshold: nat)
    ensures var k := BatchFrom(queue, threshold, 0);
            && (QueueLength(queue[..k]) == 0 <==> k == 0)
            && (k <= 1 || QueueLength(queue[..k]) <= threshold)
  {
    if threshold > 0 {
      BatchIsMaximal(queue, threshold, 0);
    }
    QueueLengthIsExact(queue[..BatchFrom(queue, threshold, 0)]);
  }

  /** The bytes the socket was given, over all its writes. */
  ghost function OnTheWire(s: State): seq<Byte> {
    MessagesBytes(s.sent)
  }

  /** What a step hands to the socket: one batch, if processing is due, and nothing otherwise. */
  function Handed(threshold: nat, s: State, a: Action): seq<WireMessage> {
    if a.Process? && s.processing && !s.failed then s.queue[..BatchFrom(s.queue, threshold, 0)] else []
  }

  lemma SentGrowsByHanded(threshold: nat, s: State, a: Action)
    ensures Step(threshold, s, a).sent == s.sent + Handed(threshold, s, a)
  {
  }

  lemma BytesGrow(before: seq<WireMessage>, more: seq<WireMessage>, after: seq<WireMessage>)
    requires after == before + more
    ensures MessagesBytes(after) == MessagesBytes(before) + MessagesBytes(more)
  {
    MessagesBytesConcat(before, more);
  }

  /** A step gives the socket at most one more batch, behind everything it was given before. */
  lemma WireOnlyGrows(threshold: nat, s: State, a: Action)
    ensures OnTheWire(Step(threshold, s, a)) == OnTheWire(s) + MessagesBytes(Handed(threshold, s, a))
    ensures Handed(threshold, s, a) <= s.queue
    ensures |Handed(threshold, s, a)| <= 1 || |MessagesBytes(Handed(threshold, s, a))| <= threshold
  {
    var more := Handed(threshold, s, a);
    SentGrowsByHanded(threshold, s, a);
    BytesGrow(s.sent, more, Step(threshold, s, a).sent);
    PickedBatch(s.queue, threshold);
    QueueLengthIsExact(more);
  }

  /**
    From the callers of one connection to the handler at the other end: whatever the writer
    was asked and however its bytes were cut on the way, a reader gets exactly the messages
    sent so far, which are the first ones accepted, in that order.
   */
  lemma EndToEnd(threshold: nat, actions: seq<Action>, chunks: seq<seq<Byte>>)
    requires AllUnsplit(Run(threshold, actions).accepted)
    requires Flatten(chunks) == OnTheWire(Run(threshold, actions))
    ensures Sane(Flatten(chunks))
    ensures var s := Run(threshold, actions);
            s.sent <= s.accepted && Feed(chunks) == Parse(MarkedAll(s.sent), [], [])
  {
    var s := Run(threshold, actions);
    RunsAreSound(threshold, actions);
    assert AllUnsplit(s.sent) by {
      forall i | 0 <= i < |s.sent| ensures Unsplit(s.sent[i]) { assert s.sent[i] == s.accepted[i]; }
    }
    TransportRoundTrip(s.sent, chunks);
  }

  // ---------------------------------------------------------------- the object

  lemma {:induction false} QueueLengthGrows(ms: seq<WireMessage>, i: nat)
    requires i <= |ms|
    ensures QueueLength(ms[..i]) <= QueueLength(ms)
    decreases |ms| - i
  {
    if i == |ms| {
      assert ms[..i] == ms;
    } else {
      QueueLengthGrows(ms, i + 1);
      QueueLengthSnoc(ms, i);
    }
  }

  /** Lays the messages of a batch one behind the other into the shared buffer. */
  method Coalesce(batch: seq<WireMessage>, coalesceBuf: array<Byte>) returns (pos: nat)
    requires QueueLength(batch) <= coalesceBuf.Length
    modifies coalesceBuf
    ensures pos == QueueLength(batch)
    ensures coalesceBuf[..pos] == MessagesBytes(batch)
  {
    pos := 0;
    assert batch[..0] == [];
    for i := 0 to |batch|
      invariant pos == QueueLength(batch[..i]) <= coalesceBuf.Length
      invariant coalesceBuf[..pos] == MessagesBytes(batch[..i])
    {
      QueueLengthGrows(batch, i + 1);
      QueueLengthSnoc(batch, i);
      MessageLength(batch[i]);
      ghost var before, start := coalesceBuf[..], pos;
      pos := WriteTo(batch[i], coalesceBuf, pos);
      assert coalesceBuf[..pos] == before[..start] + MessageBytes(batch[i]);
      BytesSnoc(batch, i);
    }
    assert batch[..|batch|] == batch;
  }

  lemma EmptyBatch<T>(queue: seq<T>)
    ensures queue[0..] == queue
  {
  }

  lemma ProcessedBatch(threshold: nat, s: State, accepts: bool)
    requires s.processing && !s.failed && BatchFrom(s.queue, threshold, 0) > 0
    ensures var k := BatchFrom(s.queue, threshold, 0);
            DoProcess(threshold, s, accepts)
            == s.(processing := false).(queue := s.queue[k..])
                .(canWrite := accepts, inFlight := s.queue[..k], sent := s.sent + s.queue[..k])
  {
  }

  class Writer {
    const threshold: nat
    const coalesceBuf: array<Byte>
    var queue: seq<WireMessage>
    var failed: bool
    var closed: bool
    var scheduled: bool
    var canWrite: bool
    // what the event loop and the callers know
    ghost var processing: bool
    ghost var inFlight: seq<WireMessage>
    ghost var accepted: seq<WireMessage>
    ghost var resolved: seq<WireMessage>
    ghost var rejected: seq<WireMessage>
    ghost var dropped: seq<WireMessage>
    ghost var sent: seq<WireMessage>

    ghost predicate Valid() {
      coalesceBuf.Length == threshold
    }

    ghost function Value(): State
      reads this
    {
      State(queue, failed, closed, scheduled, canWrite,
            processing, inFlight, accepted, resolved, rejected, dropped, sent)
    }

    constructor (threshold: nat)
      ensures Valid() && Value() == IDLE && this.threshold == threshold
      ensures fresh(coalesceBuf)
    {
      this.threshold := threshold;
      coalesceBuf := new Byte[threshold];
      queue, failed, closed, scheduled, canWrite := [], false, false, false, true;
      processing, inFlight, accepted, resolved, rejected, dropped, sent := false, [], [], [], [], [], [];
    }

    method TrySchedule()
      modifies this`scheduled, this`processing
      ensures Value() == Schedule(old(Value()))
    {
      if !scheduled && canWrite {
        scheduled, processing := true, true;
      }
    }

    method Enqueue(m: WireMessage)
      modifies this
      ensures Value() == Step(threshold, old(Value()), Write(m))
    {
      if failed || closed {
        return;
      }
      queue, accepted := queue + [m], accepted + [m];
      TrySchedule();
    }

    /** The bytes of a batch, from the shared buffer unless it is one message too large for it. */
    method BatchBytes(writeBatch: seq<WireMessage>, totalLength: nat) returns (buf: seq<Byte>)
      requires Valid() && totalLength == QueueLength(writeBatch)
      requires |writeBatch| == 1 || totalLength <= threshold
      modifies coalesceBuf
      ensures buf == MessagesBytes(writeBatch)
    {
      if |writeBatch| == 1 && totalLength > threshold {
        var own := new Byte[totalLength];
        var end := Coalesce(writeBatch, own);
        buf := own[..end];
      } else {
        var end := Coalesce(writeBatch, coalesceBuf);
        buf := coalesceBuf[..totalLength];
      }
    }

    /** Takes a batch off the queue. */
    method TakeBatch() returns (writeBatch: seq<WireMessage>, totalLength: nat)
      modifies this`queue
      ensures var k := BatchFrom(old(queue), threshold, 0);
              && Value() == old(Value()).(queue := old(queue)[k..]) && writeBatch == old(queue)[..k]
              && totalLength == QueueLength(writeBatch)
              && (totalLength == 0 <==> k == 0)
              && (k <= 1 || totalLength <= threshold)
    {
      var queueIdx, length := PickBatch(queue, threshold);
      PickedBatch(queue, threshold);
      writeBatch, totalLength := queue[..queueIdx], length;
      queue := queue[queueIdx..];
    }

    /** Hands the bytes of a batch to the socket, which answers whether it takes more. */
    method WriteToSocket(writeBatch: seq<WireMessage>, totalLength: nat, accepts: bool) returns (buf: seq<Byte>)
      requires Valid() && totalLength == QueueLength(writeBatch)
      requires |writeBatch| == 1 || totalLength <= threshold
      modifies this`canWrite, this`inFlight, this`sent, coalesceBuf
      ensures Value() == old(Value()).(canWrite := accepts, inFlight := writeBatch, sent := old(sent) + writeBatch)
      ensures buf == MessagesBytes(writeBatch)
    {
      buf := BatchBytes(writeBatch, totalLength);
      canWrite := accepts;
      inFlight, sent := writeBatch, sent + writeBatch;
    }

    /** Picks a batch and writes it; answers its bytes. */
    method ProcessQueue(accepts: bool) returns (buf: seq<Byte>)
      requires Valid() && processing && inFlight == []
      modifies this, coalesceBuf
      ensures Value() == DoProcess(threshold, old(Value()), accepts)
      ensures buf == MessagesBytes(inFlight)
    {
      buf := [];
      processing := false;
      if failed {
        return;
      }
      ghost var before := old(Value());
      var writeBatch, totalLength := TakeBatch();
      EmptyBatch(before.queue);
      if totalLength == 0 {
        scheduled := false;
        return;
      }
      buf := WriteToSocket(writeBatch, totalLength, accepts);
      ProcessedBatch(threshold, before, accepts);
    }

    /** The write error reaches the callers of the batch under way and of everything queued. */
    method Reject()
      modifies this`rejected, this`inFlight, this`queue
      ensures rejected == old(inFlight) + old(queue) + old(rejected) && inFlight == [] && queue == []
    {
      rejected := inFlight + queue + rejected;
      inFlight, queue := [], [];
    }

    method CloseQueue()
      modifies this
      ensures Value() == DoClose(old(Value()))
    {
      canWrite, closed := false, true;
      dropped, queue := queue + dropped, [];
    }

    method OnWritten(ok: bool)
      requires inFlight != []
      modifies this
      ensures Value() == Step(threshold, old(Value()), Called(ok))
    {
      if !ok {
        failed := true;
        Reject();
        CloseQueue();
        return;
      }
      resolved, inFlight := resolved + inFlight, [];
      if |queue| == 0 || !canWrite {
        scheduled, processing := false, false;
        return;
      }
      scheduled, processing := true, true;
    }

    method OnDrain()
      modifies this
      ensures Value() == Step(threshold, old(Value()), Drained)
    {
      canWrite := true;
      TrySchedule();
    }
  }
}
