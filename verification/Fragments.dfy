/**
  Messages that arrive in fragments: fragments of different messages may be interleaved, and
  a message is delivered when the fragment that ends it has been merged.
 */
module Fragments {
  import opened Framing
  import opened Wrappers

  /** A fragment after its fragmentation frame was read and dropped. */
  datatype Fragment = Fragment(id: int, begins: bool, ends: bool, body: seq<Frame>)

  /**
    A message being put together. Frames form a chain that grows behind the last one; a
    fragment without frames of its own leaves the dropped fragmentation frame as the last
    one, and what is merged after that is no longer reached from the start of the chain.
   */
  datatype Partial = Partial(frames: Message, attached: bool)

  datatype Delivery = Delivery(id: int, message: Message)

  datatype State = State(open: map<int, Partial>, delivered: seq<Delivery>)

  function First(body: seq<Frame>): Partial {
    Partial(body, body != [])
  }

  function Merge(p: Partial, body: seq<Frame>): Partial {
    Partial(if p.attached then p.frames + body else p.frames, p.attached && body != [])
  }

  function Step(s: State, f: Fragment): State {
    if f.begins then s.(open := s.open[f.id := First(f.body)])
    else if f.id !in s.open then s
    else
      var merged := Merge(s.open[f.id], f.body);
      if f.ends then State(s.open - {f.id}, s.delivered + [Delivery(f.id, merged.frames)])
      else s.(open := s.open[f.id := merged])
  }

  function Run(fs: seq<Fragment>): State {
    if fs == [] then State(map[], []) else Step(Run(fs[..|fs| - 1]), fs[|fs| - 1])
  }

  // ---------------------------------------------------------------- what one chain of fragments amounts to

  function Bodies(fs: seq<Fragment>): (bs: seq<seq<Frame>>)
    ensures |bs| == |fs|
  {
    seq(|fs|, i requires 0 <= i < |fs| => fs[i].body)
  }

  function Flat(bs: seq<seq<Frame>>): Message {
    if bs == [] then [] else bs[0] + Flat(bs[1..])
  }

  /** The frames up to the first fragment that has none. */
  function Joined(bs: seq<seq<Frame>>): Message {
    if bs == [] || bs[0] == [] then [] else bs[0] + Joined(bs[1..])
  }

  ghost predicate NothingAfterEmpty(bs: seq<seq<Frame>>) {
    forall i, j :: 0 <= i < j < |bs| && bs[i] == [] ==> bs[j] == []
  }

  lemma {:induction false} FlatIsEmptyIff(bs: seq<seq<Frame>>)
    ensures Flat(bs) == [] <==> forall i :: 0 <= i < |bs| ==> bs[i] == []
  {
    if bs == [] {
    } else {
      FlatIsEmptyIff(bs[1..]);
      assert bs == [bs[0]] + bs[1..];
    }
  }

  lemma TailNothingAfterEmpty(bs: seq<seq<Frame>>)
    requires bs != [] && bs[0] != []
    ensures NothingAfterEmpty(bs) <==> NothingAfterEmpty(bs[1..])
  {
    if NothingAfterEmpty(bs[1..]) {
      forall i, j | 0 <= i < j < |bs| && bs[i] == [] ensures bs[j] == [] {
        assert bs[1..][i - 1] == [] && bs[1..][j - 1] == bs[j];
      }
    }
  }

  lemma SameBehind<T>(a: seq<T>, b: seq<T>, c: seq<T>)
    ensures a + b == a + c <==> b == c
  {
    assert (a + b)[|a|..] == b && (a + c)[|a|..] == c;
  }

  /** Merging keeps every frame exactly if no fragment with frames comes after one without any. */
  lemma {:induction false} JoinedIsWholeIff(bs: seq<seq<Frame>>)
    ensures Joined(bs) == Flat(bs) <==> NothingAfterEmpty(bs)
  {
    if bs == [] {
    } else {
      assert bs == [bs[0]] + bs[1..];
      if bs[0] == [] {
        FlatIsEmptyIff(bs);
      } else {
        JoinedIsWholeIff(bs[1..]);
        TailNothingAfterEmpty(bs);
        SameBehind(bs[0], Joined(bs[1..]), Flat(bs[1..]));
      }
    }
  }

  lemma {:induction false} JoinedSnoc(bs: seq<seq<Frame>>, b: seq<Frame>)
    ensures Joined(bs + [b]) == if [] in bs then Joined(bs) else Joined(bs) + b
  {
    if bs == [] {
      assert (bs + [b])[1..] == [];
    } else if bs[0] != [] {
      assert (bs + [b])[1..] == bs[1..] + [b];
      JoinedSnoc(bs[1..], b);
      assert [] in bs <==> [] in bs[1..] by { assert bs == [bs[0]] + bs[1..]; }
    }
  }

  /** What the handler has put together from these bodies, the first of which begins the message. */
  function Collected(bs: seq<seq<Frame>>): Partial {
    Partial(Joined(bs), [] !in bs)
  }

  lemma CollectedFirst(body: seq<Frame>)
    ensures Collected([body]) == First(body)
  {
    assert [body][1..] == [];
    assert body != [] ==> Joined([body]) == body + [];
  }

  lemma CollectedMerge(bs: seq<seq<Frame>>, body: seq<Frame>)
    ensures Collected(bs + [body]) == Merge(Collected(bs), body)
  {
    JoinedSnoc(bs, body);
  }

  // ---------------------------------------------------------------- the fragments of one message id

  function Restrict(fs: seq<Fragment>, id: int): seq<Fragment> {
    if fs == [] then []
    else
      var n := |fs| - 1;
      if fs[n].id == id then Restrict(fs[..n], id) + [fs[n]] else Restrict(fs[..n], id)
  }

  function Messages(ds: seq<Delivery>, id: int): seq<Message> {
    if ds == [] then []
    else
      var n := |ds| - 1;
      if ds[n].id == id then Messages(ds[..n], id) + [ds[n].message] else Messages(ds[..n], id)
  }

  function LookUp(open: map<int, Partial>, id: int): Option<Partial> {
    if id in open then Some(open[id]) else None
  }

  /** Where the message still open after all the fragments began. */
  function OpenSince(gs: seq<Fragment>): (r: Option<nat>)
    ensures r.Some? ==> r.value < |gs|
  {
    if gs == [] then None
    else
      var n := |gs| - 1;
      if gs[n].begins then Some(n)
      else if gs[n].ends then None
      else OpenSince(gs[..n])
  }

  ghost predicate Opens(gs: seq<Fragment>, b: nat) {
    b < |gs| && gs[b].begins && forall i :: b < i < |gs| ==> !gs[i].begins && !gs[i].ends
  }

  lemma {:induction false} OpenSinceMeaning(gs: seq<Fragment>, b: nat)
    ensures OpenSince(gs) == Some(b) <==> Opens(gs, b)
  {
    if gs == [] {
    } else {
      var n := |gs| - 1;
      if !gs[n].begins && !gs[n].ends {
        OpenSinceMeaning(gs[..n], b);
        assert gs == gs[..n] + [gs[n]];
      }
    }
  }

  /** The messages these fragments amount to: one for each fragment that ends an open message. */
  function Expected(gs: seq<Fragment>): seq<Message> {
    if gs == [] then []
    else
      var n := |gs| - 1;
      var since := OpenSince(gs[..n]);
      if !gs[n].begins && gs[n].ends && since.Some?
      then Expected(gs[..n]) + [Joined(Bodies(gs[since.value..]))]
      else Expected(gs[..n])
  }

  function StillOpen(gs: seq<Fragment>): Option<Partial> {
    match OpenSince(gs)
    case None => None
    case Some(b) => Some(Collected(Bodies(gs[b..])))
  }

  ghost predicate Agrees(s: State, gs: seq<Fragment>, id: int) {
    Messages(s.delivered, id) == Expected(gs) && LookUp(s.open, id) == StillOpen(gs)
  }

  lemma MessagesSnoc(ds: seq<Delivery>, d: Delivery, id: int)
    ensures Messages(ds + [d], id) == if d.id == id then Messages(ds, id) + [d.message] else Messages(ds, id)
  {
    assert (ds + [d])[..|ds|] == ds;
  }

  lemma BodiesSnoc(gs: seq<Fragment>, f: Fragment, b: nat)
    requires b <= |gs|
    ensures Bodies((gs + [f])[b..]) == Bodies(gs[b..]) + [f.body]
  {
    assert (gs + [f])[b..] == gs[b..] + [f];
  }

  /** A fragment of another message changes nothing for this one. */
  lemma OthersDoNotMatter(s: State, f: Fragment, id: int)
    requires f.id != id
    ensures Messages(Step(s, f).delivered, id) == Messages(s.delivered, id)
    ensures LookUp(Step(s, f).open, id) == LookUp(s.open, id)
  {
    if !f.begins && f.id in s.open && f.ends {
      MessagesSnoc(s.delivered, Delivery(f.id, Merge(s.open[f.id], f.body).frames), id);
    }
  }

  lemma {:induction false} OwnFragment(s: State, gs: seq<Fragment>, f: Fragment)
    requires Agrees(s, gs, f.id)
    ensures Agrees(Step(s, f), gs + [f], f.id)
  {
    assert (gs + [f])[..|gs|] == gs;
    if f.begins {
      CollectedFirst(f.body);
      assert Bodies((gs + [f])[|gs|..]) == [f.body];
    } else if OpenSince(gs).Some? {
      var b := OpenSince(gs).value;
      BodiesSnoc(gs, f, b);
      CollectedMerge(Bodies(gs[b..]), f.body);
      if f.ends {
        MessagesSnoc(s.delivered, Delivery(f.id, Collected(Bodies((gs + [f])[b..])).frames), f.id);
      }
    }
  }

  /**
    Whatever fragments arrived, the messages delivered under an id and the message open under
    it are those that the fragments of that id alone amount to.
   */
  lemma {:induction false} RunMeaning(fs: seq<Fragment>, id: int)
    ensures Agrees(Run(fs), Restrict(fs, id), id)
  {
    if fs == [] {
    } else {
      var n := |fs| - 1;
      RunMeaning(fs[..n], id);
      if fs[n].id == id {
        OwnFragment(Run(fs[..n]), Restrict(fs[..n], id), fs[n]);
      } else {
        OthersDoNotMatter(Run(fs[..n]), fs[n], id);
      }
    }
  }

  lemma {:induction false} RestrictTwice(fs: seq<Fragment>, id: int)
    ensures Restrict(Restrict(fs, id), id) == Restrict(fs, id)
  {
    if fs == [] {
    } else {
      var n := |fs| - 1;
      RestrictTwice(fs[..n], id);
      if fs[n].id == id {
        assert Restrict(fs, id)[..|Restrict(fs, id)| - 1] == Restrict(fs[..n], id);
      }
    }
  }

  /** Two arrivals that agree on the fragments of one message agree on what is delivered under its id. */
  lemma InterleavingIsIrrelevant(fs: seq<Fragment>, gs: seq<Fragment>, id: int)
    requires Restrict(fs, id) == Restrict(gs, id)
    ensures Messages(Run(fs).delivered, id) == Messages(Run(gs).delivered, id)
    ensures LookUp(Run(fs).open, id) == LookUp(Run(gs).open, id)
    ensures Messages(Run(fs).delivered, id) == Messages(Run(Restrict(fs, id)).delivered, id)
  {
    RunMeaning(fs, id);
    RunMeaning(gs, id);
    RestrictTwice(fs, id);
    RunMeaning(Restrict(fs, id), id);
  }

  // ---------------------------------------------------------------- a message sent in fragments arrives

  lemma {:induction false} RestrictConcat(fs: seq<Fragment>, gs: seq<Fragment>, id: int)
    ensures Restrict(fs + gs, id) == Restrict(fs, id) + Restrict(gs, id)
  {
    if gs == [] {
      assert fs + gs == fs;
    } else {
      var n := |gs| - 1;
      assert (fs + gs)[..|fs| + n] == fs + gs[..n];
      RestrictConcat(fs, gs[..n], id);
    }
  }

  /** The fragments of one message: the first begins it, the last ends it, no other does either. */
  ghost predicate Transmission(gs: seq<Fragment>) {
    && |gs| >= 2
    && gs[0].begins && !gs[|gs| - 1].begins && gs[|gs| - 1].ends
    && forall i :: 0 < i < |gs| - 1 ==> !gs[i].begins && !gs[i].ends
  }

  lemma {:induction false} BeforeTheEnd(before: seq<Fragment>, gs: seq<Fragment>)
    requires Opens(gs, 0)
    ensures OpenSince(before + gs) == Some(|before|) && Expected(before + gs) == Expected(before)
  {
    OpenSinceMeaning(before + gs, |before|);
    var n := |gs| - 1;
    assert (before + gs)[..|before| + n] == before + gs[..n];
    if n > 0 {
      BeforeTheEnd(before, gs[..n]);
    } else {
      assert before + gs[..n] == before;
    }
  }

  lemma EndingStep(all: seq<Fragment>, most: seq<Fragment>, last: seq<Fragment>, b: nat)
    requires all != [] && all[..|all| - 1] == most && !all[|all| - 1].begins && all[|all| - 1].ends
    requires OpenSince(most) == Some(b) && all[b..] == last
    ensures Expected(all) == Expected(most) + [Joined(Bodies(last))]
    ensures OpenSince(all) == None
  {
  }

  lemma SplitBeforeLast<T>(a: seq<T>, b: seq<T>)
    requires b != []
    ensures (a + b)[..|a + b| - 1] == a + b[..|b| - 1]
    ensures (a + b)[|a + b| - 1] == b[|b| - 1]
    ensures (a + b)[|a|..] == b
  {
  }

  lemma {:induction false} ExpectedTransmission(before: seq<Fragment>, gs: seq<Fragment>)
    requires Transmission(gs)
    ensures Expected(before + gs) == Expected(before) + [Joined(Bodies(gs))]
    ensures OpenSince(before + gs) == None
  {
    var first := gs[..|gs| - 1];
    BeforeTheEnd(before, first);
    SplitBeforeLast(before, gs);
    EndingStep(before + gs, before + first, gs, |before|);
  }

  /**
    After any history, and however its fragments are mixed with those of other messages, a
    message sent in fragments is delivered once and forgotten; it is delivered whole exactly
    if no fragment with frames comes after one without any.
   */
  lemma {:induction false} TransmissionArrives(history: seq<Fragment>, fs: seq<Fragment>, id: int)
    requires Transmission(Restrict(fs, id))
    ensures var bodies := Bodies(Restrict(fs, id));
            && Messages(Run(history + fs).delivered, id)
               == Messages(Run(history).delivered, id) + [Joined(bodies)]
            && id !in Run(history + fs).open
            && (Joined(bodies) == Flat(bodies) <==> NothingAfterEmpty(bodies))
  {
    var gs := Restrict(fs, id);
    RestrictConcat(history, fs, id);
    RunMeaning(history, id);
    RunMeaning(history + fs, id);
    ExpectedTransmission(Restrict(history, id), gs);
    JoinedIsWholeIff(Bodies(gs));
  }

  /** One fragment without frames in the middle, and what comes after it is not delivered. */
  lemma EmptyFragmentCutsOff(id: int, x: Frame, y: Frame)
    ensures var fs := [Fragment(id, true, false, [x]), Fragment(id, false, false, []), Fragment(id, false, true, [y])];
            Run(fs).delivered == [Delivery(id, [x])] && Flat(Bodies(fs)) == [x, y]
  {
    var fs := [Fragment(id, true, false, [x]), Fragment(id, false, false, []), Fragment(id, false, true, [y])];
    assert fs[..2][..1][..0] == [] && fs[..2][..1] == [fs[0]] && fs[..2] == [fs[0], fs[1]];
    assert Run([fs[0]]) == State(map[id := Partial([x], true)], []);
    assert Merge(Partial([x], true), []) == Partial([x], false);
    assert Run([fs[0], fs[1]]) == Step(Run([fs[0]]), fs[1]);
    assert Bodies(fs) == [[x], [], [y]];
    assert Flat([[y]]) == [y] && Flat([[], [y]]) == [y];
  }

  /** A message is delivered exactly by a fragment that ends an open one, and it is what arrived since its begin. */
  lemma {:induction false} DeliveryHasItsBegin(fs: seq<Fragment>, f: Fragment)
    ensures var gs := Restrict(fs, f.id);
            Run(fs + [f]).delivered ==
            if !f.begins && f.ends && OpenSince(gs).Some?
            then Run(fs).delivered + [Delivery(f.id, Joined(Bodies(gs[OpenSince(gs).value..] + [f])))]
            else Run(fs).delivered
  {
    var gs := Restrict(fs, f.id);
    assert (fs + [f])[..|fs|] == fs;
    RunMeaning(fs, f.id);
    if OpenSince(gs).Some? {
      var b := OpenSince(gs).value;
      CollectedMerge(Bodies(gs[b..]), f.body);
      assert Bodies(gs[b..] + [f]) == Bodies(gs[b..]) + [f.body];
    }
  }

  // ---------------------------------------------------------------- the object

  class FragmentedClientMessageHandler {
    var fragmentedMessages: map<int, Partial>
    ghost var delivered: seq<Delivery>

    ghost function Value(): State
      reads this
    {
      State(fragmentedMessages, delivered)
    }

    constructor ()
      ensures Value() == Run([])
    {
      fragmentedMessages := map[];
      delivered := [];
    }

    /** The message given to the callback, if the fragment completes one. */
    method HandleFragmentedMessage(f: Fragment) returns (message: Option<Message>)
      modifies this
      ensures Value() == Step(old(Value()), f)
      ensures message.Some? <==> delivered != old(delivered)
      ensures message.Some? ==> delivered == old(delivered) + [Delivery(f.id, message.value)]
    {
      message := None;
      if f.begins {
        fragmentedMessages := fragmentedMessages[f.id := First(f.body)];
      } else if f.id in fragmentedMessages {
        var existing := Merge(fragmentedMessages[f.id], f.body);
        fragmentedMessages := fragmentedMessages[f.id := existing];
        if f.ends {
          fragmentedMessages := fragmentedMessages - {f.id};
          delivered := delivered + [Delivery(f.id, existing.frames)];
          message := Some(existing.frames);
        }
      }
    }
  }
}
