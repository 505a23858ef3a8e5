/**
  From frames to fragments: how a connection tells whole messages from fragments, and what
  becomes of both between the bytes of the sender and the handler of the receiver.
 */
module FragmentTransport {
  import opened Bytes
  import opened Framing
  import FixSizedCodec
  import opened Fragments

  const BEGIN_FRAGMENT_FLAG := 0x8000
  const END_FRAGMENT_FLAG := 0x4000

  predicate HasFlag(f: Frame, flag: nat)
    requires flag > 0
  {
    f.flags / flag % 2 == 1
  }

  /** Both fragment flags together mark a message that is not fragmented. */
  predicate Whole(m: Message) {
    m != [] && HasFlag(m[0], BEGIN_FRAGMENT_FLAG) && HasFlag(m[0], END_FRAGMENT_FLAG)
  }

  /** A message that is not whole starts with a frame that holds its fragmentation id. */
  predicate Dispatchable(m: Message) {
    m != [] && (!Whole(m) ==> |m[0].content| >= 8)
  }

  predicate AllDispatchable(ms: seq<Message>) {
    forall i :: 0 <= i < |ms| ==> Dispatchable(ms[i])
  }

  function FragmentOf(m: Message): Fragment
    requires Dispatchable(m) && !Whole(m)
  {
    var id := FixSizedCodec.LongToNumber(FixSizedCodec.DecodeLong(m[0].content[..8]));
    Fragment(id, HasFlag(m[0], BEGIN_FRAGMENT_FLAG), HasFlag(m[0], END_FRAGMENT_FLAG), m[1..])
  }

  // ---------------------------------------------------------------- dispatching

  /** What the fragment handler holds, and the messages given to the callback in order. */
  datatype Inbox = Inbox(fragments: Fragments.State, handled: seq<Message>)

  function Receive(s: Inbox, m: Message): Inbox
    requires Dispatchable(m)
  {
    if Whole(m) then s.(handled := s.handled + [m])
    else
      var after := Fragments.Step(s.fragments, FragmentOf(m));
      var n := |after.delivered|;
      Inbox(after, if n > |s.fragments.delivered| then s.handled + [after.delivered[n - 1].message] else s.handled)
  }

  function ReceiveAll(s: Inbox, ms: seq<Message>): Inbox
    requires AllDispatchable(ms)
  {
    if ms == [] then s
    else Receive(ReceiveAll(s, ms[..|ms| - 1]), ms[|ms| - 1])
  }

  /** The fragments among the messages. */
  function FragmentsOf(ms: seq<Message>): seq<Fragment>
    requires AllDispatchable(ms)
  {
    if ms == [] then []
    else
      var front, m := FragmentsOf(ms[..|ms| - 1]), ms[|ms| - 1];
      if Whole(m) then front else front + [FragmentOf(m)]
  }

  /**
    What the callback gets for one more message: a whole message itself, what has arrived
    since its begin for a fragment that ends an open message, and nothing otherwise.
   */
  function Output(ms: seq<Message>, m: Message): seq<Message>
    requires AllDispatchable(ms) && Dispatchable(m)
  {
    if Whole(m) then [m]
    else
      var f := FragmentOf(m);
      var gs := Restrict(FragmentsOf(ms), f.id);
      if !f.begins && f.ends && OpenSince(gs).Some? then [Joined(Bodies(gs[OpenSince(gs).value..] + [f]))] else []
  }

  function Outputs(ms: seq<Message>): seq<Message>
    requires AllDispatchable(ms)
  {
    if ms == [] then [] else Outputs(ms[..|ms| - 1]) + Output(ms[..|ms| - 1], ms[|ms| - 1])
  }

  const EMPTY := Inbox(Fragments.Run([]), [])

  lemma NothingMore<T>(s: seq<T>)
    ensures s + [] == s
  {
  }

  /** One more fragment behind those given to the handler. */
  lemma {:induction false} OneMoreFragment(ms: seq<Message>, s: Inbox, m: Message)
    requires AllDispatchable(ms) && Dispatchable(m) && !Whole(m)
    requires s.fragments == Fragments.Run(FragmentsOf(ms))
    ensures Receive(s, m).fragments == Fragments.Run(FragmentsOf(ms) + [FragmentOf(m)])
    ensures Receive(s, m).handled == s.handled + Output(ms, m)
  {
    var fs, f := FragmentsOf(ms), FragmentOf(m);
    assert (fs + [f])[..|fs|] == fs;
    DeliveryHasItsBegin(fs, f);
    NothingMore(s.handled);
  }

  /** The handler gets exactly the fragments, and the callback its messages in the order they become complete. */
  lemma {:induction false} ReceiveAllMeaning(ms: seq<Message>)
    requires AllDispatchable(ms)
    ensures ReceiveAll(EMPTY, ms).fragments == Fragments.Run(FragmentsOf(ms))
    ensures ReceiveAll(EMPTY, ms).handled == Outputs(ms)
  {
    if ms == [] {
    } else {
      var front, m := ms[..|ms| - 1], ms[|ms| - 1];
      ReceiveAllMeaning(front);
      if !Whole(m) {
        OneMoreFragment(front, ReceiveAll(EMPTY, front), m);
      }
    }
  }

  // ---------------------------------------------------------------- over the wire

  lemma SameFragmentFlags(f: Frame)
    ensures HasFlag(MarkFinal(f), BEGIN_FRAGMENT_FLAG) <==> HasFlag(f, BEGIN_FRAGMENT_FLAG)
    ensures HasFlag(MarkFinal(f), END_FRAGMENT_FLAG) <==> HasFlag(f, END_FRAGMENT_FLAG)
    ensures MarkFinal(f).content == f.content
  {
    assert f.flags / 0x8000 == f.flags / 0x4000 / 2;
    assert MarkFinal(f).flags / 0x8000 == MarkFinal(f).flags / 0x4000 / 2;
  }

  /** Marking the last frame changes neither the kind of a message nor the id and flags of a fragment. */
  lemma MarkingKeepsFragment(m: Message)
    requires m != []
    ensures Whole(Marked(m)) <==> Whole(m)
    ensures Dispatchable(Marked(m)) <==> Dispatchable(m)
    ensures Dispatchable(m) && !Whole(m) ==> FragmentOf(Marked(m)) == FragmentOf(m).(body := Marked(m[1..]))
  {
    var r := Marked(m);
    SameFragmentFlags(m[0]);
    assert r[0] == if |m| == 1 then MarkFinal(m[0]) else m[0];
    assert r[1..] == Marked(m[1..]);
  }

  lemma MarkingKeepsDispatchable(ms: seq<Message>)
    requires AllDispatchable(ms)
    ensures AllDispatchable(MarkedAll(ms))
  {
    forall i | 0 <= i < |ms| ensures Dispatchable(MarkedAll(ms)[i]) {
      assert Dispatchable(ms[i]);
      MarkingKeepsFragment(ms[i]);
    }
  }

  /**
    Whatever whole messages and fragments a sender writes and however the bytes are cut on
    the way: the callback gets exactly the whole messages and the messages put together from
    fragments, in the order in which they were completed. A message whose fragments were all
    sent is put together once, and has all its frames exactly if no fragment with frames
    came after one without any.
   */
  lemma {:induction false} FragmentsOverTheWire(ms: seq<Message>, chunks: seq<seq<Byte>>, id: int)
    requires Sendable(ms) && AllUnsplit(ms) && AllDispatchable(ms)
    requires Flatten(chunks) == MessagesBytes(ms)
    ensures Sane(Flatten(chunks)) && Feed(chunks).messages == MarkedAll(ms) && AllDispatchable(MarkedAll(ms))
    ensures var inbox := ReceiveAll(EMPTY, Feed(chunks).messages);
            var sent := Restrict(FragmentsOf(MarkedAll(ms)), id);
            && inbox.handled == Outputs(MarkedAll(ms))
            && (Transmission(sent) ==>
                  && Messages(inbox.fragments.delivered, id) == [Joined(Bodies(sent))]
                  && id !in inbox.fragments.open
                  && (Joined(Bodies(sent)) == Flat(Bodies(sent)) <==> NothingAfterEmpty(Bodies(sent))))
  {
    TransportRoundTrip(ms, chunks);
    MarkingKeepsDispatchable(ms);
    ReceiveAllMeaning(MarkedAll(ms));
    var fs := FragmentsOf(MarkedAll(ms));
    if Transmission(Restrict(fs, id)) {
      TransmissionArrives([], fs, id);
      assert [] + fs == fs;
    }
  }

  // ---------------------------------------------------------------- a sender that cuts messages

  /** The flags of piece `i` of `n`. */
  function PieceFlags(i: nat, n: nat): UInt16 {
    if i == 0 then 0x8000 else if i == n - 1 then 0x4000 else 0
  }

  /**
    A message cut into pieces, as a sender writes them: each piece behind a frame with the
    eight bytes of the fragmentation id, and flags that tell the first piece, the last one
    and those in between.
   */
  function Sent(id: seq<Byte>, pieces: seq<Message>): (ms: seq<Message>)
    ensures |ms| == |pieces|
  {
    seq(|pieces|, i requires 0 <= i < |pieces| => [Frame(id, PieceFlags(i, |pieces|))] + pieces[i])
  }

  predicate Pieces(pieces: seq<Message>) {
    |pieces| >= 2 && forall i :: 0 <= i < |pieces| ==> pieces[i] != []
  }

  /** The message is a fragment with that id: not both flags are set, and the id is in front. */
  predicate HasId(m: Message, id: seq<Byte>) {
    m != [] && m[0].flags < 0xC000 && |m[0].content| >= 8 && m[0].content[..8] == id
  }

  function WithId(ms: seq<Message>, id: seq<Byte>): seq<Message> {
    if ms == [] then []
    else
      var front, m := WithId(ms[..|ms| - 1], id), ms[|ms| - 1];
      if HasId(m, id) then front + [m] else front
  }

  /** The number under which the handler keeps the fragments of an id. */
  function Key(id: seq<Byte>): int
    requires |id| == 8
  {
    FixSizedCodec.LongToNumber(FixSizedCodec.DecodeLong(id))
  }

  lemma WholeIsBothFlags(m: Message)
    requires m != []
    ensures Whole(m) <==> m[0].flags >= 0xC000
  {
  }

  lemma IdOfFragment(m: Message, id: seq<Byte>)
    requires Dispatchable(m) && |id| == 8
    ensures HasId(m, id) <==> !Whole(m) && FragmentOf(m).id == Key(id)
  {
    WholeIsBothFlags(m);
    if !Whole(m) {
      FixSizedCodec.SameNumberSameBytes(m[0].content[..8], id);
    }
  }

  lemma {:induction false} WithIdDispatchable(ms: seq<Message>, id: seq<Byte>)
    requires AllDispatchable(ms)
    ensures AllDispatchable(WithId(ms, id))
  {
    if ms == [] {
    } else {
      WithIdDispatchable(ms[..|ms| - 1], id);
    }
  }

  lemma RestrictSnoc(fs: seq<Fragment>, f: Fragment, id: int)
    ensures Restrict(fs + [f], id) == if f.id == id then Restrict(fs, id) + [f] else Restrict(fs, id)
  {
    assert (fs + [f])[..|fs|] == fs;
  }

  lemma FragmentsOfSnoc(ms: seq<Message>, m: Message)
    requires AllDispatchable(ms) && Dispatchable(m)
    ensures AllDispatchable(ms + [m])
    ensures FragmentsOf(ms + [m]) == if Whole(m) then FragmentsOf(ms) else FragmentsOf(ms) + [FragmentOf(m)]
  {
    assert (ms + [m])[..|ms|] == ms;
  }

  /** The fragments of an id are those of the messages with that id. */
  lemma {:induction false} FragmentsWithId(ms: seq<Message>, id: seq<Byte>)
    requires AllDispatchable(ms) && |id| == 8
    ensures AllDispatchable(WithId(ms, id))
    ensures Restrict(FragmentsOf(ms), Key(id)) == FragmentsOf(WithId(ms, id))
  {
    WithIdDispatchable(ms, id);
    if ms == [] {
    } else {
      var front, m := ms[..|ms| - 1], ms[|ms| - 1];
      FragmentsWithId(front, id);
      IdOfFragment(m, id);
      if !Whole(m) {
        RestrictSnoc(FragmentsOf(front), FragmentOf(m), Key(id));
      }
      if HasId(m, id) {
        WithIdDispatchable(front, id);
        FragmentsOfSnoc(WithId(front, id), m);
      }
    }
  }

  // What a piece is to the receiver.

  lemma FragmentSent(id: seq<Byte>, m: Message, piece: Message, i: nat, n: nat)
    requires |id| == 8 && i < n && n >= 2 && m == [Frame(id, PieceFlags(i, n))] + piece
    ensures Dispatchable(m) && !Whole(m) && HasId(m, id)
    ensures FragmentOf(m) == Fragment(Key(id), i == 0, i == n - 1, piece)
  {
    WholeIsBothFlags(m);
    assert m[0].content[..8] == id && m[1..] == piece;
    IdOfFragment(m, id);
  }

  /** The fragments are the first pieces, in order. */
  ghost predicate ArePieces(gs: seq<Fragment>, key: int, pieces: seq<Message>) {
    && |gs| <= |pieces|
    && forall i :: 0 <= i < |gs| ==> gs[i] == Fragment(key, i == 0, i == |pieces| - 1, pieces[i])
  }

  lemma PiecesSnoc(gs: seq<Fragment>, key: int, pieces: seq<Message>, f: Fragment)
    requires ArePieces(gs, key, pieces) && |gs| < |pieces|
    requires f == Fragment(key, |gs| == 0, |gs| == |pieces| - 1, pieces[|gs|])
    ensures ArePieces(gs + [f], key, pieces)
  {
  }

  lemma WithIdSnoc(ms: seq<Message>, m: Message, id: seq<Byte>)
    ensures WithId(ms + [m], id) == if HasId(m, id) then WithId(ms, id) + [m] else WithId(ms, id)
  {
    assert (ms + [m])[..|ms|] == ms;
  }

  lemma {:induction false} FragmentsSent(id: seq<Byte>, pieces: seq<Message>, ms: seq<Message>, k: nat)
    requires |id| == 8 && k <= |pieces| && |pieces| >= 2 && ms == Sent(id, pieces)[..k]
    ensures AllDispatchable(ms) && WithId(ms, id) == ms
    ensures |FragmentsOf(ms)| == k && ArePieces(FragmentsOf(ms), Key(id), pieces)
  {
    if k == 0 {
    } else {
      var front, m := ms[..k - 1], ms[k - 1];
      FragmentsSent(id, pieces, front, k - 1);
      FragmentSent(id, m, pieces[k - 1], k - 1, |pieces|);
      FragmentsOfSnoc(front, m);
      PiecesSnoc(FragmentsOf(front), Key(id), pieces, FragmentOf(m));
      WithIdSnoc(front, m, id);
      assert ms == front + [m];
    }
  }

  lemma BodiesOfPieces(gs: seq<Fragment>, key: int, pieces: seq<Message>)
    requires ArePieces(gs, key, pieces) && |gs| == |pieces|
    ensures Bodies(gs) == pieces
  {
    forall i | 0 <= i < |pieces| ensures Bodies(gs)[i] == pieces[i] {
    }
  }

  /** Behind the pieces before it, the last piece ends a message that is whole; no other ends one. */
  lemma {:induction false} PieceEnds(gs: seq<Fragment>, key: int, pieces: seq<Message>, f: Fragment)
    requires Pieces(pieces) && |gs| < |pieces| && ArePieces(gs, key, pieces) && ArePieces(gs + [f], key, pieces)
    ensures f.id == key
    ensures !f.begins && f.ends && OpenSince(gs).Some? <==> |gs| == |pieces| - 1
    ensures |gs| == |pieces| - 1 ==> Joined(Bodies(gs[OpenSince(gs).value..] + [f])) == Flat(pieces)
  {
    assert (gs + [f])[|gs|] == f;
    if |gs| == |pieces| - 1 {
      assert Opens(gs, 0);
      OpenSinceMeaning(gs, 0);
      assert gs[0..] == gs;
      BodiesOfPieces(gs + [f], key, pieces);
      JoinedIsWholeIff(pieces);
    }
  }

  /** What the callback gets for a piece behind those before it. */
  lemma {:induction false} PieceOutput(ms: seq<Message>, m: Message, id: seq<Byte>, pieces: seq<Message>, k: nat)
    requires AllDispatchable(ms) && |id| == 8 && Pieces(pieces) && k < |pieces|
    requires WithId(ms, id) == Sent(id, pieces)[..k] && m == [Frame(id, PieceFlags(k, |pieces|))] + pieces[k]
    ensures Dispatchable(m) && !Whole(m)
    ensures Output(ms, m) == if k == |pieces| - 1 then [Flat(pieces)] else []
  {
    var gs := Restrict(FragmentsOf(ms), Key(id));
    FragmentSent(id, m, pieces[k], k, |pieces|);
    FragmentsWithId(ms, id);
    FragmentsSent(id, pieces, WithId(ms, id), k);
    PiecesSnoc(gs, Key(id), pieces, FragmentOf(m));
    PieceEnds(gs, Key(id), pieces, FragmentOf(m));
  }

  lemma ReceiveAllSnoc(s: Inbox, ms: seq<Message>, m: Message)
    requires AllDispatchable(ms) && Dispatchable(m)
    ensures AllDispatchable(ms + [m]) && ReceiveAll(s, ms + [m]) == Receive(ReceiveAll(s, ms), m)
  {
    assert (ms + [m])[..|ms|] == ms;
  }

  /**
    Among whatever other messages and fragments, in any order: when the messages with an id
    so far are the first pieces of a message, in order, the next piece gives the callback
    nothing, unless it is the last one; then it gets exactly that message.
   */
  lemma {:induction false} PieceArrives(ms: seq<Message>, m: Message, id: seq<Byte>, pieces: seq<Message>, k: nat)
    requires AllDispatchable(ms) && |id| == 8 && Pieces(pieces) && k < |pieces|
    requires WithId(ms, id) == Sent(id, pieces)[..k] && m == [Frame(id, PieceFlags(k, |pieces|))] + pieces[k]
    ensures AllDispatchable(ms + [m])
    ensures k < |pieces| - 1 ==> ReceiveAll(EMPTY, ms + [m]).handled == ReceiveAll(EMPTY, ms).handled
    ensures k == |pieces| - 1 ==>
              ReceiveAll(EMPTY, ms + [m]).handled == ReceiveAll(EMPTY, ms).handled + [Flat(pieces)]
  {
    PieceOutput(ms, m, id, pieces, k);
    ReceiveAllSnoc(EMPTY, ms, m);
    ReceiveAllMeaning(ms);
    OneMoreFragment(ms, ReceiveAll(EMPTY, ms), m);
    NothingMore(ReceiveAll(EMPTY, ms).handled);
  }

  /** Alone, the pieces of a message are handed out as exactly that message. */
  lemma {:induction false} PiecesArrive(id: seq<Byte>, pieces: seq<Message>, ms: seq<Message>, k: nat)
    requires |id| == 8 && Pieces(pieces) && k <= |pieces| && ms == Sent(id, pieces)[..k]
    ensures AllDispatchable(ms)
    ensures ReceiveAll(EMPTY, ms).handled == if k == |pieces| then [Flat(pieces)] else []
  {
    FragmentsSent(id, pieces, ms, k);
    if k == 0 {
    } else {
      var front, m := ms[..k - 1], ms[k - 1];
      PiecesArrive(id, pieces, front, k - 1);
      FragmentsSent(id, pieces, front, k - 1);
      PieceArrives(front, m, id, pieces, k - 1);
      assert ms == front + [m];
    }
  }

  /** A message that carries both flags is handed out as it is. */
  lemma {:induction false} WholeArrives(ms: seq<Message>, m: Message)
    requires AllDispatchable(ms) && m != [] && m[0].flags >= 0xC000
    ensures AllDispatchable(ms + [m])
    ensures ReceiveAll(EMPTY, ms + [m]).handled == ReceiveAll(EMPTY, ms).handled + [m]
  {
    WholeIsBothFlags(m);
    ReceiveAllSnoc(EMPTY, ms, m);
  }

  lemma MarkedPiece(first: Frame, piece: Message)
    requires piece != []
    ensures Marked([first] + piece) == [first] + Marked(piece)
  {
  }

  lemma MarkedSent(id: seq<Byte>, pieces: seq<Message>)
    requires Pieces(pieces)
    ensures MarkedAll(Sent(id, pieces)) == Sent(id, MarkedAll(pieces)) && Pieces(MarkedAll(pieces))
  {
    forall i | 0 <= i < |pieces| ensures MarkedAll(Sent(id, pieces))[i] == Sent(id, MarkedAll(pieces))[i] {
      MarkedPiece(Frame(id, PieceFlags(i, |pieces|)), pieces[i]);
    }
  }

  /**
    From the sender to the callback: a message cut into any two or more pieces, written and
    cut into chunks in any way, is handed out once and whole, the last frame of each piece
    marked as final.
   */
  lemma {:induction false} PiecesOverTheWire(id: seq<Byte>, pieces: seq<Message>, chunks: seq<seq<Byte>>)
    requires |id| == 8 && Pieces(pieces)
    requires Sendable(Sent(id, pieces)) && AllUnsplit(Sent(id, pieces))
    requires Flatten(chunks) == MessagesBytes(Sent(id, pieces))
    ensures Sane(Flatten(chunks)) && AllDispatchable(Feed(chunks).messages)
    ensures ReceiveAll(EMPTY, Feed(chunks).messages).handled == [Flat(MarkedAll(pieces))]
  {
    var received := MarkedAll(Sent(id, pieces));
    TransportRoundTrip(Sent(id, pieces), chunks);
    MarkedSent(id, pieces);
    assert Sent(id, MarkedAll(pieces))[..|pieces|] == Sent(id, MarkedAll(pieces));
    PiecesArrive(id, MarkedAll(pieces), received, |pieces|);
  }

  /** The loop that gives each message of a chunk to the callback or to the fragment handler. */
  method Dispatch(handler: FragmentedClientMessageHandler, messages: seq<Message>) returns (handled: seq<Message>)
    requires AllDispatchable(messages)
    modifies handler
    ensures Inbox(handler.Value(), handled) == ReceiveAll(Inbox(old(handler.Value()), []), messages)
  {
    handled := [];
    ghost var start := Inbox(handler.Value(), []);
    assert messages[..0] == [];
    for i := 0 to |messages|
      invariant Inbox(handler.Value(), handled) == ReceiveAll(start, messages[..i])
    {
      assert messages[..i + 1][..i] == messages[..i];
      if Whole(messages[i]) {
        handled := handled + [messages[i]];
      } else {
        var message := handler.HandleFragmentedMessage(FragmentOf(messages[i]));
        if message.Some? {
          handled := handled + [message.value];
        }
      }
    }
    assert messages[..|messages|] == messages;
  }
}
