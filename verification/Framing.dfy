/**
  Messages on the wire: how a list of frames becomes bytes, and how the reader finds the
  messages again in a stream that arrives in arbitrary chunks.
 */
module Framing {
  import opened Bytes

  /** Length of a frame and its flags, in front of its content. */
  const HEADER_SIZE := 6

  const IS_FINAL_FLAG := 0x2000

  datatype Frame = Frame(content: seq<Byte>, flags: UInt16)

  type Message = seq<Frame>

  /** The content of a frame is short enough for its length field. */
  predicate Fits(f: Frame) {
    |f.content| + HEADER_SIZE < 0x8000_0000
  }

  predicate IsFinal(f: Frame) {
    f.flags / IS_FINAL_FLAG % 2 == 1
  }

  /** Sets the one flag and leaves the others, the content, and a frame that has it already. */
  function MarkFinal(f: Frame): (r: Frame)
    ensures IsFinal(r) && (IsFinal(f) ==> r == f) && r.content == f.content
    ensures r.flags % IS_FINAL_FLAG == f.flags % IS_FINAL_FLAG
    ensures r.flags / (2 * IS_FINAL_FLAG) == f.flags / (2 * IS_FINAL_FLAG)
  {
    if IsFinal(f) then f
    else
      assert f.flags + IS_FINAL_FLAG < 0x1_0000;
      f.(flags := f.flags + IS_FINAL_FLAG)
  }

  // ---------------------------------------------------------------- writing

  function FrameBytes(f: Frame): (b: seq<Byte>)
    requires Fits(f)
    ensures |b| == HEADER_SIZE + |f.content|
  {
    Int32LE(|f.content| + HEADER_SIZE) + UInt16LE(f.flags) + f.content
  }

  /**
    A frame on the wire: the length of the whole in four bytes and the flags in two, lowest
    byte first, and the content behind them. The flag of a final frame is the bit of 8192.
   */
  lemma FrameFormat(f: Frame)
    requires Fits(f)
    ensures FrameBytes(f) == Little(|f.content| + 6, 4) + Little(f.flags, 2) + f.content
    ensures IsFinal(f) <==> f.flags / 8192 % 2 == 1
    ensures MarkFinal(f).flags == if f.flags / 8192 % 2 == 1 then f.flags else f.flags + 8192
  {
    Int32IsLittle(|f.content| + 6);
    UInt16IsLittle(f.flags);
  }

  predicate AllFit(fs: seq<Frame>) {
    forall i :: 0 <= i < |fs| ==> Fits(fs[i])
  }

  function FramesBytes(fs: seq<Frame>): seq<Byte>
    requires AllFit(fs)
  {
    if fs == [] then [] else FrameBytes(fs[0]) + FramesBytes(fs[1..])
  }

  /** The frames of a message as they are sent: the last one is marked. */
  function Marked(m: Message): (r: seq<Frame>)
    ensures |r| == |m| && (AllFit(m) ==> AllFit(r))
  {
    if m == [] then [] else m[..|m| - 1] + [MarkFinal(m[|m| - 1])]
  }

  function MessageBytes(m: Message): seq<Byte>
    requires AllFit(m)
  {
    FramesBytes(Marked(m))
  }

  predicate Sendable(ms: seq<Message>) {
    forall i :: 0 <= i < |ms| ==> ms[i] != [] && AllFit(ms[i])
  }

  function MessagesBytes(ms: seq<Message>): seq<Byte>
    requires Sendable(ms)
  {
    if ms == [] then [] else MessageBytes(ms[0]) + MessagesBytes(ms[1..])
  }

  lemma {:induction false} FramesBytesConcat(a: seq<Frame>, b: seq<Frame>)
    requires AllFit(a) && AllFit(b)
    ensures FramesBytes(a + b) == FramesBytes(a) + FramesBytes(b)
  {
    if a == [] {
      assert a + b == b;
    } else {
      assert (a + b)[1..] == a[1..] + b;
      FramesBytesConcat(a[1..], b);
    }
  }

  lemma TailOfConcat<T>(a: seq<T>, b: seq<T>)
    requires a != []
    ensures (a + b)[1..] == a[1..] + b && (a + b)[0] == a[0]
  {
  }

  lemma {:induction false} MessagesBytesConcat(a: seq<Message>, b: seq<Message>)
    requires Sendable(a) && Sendable(b)
    ensures MessagesBytes(a + b) == MessagesBytes(a) + MessagesBytes(b)
  {
    if a == [] {
      assert a + b == b;
    } else {
      TailOfConcat(a, b);
      MessagesBytesConcat(a[1..], b);
    }
  }

  // ---------------------------------------------------------------- reading

  /** Length field and flags of the frame at the start of a stream. */
  function SizeField(b: seq<Byte>): Int32
    requires |b| >= HEADER_SIZE
  {
    ReadInt32LE(b[..4])
  }

  function FlagsField(b: seq<Byte>): UInt16
    requires |b| >= HEADER_SIZE
  {
    ReadUInt16LE(b[4..6])
  }

  /** A whole frame has arrived, as far as its length field says. */
  predicate HasFrame(b: seq<Byte>) {
    |b| >= HEADER_SIZE && SizeField(b) <= |b|
  }

  /** An end of a slice: negative numbers count from the end, and what is out of range is cut off. */
  function Bound(k: int, length: nat): (n: nat)
    ensures n <= length
  {
    if k >= 0 then (if k <= length then k else length)
    else if length + k >= 0 then length + k else 0
  }

  function Slice(b: seq<Byte>, start: int, end: int): seq<Byte> {
    var s, e := Bound(start, |b|), Bound(end, |b|);
    if s <= e then b[s..e] else []
  }

  /** The frame a read makes of a header, whatever its length field says. */
  function FrameOf(b: seq<Byte>): Frame
    requires |b| >= HEADER_SIZE
  {
    Frame(Slice(b, HEADER_SIZE, SizeField(b)), FlagsField(b))
  }

  /** The frame taken off the stream, and the bytes it leaves. */
  function FirstFrame(b: seq<Byte>): Frame
    requires HasFrame(b)
  {
    FrameOf(b)
  }

  function Rest(b: seq<Byte>): seq<Byte>
    requires HasFrame(b)
  {
    Slice(b, SizeField(b), |b|)
  }

  /** Every length field that reading comes to is positive. */
  predicate Sane(b: seq<Byte>)
    decreases |b|
  {
    |b| >= HEADER_SIZE ==>
      SizeField(b) > 0 && (HasFrame(b) ==> Sane(b[SizeField(b)..]))
  }

  /** The whole frames at the start of a stream and the bytes left. */
  datatype Cut = Cut(frames: seq<Frame>, rest: seq<Byte>)

  function CutFrames(b: seq<Byte>): Cut
    requires Sane(b)
    decreases |b|
  {
    if !HasFrame(b) then Cut([], b)
    else
      var later := CutFrames(b[SizeField(b)..]);
      Cut([FirstFrame(b)] + later.frames, later.rest)
  }

  /** Frames put together to messages, and the frames of a message still incomplete. */
  datatype Grouped = Grouped(messages: seq<Message>, pending: seq<Frame>)

  /** A message ends with every final frame. */
  function Group(pending: seq<Frame>, fs: seq<Frame>): Grouped
    decreases |fs|
  {
    if fs == [] then Grouped([], pending)
    else
      var frames := pending + [fs[0]];
      if IsFinal(fs[0]) then
        var later := Group([], fs[1..]);
        Grouped([frames] + later.messages, later.pending)
      else
        Group(frames, fs[1..])
  }

  /** What the reader has handed out, the frames of the message it is in the middle of, and the bytes left. */
  datatype Parse = Parse(messages: seq<Message>, pending: seq<Frame>, rest: seq<Byte>)

  /** A parse that comes after messages already handed out. */
  function After(messages: seq<Message>, p: Parse): Parse {
    Parse(messages + p.messages, p.pending, p.rest)
  }

  /** Reading on until no whole frame is left. */
  function Drain(pending: seq<Frame>, b: seq<Byte>): Parse
    requires Sane(b)
  {
    var cut := CutFrames(b);
    var grouped := Group(pending, cut.frames);
    Parse(grouped.messages, grouped.pending, cut.rest)
  }

  /** More bytes behind a whole frame do not change it. */
  lemma FrameStays(b: seq<Byte>, c: seq<Byte>)
    requires HasFrame(b) && Sane(b)
    ensures HasFrame(b + c) && SizeField(b + c) == SizeField(b) && FlagsField(b + c) == FlagsField(b)
    ensures FirstFrame(b + c) == FirstFrame(b)
    ensures (b + c)[SizeField(b)..] == b[SizeField(b)..] + c
  {
    assert (b + c)[..4] == b[..4] && (b + c)[4..6] == b[4..6];
    if SizeField(b) >= HEADER_SIZE {
      assert (b + c)[HEADER_SIZE..SizeField(b)] == b[HEADER_SIZE..SizeField(b)];
    }
  }

  lemma {:induction false} SanePrefix(b: seq<Byte>, c: seq<Byte>)
    requires Sane(b + c)
    ensures Sane(b)
    decreases |b|
  {
    if |b| < HEADER_SIZE {
    } else {
      assert (b + c)[..4] == b[..4];
      if HasFrame(b) {
        assert (b + c)[SizeField(b)..] == b[SizeField(b)..] + c;
        SanePrefix(b[SizeField(b)..], c);
      }
    }
  }

  lemma NothingBefore<T>(a: seq<T>)
    ensures [] + a == a
  {
  }

  lemma Associate<T>(a: seq<T>, b: seq<T>, c: seq<T>)
    ensures a + b + c == a + (b + c)
  {
  }

  lemma {:induction false} CutConcat(b: seq<Byte>, c: seq<Byte>)
    requires Sane(b) && Sane(b + c)
    ensures Sane(CutFrames(b).rest + c)
    ensures CutFrames(b + c) == Cut(CutFrames(b).frames + CutFrames(CutFrames(b).rest + c).frames,
                                    CutFrames(CutFrames(b).rest + c).rest)
    decreases |b|
  {
    if !HasFrame(b) {
      NothingBefore(CutFrames(b + c).frames);
    } else {
      var rest := b[SizeField(b)..];
      FrameStays(b, c);
      CutConcat(rest, c);
      Associate([FirstFrame(b)], CutFrames(rest).frames, CutFrames(CutFrames(rest).rest + c).frames);
    }
  }

  lemma {:induction false} GroupConcat(pending: seq<Frame>, a: seq<Frame>, b: seq<Frame>)
    ensures var early := Group(pending, a);
            var late := Group(early.pending, b);
            Group(pending, a + b) == Grouped(early.messages + late.messages, late.pending)
    decreases |a|
  {
    if a == [] {
      assert a + b == b;
    } else {
      assert (a + b)[1..] == a[1..] + b && (a + b)[0] == a[0];
      if IsFinal(a[0]) {
        GroupConcat([], a[1..], b);
      } else {
        GroupConcat(pending + [a[0]], a[1..], b);
      }
    }
  }

  /** Draining early and again later is draining once: a chunk boundary leaves no trace. */
  lemma DrainConcat(pending: seq<Frame>, b: seq<Byte>, c: seq<Byte>)
    requires Sane(b) && Sane(b + c)
    ensures Sane(Drain(pending, b).rest + c)
    ensures var early := Drain(pending, b);
            var late := Drain(early.pending, early.rest + c);
            Drain(pending, b + c) == After(early.messages, late)
  {
    CutConcat(b, c);
    GroupConcat(pending, CutFrames(b).frames, CutFrames(CutFrames(b).rest + c).frames);
  }

  // ---------------------------------------------------------------- length fields that are not positive

  /** A read consumes bytes exactly if the length field is positive; a zero field leaves the stream as it is. */
  lemma ReadConsumesIffPositive(b: seq<Byte>)
    requires HasFrame(b) && SizeField(b) >= 0
    ensures |Rest(b)| < |b| <==> SizeField(b) > 0
    ensures Rest(b) == b[SizeField(b)..]
    ensures SizeField(b) < HEADER_SIZE ==> FirstFrame(b).content == []
    ensures SizeField(b) == 0 ==> Rest(b) == b
  {
  }

  /**
    The bytes a reader holds and how many it counts, until a read finds no whole frame or
    throws. A negative length field makes the count larger than the bytes there are.
   */
  datatype Reader = Reader(bytes: seq<Byte>, count: nat) | Waiting | Thrown

  function ReadStep(r: Reader): Reader {
    match r
    case Reader(b, n) =>
      if n < HEADER_SIZE then Waiting
      else if |b| < HEADER_SIZE then Thrown
      else if n < SizeField(b) then Waiting
      else Reader(Slice(b, SizeField(b), |b|), n - SizeField(b))
    case _ => r
  }

  function AfterReads(r: Reader, k: nat): Reader
    decreases k
  {
    if k == 0 then r else AfterReads(ReadStep(r), k - 1)
  }

  /** No length field that reading comes to is zero or reaches back as far as the bytes do. */
  predicate Ends(b: seq<Byte>, n: nat)
    decreases |b|
  {
    n < HEADER_SIZE || |b| < HEADER_SIZE || n < SizeField(b)
    || (SizeField(b) != 0 && SizeField(b) > -|b| && Ends(Slice(b, SizeField(b), |b|), n - SizeField(b)))
  }

  lemma {:induction false} EndIsReached(b: seq<Byte>, n: nat) returns (k: nat)
    requires Ends(b, n)
    ensures !AfterReads(Reader(b, n), k).Reader?
    decreases |b|
  {
    var r := ReadStep(Reader(b, n));
    if r.Reader? {
      k := EndIsReached(r.bytes, r.count);
      k := k + 1;
    } else {
      k := 1;
      assert AfterReads(Reader(b, n), 1) == AfterReads(r, 0);
    }
  }

  lemma OtherStepGoesOn(b: seq<Byte>, n: nat)
    requires !Ends(b, n)
    ensures var r := ReadStep(Reader(b, n)); r.Reader? && !Ends(r.bytes, r.count)
  {
    if SizeField(b) == 0 || SizeField(b) <= -|b| {
      assert Slice(b, SizeField(b), |b|) == b;
    }
  }

  lemma {:induction false} OtherReadingGoesOn(b: seq<Byte>, n: nat, k: nat)
    requires !Ends(b, n)
    ensures AfterReads(Reader(b, n), k).Reader?
    decreases k
  {
    if k == 0 {
    } else {
      OtherStepGoesOn(b, n);
      var r := ReadStep(Reader(b, n));
      OtherReadingGoesOn(r.bytes, r.count, k - 1);
    }
  }

  /**
    For every stream: reading on until a read finds no whole frame or throws comes to an end
    if and only if no length field it comes to is zero or reaches back as far as the bytes
    do. Such a field is read again and again.
   */
  lemma ReadingEndsIff(b: seq<Byte>, n: nat)
    ensures (exists k: nat :: !AfterReads(Reader(b, n), k).Reader?) <==> Ends(b, n)
  {
    if Ends(b, n) {
      var k := EndIsReached(b, n);
    } else {
      forall k: nat ensures AfterReads(Reader(b, n), k).Reader? { OtherReadingGoesOn(b, n, k); }
    }
  }

  /**
    A negative length field that reaches back less than a header leaves fewer bytes than a
    header and a count that promises more, so the next read throws.
   */
  lemma ShortReachThrows(b: seq<Byte>)
    requires |b| >= HEADER_SIZE && -6 < SizeField(b) < 0
    ensures AfterReads(Reader(b, |b|), 2) == Thrown
  {
    var r := ReadStep(Reader(b, |b|));
    assert |r.bytes| == -SizeField(b);
    assert AfterReads(Reader(b, |b|), 2) == AfterReads(ReadStep(r), 0);
  }

  lemma {:induction false} WaitingStays(k: int)
    ensures k >= 0 ==> AfterReads(Waiting, k) == Waiting
    decreases k
  {
    if k <= 0 {
    } else {
      WaitingStays(k - 1);
    }
  }

  /** A sane stream is read to its end, and no read of it throws. */
  lemma {:induction false} SaneReadingEnds(b: seq<Byte>)
    requires Sane(b)
    ensures Ends(b, |b|)
    ensures forall k: nat :: AfterReads(Reader(b, |b|), k) != Thrown
    decreases |b|
  {
    if HasFrame(b) {
      ReadConsumesIffPositive(b);
      SaneReadingEnds(Rest(b));
      forall k: nat ensures AfterReads(Reader(b, |b|), k) != Thrown {
        assert k > 0 ==> AfterReads(Reader(b, |b|), k) == AfterReads(Reader(Rest(b), |Rest(b)|), k - 1);
      }
    } else {
      forall k: nat ensures AfterReads(Reader(b, |b|), k) != Thrown {
        assert k > 0 ==> AfterReads(Reader(b, |b|), k) == AfterReads(Waiting, k - 1);
        WaitingStays(k - 1);
      }
    }
  }

  // ---------------------------------------------------------------- chunks

  function Flatten(chunks: seq<seq<Byte>>): seq<Byte> {
    if chunks == [] then [] else Flatten(chunks[..|chunks| - 1]) + chunks[|chunks| - 1]
  }

  /** The reader fed chunk by chunk, drained after each. */
  ghost function Feed(chunks: seq<seq<Byte>>): (p: Parse)
    requires Sane(Flatten(chunks))
    ensures p == Drain([], Flatten(chunks))
  {
    if chunks == [] then Parse([], [], [])
    else
      var n := |chunks| - 1;
      SanePrefix(Flatten(chunks[..n]), chunks[n]);
      DrainConcat([], Flatten(chunks[..n]), chunks[n]);
      var before := Feed(chunks[..n]);
      After(before.messages, Drain(before.pending, before.rest + chunks[n]))
  }

  /** However a stream is cut into chunks, feeding them gives the same as the whole stream at once. */
  lemma ChunkingIsIrrelevant(a: seq<seq<Byte>>, b: seq<seq<Byte>>)
    requires Flatten(a) == Flatten(b) && Sane(Flatten(a))
    ensures Feed(a) == Feed(b)
  {
  }

  // ---------------------------------------------------------------- round trip

  lemma FrameReadsBack(f: Frame, c: seq<Byte>)
    requires Fits(f)
    ensures var b := FrameBytes(f) + c;
            && HasFrame(b) && SizeField(b) == HEADER_SIZE + |f.content|
            && FirstFrame(b) == f && b[SizeField(b)..] == c
  {
    var b := FrameBytes(f) + c;
    assert b[..4] == Int32LE(|f.content| + HEADER_SIZE) && b[4..6] == UInt16LE(f.flags);
    Int32RoundTrip(|f.content| + HEADER_SIZE);
    UInt16RoundTrip(f.flags);
    assert b[HEADER_SIZE..HEADER_SIZE + |f.content|] == f.content;
  }

  /** A stream of frames is sane, and cutting it gives exactly those frames. */
  lemma {:induction false} CutFramesBytes(fs: seq<Frame>)
    requires AllFit(fs)
    ensures Sane(FramesBytes(fs)) && CutFrames(FramesBytes(fs)) == Cut(fs, [])
  {
    if fs == [] {
    } else {
      FrameReadsBack(fs[0], FramesBytes(fs[1..]));
      CutFramesBytes(fs[1..]);
    }
  }

  function MarkedAll(ms: seq<Message>): seq<Message> {
    seq(|ms|, i requires 0 <= i < |ms| => Marked(ms[i]))
  }

  function AllFrames(ms: seq<Message>): seq<Frame> {
    if ms == [] then [] else Marked(ms[0]) + AllFrames(ms[1..])
  }

  lemma {:induction false} MessagesAreFrames(ms: seq<Message>)
    requires Sendable(ms)
    ensures AllFit(AllFrames(ms)) && MessagesBytes(ms) == FramesBytes(AllFrames(ms))
  {
    if ms == [] {
    } else {
      assert ms[0] != [] && AllFit(ms[0]);
      MessagesAreFrames(ms[1..]);
      FramesBytesConcat(Marked(ms[0]), AllFrames(ms[1..]));
    }
  }

  /** Only the last frame of each message may carry the final flag. */
  predicate Unsplit(m: Message) {
    forall i :: 0 <= i < |m| - 1 ==> !IsFinal(m[i])
  }

  lemma {:induction false} GroupNotFinal(pending: seq<Frame>, fs: seq<Frame>)
    requires forall i :: 0 <= i < |fs| ==> !IsFinal(fs[i])
    ensures Group(pending, fs) == Grouped([], pending + fs)
    decreases |fs|
  {
    if fs == [] {
      assert pending + fs == pending;
    } else {
      GroupNotFinal(pending + [fs[0]], fs[1..]);
      assert pending + [fs[0]] + fs[1..] == pending + fs;
    }
  }

  lemma GroupOne(m: Message)
    requires m != [] && Unsplit(m)
    ensures Group([], Marked(m)) == Grouped([Marked(m)], [])
  {
    var front, last := m[..|m| - 1], MarkFinal(m[|m| - 1]);
    GroupNotFinal([], front);
    assert [] + front == front;
    GroupConcat([], front, [last]);
    assert [last][1..] == [];
    assert Group(front, [last]) == Grouped([front + [last]], []);
  }

  lemma MarkedAllFirst(ms: seq<Message>)
    requires ms != []
    ensures MarkedAll(ms) == [Marked(ms[0])] + MarkedAll(ms[1..])
  {
  }

  lemma {:induction false} GroupAllUnsplit(ms: seq<Message>)
    requires forall i :: 0 <= i < |ms| ==> ms[i] != [] && Unsplit(ms[i])
    ensures Group([], AllFrames(ms)) == Grouped(MarkedAll(ms), [])
  {
    if ms == [] {
    } else {
      var first, rest := ms[0], ms[1..];
      assert forall i :: 0 <= i < |rest| ==> rest[i] == ms[i + 1];
      GroupOne(first);
      GroupAllUnsplit(rest);
      GroupConcat([], Marked(first), AllFrames(rest));
      MarkedAllFirst(ms);
    }
  }

  /** The message ends with its first final frame. */
  predicate EndsAtFinal(m: Message) {
    m != [] && IsFinal(m[|m| - 1]) && Unsplit(m)
  }

  /** Every group is cut right after its first final frame. */
  lemma {:induction false} GroupsAreUnsplit(pending: seq<Frame>, fs: seq<Frame>)
    requires forall i :: 0 <= i < |pending| ==> !IsFinal(pending[i])
    ensures forall k :: 0 <= k < |Group(pending, fs).messages| ==> EndsAtFinal(Group(pending, fs).messages[k])
    decreases |fs|
  {
    if fs == [] {
    } else {
      if IsFinal(fs[0]) {
        GroupsAreUnsplit([], fs[1..]);
      } else {
        GroupsAreUnsplit(pending + [fs[0]], fs[1..]);
      }
    }
  }

  ghost predicate AllUnsplit(ms: seq<Message>) {
    forall i :: 0 <= i < |ms| ==> Unsplit(ms[i])
  }

  lemma MarkingKeepsUnsplit(ms: seq<Message>)
    ensures AllUnsplit(MarkedAll(ms)) <==> AllUnsplit(ms)
  {
    forall i | 0 <= i < |ms| ensures Unsplit(Marked(ms[i])) <==> Unsplit(ms[i]) {
      assert forall j :: 0 <= j < |ms[i]| - 1 ==> Marked(ms[i])[j] == ms[i][j];
    }
    if AllUnsplit(MarkedAll(ms)) {
      forall i | 0 <= i < |ms| ensures Unsplit(ms[i]) {
        assert Unsplit(MarkedAll(ms)[i]);
      }
    }
  }

  /**
    The law of the transport: for every list of messages and every way of cutting their
    bytes into chunks, the reader hands out exactly those messages, in order, each once and
    with its last frame marked, and nothing is left over; this holds if and only if no
    message carries the final flag before its last frame.
   */
  lemma TransportRoundTrip(ms: seq<Message>, chunks: seq<seq<Byte>>)
    requires Sendable(ms) && Flatten(chunks) == MessagesBytes(ms)
    ensures Sane(Flatten(chunks))
    ensures Feed(chunks) == Parse(MarkedAll(ms), [], []) <==> AllUnsplit(ms)
  {
    MessagesAreFrames(ms);
    CutFramesBytes(AllFrames(ms));
    MarkingKeepsUnsplit(ms);
    if AllUnsplit(ms) {
      GroupAllUnsplit(ms);
    } else {
      GroupsAreUnsplit([], AllFrames(ms));
    }
  }
}
