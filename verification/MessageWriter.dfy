/**
  Messages laid into a buffer in place, and how many queued messages go into one write.
 */
module MessageWriter {
  import opened Bytes
  import opened Framing

  // ---------------------------------------------------------------- one message

  function TotalLength(m: Message): nat {
    if m == [] then 0 else HEADER_SIZE + |m[0].content| + TotalLength(m[1..])
  }

  lemma {:induction false} TotalLengthIsExact(fs: seq<Frame>)
    requires AllFit(fs)
    ensures |FramesBytes(fs)| == TotalLength(fs)
  {
    if fs == [] {
    } else {
      TotalLengthIsExact(fs[1..]);
    }
  }

  lemma {:induction false} MarkingKeepsLength(m: Message)
    ensures TotalLength(Marked(m)) == TotalLength(m)
  {
    if |m| <= 1 {
    } else {
      assert Marked(m)[1..] == Marked(m[1..]) && Marked(m)[0] == m[0];
      MarkingKeepsLength(m[1..]);
    }
  }

  lemma MessageLength(m: Message)
    requires AllFit(m)
    ensures |MessageBytes(m)| == TotalLength(m)
  {
    TotalLengthIsExact(Marked(m));
    MarkingKeepsLength(m);
  }

  lemma FrameWrites(before: seq<Byte>, sized: seq<Byte>, flagged: seq<Byte>, after: seq<Byte>, pos: nat, f: Frame)
    requires Fits(f) && pos + HEADER_SIZE + |f.content| <= |before|
    requires sized == WriteAt(before, pos, Int32LE(|f.content| + HEADER_SIZE))
    requires flagged == WriteAt(sized, pos + 4, UInt16LE(f.flags))
    requires after == WriteAt(flagged, pos + HEADER_SIZE, f.content)
    ensures after == WriteAt(before, pos, FrameBytes(f))
  {
    var size, flags := Int32LE(|f.content| + HEADER_SIZE), UInt16LE(f.flags);
    WriteTwice(before, pos, size, flags);
    WriteTwice(before, pos, size + flags, f.content);
  }

  method PutFrame(buffer: array<Byte>, pos: nat, f: Frame) returns (end: nat)
    requires Fits(f) && pos + HEADER_SIZE + |f.content| <= buffer.Length
    modifies buffer
    ensures end == pos + |FrameBytes(f)|
    ensures buffer[..] == WriteAt(old(buffer[..]), pos, FrameBytes(f))
  {
    Store(buffer, pos, Int32LE(|f.content| + HEADER_SIZE));
    ghost var sized := buffer[..];
    Store(buffer, pos + 4, UInt16LE(f.flags));
    ghost var flagged := buffer[..];
    Store(buffer, pos + HEADER_SIZE, f.content);
    FrameWrites(old(buffer[..]), sized, flagged, buffer[..], pos, f);
    end := pos + HEADER_SIZE + |f.content|;
  }

  lemma FramesBytesSnoc(fs: seq<Frame>, i: nat)
    requires AllFit(fs) && i < |fs|
    ensures AllFit(fs[..i]) && AllFit(fs[..i + 1])
    ensures FramesBytes(fs[..i + 1]) == FramesBytes(fs[..i]) + FrameBytes(fs[i])
    ensures |FramesBytes(fs[..i + 1])| <= |FramesBytes(fs)|
  {
    assert fs[..i + 1] == fs[..i] + [fs[i]];
    FramesBytesConcat(fs[..i], [fs[i]]);
    assert FramesBytes([fs[i]]) == FrameBytes(fs[i]) by { assert [fs[i]][1..] == []; }
    assert fs == fs[..i + 1] + fs[i + 1..];
    FramesBytesConcat(fs[..i + 1], fs[i + 1..]);
  }

  /** The buffer with the first `i` frames laid in. */
  ghost predicate LaidIn(blank: seq<Byte>, offset: nat, fs: seq<Frame>, i: nat, buffer: seq<Byte>) {
    && i <= |fs| && AllFit(fs[..i]) && offset + |FramesBytes(fs[..i])| <= |blank|
    && buffer == WriteAt(blank, offset, FramesBytes(fs[..i]))
  }

  lemma OneMoreLaidIn(blank: seq<Byte>, offset: nat, fs: seq<Frame>, i: nat, before: seq<Byte>, after: seq<Byte>)
    requires AllFit(fs) && i < |fs| && offset + |FramesBytes(fs)| <= |blank|
    requires LaidIn(blank, offset, fs, i, before)
    requires offset + |FramesBytes(fs[..i])| + |FrameBytes(fs[i])| <= |blank|
    requires after == WriteAt(before, offset + |FramesBytes(fs[..i])|, FrameBytes(fs[i]))
    ensures LaidIn(blank, offset, fs, i + 1, after)
  {
    FramesBytesSnoc(fs, i);
    WriteTwice(blank, offset, FramesBytes(fs[..i]), FrameBytes(fs[i]));
  }

  lemma NothingLaidIn(blank: seq<Byte>, offset: nat, fs: seq<Frame>)
    requires offset <= |blank|
    ensures LaidIn(blank, offset, fs, 0, blank)
  {
    assert fs[..0] == [] && WriteAt(blank, offset, []) == blank;
  }

  /** Lays a message into the buffer, frame by frame, with the last frame marked as final. */
  method WriteTo(m: Message, buffer: array<Byte>, offset: nat) returns (pos: nat)
    requires AllFit(m) && offset + |MessageBytes(m)| <= buffer.Length
    modifies buffer
    ensures pos == offset + |MessageBytes(m)|
    ensures buffer[..] == WriteAt(old(buffer[..]), offset, MessageBytes(m))
  {
    pos := offset;
    ghost var sent := Marked(m);
    NothingLaidIn(buffer[..], offset, sent);
    for i := 0 to |m|
      invariant LaidIn(old(buffer[..]), offset, sent, i, buffer[..])
      invariant pos == offset + |FramesBytes(sent[..i])|
    {
      var isLastFrame := i == |m| - 1;
      var frame := if isLastFrame then MarkFinal(m[i]) else m[i];
      assert frame == sent[i];
      FramesBytesSnoc(sent, i);
      ghost var before := buffer[..];
      pos := PutFrame(buffer, pos, frame);
      OneMoreLaidIn(old(buffer[..]), offset, sent, i, before, buffer[..]);
    }
    assert sent[..|m|] == sent;
  }

  // ---------------------------------------------------------------- batches

  function QueueLength(queue: seq<Message>): nat {
    if queue == [] then 0 else QueueLength(queue[..|queue| - 1]) + TotalLength(queue[|queue| - 1])
  }

  /** How many queued messages go into one socket write, having taken `taken` of them so far. */
  function BatchFrom(queue: seq<Message>, threshold: nat, taken: nat): (k: nat)
    requires taken <= |queue|
    ensures taken <= k <= |queue|
    decreases |queue| - taken
  {
    var total := QueueLength(queue[..taken]);
    if taken == |queue| || total >= threshold then taken
    else if taken > 0 && total + TotalLength(queue[taken]) > threshold then taken
    else BatchFrom(queue, threshold, taken + 1)
  }

  lemma QueueLengthSnoc(queue: seq<Message>, i: nat)
    requires i < |queue|
    ensures QueueLength(queue[..i + 1]) == QueueLength(queue[..i]) + TotalLength(queue[i])
  {
    assert queue[..i + 1][..i] == queue[..i];
  }

  /**
    A batch is as long as the threshold allows: its messages fit, or it is a single message,
    and one more message would not fit.
   */
  lemma {:induction false} BatchIsMaximal(queue: seq<Message>, threshold: nat, taken: nat)
    requires taken <= |queue| && threshold > 0
    requires forall i :: 0 <= i < |queue| ==> queue[i] != []
    requires taken <= 1 || QueueLength(queue[..taken]) <= threshold
    ensures var k := BatchFrom(queue, threshold, taken);
            && (queue != [] ==> k > 0)
            && (k <= 1 || QueueLength(queue[..k]) <= threshold)
            && (k < |queue| ==> QueueLength(queue[..k + 1]) > threshold)
    decreases |queue| - taken
  {
    if taken == |queue| {
    } else {
      QueueLengthSnoc(queue, taken);
      var total := QueueLength(queue[..taken]);
      assert queue[..0] == [];
      if total < threshold && !(taken > 0 && total + TotalLength(queue[taken]) > threshold) {
        BatchIsMaximal(queue, threshold, taken + 1);
      }
    }
  }

  /** The loop that picks the batch. */
  method PickBatch(queue: seq<Message>, threshold: nat) returns (queueIdx: nat, totalLength: nat)
    ensures queueIdx == BatchFrom(queue, threshold, 0)
    ensures totalLength == QueueLength(queue[..queueIdx])
  {
    totalLength := 0;
    queueIdx := 0;
    assert queue[..0] == [];
    while queueIdx < |queue| && totalLength < threshold
      invariant queueIdx <= |queue| && totalLength == QueueLength(queue[..queueIdx])
      invariant BatchFrom(queue, threshold, queueIdx) == BatchFrom(queue, threshold, 0)
    {
      var msgLength := TotalLength(queue[queueIdx]);
      if queueIdx > 0 && totalLength + msgLength > threshold {
        break;
      }
      QueueLengthSnoc(queue, queueIdx);
      totalLength := totalLength + msgLength;
      queueIdx := queueIdx + 1;
    }
  }
}
