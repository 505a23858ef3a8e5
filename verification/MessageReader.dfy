/** The reader of a connection: it keeps the chunks as they came and joins them only when it has to. */
module MessageReader {
  import opened Bytes
  import opened Framing
  import opened Wrappers

  lemma FlattenOne(c: seq<Byte>)
    ensures Flatten([c]) == c
  {
    assert [c][..0] == [];
  }

  lemma FlattenSnoc(chunks: seq<seq<Byte>>, c: seq<Byte>)
    ensures Flatten(chunks + [c]) == Flatten(chunks) + c
  {
    assert (chunks + [c])[..|chunks|] == chunks;
  }

  /** The first chunks hold a prefix of the stream. */
  lemma {:induction false} FlattenPrefix(chunks: seq<seq<Byte>>, k: nat)
    requires k <= |chunks|
    ensures Flatten(chunks[..k]) <= Flatten(chunks)
    decreases |chunks| - k
  {
    if k == |chunks| {
      assert chunks[..k] == chunks;
    } else {
      FlattenPrefix(chunks, k + 1);
      assert chunks[..k + 1] == chunks[..k] + [chunks[k]];
      FlattenSnoc(chunks[..k], chunks[k]);
    }
  }

  lemma HeaderOfPrefix(a: seq<Byte>, b: seq<Byte>)
    requires a <= b && |a| >= HEADER_SIZE
    ensures SizeField(a) == SizeField(b) && FlagsField(a) == FlagsField(b)
  {
    assert a[..4] == b[..4] && a[4..6] == b[4..6];
  }

  lemma AfterTwice(a: seq<Message>, b: seq<Message>, p: Parse)
    ensures After(a, After(b, p)) == After(a + b, p)
  {
  }

  /** What a read comes to; the source throws when the count promises a header that is not there. */
  datatype Outcome = Got | Incomplete | Failed

  class ClientMessageReader {
    var chunks: seq<seq<Byte>>
    var chunksTotalSize: nat
    var frameSize: int
    var flags: UInt16
    var clientMessage: Option<seq<Frame>>

    /** The bytes not consumed yet. */
    ghost function Buffered(): seq<Byte>
      reads this
    {
      Flatten(chunks)
    }

    /** The frames of the message being read. */
    ghost function Pending(): seq<Frame>
      reads this
    {
      if clientMessage.None? then [] else clientMessage.value
    }

    /**
      The count is that of the bytes, or larger if a negative length field has been read; in
      that case they are in one chunk.
     */
    ghost predicate Counted()
      reads this
    {
      && |Buffered()| <= chunksTotalSize && (|Buffered()| < chunksTotalSize ==> |chunks| == 1)
      && (frameSize != 0 ==>
            |Buffered()| >= HEADER_SIZE && frameSize == SizeField(Buffered()) && flags == FlagsField(Buffered()))
      && (clientMessage.Some? ==> clientMessage.value != [])
    }

    /** No negative length field has been read. */
    ghost predicate Valid()
      reads this
    {
      Counted() && chunksTotalSize == |Buffered()|
    }

    constructor ()
      ensures Valid() && Buffered() == [] && Pending() == []
    {
      chunks := [];
      chunksTotalSize := 0;
      frameSize := 0;
      flags := 0;
      clientMessage := None;
    }

    method Append(buffer: seq<Byte>)
      requires Valid()
      modifies this
      ensures Valid() && Buffered() == old(Buffered()) + buffer && Pending() == old(Pending())
    {
      FlattenSnoc(chunks, buffer);
      if frameSize != 0 {
        HeaderOfPrefix(Buffered(), Buffered() + buffer);
      }
      chunksTotalSize := chunksTotalSize + |buffer|;
      chunks := chunks + [buffer];
    }

    /**
      Looks at the first chunk alone if it holds the header, and joins as few chunks as
      needed otherwise; without enough bytes the source throws.
     */
    method ReadFrameSizeAndFlags() returns (ok: bool)
      modifies this`frameSize, this`flags
      ensures ok <==> |Buffered()| >= HEADER_SIZE
      ensures ok ==> frameSize == SizeField(Buffered()) && flags == FlagsField(Buffered())
    {
      if |chunks| == 0 {
        return false;
      }
      FlattenPrefix(chunks, 1);
      assert chunks[..1] == [chunks[0]];
      FlattenOne(chunks[0]);
      if |chunks[0]| >= HEADER_SIZE {
        HeaderOfPrefix(chunks[0], Buffered());
        frameSize := ReadInt32LE(chunks[0][..4]);
        flags := ReadUInt16LE(chunks[0][4..6]);
        return true;
      }
      assert chunks[..|chunks|] == chunks;
      var readChunksSize := 0;
      for i := 0 to |chunks|
        invariant readChunksSize == |Flatten(chunks[..i])| < HEADER_SIZE
      {
        assert chunks[..i + 1] == chunks[..i] + [chunks[i]];
        FlattenSnoc(chunks[..i], chunks[i]);
        readChunksSize := readChunksSize + |chunks[i]|;
        FlattenPrefix(chunks, i + 1);
        if readChunksSize >= HEADER_SIZE {
          var merged := Flatten(chunks[..i + 1]);
          HeaderOfPrefix(merged, Buffered());
          frameSize := ReadInt32LE(merged[..4]);
          flags := ReadUInt16LE(merged[4..6]);
          return true;
        }
      }
      return false;
    }

    /**
      Consumes the frame whose size is known and answers its content. A negative size leaves
      the end of the stream, and a count that is too large.
     */
    method TakeContent() returns (buf: seq<Byte>)
      requires Counted() && HEADER_SIZE <= |Buffered()| && frameSize <= chunksTotalSize
      modifies this`chunks, this`chunksTotalSize, this`frameSize
      ensures Counted()
      ensures Buffered() == Slice(old(Buffered()), old(frameSize), |old(Buffered())|)
      ensures buf == Slice(old(Buffered()), HEADER_SIZE, old(frameSize))
      ensures chunksTotalSize == old(chunksTotalSize) - old(frameSize) && frameSize == 0
    {
      ghost var b := Buffered();
      buf := if |chunks| == 1 then chunks[0] else Flatten(chunks);
      if |chunks| == 1 {
        assert chunks == [chunks[0]];
        FlattenOne(chunks[0]);
      }
      assert buf == b;
      if chunksTotalSize > frameSize {
        FlattenOne(Slice(buf, frameSize, |buf|));
        chunks := [Slice(buf, frameSize, |buf|)];
        buf := Slice(buf, HEADER_SIZE, frameSize);
      } else {
        chunks := [];
        buf := buf[HEADER_SIZE..];
      }
      chunksTotalSize := chunksTotalSize - frameSize;
      frameSize := 0;
    }

    /**
      Takes one frame off the stream if a whole one is there, whatever the length fields so
      far have made of the count: the read of the value-level reader. The reader stays valid
      exactly if the length field of the frame was not negative.
     */
    method ReadFrame() returns (outcome: Outcome)
      requires Counted()
      modifies this
      ensures var r := ReadStep(Reader(old(Buffered()), old(chunksTotalSize)));
              && (outcome == Incomplete <==> r == Waiting)
              && (outcome == Failed <==> r == Thrown)
              && (outcome == Got ==> r == Reader(Buffered(), chunksTotalSize) && Counted())
      ensures outcome == Got ==>
                && |old(Buffered())| >= HEADER_SIZE
                && Pending() == old(Pending()) + [FrameOf(old(Buffered()))]
                && clientMessage.Some?
                && (old(Valid()) ==> (Valid() <==> SizeField(old(Buffered())) >= 0))
      ensures outcome != Got ==>
                && Buffered() == old(Buffered()) && Pending() == old(Pending())
                && chunksTotalSize == old(chunksTotalSize) && (old(Valid()) ==> Valid())
    {
      if chunksTotalSize < HEADER_SIZE {
        return Incomplete;
      }
      if frameSize == 0 {
        var ok := ReadFrameSizeAndFlags();
        if !ok {
          return Failed;
        }
      }
      if chunksTotalSize < frameSize {
        return Incomplete;
      }
      var buf := TakeContent();
      var frame := Frame(buf, flags);
      assert [] + [frame] == [frame];
      clientMessage := if clientMessage.None? then Some([frame]) else Some(clientMessage.value + [frame]);
      return Got;
    }

    /** Hands out the next complete message; on sane streams, which `SaneReadingEnds` says are read to their end. */
    method Read() returns (message: Option<Message>)
      requires Valid() && Sane(Buffered())
      modifies this
      ensures Valid() && Sane(Buffered())
      ensures message.None? ==>
                Drain(old(Pending()), old(Buffered())) == Parse([], Pending(), Buffered())
      ensures message.Some? ==>
                && |Buffered()| < |old(Buffered())| && Pending() == []
                && Drain(old(Pending()), old(Buffered())) == After([message.value], Drain(Pending(), Buffered()))
    {
      while true
        invariant Valid() && Sane(Buffered()) && |Buffered()| <= |old(Buffered())|
        invariant Drain(Pending(), Buffered()) == Drain(old(Pending()), old(Buffered()))
        decreases |Buffered()|
      {
        ghost var b := Buffered();
        if HasFrame(b) { ReadConsumesIffPositive(b); }
        var outcome := ReadFrame();
        if outcome != Got {
          return None;
        }
        if IsFinal(clientMessage.value[|clientMessage.value| - 1]) {
          message := clientMessage;
          clientMessage := None;
          return;
        }
      }
    }

    /** The handler of the socket's data event: takes the chunk in and reads until nothing is complete. */
    method OnData(buffer: seq<Byte>) returns (messages: seq<Message>)
      requires Valid() && Sane(Buffered() + buffer)
      modifies this
      ensures Valid() && Sane(Buffered())
      ensures Drain(old(Pending()), old(Buffered()) + buffer) == Parse(messages, Pending(), Buffered())
    {
      Append(buffer);
      messages := [];
      var message := Read();
      while message.Some?
        invariant Valid() && Sane(Buffered())
        invariant Drain(old(Pending()), old(Buffered()) + buffer)
                  == if message.None? then Parse(messages, Pending(), Buffered())
                     else After(messages + [message.value], Drain(Pending(), Buffered()))
        decreases message.Some?, |Buffered()|
      {
        messages := messages + [message.value];
        ghost var left := Drain(Pending(), Buffered());
        message := Read();
        if message.None? {
          assert After(messages, left) == Parse(messages, Pending(), Buffered());
        } else {
          AfterTwice(messages, [message.value], Drain(Pending(), Buffered()));
        }
      }
    }
  }
}
