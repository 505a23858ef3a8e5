/** The initial frames of two generated codecs, and the message header they share. */
module MessageCodecs {
  import opened Bytes
  import opened FixSizedCodec
  import opened FrameLayout
  import opened Wrappers

  const MESSAGE_TYPE_OFFSET := 0
  const CORRELATION_ID_OFFSET := MESSAGE_TYPE_OFFSET + INT_SIZE
  const RESPONSE_BACKUP_ACKS_OFFSET := CORRELATION_ID_OFFSET + LONG_SIZE
  const PARTITION_ID_OFFSET := CORRELATION_ID_OFFSET + LONG_SIZE

  // ---------------------------------------------------------------- writes in place

  method PutInt(buffer: array<Byte>, offset: nat, value: Int32)
    requires offset + INT_SIZE <= buffer.Length
    modifies buffer
    ensures buffer[..] == WriteAt(old(buffer[..]), offset, Encode(IntField(value)))
  {
    Store(buffer, offset, Int32LE(value));
  }

  method PutByte(buffer: array<Byte>, offset: nat, value: Byte)
    requires offset + BYTE_SIZE <= buffer.Length
    modifies buffer
    ensures buffer[..] == WriteAt(old(buffer[..]), offset, Encode(ByteField(value)))
  {
    Store(buffer, offset, [value]);
  }

  method PutLong(buffer: array<Byte>, offset: nat, value: Long)
    requires offset + LONG_SIZE <= buffer.Length
    modifies buffer
    ensures buffer[..] == WriteAt(old(buffer[..]), offset, Encode(LongField(value)))
  {
    Store(buffer, offset, Int32LE(value.low));
    Store(buffer, offset + INT_SIZE, Int32LE(value.high));
    WriteTwice(old(buffer[..]), offset, Int32LE(value.low), Int32LE(value.high));
  }

  lemma UuidWrites(before: seq<Byte>, flagged: seq<Byte>, after: seq<Byte>, offset: nat, uuid: Uuid)
    requires offset + UUID_SIZE <= |before|
    requires flagged == WriteAt(before, offset, [0])
    requires after == WriteAt(WriteAt(flagged, offset + BOOLEAN_SIZE, EncodeLong(uuid.mostSignificant)),
                              offset + BOOLEAN_SIZE + LONG_SIZE, EncodeLong(uuid.leastSignificant))
    ensures after == WriteAt(before, offset, Encode(UuidField(Some(uuid))))
  {
    WriteTwice(before, offset, [0], EncodeLong(uuid.mostSignificant));
    WriteTwice(before, offset, [0] + EncodeLong(uuid.mostSignificant), EncodeLong(uuid.leastSignificant));
  }

  /** A missing UUID writes only its flag. */
  method PutUuid(buffer: array<Byte>, offset: nat, value: Option<Uuid>)
    requires offset + UUID_SIZE <= buffer.Length
    modifies buffer
    ensures buffer[..] == WriteAt(old(buffer[..]), offset, Encode(UuidField(value)))
  {
    Store(buffer, offset, [if value.None? then 1 else 0]);
    if value.None? {
      return;
    }
    ghost var flagged := buffer[..];
    var most, least := value.value.mostSignificant, value.value.leastSignificant;
    PutLong(buffer, offset + BOOLEAN_SIZE, most);
    PutLong(buffer, offset + BOOLEAN_SIZE + LONG_SIZE, least);
    UuidWrites(old(buffer[..]), flagged, buffer[..], offset, value.value);
  }

  /** The header fields that an encoder sets after the body. */
  ghost function WithHeader(body: seq<Byte>, messageType: Int32, partitionId: Int32): seq<Byte>
    requires |body| >= PARTITION_ID_OFFSET + INT_SIZE
  {
    WriteAt(WriteAt(body, MESSAGE_TYPE_OFFSET, Int32LE(messageType)), PARTITION_ID_OFFSET, Int32LE(partitionId))
  }

  method PutHeader(content: array<Byte>, messageType: Int32, partitionId: Int32)
    requires content.Length >= PARTITION_ID_OFFSET + INT_SIZE
    modifies content
    ensures content[..] == WithHeader(old(content[..]), messageType, partitionId)
  {
    PutInt(content, MESSAGE_TYPE_OFFSET, messageType);
    PutInt(content, PARTITION_ID_OFFSET, partitionId);
  }

  lemma HeaderKeepsFields(body: seq<Byte>, messageType: Int32, partitionId: Int32, fields: seq<Field>, k: nat)
    requires k < |fields|
    requires Offset(PARTITION_ID_OFFSET + INT_SIZE, Widths(fields), |fields|) <= |body|
    requires |body| >= PARTITION_ID_OFFSET + INT_SIZE
    ensures ReadField(WithHeader(body, messageType, partitionId), PARTITION_ID_OFFSET + INT_SIZE, fields, k)
         == ReadField(body, PARTITION_ID_OFFSET + INT_SIZE, fields, k)
  {
    var base := PARTITION_ID_OFFSET + INT_SIZE;
    var typed := WriteAt(body, MESSAGE_TYPE_OFFSET, Int32LE(messageType));
    HeaderWriteKeepsRegion(body, base, Widths(fields), k, MESSAGE_TYPE_OFFSET, Int32LE(messageType));
    HeaderWriteKeepsRegion(typed, base, Widths(fields), k, PARTITION_ID_OFFSET, Int32LE(partitionId));
  }

  lemma HeaderReadsBack(body: seq<Byte>, messageType: Int32, partitionId: Int32)
    requires |body| >= PARTITION_ID_OFFSET + INT_SIZE
    ensures var content := WithHeader(body, messageType, partitionId);
            && ReadInt32LE(content[MESSAGE_TYPE_OFFSET..][..INT_SIZE]) == messageType
            && ReadInt32LE(content[PARTITION_ID_OFFSET..][..INT_SIZE]) == partitionId
  {
    var typed := WriteAt(body, MESSAGE_TYPE_OFFSET, Int32LE(messageType));
    var content := WithHeader(body, messageType, partitionId);
    WriteKeepsRegion(typed, PARTITION_ID_OFFSET, Int32LE(partitionId), MESSAGE_TYPE_OFFSET, INT_SIZE);
    assert content[MESSAGE_TYPE_OFFSET..][..INT_SIZE] == content[MESSAGE_TYPE_OFFSET..INT_SIZE] == Int32LE(messageType);
    assert content[PARTITION_ID_OFFSET..][..INT_SIZE] == Int32LE(partitionId);
    Int32RoundTrip(messageType);
    Int32RoundTrip(partitionId);
  }

  /** A frame whose fields and header all read back. */
  ghost predicate Carries(content: seq<Byte>, messageType: Int32, partitionId: Int32, fields: seq<Field>) {
    && |content| == Offset(PARTITION_ID_OFFSET + INT_SIZE, Widths(fields), |fields|)
    && |content| >= PARTITION_ID_OFFSET + INT_SIZE
    && ReadInt32LE(content[MESSAGE_TYPE_OFFSET..][..INT_SIZE]) == messageType
    && ReadInt32LE(content[PARTITION_ID_OFFSET..][..INT_SIZE]) == partitionId
    && forall k :: 0 <= k < |fields| ==> ReadField(content, PARTITION_ID_OFFSET + INT_SIZE, fields, k) == fields[k]
  }

  lemma WrittenFrameCarries(blank: seq<Byte>, messageType: Int32, partitionId: Int32, fields: seq<Field>)
    requires |blank| == Offset(PARTITION_ID_OFFSET + INT_SIZE, Widths(fields), |fields|)
    requires |blank| >= PARTITION_ID_OFFSET + INT_SIZE
    ensures Carries(WithHeader(WriteFields(blank, PARTITION_ID_OFFSET + INT_SIZE, fields), messageType, partitionId),
                    messageType, partitionId, fields)
  {
    var base := PARTITION_ID_OFFSET + INT_SIZE;
    var body := WriteFields(blank, base, fields);
    HeaderReadsBack(body, messageType, partitionId);
    forall k | 0 <= k < |fields|
      ensures ReadField(WithHeader(body, messageType, partitionId), base, fields, k) == fields[k]
    {
      HeaderKeepsFields(body, messageType, partitionId, fields, k);
      FieldsReadBack(blank, base, fields, k);
    }
  }

  lemma {:induction false} RegionAt(content: seq<Byte>, base: nat, widths: seq<nat>, k: nat, at: nat)
    requires k < |widths| && Offset(base, widths, |widths|) <= |content| && at == Offset(base, widths, k)
    ensures at + widths[k] <= |content| && Region(content, base, widths, k) == content[at..at + widths[k]]
  {
    OffsetsGrow(base, widths, k, |widths|);
  }

  /** Reading field `k` is decoding the bytes at its place. */
  lemma {:induction false} ReadFieldAt(content: seq<Byte>, fields: seq<Field>, k: nat, at: nat, width: nat)
    requires k < |fields| && Offset(PARTITION_ID_OFFSET + INT_SIZE, Widths(fields), |fields|) <= |content|
    requires at == Offset(PARTITION_ID_OFFSET + INT_SIZE, Widths(fields), k) && width == Width(KindOf(fields[k]))
    ensures at + width <= |content|
    ensures ReadField(content, PARTITION_ID_OFFSET + INT_SIZE, fields, k)
            == Decode(KindOf(fields[k]), content[at..at + width])
  {
    RegionAt(content, PARTITION_ID_OFFSET + INT_SIZE, Widths(fields), k, at);
  }
}

module SemaphoreAcquireCodec {
  import opened Bytes
  import opened FixSizedCodec
  import opened FrameLayout
  import opened MessageCodecs
  import opened Wrappers

  const REQUEST_MESSAGE_TYPE := 786944
  const REQUEST_SESSION_ID_OFFSET := PARTITION_ID_OFFSET + INT_SIZE
  const REQUEST_THREAD_ID_OFFSET := REQUEST_SESSION_ID_OFFSET + LONG_SIZE
  const REQUEST_INVOCATION_UID_OFFSET := REQUEST_THREAD_ID_OFFSET + LONG_SIZE
  const REQUEST_PERMITS_OFFSET := REQUEST_INVOCATION_UID_OFFSET + UUID_SIZE
  const REQUEST_TIMEOUT_MS_OFFSET := REQUEST_PERMITS_OFFSET + INT_SIZE
  const REQUEST_INITIAL_FRAME_SIZE := REQUEST_TIMEOUT_MS_OFFSET + LONG_SIZE

  function RequestFields(sessionId: Long, threadId: Long, invocationUid: Option<Uuid>,
                         permits: Int32, timeoutMs: Long): seq<Field> {
    [LongField(sessionId), LongField(threadId), UuidField(invocationUid), IntField(permits), LongField(timeoutMs)]
  }

  /** The constants of the codec are the chained offsets of its fields. */
  lemma OffsetsAreChained(fields: seq<Field>)
    requires |fields| == 5
    requires fields[0].LongField? && fields[1].LongField? && fields[2].UuidField?
    requires fields[3].IntField? && fields[4].LongField?
    ensures var base := PARTITION_ID_OFFSET + INT_SIZE;
            && Offset(base, Widths(fields), 0) == REQUEST_SESSION_ID_OFFSET
            && Offset(base, Widths(fields), 1) == REQUEST_THREAD_ID_OFFSET
            && Offset(base, Widths(fields), 2) == REQUEST_INVOCATION_UID_OFFSET
            && Offset(base, Widths(fields), 3) == REQUEST_PERMITS_OFFSET
            && Offset(base, Widths(fields), 4) == REQUEST_TIMEOUT_MS_OFFSET
            && Offset(base, Widths(fields), 5) == REQUEST_INITIAL_FRAME_SIZE
  {
    var base, widths := PARTITION_ID_OFFSET + INT_SIZE, Widths(fields);
    assert Offset(base, widths, 0) == base;
    assert Offset(base, widths, 1) == Offset(base, widths, 0) + widths[0];
    assert Offset(base, widths, 2) == Offset(base, widths, 1) + widths[1];
    assert Offset(base, widths, 3) == Offset(base, widths, 2) + widths[2];
    assert Offset(base, widths, 4) == Offset(base, widths, 3) + widths[3];
    assert Offset(base, widths, 5) == Offset(base, widths, 4) + widths[4];
  }

  lemma {:induction false} FivePieces(
      blank: seq<Byte>, base: nat, widths: seq<nat>, pieces: seq<seq<Byte>>,
      s1: seq<Byte>, s2: seq<Byte>, s3: seq<Byte>, s4: seq<Byte>, s5: seq<Byte>)
    requires |pieces| == 5 && Fit(widths, pieces) && Offset(base, widths, 5) <= |blank|
    requires Offset(base, widths, 0) + |pieces[0]| <= |blank| == |s1| == |s2| == |s3| == |s4|
    requires s1 == WriteAt(blank, Offset(base, widths, 0), pieces[0])
    requires Offset(base, widths, 1) + |pieces[1]| <= |blank|
    requires s2 == WriteAt(s1, Offset(base, widths, 1), pieces[1])
    requires Offset(base, widths, 2) + |pieces[2]| <= |blank|
    requires s3 == WriteAt(s2, Offset(base, widths, 2), pieces[2])
    requires Offset(base, widths, 3) + |pieces[3]| <= |blank|
    requires s4 == WriteAt(s3, Offset(base, widths, 3), pieces[3])
    requires Offset(base, widths, 4) + |pieces[4]| <= |blank|
    requires s5 == WriteAt(s4, Offset(base, widths, 4), pieces[4])
    ensures s5 == WritePieces(blank, base, widths, pieces, 5)
  {
    NextPiece(blank, base, widths, pieces, 0, blank, s1);
    NextPiece(blank, base, widths, pieces, 1, s1, s2);
    NextPiece(blank, base, widths, pieces, 2, s2, s3);
    NextPiece(blank, base, widths, pieces, 3, s3, s4);
    NextPiece(blank, base, widths, pieces, 4, s4, s5);
  }

  const WIDTHS: seq<nat> := [8, 8, 17, 4, 8]

  /** The five writes, one after the other, are the writes of the layout. */
  lemma {:induction false} BodyIsLaidOut(
      blank: seq<Byte>, s1: seq<Byte>, s2: seq<Byte>, s3: seq<Byte>, s4: seq<Byte>, s5: seq<Byte>,
      pieces: seq<seq<Byte>>)
    requires |blank| == REQUEST_INITIAL_FRAME_SIZE && Fit(WIDTHS, pieces)
    requires s1 == WriteAt(blank, REQUEST_SESSION_ID_OFFSET, pieces[0])
    requires s2 == WriteAt(s1, REQUEST_THREAD_ID_OFFSET, pieces[1])
    requires s3 == WriteAt(s2, REQUEST_INVOCATION_UID_OFFSET, pieces[2])
    requires s4 == WriteAt(s3, REQUEST_PERMITS_OFFSET, pieces[3])
    requires s5 == WriteAt(s4, REQUEST_TIMEOUT_MS_OFFSET, pieces[4])
    ensures Offset(PARTITION_ID_OFFSET + INT_SIZE, WIDTHS, 5) == |blank|
    ensures s5 == WritePieces(blank, PARTITION_ID_OFFSET + INT_SIZE, WIDTHS, pieces, 5)
  {
    var base := PARTITION_ID_OFFSET + INT_SIZE;
    assert Offset(base, WIDTHS, 0) == REQUEST_SESSION_ID_OFFSET;
    assert Offset(base, WIDTHS, 1) == REQUEST_THREAD_ID_OFFSET;
    assert Offset(base, WIDTHS, 2) == REQUEST_INVOCATION_UID_OFFSET;
    assert Offset(base, WIDTHS, 3) == REQUEST_PERMITS_OFFSET;
    assert Offset(base, WIDTHS, 4) == REQUEST_TIMEOUT_MS_OFFSET;
    FivePieces(blank, base, WIDTHS, pieces, s1, s2, s3, s4, s5);
  }

  lemma FieldsAsPieces(fields: seq<Field>)
    requires |fields| == 5
    requires fields[0].LongField? && fields[1].LongField? && fields[2].UuidField?
    requires fields[3].IntField? && fields[4].LongField?
    ensures Widths(fields) == WIDTHS
    ensures Fit(WIDTHS, Pieces(fields))
  {
  }

  /** Where the values of a request stand, byte by byte. */
  ghost predicate Holds(content: seq<Byte>, sessionId: Long, threadId: Long, invocationUid: Option<Uuid>,
                        permits: Int32, timeoutMs: Long) {
    && |content| == 61
    && ReadInt32LE(content[0..4]) == 786944
    && ReadInt32LE(content[12..16]) == -1
    && DecodeLong(content[16..24]) == sessionId
    && DecodeLong(content[24..32]) == threadId
    && Decode(UuidKind, content[32..49]) == UuidField(invocationUid)
    && ReadInt32LE(content[49..53]) == permits
    && DecodeLong(content[53..61]) == timeoutMs
  }

  lemma {:induction false} CarriesHolds(content: seq<Byte>, sessionId: Long, threadId: Long,
                                        invocationUid: Option<Uuid>, permits: Int32, timeoutMs: Long)
    requires Carries(content, REQUEST_MESSAGE_TYPE, -1,
                     RequestFields(sessionId, threadId, invocationUid, permits, timeoutMs))
    ensures Holds(content, sessionId, threadId, invocationUid, permits, timeoutMs)
  {
    var fields := RequestFields(sessionId, threadId, invocationUid, permits, timeoutMs);
    OffsetsAreChained(fields);
    ReadFieldAt(content, fields, 0, 16, 8);
    ReadFieldAt(content, fields, 1, 24, 8);
    ReadFieldAt(content, fields, 2, 32, 17);
    ReadFieldAt(content, fields, 3, 49, 4);
    ReadFieldAt(content, fields, 4, 53, 8);
    assert content[MESSAGE_TYPE_OFFSET..][..INT_SIZE] == content[0..4];
    assert content[PARTITION_ID_OFFSET..][..INT_SIZE] == content[12..16];
  }

  lemma {:induction false} RequestLaidOut(
      blank: seq<Byte>, s1: seq<Byte>, s2: seq<Byte>, s3: seq<Byte>, s4: seq<Byte>, s5: seq<Byte>,
      sessionId: Long, threadId: Long, invocationUid: Option<Uuid>, permits: Int32, timeoutMs: Long)
    requires |blank| == REQUEST_INITIAL_FRAME_SIZE
    requires s1 == WriteAt(blank, REQUEST_SESSION_ID_OFFSET, Encode(LongField(sessionId)))
    requires s2 == WriteAt(s1, REQUEST_THREAD_ID_OFFSET, Encode(LongField(threadId)))
    requires s3 == WriteAt(s2, REQUEST_INVOCATION_UID_OFFSET, Encode(UuidField(invocationUid)))
    requires s4 == WriteAt(s3, REQUEST_PERMITS_OFFSET, Encode(IntField(permits)))
    requires s5 == WriteAt(s4, REQUEST_TIMEOUT_MS_OFFSET, Encode(LongField(timeoutMs)))
    ensures var fields := RequestFields(sessionId, threadId, invocationUid, permits, timeoutMs);
            && Offset(PARTITION_ID_OFFSET + INT_SIZE, Widths(fields), |fields|) == |blank|
            && s5 == WriteFields(blank, PARTITION_ID_OFFSET + INT_SIZE, fields)
  {
    var fields := RequestFields(sessionId, threadId, invocationUid, permits, timeoutMs);
    var pieces := Pieces(fields);
    FieldsAsPieces(fields);
    assert pieces[0] == Encode(LongField(sessionId)) && pieces[1] == Encode(LongField(threadId));
    assert pieces[2] == Encode(UuidField(invocationUid)) && pieces[3] == Encode(IntField(permits));
    assert pieces[4] == Encode(LongField(timeoutMs));
    BodyIsLaidOut(blank, s1, s2, s3, s4, s5, pieces);
  }

  /** The writes of the five values. */
  method PutBody(content: array<Byte>, sessionId: Long, threadId: Long, invocationUid: Option<Uuid>,
                 permits: Int32, timeoutMs: Long)
    requires content.Length == REQUEST_INITIAL_FRAME_SIZE
    modifies content
    ensures var fields := RequestFields(sessionId, threadId, invocationUid, permits, timeoutMs);
            && Offset(PARTITION_ID_OFFSET + INT_SIZE, Widths(fields), |fields|) == content.Length
            && content[..] == WriteFields(old(content[..]), PARTITION_ID_OFFSET + INT_SIZE, fields)
  {
    ghost var blank := content[..];
    PutLong(content, REQUEST_SESSION_ID_OFFSET, sessionId);
    ghost var s1 := content[..];
    PutLong(content, REQUEST_THREAD_ID_OFFSET, threadId);
    ghost var s2 := content[..];
    PutUuid(content, REQUEST_INVOCATION_UID_OFFSET, invocationUid);
    ghost var s3 := content[..];
    PutInt(content, REQUEST_PERMITS_OFFSET, permits);
    ghost var s4 := content[..];
    PutLong(content, REQUEST_TIMEOUT_MS_OFFSET, timeoutMs);
    RequestLaidOut(blank, s1, s2, s3, s4, content[..], sessionId, threadId, invocationUid, permits, timeoutMs);
  }

  /** The frame after its body and then its header have been written. */
  lemma {:induction false} RequestWritten(blank: seq<Byte>, body: seq<Byte>, content: seq<Byte>,
                                          sessionId: Long, threadId: Long, invocationUid: Option<Uuid>,
                                          permits: Int32, timeoutMs: Long)
    requires var fields := RequestFields(sessionId, threadId, invocationUid, permits, timeoutMs);
             && |blank| == REQUEST_INITIAL_FRAME_SIZE
             && Offset(PARTITION_ID_OFFSET + INT_SIZE, Widths(fields), |fields|) == |blank|
             && body == WriteFields(blank, PARTITION_ID_OFFSET + INT_SIZE, fields)
             && content == WithHeader(body, REQUEST_MESSAGE_TYPE, -1)
    ensures Carries(content, REQUEST_MESSAGE_TYPE, -1,
                    RequestFields(sessionId, threadId, invocationUid, permits, timeoutMs))
    ensures Holds(content, sessionId, threadId, invocationUid, permits, timeoutMs)
  {
    WrittenFrameCarries(blank, REQUEST_MESSAGE_TYPE, -1,
                        RequestFields(sessionId, threadId, invocationUid, permits, timeoutMs));
    CarriesHolds(content, sessionId, threadId, invocationUid, permits, timeoutMs);
  }

  /** All five values, the message type and the partition id read back from the frame, at their places. */
  method EncodeRequest(sessionId: Long, threadId: Long, invocationUid: Option<Uuid>, permits: Int32, timeoutMs: Long)
    returns (content: array<Byte>)
    ensures fresh(content) && content.Length == 61
    ensures Carries(content[..], REQUEST_MESSAGE_TYPE, -1,
                    RequestFields(sessionId, threadId, invocationUid, permits, timeoutMs))
    ensures Holds(content[..], sessionId, threadId, invocationUid, permits, timeoutMs)
  {
    content := new Byte[REQUEST_INITIAL_FRAME_SIZE];
    ghost var blank := content[..];
    PutBody(content, sessionId, threadId, invocationUid, permits, timeoutMs);
    ghost var body := content[..];
    PutHeader(content, REQUEST_MESSAGE_TYPE, -1);
    RequestWritten(blank, body, content[..], sessionId, threadId, invocationUid, permits, timeoutMs);
  }
}

module ClientAuthenticationCodec {
  import opened Bytes
  import opened FixSizedCodec
  import opened FrameLayout
  import opened MessageCodecs
  import opened Wrappers

  const REQUEST_MESSAGE_TYPE := 256
  const REQUEST_UUID_OFFSET := PARTITION_ID_OFFSET + INT_SIZE
  const REQUEST_SERIALIZATION_VERSION_OFFSET := REQUEST_UUID_OFFSET + UUID_SIZE
  const REQUEST_INITIAL_FRAME_SIZE := REQUEST_SERIALIZATION_VERSION_OFFSET + BYTE_SIZE
  const RESPONSE_STATUS_OFFSET := RESPONSE_BACKUP_ACKS_OFFSET + BYTE_SIZE
  const RESPONSE_MEMBER_UUID_OFFSET := RESPONSE_STATUS_OFFSET + BYTE_SIZE
  const RESPONSE_SERIALIZATION_VERSION_OFFSET := RESPONSE_MEMBER_UUID_OFFSET + UUID_SIZE
  const RESPONSE_PARTITION_COUNT_OFFSET := RESPONSE_SERIALIZATION_VERSION_OFFSET + BYTE_SIZE
  const RESPONSE_CLUSTER_ID_OFFSET := RESPONSE_PARTITION_COUNT_OFFSET + INT_SIZE
  const RESPONSE_FAILOVER_SUPPORTED_OFFSET := RESPONSE_CLUSTER_ID_OFFSET + UUID_SIZE
  const RESPONSE_FIELDS_END := RESPONSE_FAILOVER_SUPPORTED_OFFSET + BOOLEAN_SIZE

  /** The two writes, one after the other, are the writes of the layout. */
  lemma {:induction false} BodyIsLaidOut(blank: seq<Byte>, s1: seq<Byte>, s2: seq<Byte>,
                                         uuid: Option<Uuid>, serializationVersion: Byte)
    requires |blank| == REQUEST_INITIAL_FRAME_SIZE
    requires s1 == WriteAt(blank, REQUEST_UUID_OFFSET, Encode(UuidField(uuid)))
    requires s2 == WriteAt(s1, REQUEST_SERIALIZATION_VERSION_OFFSET, Encode(ByteField(serializationVersion)))
    ensures var fields := [UuidField(uuid), ByteField(serializationVersion)];
            && Offset(PARTITION_ID_OFFSET + INT_SIZE, Widths(fields), |fields|) == |blank|
            && s2 == WriteFields(blank, PARTITION_ID_OFFSET + INT_SIZE, fields)
  {
    var fields := [UuidField(uuid), ByteField(serializationVersion)];
    var base, widths, pieces := PARTITION_ID_OFFSET + INT_SIZE, Widths(fields), Pieces(fields);
    assert Offset(base, widths, 1) == Offset(base, widths, 0) + widths[0] == REQUEST_SERIALIZATION_VERSION_OFFSET;
    assert Offset(base, widths, 2) == Offset(base, widths, 1) + widths[1] == REQUEST_INITIAL_FRAME_SIZE;
    NextPiece(blank, base, widths, pieces, 0, blank, s1);
    NextPiece(blank, base, widths, pieces, 1, s1, s2);
  }

  /** Where the values of the first frame of a request stand. */
  ghost predicate Holds(content: seq<Byte>, uuid: Option<Uuid>, serializationVersion: Byte) {
    && |content| == 34
    && ReadInt32LE(content[0..4]) == 256
    && ReadInt32LE(content[12..16]) == -1
    && Decode(UuidKind, content[16..33]) == UuidField(uuid)
    && content[33] == serializationVersion
  }

  lemma {:induction false} CarriesHolds(content: seq<Byte>, uuid: Option<Uuid>, serializationVersion: Byte)
    requires Carries(content, REQUEST_MESSAGE_TYPE, -1, [UuidField(uuid), ByteField(serializationVersion)])
    ensures Holds(content, uuid, serializationVersion)
  {
    var fields := [UuidField(uuid), ByteField(serializationVersion)];
    var base, widths := PARTITION_ID_OFFSET + INT_SIZE, Widths(fields);
    assert Offset(base, widths, 1) == Offset(base, widths, 0) + widths[0] == 33;
    assert Offset(base, widths, 2) == Offset(base, widths, 1) + widths[1] == 34;
    ReadFieldAt(content, fields, 0, 16, 17);
    ReadFieldAt(content, fields, 1, 33, 1);
    assert content[MESSAGE_TYPE_OFFSET..][..INT_SIZE] == content[0..4];
    assert content[PARTITION_ID_OFFSET..][..INT_SIZE] == content[12..16];
  }

  /** The writes of the two values. */
  method PutBody(content: array<Byte>, uuid: Option<Uuid>, serializationVersion: Byte)
    requires content.Length == REQUEST_INITIAL_FRAME_SIZE
    modifies content
    ensures var fields := [UuidField(uuid), ByteField(serializationVersion)];
            && Offset(PARTITION_ID_OFFSET + INT_SIZE, Widths(fields), |fields|) == content.Length
            && content[..] == WriteFields(old(content[..]), PARTITION_ID_OFFSET + INT_SIZE, fields)
  {
    ghost var blank := content[..];
    PutUuid(content, REQUEST_UUID_OFFSET, uuid);
    ghost var s1 := content[..];
    PutByte(content, REQUEST_SERIALIZATION_VERSION_OFFSET, serializationVersion);
    BodyIsLaidOut(blank, s1, content[..], uuid, serializationVersion);
  }

  method EncodeRequest(uuid: Option<Uuid>, serializationVersion: Byte) returns (content: array<Byte>)
    ensures fresh(content) && content.Length == 34
    ensures Carries(content[..], REQUEST_MESSAGE_TYPE, -1, [UuidField(uuid), ByteField(serializationVersion)])
    ensures Holds(content[..], uuid, serializationVersion)
  {
    content := new Byte[REQUEST_INITIAL_FRAME_SIZE];
    ghost var blank := content[..];
    PutBody(content, uuid, serializationVersion);
    PutHeader(content, REQUEST_MESSAGE_TYPE, -1);
    WrittenFrameCarries(blank, REQUEST_MESSAGE_TYPE, -1, [UuidField(uuid), ByteField(serializationVersion)]);
    CarriesHolds(content[..], uuid, serializationVersion);
  }

  /** The fixed-size part of an authentication response. */
  datatype Response = Response(
    status: Byte,
    memberUuid: Option<Uuid>,
    serializationVersion: Byte,
    partitionCount: Int32,
    clusterId: Option<Uuid>,
    failoverSupported: bool)

  function ResponseFields(r: Response): seq<Field> {
    [ByteField(r.status), UuidField(r.memberUuid), ByteField(r.serializationVersion),
     IntField(r.partitionCount), UuidField(r.clusterId), BooleanField(r.failoverSupported)]
  }

  function At(content: seq<Byte>, offset: nat, k: Kind): Field
    requires offset + Width(k) <= |content|
  {
    Decode(k, content[offset..offset + Width(k)])
  }

  function DecodeResponse(content: seq<Byte>): Response
    requires |content| >= RESPONSE_FIELDS_END
  {
    Response(
      At(content, RESPONSE_STATUS_OFFSET, ByteKind).byte,
      At(content, RESPONSE_MEMBER_UUID_OFFSET, UuidKind).uuid,
      At(content, RESPONSE_SERIALIZATION_VERSION_OFFSET, ByteKind).byte,
      At(content, RESPONSE_PARTITION_COUNT_OFFSET, IntKind).number,
      At(content, RESPONSE_CLUSTER_ID_OFFSET, UuidKind).uuid,
      At(content, RESPONSE_FAILOVER_SUPPORTED_OFFSET, BooleanKind).flag)
  }

  /** Where the values of a response are taken from. */
  lemma ResponseBytes(content: seq<Byte>)
    requires |content| >= 54
    ensures var r := DecodeResponse(content);
            && r.status == content[13]
            && UuidField(r.memberUuid) == Decode(UuidKind, content[14..31])
            && r.serializationVersion == content[31]
            && r.partitionCount == ReadInt32LE(content[32..36])
            && UuidField(r.clusterId) == Decode(UuidKind, content[36..53])
            && (r.failoverSupported <==> content[53] == 1)
  {
  }

  lemma ResponseOffsetsAreChained(r: Response)
    ensures var base, widths := RESPONSE_STATUS_OFFSET, Widths(ResponseFields(r));
            && Offset(base, widths, 0) == RESPONSE_STATUS_OFFSET
            && Offset(base, widths, 1) == RESPONSE_MEMBER_UUID_OFFSET
            && Offset(base, widths, 2) == RESPONSE_SERIALIZATION_VERSION_OFFSET
            && Offset(base, widths, 3) == RESPONSE_PARTITION_COUNT_OFFSET
            && Offset(base, widths, 4) == RESPONSE_CLUSTER_ID_OFFSET
            && Offset(base, widths, 5) == RESPONSE_FAILOVER_SUPPORTED_OFFSET
            && Offset(base, widths, 6) == RESPONSE_FIELDS_END
  {
    var base, widths := RESPONSE_STATUS_OFFSET, Widths(ResponseFields(r));
    assert Offset(base, widths, 0) == base;
    assert Offset(base, widths, 1) == Offset(base, widths, 0) + widths[0];
    assert Offset(base, widths, 2) == Offset(base, widths, 1) + widths[1];
    assert Offset(base, widths, 3) == Offset(base, widths, 2) + widths[2];
    assert Offset(base, widths, 4) == Offset(base, widths, 3) + widths[3];
    assert Offset(base, widths, 5) == Offset(base, widths, 4) + widths[4];
    assert Offset(base, widths, 6) == Offset(base, widths, 5) + widths[5];
  }

  /** A response laid out by the same chain is decoded to the values it was written with. */
  lemma ResponseRoundTrip(blank: seq<Byte>, r: Response)
    requires |blank| >= RESPONSE_FIELDS_END
    ensures Offset(RESPONSE_STATUS_OFFSET, Widths(ResponseFields(r)), |ResponseFields(r)|) <= |blank|
    ensures DecodeResponse(WriteFields(blank, RESPONSE_STATUS_OFFSET, ResponseFields(r))) == r
  {
    var fields := ResponseFields(r);
    ResponseOffsetsAreChained(r);
    var content := WriteFields(blank, RESPONSE_STATUS_OFFSET, fields);
    forall k | 0 <= k < |fields|
      ensures ReadField(content, RESPONSE_STATUS_OFFSET, fields, k) == fields[k]
    {
      FieldsReadBack(blank, RESPONSE_STATUS_OFFSET, fields, k);
    }
    assert ReadField(content, RESPONSE_STATUS_OFFSET, fields, 0) == At(content, RESPONSE_STATUS_OFFSET, ByteKind);
    assert ReadField(content, RESPONSE_STATUS_OFFSET, fields, 1) == At(content, RESPONSE_MEMBER_UUID_OFFSET, UuidKind);
    assert ReadField(content, RESPONSE_STATUS_OFFSET, fields, 2)
        == At(content, RESPONSE_SERIALIZATION_VERSION_OFFSET, ByteKind);
    assert ReadField(content, RESPONSE_STATUS_OFFSET, fields, 3)
        == At(content, RESPONSE_PARTITION_COUNT_OFFSET, IntKind);
    assert ReadField(content, RESPONSE_STATUS_OFFSET, fields, 4) == At(content, RESPONSE_CLUSTER_ID_OFFSET, UuidKind);
    assert ReadField(content, RESPONSE_STATUS_OFFSET, fields, 5)
        == At(content, RESPONSE_FAILOVER_SUPPORTED_OFFSET, BooleanKind);
  }
}
