/** Values of fixed size, as they stand in the initial frame of a message. */
module FixSizedCodec {
  import opened Bytes
  import opened FrameLayout
  import opened Wrappers

  const BYTE_SIZE := 1
  const BOOLEAN_SIZE := 1
  const INT_SIZE := 4
  const LONG_SIZE := 8
  const UUID_SIZE := BOOLEAN_SIZE + 2 * LONG_SIZE

  /** A 64-bit integer as its two halves. */
  datatype Long = Long(low: Int32, high: Int32)

  datatype Uuid = Uuid(mostSignificant: Long, leastSignificant: Long)

  datatype Kind = ByteKind | BooleanKind | IntKind | LongKind | UuidKind

  datatype Field =
    | ByteField(byte: Byte)
    | BooleanField(flag: bool)
    | IntField(number: Int32)
    | LongField(long: Long)
    | UuidField(uuid: Option<Uuid>)

  function KindOf(f: Field): Kind {
    match f
    case ByteField(_) => ByteKind
    case BooleanField(_) => BooleanKind
    case IntField(_) => IntKind
    case LongField(_) => LongKind
    case UuidField(_) => UuidKind
  }

  function Width(k: Kind): nat {
    match k
    case ByteKind => BYTE_SIZE
    case BooleanKind => BOOLEAN_SIZE
    case IntKind => INT_SIZE
    case LongKind => LONG_SIZE
    case UuidKind => UUID_SIZE
  }

  // ---------------------------------------------------------------- one field

  function EncodeLong(v: Long): (b: seq<Byte>)
    ensures |b| == LONG_SIZE
  {
    Int32LE(v.low) + Int32LE(v.high)
  }

  function DecodeLong(b: seq<Byte>): Long
    requires |b| == LONG_SIZE
  {
    Long(ReadInt32LE(b[..INT_SIZE]), ReadInt32LE(b[INT_SIZE..]))
  }

  /** The bytes a field writes. A missing UUID writes its flag only and leaves the other bytes as they are. */
  function Encode(f: Field): (b: seq<Byte>)
    ensures |b| <= Width(KindOf(f))
  {
    match f
    case ByteField(v) => [v]
    case BooleanField(v) => [if v then 1 else 0]
    case IntField(v) => Int32LE(v)
    case LongField(v) => EncodeLong(v)
    case UuidField(None) => [1]
    case UuidField(Some(v)) => [0] + EncodeLong(v.mostSignificant) + EncodeLong(v.leastSignificant)
  }

  /** What a field of the given kind reads from its region. */
  function Decode(k: Kind, b: seq<Byte>): Field
    requires |b| == Width(k)
  {
    match k
    case ByteKind => ByteField(b[0])
    case BooleanKind => BooleanField(b[0] == 1)
    case IntKind => IntField(ReadInt32LE(b))
    case LongKind => LongField(DecodeLong(b))
    case UuidKind =>
      if b[0] == 1 then UuidField(None)
      else UuidField(Some(Uuid(DecodeLong(b[1..9]), DecodeLong(b[9..17]))))
  }

  /** A UUID stands as a byte that is 1 exactly if it is missing, its upper half and its lower half. */
  lemma UuidBytes(b: seq<Byte>)
    requires |b| == 17
    ensures var u := Decode(UuidKind, b);
            && u.UuidField? && (u.uuid.None? <==> b[0] == 1)
            && (u.uuid.Some? ==> u.uuid.value == Uuid(DecodeLong(b[1..9]), DecodeLong(b[9..17])))
  {
  }

  lemma LongRoundTrip(v: Long)
    ensures DecodeLong(EncodeLong(v)) == v
  {
    Int32RoundTrip(v.low);
    Int32RoundTrip(v.high);
    assert EncodeLong(v)[..INT_SIZE] == Int32LE(v.low) && EncodeLong(v)[INT_SIZE..] == Int32LE(v.high);
  }

  /** A non-negative number as a 64-bit integer; what does not fit becomes the largest one. */
  function NumberToLong(v: nat): Long {
    if v + 1 >= 0x8000_0000_0000_0000 then Long(-1, 0x7FFF_FFFF)
    else Long(Signed(v % 0x1_0000_0000), v / 0x1_0000_0000)
  }

  function LongToNumber(v: Long): int {
    var high: int, low: int := v.high, Unsigned(v.low);
    high * 0x1_0000_0000 + low
  }

  /**
    The bytes of a number give it back exactly when it fits, and the largest number otherwise;
    correlation ids are written this way.
   */
  lemma NumberRoundTrip(v: nat)
    ensures LongToNumber(DecodeLong(EncodeLong(NumberToLong(v))))
            == if v < 0x8000_0000_0000_0000 then v else 0x7FFF_FFFF_FFFF_FFFF
    ensures LongToNumber(DecodeLong(EncodeLong(NumberToLong(v)))) == v <==> v < 0x8000_0000_0000_0000
  {
    LongRoundTrip(NumberToLong(v));
  }

  /** A 64-bit integer stands lowest byte first. */
  lemma LongIsLittle(v: Long)
    ensures EncodeLong(v) == Little(if v.low < 0 then v.low + 0x1_0000_0000 else v.low, 4)
                             + Little(if v.high < 0 then v.high + 0x1_0000_0000 else v.high, 4)
  {
    Int32IsLittle(v.low);
    Int32IsLittle(v.high);
  }

  lemma ShortNumber(b: seq<Byte>)
    requires |b| == 2
    ensures NumberOf(b) < 0x1_0000
  {
    ReadUInt16IsNumber(b);
  }

  lemma FourAndFour(b: seq<Byte>)
    requires |b| == LONG_SIZE
    ensures NumberOf(b) == NumberOf(b[..INT_SIZE]) + 0x1_0000_0000 * NumberOf(b[INT_SIZE..])
  {
    var low, high := b[..4], b[4..];
    assert b == low[..2] + (low[2..] + high);
    NumberOfConcat(low[..2], low[2..] + high);
    NumberOfConcat(low[2..], high);
    assert low == low[..2] + low[2..];
    NumberOfConcat(low[..2], low[2..]);
    ShortNumber(low[2..]);
  }

  /** Eight bytes are read as the number they stand for, those from 2^63 on as negative. */
  lemma DecodedNumber(b: seq<Byte>)
    requires |b| == LONG_SIZE
    ensures LongToNumber(DecodeLong(b))
            == if NumberOf(b) < 0x8000_0000_0000_0000 then NumberOf(b) else NumberOf(b) - 0x1_0000_0000_0000_0000
  {
    ReadUInt32IsNumber(b[..INT_SIZE]);
    ReadUInt32IsNumber(b[INT_SIZE..]);
    FourAndFour(b);
  }

  lemma NumberBelow(b: seq<Byte>)
    requires |b| == LONG_SIZE
    ensures NumberOf(b) < 0x1_0000_0000_0000_0000
  {
    ReadUInt32IsNumber(b[..INT_SIZE]);
    ReadUInt32IsNumber(b[INT_SIZE..]);
    FourAndFour(b);
  }

  /** Different bytes are read as different numbers. */
  lemma SameNumberSameBytes(a: seq<Byte>, b: seq<Byte>)
    requires |a| == LONG_SIZE && |b| == LONG_SIZE
    ensures LongToNumber(DecodeLong(a)) == LongToNumber(DecodeLong(b)) <==> a == b
  {
    DecodedNumber(a);
    DecodedNumber(b);
    NumberBelow(a);
    NumberBelow(b);
    LittleOfNumber(a);
    LittleOfNumber(b);
  }

  /** A region that starts with the bytes of a field reads as that field, whatever follows them. */
  lemma FieldRoundTrip(f: Field, region: seq<Byte>)
    requires |region| == Width(KindOf(f)) && Encode(f) <= region
    ensures Decode(KindOf(f), region) == f
  {
    match f
    case ByteField(_) =>
    case BooleanField(_) =>
    case IntField(v) =>
      assert region == Encode(f);
      Int32RoundTrip(v);
    case LongField(v) =>
      assert region == Encode(f);
      LongRoundTrip(v);
    case UuidField(None) => assert region[0] == Encode(f)[0];
    case UuidField(Some(v)) =>
      assert region == Encode(f);
      assert region[1..9] == EncodeLong(v.mostSignificant) && region[9..17] == EncodeLong(v.leastSignificant);
      LongRoundTrip(v.mostSignificant);
      LongRoundTrip(v.leastSignificant);
  }

  // ---------------------------------------------------------------- a whole frame

  function Widths(fields: seq<Field>): seq<nat> {
    seq(|fields|, i requires 0 <= i < |fields| => Width(KindOf(fields[i])))
  }

  function Pieces(fields: seq<Field>): seq<seq<Byte>> {
    seq(|fields|, i requires 0 <= i < |fields| => Encode(fields[i]))
  }

  /** The buffer after all fields have been written at their chained offsets. */
  ghost function WriteFields(buffer: seq<Byte>, base: nat, fields: seq<Field>): (r: seq<Byte>)
    requires Offset(base, Widths(fields), |fields|) <= |buffer|
    ensures |r| == |buffer|
  {
    WritePieces(buffer, base, Widths(fields), Pieces(fields), |fields|)
  }

  /** What reading the field `k` of a frame gives. */
  function ReadField(buffer: seq<Byte>, base: nat, fields: seq<Field>, k: nat): Field
    requires k < |fields| && Offset(base, Widths(fields), |fields|) <= |buffer|
  {
    Decode(KindOf(fields[k]), Region(buffer, base, Widths(fields), k))
  }

  /**
    For every list of fields: after all of them have been written at their chained offsets,
    each reads back as it was written, whatever the buffer held before.
   */
  lemma FieldsReadBack(buffer: seq<Byte>, base: nat, fields: seq<Field>, k: nat)
    requires k < |fields| && Offset(base, Widths(fields), |fields|) <= |buffer|
    ensures ReadField(WriteFields(buffer, base, fields), base, fields, k) == fields[k]
  {
    PieceSurvives(buffer, base, Widths(fields), Pieces(fields), |fields|, k);
    FieldRoundTrip(fields[k], Region(WriteFields(buffer, base, fields), base, Widths(fields), k));
  }
}
