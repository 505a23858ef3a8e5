/** Little-endian numbers and writes into a buffer. */
module Bytes {

  type Byte = x: int | 0 <= x < 0x100
  type UInt16 = x: int | 0 <= x < 0x1_0000
  type UInt32 = x: int | 0 <= x < 0x1_0000_0000
  type Int32 = x: int | -0x8000_0000 <= x < 0x8000_0000

  function UInt16LE(v: UInt16): (b: seq<Byte>)
    ensures |b| == 2
  {
    [v % 0x100, v / 0x100]
  }

  function ReadUInt16LE(b: seq<Byte>): UInt16
    requires |b| == 2
  {
    var low: int, high: int := b[0], b[1];
    low + 0x100 * high
  }

  function UInt32LE(v: UInt32): (b: seq<Byte>)
    ensures |b| == 4
  {
    UInt16LE(v % 0x1_0000) + UInt16LE(v / 0x1_0000)
  }

  function ReadUInt32LE(b: seq<Byte>): UInt32
    requires |b| == 4
  {
    var low: int, high: int := ReadUInt16LE(b[..2]), ReadUInt16LE(b[2..]);
    low + 0x1_0000 * high
  }

  /** Two's complement. */
  function Unsigned(v: Int32): UInt32 {
    if v < 0 then v + 0x1_0000_0000 else v
  }

  function Signed(u: UInt32): Int32 {
    if u < 0x8000_0000 then u else u - 0x1_0000_0000
  }

  function Int32LE(v: Int32): (b: seq<Byte>)
    ensures |b| == 4
  {
    UInt32LE(Unsigned(v))
  }

  function ReadInt32LE(b: seq<Byte>): Int32
    requires |b| == 4
  {
    Signed(ReadUInt32LE(b))
  }

  lemma UInt16RoundTrip(v: UInt16)
    ensures ReadUInt16LE(UInt16LE(v)) == v
  {
  }

  lemma Int32RoundTrip(v: Int32)
    ensures ReadInt32LE(Int32LE(v)) == v
  {
    var u := Unsigned(v);
    var low, high := u % 0x1_0000, u / 0x1_0000;
    UInt16RoundTrip(low);
    UInt16RoundTrip(high);
    assert UInt32LE(u)[..2] == UInt16LE(low) && UInt32LE(u)[2..] == UInt16LE(high);
  }

  // ---------------------------------------------------------------- the order of the bytes

  /** The `n` lowest bytes of a number, the lowest first. */
  function Little(v: nat, n: nat): (b: seq<Byte>)
    ensures |b| == n
    decreases n
  {
    if n == 0 then [] else [v % 256] + Little(v / 256, n - 1)
  }

  /** The number that bytes stand for, the lowest first. */
  function NumberOf(b: seq<Byte>): nat {
    if b == [] then 0
    else
      var first: int := b[0];
      first + 256 * NumberOf(b[1..])
  }

  lemma {:induction false} LittleOfNumber(b: seq<Byte>)
    ensures Little(NumberOf(b), |b|) == b
  {
    if b == [] {
    } else {
      LittleOfNumber(b[1..]);
      assert NumberOf(b) % 256 == b[0] && NumberOf(b) / 256 == NumberOf(b[1..]);
    }
  }

  lemma UInt16IsLittle(v: UInt16)
    ensures UInt16LE(v) == Little(v, 2)
  {
    assert Little(v / 256, 1) == [v / 256 % 256] + Little(v / 256 / 256, 0);
  }

  lemma {:induction false} LittleSplits(v: nat, n: nat)
    ensures Little(v, n + 2) == Little(v % 0x1_0000, 2) + Little(v / 0x1_0000, n)
  {
    var low := v % 0x1_0000;
    assert Little(v, n + 2) == [v % 256] + ([v / 256 % 256] + Little(v / 256 / 256, n));
    assert Little(low, 2) == [low % 256] + ([low / 256 % 256] + Little(low / 256 / 256, 0));
    assert low % 256 == v % 256 && low / 256 % 256 == v / 256 % 256 && v / 256 / 256 == v / 0x1_0000;
  }

  /** Numbers of 32 bits are written lowest byte first, negative ones as their complement. */
  lemma Int32IsLittle(v: Int32)
    ensures Int32LE(v) == Little(if v < 0 then v + 0x1_0000_0000 else v, 4)
  {
    var u := if v < 0 then v + 0x1_0000_0000 else v;
    UInt16IsLittle(u % 0x1_0000);
    UInt16IsLittle(u / 0x1_0000);
    LittleSplits(u, 2);
  }

  lemma ReadUInt16IsNumber(b: seq<Byte>)
    requires |b| == 2
    ensures ReadUInt16LE(b) == NumberOf(b)
  {
    assert NumberOf(b[1..][1..]) == 0;
    assert NumberOf(b[1..]) == b[1];
  }

  lemma {:induction false} NumberOfConcat(a: seq<Byte>, b: seq<Byte>)
    requires |a| == 2
    ensures NumberOf(a + b) == NumberOf(a) + 0x1_0000 * NumberOf(b)
  {
    assert (a + b)[1..][1..] == b && (a + b)[1..][0] == a[1] && a[1..][1..] == [];
    assert NumberOf(a[1..]) == a[1];
  }

  lemma ReadUInt32IsNumber(b: seq<Byte>)
    requires |b| == 4
    ensures ReadUInt32LE(b) == NumberOf(b)
  {
    assert b == b[..2] + b[2..];
    ReadUInt16IsNumber(b[..2]);
    ReadUInt16IsNumber(b[2..]);
    NumberOfConcat(b[..2], b[2..]);
  }

  // ---------------------------------------------------------------- buffers

  /** The buffer with `b` written at `offset`. */
  function WriteAt(buffer: seq<Byte>, offset: nat, b: seq<Byte>): (r: seq<Byte>)
    requires offset + |b| <= |buffer|
    ensures |r| == |buffer| && r[offset..offset + |b|] == b
  {
    buffer[..offset] + b + buffer[offset + |b|..]
  }

  /** A write leaves every region alone that it does not meet. */
  lemma WriteKeepsRegion(buffer: seq<Byte>, offset: nat, b: seq<Byte>, start: nat, end: nat)
    requires offset + |b| <= |buffer| && start <= end <= |buffer|
    requires end <= offset || offset + |b| <= start
    ensures WriteAt(buffer, offset, b)[start..end] == buffer[start..end]
  {
    var r := WriteAt(buffer, offset, b);
    forall i | start <= i < end ensures r[i] == buffer[i] {
    }
  }

  /** Writing two pieces one behind the other is writing them as one. */
  lemma WriteTwice(buffer: seq<Byte>, offset: nat, a: seq<Byte>, b: seq<Byte>)
    requires offset + |a| + |b| <= |buffer|
    ensures WriteAt(WriteAt(buffer, offset, a), offset + |a|, b) == WriteAt(buffer, offset, a + b)
  {
  }

  /** Stores `b` into the array in place. */
  method Store(buffer: array<Byte>, offset: nat, b: seq<Byte>)
    requires offset + |b| <= buffer.Length
    modifies buffer
    ensures buffer[..] == WriteAt(old(buffer[..]), offset, b)
  {
    for i := 0 to |b|
      invariant forall j :: 0 <= j < buffer.Length ==>
                  buffer[j] == if offset <= j < offset + i then b[j - offset] else old(buffer[j])
    {
      buffer[offset + i] := b[i];
    }
  }
}
