/** The record type, the 101-byte wire frame and the byte-wise key order. */
module Codec {
  import opened Base

  const KeyLen: nat := 10
  const ValueLen: nat := 90
  /** Bytes per record on disk: key then value. */
  const RecordLen: nat := 100
  /** Bytes per frame on the wire: one control byte, then a record. */
  const FrameLen: nat := 101

  /** Control byte of a frame carrying a record. */
  const DataControl: byte := 0
  /** Control byte of the end-of-stream frame. */
  const EndControl: byte := 1

  type Key = s: seq<byte> | |s| == KeyLen witness Zeros(10)
  type Value = s: seq<byte> | |s| == ValueLen witness Zeros(90)

  /** Go's `record{Key [10]byte; Value [90]byte}`. */
  datatype Record = Record(key: Key, value: Value)

  /** A decoded frame: its control byte and the record it carries. */
  datatype Frame = Frame(control: byte, payload: Record)

  /** The frame the sender writes for a record it forwards. */
  function DataFrame(r: Record): Frame
  {
    Frame(DataControl, r)
  }

  /** The frame written on every outbound connection once the input is
      exhausted: control byte 1 and an all-zero record. */
  const EndOfStream: Frame := Frame(EndControl, Record(Zeros(KeyLen), Zeros(ValueLen)))

  /** On the wire the end-of-stream frame is byte 1 followed by 100 zero
      bytes: the three writes of src/netsort.go:260-268. */
  lemma EndOfStreamBytes()
    ensures Encode(EndOfStream) == [EndControl] + Zeros(RecordLen)
  {
    assert EncodeRecord(EndOfStream.payload) == Zeros(RecordLen);
  }

  /** A record as it is written to a file: key, then value. */
  function EncodeRecord(r: Record): (b: seq<byte>)
    ensures |b| == RecordLen
    ensures b[..KeyLen] == r.key && b[KeyLen..] == r.value
  {
    r.key + r.value
  }

  /** A frame as it is written to a connection. */
  function Encode(f: Frame): (b: seq<byte>)
    ensures |b| == FrameLen
    ensures b[0] == f.control
    ensures b[1..] == EncodeRecord(f.payload)
  {
    [f.control] + EncodeRecord(f.payload)
  }

  /** The receiver's view of 101 bytes: control byte `data[0]`, key
      `data[1:11]`, value `data[11:101]`. */
  function Decode(b: seq<byte>): (f: Frame)
    requires |b| == FrameLen
    ensures f.control == b[0]
    ensures f.payload.key == b[1..1 + KeyLen] && f.payload.value == b[1 + KeyLen..FrameLen]
  {
    Frame(b[0], Record(b[1..1 + KeyLen], b[1 + KeyLen..FrameLen]))
  }

  /** Decoding undoes encoding. */
  lemma DecodeEncode(f: Frame)
    ensures Decode(Encode(f)) == f
  {
    var b := Encode(f);
    assert b[1..1 + KeyLen] == EncodeRecord(f.payload)[..KeyLen];
    assert b[1 + KeyLen..FrameLen] == EncodeRecord(f.payload)[KeyLen..];
  }

  /** Encoding undoes decoding: every 101-byte block is some frame. */
  lemma EncodeDecode(b: seq<byte>)
    requires |b| == FrameLen
    ensures Encode(Decode(b)) == b
  {
    assert b == [b[0]] + b[1..1 + KeyLen] + b[1 + KeyLen..FrameLen];
  }

  /** The bytes a sender writes for a sequence of forwarded records: one
      data frame per record, in order. */
  function EncodeRecords(rs: seq<Record>): (b: seq<byte>)
    ensures |b| == FrameLen * |rs|
  {
    if |rs| == 0 then [] else Encode(DataFrame(rs[0])) + EncodeRecords(rs[1..])
  }

  /** Writing two batches one after the other writes their frames one
      after the other. */
  lemma {:induction false} EncodeRecordsAppend(a: seq<Record>, b: seq<Record>)
    ensures EncodeRecords(a + b) == EncodeRecords(a) + EncodeRecords(b)
  {
    if |a| > 0 {
      assert (a + b)[1..] == a[1..] + b;
      EncodeRecordsAppend(a[1..], b);
    } else {
      assert a + b == b;
    }
  }

  /** Go's `bytes.Compare`: -1, 0 or 1 as `a` sorts before, equal to or
      after `b`, comparing unsigned bytes from the first, a proper prefix
      sorting first. */
  function Compare(a: seq<byte>, b: seq<byte>): (c: int)
    ensures -1 <= c <= 1
  {
    if |a| == 0 && |b| == 0 then 0
    else if |a| == 0 then -1
    else if |b| == 0 then 1
    else if a[0] < b[0] then -1
    else if a[0] > b[0] then 1
    else Compare(a[1..], b[1..])
  }

  /** The strict key order the model sorts by. */
  predicate KeyLess(a: Key, b: Key)
  {
    Compare(a, b) < 0
  }

  /** The non-strict key order that sorted output satisfies. */
  predicate KeyLe(a: Key, b: Key)
  {
    Compare(a, b) <= 0
  }

  /** 256^n. */
  function Pow256(n: nat): (p: nat)
    ensures p >= 1
  {
    if n == 0 then 1 else 256 * Pow256(n - 1)
  }

  /** A byte string read as an unsigned big-endian number. */
  function BigEndian(s: seq<byte>): nat
  {
    if |s| == 0 then 0 else s[0] * Pow256(|s| - 1) + BigEndian(s[1..])
  }

  /** Scaling by a non-negative factor keeps order. */
  lemma {:induction false} MulMonotone(x: nat, y: nat, p: nat)
    requires x <= y
    ensures x * p <= y * p
    decreases p
  {
    if p > 0 {
      MulMonotone(x, y, p - 1);
      assert x * p == x * (p - 1) + x;
      assert y * p == y * (p - 1) + y;
    }
  }

  lemma {:induction false} BigEndianBound(s: seq<byte>)
    ensures BigEndian(s) < Pow256(|s|)
  {
    if |s| > 0 {
      BigEndianBound(s[1..]);
      var p := Pow256(|s| - 1);
      MulMonotone(s[0], 255, p);
      assert Pow256(|s|) == 255 * p + p;
    }
  }

  /** Compare is zero exactly on equal strings. */
  lemma {:induction false} CompareZeroIffEqual(a: seq<byte>, b: seq<byte>)
    ensures Compare(a, b) == 0 <==> a == b
  {
    if |a| > 0 && |b| > 0 && a[0] == b[0] {
      CompareZeroIffEqual(a[1..], b[1..]);
      assert a == [a[0]] + a[1..];
      assert b == [b[0]] + b[1..];
    }
  }

  /** On strings of one length, Compare orders them as the big-endian
      numbers they spell. */
  lemma {:induction false} CompareIsNumeric(a: seq<byte>, b: seq<byte>)
    requires |a| == |b|
    ensures Compare(a, b) < 0 <==> BigEndian(a) < BigEndian(b)
    ensures Compare(a, b) > 0 <==> BigEndian(a) > BigEndian(b)
  {
    if |a| > 0 {
      var p := Pow256(|a| - 1);
      BigEndianBound(a[1..]);
      BigEndianBound(b[1..]);
      assert BigEndian(a) == a[0] * p + BigEndian(a[1..]);
      assert BigEndian(b) == b[0] * p + BigEndian(b[1..]);
      if a[0] < b[0] {
        MulMonotone(a[0] + 1, b[0], p);
        assert (a[0] + 1) * p == a[0] * p + p;
      } else if a[0] > b[0] {
        MulMonotone(b[0] + 1, a[0], p);
        assert (b[0] + 1) * p == b[0] * p + p;
      } else {
        CompareIsNumeric(a[1..], b[1..]);
      }
    }
  }

  /** Keys are ordered as 80-bit unsigned numbers, and equal numbers mean
      equal keys. */
  lemma KeyOrderIsNumeric(a: Key, b: Key)
    ensures KeyLess(a, b) <==> BigEndian(a) < BigEndian(b)
    ensures KeyLe(a, b) <==> BigEndian(a) <= BigEndian(b)
    ensures BigEndian(a) == BigEndian(b) <==> a == b
  {
    CompareIsNumeric(a, b);
    CompareZeroIffEqual(a, b);
  }
}
