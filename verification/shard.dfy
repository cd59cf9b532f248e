/** Shard files: a sequence of 100-byte records, key then value, with no
    header and no delimiter. The output is written in this format; the input
    is read in it. */
module Shard {
  import opened Base
  import opened Codec

  /** The output loop of `main` (src/netsort.go:301-308): each record as
      key then value. */
  function Serialize(rs: seq<Record>): (b: seq<byte>)
    ensures |b| == RecordLen * |rs|
  {
    if |rs| == 0 then [] else EncodeRecord(rs[0]) + Serialize(rs[1..])
  }

  /** Reading a shard that is a whole number of records; any other length
      is rejected as malformed. */
  function ParseShard(b: seq<byte>): (r: Result<seq<Record>>)
    ensures r.Success? <==> |b| % RecordLen == 0
    ensures r.Failure? ==> r.fault == MalformedShard
    ensures r.Success? ==> RecordLen * |r.value| == |b|
    decreases |b|
  {
    if |b| % RecordLen != 0 then Failure(MalformedShard)
    else if |b| == 0 then Success([])
    else
      var head := Record(b[..KeyLen], b[KeyLen..RecordLen]);
      match ParseShard(b[RecordLen..])
      case Success(rest) => Success([head] + rest)
      case Failure(e) => Failure(e)
  }

  /** Reading back what was written gives the records that were written. */
  lemma {:induction false} ParseSerialize(rs: seq<Record>)
    ensures ParseShard(Serialize(rs)) == Success(rs)
  {
    if |rs| > 0 {
      var b := Serialize(rs);
      ParseSerialize(rs[1..]);
      assert b[..RecordLen] == EncodeRecord(rs[0]);
      assert b[RecordLen..] == Serialize(rs[1..]);
      assert b[..KeyLen] == rs[0].key;
      assert b[KeyLen..RecordLen] == rs[0].value;
      assert [rs[0]] + rs[1..] == rs;
    }
  }

  /** Writing what was read gives back the file that was read. */
  lemma {:induction false} SerializeParse(b: seq<byte>)
    requires ParseShard(b).Success?
    ensures Serialize(ParseShard(b).value) == b
    decreases |b|
  {
    if |b| > 0 {
      SerializeParse(b[RecordLen..]);
      var rs := ParseShard(b).value;
      assert rs[1..] == ParseShard(b[RecordLen..]).value;
      assert b == b[..KeyLen] + b[KeyLen..RecordLen] + b[RecordLen..];
    }
  }

  /** The input loop of `main` (src/netsort.go:206-224) as written: a
      `Read` into the 10-byte key, then a `Read` into the 90-byte value, stopping only when a read
      reports io.EOF. A file read returns as many of the requested bytes as
      remain, and io.EOF only once none remain. A short read leaves the rest
      of the array zero. So the records it yields cover every byte but a
      trailing fragment of at most 10, and pad fewer than 90 bytes that were
      never read. */
  function ReadShardAsWritten(b: seq<byte>): (rs: seq<Record>)
    ensures |b| <= RecordLen * |rs| + KeyLen
    ensures RecordLen * |rs| < |b| + ValueLen
    decreases |b|
  {
    if |b| <= KeyLen then []
    else if |b| < RecordLen then [Record(b[..KeyLen], b[KeyLen..] + Zeros(RecordLen - |b|))]
    else [Record(b[..KeyLen], b[KeyLen..RecordLen])] + ReadShardAsWritten(b[RecordLen..])
  }

  /** On a well-formed shard the program's reader and `ParseShard` agree. */
  lemma {:induction false} ReadShardAgrees(b: seq<byte>)
    requires |b| % RecordLen == 0
    ensures ParseShard(b) == Success(ReadShardAsWritten(b))
    decreases |b|
  {
    if |b| > 0 {
      ReadShardAgrees(b[RecordLen..]);
    }
  }

  /** A 150-byte shard: the program routes two records, the second padded
      with 50 zero bytes it never read, so 200 bytes leave for 150 that came
      in; `ParseShard` rejects it. */
  lemma PartialRecordIsPadded()
    ensures var b := Zeros(150);
      && |ReadShardAsWritten(b)| == 2
      && |Serialize(ReadShardAsWritten(b))| != |b|
      && ParseShard(b) == Failure(MalformedShard)
  {
    var b := Zeros(150);
    assert |b[RecordLen..]| == 50;
  }

  /** A 105-byte shard: the program routes one record and drops the last
      five bytes without a word; `ParseShard` rejects it. */
  lemma PartialKeyIsDropped()
    ensures var b := Zeros(105);
      && ReadShardAsWritten(b) == ParseShard(b[..RecordLen]).value
      && |Serialize(ReadShardAsWritten(b))| != |b|
      && ParseShard(b) == Failure(MalformedShard)
  {
    var b := Zeros(105);
    assert |b[RecordLen..]| == 5;
    ReadShardAgrees(b[..RecordLen]);
    assert b[..RecordLen][RecordLen..] == [];
    assert b[..RecordLen][..KeyLen] == b[..KeyLen];
    assert b[..RecordLen][KeyLen..RecordLen] == b[KeyLen..RecordLen];
  }
}
