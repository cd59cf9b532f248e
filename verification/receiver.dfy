/** The shuffle receiver: one per inbound connection, it turns the peer's
    byte stream into the queue of records that peer forwarded, up to the
    end-of-stream frame. */
module Receiver {
  import opened Base
  import opened Codec
  import opened Reader

  /** What a receiver leaves behind when its stream ends properly: the
      records it queued, in arrival order, and the bytes after the
      end-of-stream frame, which it never reads. */
  datatype Received = Received(records: seq<Record>, unread: seq<byte>)

  /** The receive loop as a function of the whole inbound stream. A frame
      whose control byte is 1 closes the queue; any other control byte is
      data. A stream that ends before an end-of-stream frame is fatal. */
  function Receive(stream: seq<byte>): (r: Result<Received>)
    ensures r.Success? ==> FrameLen * (|r.value.records| + 1) + |r.value.unread| == |stream|
    ensures r.Failure? ==> r.fault == PeerClosed
    decreases |stream|
  {
    if |stream| < FrameLen then Failure(PeerClosed)
    else
      var f := Decode(stream[..FrameLen]);
      if f.control == EndControl then Success(Received([], stream[FrameLen..]))
      else Prepend([f.payload], Receive(stream[FrameLen..]))
  }

  /** Records queued before the rest of the stream was received. */
  function Prepend(rs: seq<Record>, r: Result<Received>): Result<Received>
  {
    match r
    case Failure(e) => Failure(e)
    case Success(rest) => Success(Received(rs + rest.records, rest.unread))
  }

  /** The `i`-th complete frame of a stream. */
  function FrameAt(s: seq<byte>, i: nat): (f: Frame)
    requires FrameLen * (i + 1) <= |s|
    ensures f.control == s[FrameLen * i]
  {
    Decode(s[FrameLen * i..FrameLen * i + FrameLen])
  }

  lemma FrameAtShift(s: seq<byte>, i: nat)
    requires FrameLen * (i + 2) <= |s|
    ensures FrameAt(s, i + 1) == FrameAt(s[FrameLen..], i)
  {
    assert s[FrameLen..][FrameLen * i..FrameLen * i + FrameLen]
        == s[FrameLen * (i + 1)..FrameLen * (i + 1) + FrameLen];
  }

  /** Whatever the receiver queues is, in order, the payloads of the
      frames before the first end-of-stream frame; that frame exists; and
      nothing after it is read. */
  lemma {:induction false} ReceiveSound(s: seq<byte>)
    requires Receive(s).Success?
    ensures var n := |Receive(s).value.records|;
      && FrameLen * (n + 1) <= |s|
      && FrameAt(s, n).control == EndControl
      && (forall i :: 0 <= i < n ==>
            FrameAt(s, i).control != EndControl && FrameAt(s, i).payload == Receive(s).value.records[i])
      && Receive(s).value.unread == s[FrameLen * (n + 1)..]
    decreases |s|
  {
    var f := Decode(s[..FrameLen]);
    assert FrameAt(s, 0) == f;
    if f.control != EndControl {
      var s' := s[FrameLen..];
      ReceiveSound(s');
      var rest := Receive(s').value.records;
      var n := |rest|;
      var rs := Receive(s).value.records;
      assert Receive(s) == Prepend([f.payload], Receive(s'));
      assert rs == [f.payload] + rest && Receive(s).value.unread == Receive(s').value.unread;
      ShiftFrames(s, n + 1);
      forall i | 0 < i < n + 1
        ensures FrameAt(s, i).control != EndControl && FrameAt(s, i).payload == rs[i]
      {
        assert FrameAt(s, i) == FrameAt(s', i - 1) && rs[i] == rest[i - 1];
      }
      assert s'[FrameLen * (n + 1)..] == s[FrameLen * (n + 2)..];
    }
  }

  /** Dropping the first frame of a stream renumbers the rest. */
  lemma ShiftFrames(s: seq<byte>, m: nat)
    requires FrameLen * (m + 1) <= |s|
    ensures forall i :: 0 < i <= m ==> FrameAt(s, i) == FrameAt(s[FrameLen..], i - 1)
  {
    forall i | 0 < i <= m
      ensures FrameAt(s, i) == FrameAt(s[FrameLen..], i - 1)
    {
      FrameAtShift(s, i - 1);
    }
  }

  /** Conversely, when the first end-of-stream frame is frame `n`, the
      receiver succeeds and queues exactly `n` records. */
  lemma {:induction false} ReceiveComplete(s: seq<byte>, n: nat)
    requires FrameLen * (n + 1) <= |s|
    requires forall i :: 0 <= i < n ==> FrameAt(s, i).control != EndControl
    requires FrameAt(s, n).control == EndControl
    ensures Receive(s).Success? && |Receive(s).value.records| == n
    decreases n
  {
    assert FrameAt(s, 0).control == s[0];
    if n > 0 {
      var s' := s[FrameLen..];
      forall i | 0 <= i <= n - 1
        ensures FrameAt(s', i) == FrameAt(s, i + 1)
      {
        FrameAtShift(s, i);
      }
      ReceiveComplete(s', n - 1);
    }
  }

  /** The receiver fails exactly when no complete frame of the stream is an
      end-of-stream frame: the peer hung up before saying it was done. */
  lemma {:induction false} ReceiveFails(s: seq<byte>)
    ensures Receive(s).Failure? <==>
              forall i: nat :: FrameLen * (i + 1) <= |s| ==> FrameAt(s, i).control != EndControl
    decreases |s|
  {
    if |s| >= FrameLen {
      assert FrameAt(s, 0).control == s[0];
      if s[0] != EndControl {
        var s' := s[FrameLen..];
        ReceiveFails(s');
        forall i: nat | FrameLen * (i + 1) <= |s'|
          ensures FrameAt(s', i) == FrameAt(s, i + 1)
        {
          FrameAtShift(s, i);
        }
        if forall i: nat :: FrameLen * (i + 1) <= |s'| ==> FrameAt(s', i).control != EndControl {
          forall i: nat | FrameLen * (i + 1) <= |s|
            ensures FrameAt(s, i).control != EndControl
          {
            if i > 0 {
              assert FrameAt(s, i) == FrameAt(s', i - 1);
            }
          }
        }
      }
    }
  }

  /** What a sender writes on a connection, data frames then the
      end-of-stream frame, is received as exactly the records it sent;
      whatever follows the end-of-stream frame is left unread. */
  lemma {:induction false} ReceiveEncoded(rs: seq<Record>, tail: seq<byte>)
    ensures Receive(EncodeRecords(rs) + Encode(EndOfStream) + tail) == Success(Received(rs, tail))
  {
    var s := EncodeRecords(rs) + Encode(EndOfStream) + tail;
    if |rs| == 0 {
      assert s == Encode(EndOfStream) + tail;
      assert s[..FrameLen] == Encode(EndOfStream);
      DecodeEncode(EndOfStream);
      assert s[FrameLen..] == tail;
    } else {
      var rest := EncodeRecords(rs[1..]) + Encode(EndOfStream) + tail;
      assert s == Encode(DataFrame(rs[0])) + rest;
      assert s[..FrameLen] == Encode(DataFrame(rs[0]));
      assert s[FrameLen..] == rest;
      DecodeEncode(DataFrame(rs[0]));
      ReceiveEncoded(rs[1..], tail);
      assert [rs[0]] + rs[1..] == rs;
    }
  }

  /** The stream a sender writes to a peer is one data frame per record it
      forwards, in order, then exactly one end-of-stream frame, and nothing
      else. */
  lemma {:induction false} SentStreamShape(rs: seq<Record>)
    ensures var s := EncodeRecords(rs) + Encode(EndOfStream);
      && |s| == FrameLen * (|rs| + 1)
      && (forall i :: 0 <= i < |rs| ==> FrameAt(s, i) == DataFrame(rs[i]))
      && FrameAt(s, |rs|) == EndOfStream
  {
    var s := EncodeRecords(rs) + Encode(EndOfStream);
    if |rs| == 0 {
      assert s[0..FrameLen] == Encode(EndOfStream);
      DecodeEncode(EndOfStream);
    } else {
      var s' := EncodeRecords(rs[1..]) + Encode(EndOfStream);
      SentStreamShape(rs[1..]);
      assert s == Encode(DataFrame(rs[0])) + s';
      assert s[0..FrameLen] == Encode(DataFrame(rs[0]));
      assert s[FrameLen..] == s';
      DecodeEncode(DataFrame(rs[0]));
      ShiftFrames(s, |rs|);
      forall i | 0 < i < |rs|
        ensures FrameAt(s, i) == DataFrame(rs[i])
      {
        assert rs[1..][i - 1] == rs[i];
      }
    }
  }

  /** A control byte other than 0 or 1 is not rejected: the frame is
      queued as data. */
  lemma OtherControlIsData(r: Record, c: byte)
    requires c != DataControl && c != EndControl
    ensures Receive(Encode(Frame(c, r)) + Encode(EndOfStream)) == Success(Received([r], []))
  {
    var s := Encode(Frame(c, r)) + Encode(EndOfStream);
    assert s[..FrameLen] == Encode(Frame(c, r));
    assert s[FrameLen..] == Encode(EndOfStream);
    DecodeEncode(Frame(c, r));
    ReceiveEncoded([], []);
    assert EncodeRecords([]) + Encode(EndOfStream) + [] == Encode(EndOfStream);
    assert Receive(Encode(EndOfStream)) == Success(Received([], []));
    assert [r] + [] == [r];
  }

  /** `receiveData`: reads frames with the exact-length read loop, queues
      data frames and stops at the end-of-stream frame. Whatever way the
      network splits the stream (`grant(f, k)` sizes the `k`-th read of
      frame `f`), the outcome is that of `Receive`. */
  method ReceiveData(stream: seq<byte>, grant: (nat, nat) -> nat) returns (r: Result<Received>)
    ensures r == Receive(stream)
  {
    var records: seq<Record> := [];
    var pos: nat := 0;
    var frameNo: nat := 0;
    assert stream[0..] == stream;
    PrependNothing(Receive(stream));
    while true
      invariant pos <= |stream|
      invariant Receive(stream) == Prepend(records, Receive(stream[pos..]))
      decreases |stream| - pos
    {
      var fno := frameNo;
      var read := ReadFrame(stream[pos..], k => grant(fno, k));
      if read.Failure? {
        return Failure(read.fault);
      }
      var f := Decode(read.value);
      if f.control == EndControl {
        assert stream[pos..][FrameLen..] == stream[pos + FrameLen..];
        assert records + [] == records;
        return Success(Received(records, stream[pos + FrameLen..]));
      }
      assert stream[pos..][FrameLen..] == stream[pos + FrameLen..];
      PrependTwice(records, [f.payload], Receive(stream[pos + FrameLen..]));
      records := records + [f.payload];
      pos := pos + FrameLen;
      frameNo := frameNo + 1;
    }
  }

  lemma PrependNothing(r: Result<Received>)
    ensures Prepend([], r) == r
  {
    if r.Success? {
      assert [] + r.value.records == r.value.records;
    }
  }

  lemma PrependTwice(a: seq<Record>, b: seq<Record>, r: Result<Received>)
    ensures Prepend(a, Prepend(b, r)) == Prepend(a + b, r)
  {
    if r.Success? {
      assert a + (b + r.value.records) == (a + b) + r.value.records;
    }
  }
}
