/** The exact-length read loop of `receiveData`: it keeps asking the
    connection for the bytes still missing from a 101-byte frame and appends
    whatever each read delivers. */
module Reader {
  import opened Base
  import opened Codec

  /** How many bytes one `conn.Read` into a buffer of `request` bytes
      delivers when `available` bytes are in flight and the network offers
      `offer`: at least one (a blocking read returns data or an error), at
      most the buffer size and at most what the peer sent. */
  function Delivered(offer: nat, request: nat, available: nat): (n: nat)
    requires request >= 1 && available >= 1
    ensures 1 <= n <= request && n <= available
  {
    var n := if offer == 0 then 1 else offer;
    if n <= request && n <= available then n
    else if request <= available then request
    else available
  }

  /** Reads one frame from `stream`, the bytes the peer has still to
      deliver on this connection. The `k`-th read delivers
      `Delivered(grant(k), ...)` bytes, so every way the network may split
      the stream is covered. A read finding the stream exhausted reports
      io.EOF, which is fatal. */
  method ReadFrame(stream: seq<byte>, grant: nat -> nat) returns (r: Result<seq<byte>>)
    ensures r.Success? <==> |stream| >= FrameLen
    ensures r.Success? ==> r.value == stream[..FrameLen]
    ensures r.Failure? ==> r.fault == PeerClosed
  {
    var data: seq<byte> := [];
    var count: nat := 0;
    while |data| < FrameLen
      invariant |data| <= FrameLen && |data| <= |stream|
      invariant data == stream[..|data|]
      decreases FrameLen - |data|
    {
      var request := FrameLen - |data|;
      if |stream| == |data| {
        return Failure(PeerClosed);
      }
      var n := Delivered(grant(count), request, |stream| - |data|);
      data := data + stream[|data|..|data| + n];
      count := count + 1;
    }
    return Success(data);
  }
}
