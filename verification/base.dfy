/** Shared vocabulary of the netsort model: bytes, powers of two and the
    fatal conditions that make a node terminate (every `checkErrorWithExit`
    and `log.Fatalf` of the program). */
module Base {

  /** An unsigned 8-bit value, Go's `byte`. */
  type byte = x: int | 0 <= x < 256

  /** 2^n. */
  function Pow2(n: nat): (p: nat)
    ensures p >= 1
  {
    if n == 0 then 1 else 2 * Pow2(n - 1)
  }

  lemma {:induction false} Pow2Add(a: nat, b: nat)
    ensures Pow2(a + b) == Pow2(a) * Pow2(b)
    decreases a
  {
    if a > 0 {
      Pow2Add(a - 1, b);
      assert Pow2(a + b) == 2 * Pow2(a - 1 + b);
    }
  }

  /** `n` zero bytes, the content of a freshly declared Go byte array. */
  function Zeros(n: nat): (z: seq<byte>)
    ensures |z| == n
    ensures forall i :: 0 <= i < n ==> z[i] == 0
  {
    seq(n, _ => 0)
  }

  /** The reasons a node stops with a fatal error. */
  datatype Fault =
    | PeerClosed     // conn.Read reported io.EOF before a whole frame arrived
    | MalformedShard // the input shard is not a whole number of records

  /** The outcome of an operation that may stop the node. */
  datatype Result<T> = Success(value: T) | Failure(fault: Fault)
}
