/** The partitioner: the top `nMSB` bits of a key's first byte name the node
    that owns it, for a cluster of `2^nMSB` nodes. */
module Partition {
  import opened Base
  import opened Codec

  /** The largest exponent the shift `8 - nMSB` allows: 256 nodes. */
  const MaxMSB: nat := 8

  /** Go's `x >> s` on a non-negative int: `s` halvings, each dropping the
      low bit. */
  function ShiftRight(x: nat, s: nat): nat
  {
    if s == 0 then x else ShiftRight(x / 2, s - 1)
  }

  /** A shift never grows its operand, and a real shift of a positive value
      shrinks it. */
  lemma {:induction false} ShiftRightShrinks(x: nat, s: nat)
    ensures ShiftRight(x, s) <= x
    ensures s > 0 && x > 0 ==> ShiftRight(x, s) < x
  {
    if s > 0 {
      ShiftRightShrinks(x / 2, s - 1);
    }
  }

  /** A right shift by `s` is division by `2^s`. */
  lemma {:induction false} ShiftRightIsDiv(x: nat, s: nat)
    ensures ShiftRight(x, s) == x / Pow2(s)
  {
    if s > 0 {
      var p, q := Pow2(s - 1), ShiftRight(x / 2, s - 1);
      ShiftRightIsDiv(x / 2, s - 1);
      QuotientRange(x / 2, p, q);
      assert (q + 1) * p == q * p + p;
      DoubleWidth(q, p);
      QuotientRange(x, 2 * p, q);
    }
  }

  lemma DoubleWidth(q: nat, p: nat)
    ensures q * (2 * p) == 2 * (q * p)
    ensures (q + 1) * (2 * p) == 2 * (q * p) + 2 * p
  {
  }

  /** How many first-byte values each node owns. */
  function RangeWidth(nMSB: nat): (w: nat)
    requires nMSB <= MaxMSB
    ensures Pow2(nMSB) * w == 256
  {
    Pow2Add(nMSB, MaxMSB - nMSB);
    assert Pow2(8) == 256;
    Pow2(MaxMSB - nMSB)
  }

  /** `q` is the quotient of `x` by `w` exactly when `x` lies in
      `[q * w, (q + 1) * w)`. */
  lemma {:induction false} QuotientRange(x: nat, w: nat, q: nat)
    requires w > 0
    ensures x / w == q <==> q * w <= x < (q + 1) * w
  {
    var d, m := x / w, x % w;
    assert x == d * w + m && 0 <= m < w;
    if d < q {
      MulMonotone(d + 1, q, w);
      assert (d + 1) * w == d * w + w;
    } else if d > q {
      MulMonotone(q + 1, d, w);
      assert (q + 1) * w == q * w + w;
    } else {
      assert (q + 1) * w == q * w + w;
    }
  }

  /** `keyToServerMapping := int(firstByte) >> (8 - nMSB)`: the node that
      owns a key. */
  function Owner(k: Key, nMSB: nat): nat
    requires nMSB <= MaxMSB
  {
    ShiftRight(k[0], MaxMSB - nMSB)
  }

  /** The owner is always one of the `2^nMSB` nodes, and node 0 for a
      one-node cluster. */
  lemma OwnerBound(k: Key, nMSB: nat)
    requires nMSB <= MaxMSB
    ensures Owner(k, nMSB) < Pow2(nMSB)
    ensures nMSB == 0 ==> Owner(k, nMSB) == 0
  {
    ShiftRightIsDiv(k[0], MaxMSB - nMSB);
    QuotientBelow(k[0], RangeWidth(nMSB), Pow2(nMSB));
  }

  /** A value below `n * w` has a quotient by `w` below `n`. */
  lemma QuotientBelow(x: nat, w: nat, n: nat)
    requires w > 0 && x < n * w
    ensures x / w < n
  {
    QuotientRange(x, w, x / w);
    if x / w >= n {
      MulMonotone(n, x / w, w);
    }
  }

  /** Node `i` owns exactly the keys whose first byte lies in the `i`-th
      block of `RangeWidth(nMSB)` consecutive values: the owner depends on
      the first byte alone and the blocks are contiguous. */
  lemma OwnerRange(k: Key, nMSB: nat, i: nat)
    requires nMSB <= MaxMSB
    ensures Owner(k, nMSB) == i <==>
              i * RangeWidth(nMSB) <= k[0] < (i + 1) * RangeWidth(nMSB)
  {
    ShiftRightIsDiv(k[0], MaxMSB - nMSB);
    QuotientRange(k[0], RangeWidth(nMSB), i);
  }

  /** The owner never decreases along the key order, so sorted keys visit
      the nodes in ascending order. */
  lemma OwnerMonotone(a: Key, b: Key, nMSB: nat)
    requires nMSB <= MaxMSB
    requires KeyLe(a, b)
    ensures Owner(a, nMSB) <= Owner(b, nMSB)
  {
    var w := RangeWidth(nMSB);
    ShiftRightIsDiv(a[0], MaxMSB - nMSB);
    ShiftRightIsDiv(b[0], MaxMSB - nMSB);
    assert a[0] <= b[0];
    QuotientRange(b[0], w, b[0] / w);
    QuotientBelow(a[0], w, b[0] / w + 1);
  }

  /** The least key node `i` owns: every node owns a non-empty range, so
      the ranges cover the key space with no node left idle. */
  function LeastKeyOf(i: nat, nMSB: nat): (k: Key)
    requires nMSB <= MaxMSB && i < Pow2(nMSB)
    ensures Owner(k, nMSB) == i
    ensures forall k': Key :: Owner(k', nMSB) == i ==> KeyLe(k, k')
  {
    var w := RangeWidth(nMSB);
    MulMonotone(i + 1, Pow2(nMSB), w);
    assert (i + 1) * w == i * w + w;
    assert i * w < 256;
    var k: Key := [(i * w) as byte] + Zeros(KeyLen - 1);
    OwnerRange(k, nMSB, i);
    forall k': Key | Owner(k', nMSB) == i
      ensures KeyLe(k, k')
    {
      OwnerRange(k', nMSB, i);
      KeyOrderIsNumeric(k, k');
      LeastKeyIsLeast(i * w, k');
    }
    k
  }

  /** A key made of one leading byte `b` and nine zero bytes is below every
      key whose first byte is at least `b`. */
  lemma LeastKeyIsLeast(b: byte, k': Key)
    requires b <= k'[0]
    ensures KeyLe([b] + Zeros(KeyLen - 1), k')
  {
    var k := [b] + Zeros(KeyLen - 1);
    if b == k'[0] {
      assert k[1..] == Zeros(KeyLen - 1);
      ZerosLeast(Zeros(KeyLen - 1), k'[1..]);
    }
  }

  lemma {:induction false} ZerosLeast(z: seq<byte>, s: seq<byte>)
    requires |z| == |s|
    requires forall j :: 0 <= j < |z| ==> z[j] == 0
    ensures Compare(z, s) <= 0
  {
    if |z| > 0 && s[0] == 0 {
      ZerosLeast(z[1..], s[1..]);
    }
  }
}
