/** The whole shuffle-sort: every node routes its input, every receiver
    decodes what its peer sent, and every node sorts what it collected. */
module Cluster {
  import opened Base
  import opened Codec
  import opened Partition
  import opened Receiver
  import opened Router
  import opened Sorting

  /** The node ids `0 .. n - 1`. */
  function Nodes(n: nat): (s: seq<nat>)
    ensures |s| == n
    ensures forall k :: 0 <= k < n ==> s[k] == k
  {
    seq(n, k => k)
  }

  lemma {:induction false} NodesCount(n: nat, x: nat)
    ensures multiset(Nodes(n))[x] == if x < n then 1 else 0
  {
    if n > 0 {
      NodesCount(n - 1, x);
      assert Nodes(n) == Nodes(n - 1) + [n - 1];
    }
  }

  /** `order` lists every node but `self` exactly once: the order in which
      node `self` accepted its inbound connections, and so the order in
      which it drains their queues. */
  ghost predicate IsAcceptOrder(order: seq<nat>, n: nat, self: nat)
  {
    multiset([self] + order) == multiset(Nodes(n))
  }

  lemma AcceptOrderNamesPeers(order: seq<nat>, n: nat, self: nat)
    requires IsAcceptOrder(order, n, self)
    ensures self < n
    ensures forall k :: 0 <= k < |order| ==> order[k] < n && order[k] != self
  {
    NodesCount(n, self);
    forall k | 0 <= k < |order|
      ensures order[k] < n && order[k] != self
    {
      NodesCount(n, order[k]);
      assert ([self] + order)[k + 1] == order[k];
    }
  }

  /** Queues drained one after the other. */
  function Flatten<T>(qs: seq<seq<T>>): seq<T>
  {
    if |qs| == 0 then [] else Flatten(qs[..|qs| - 1]) + qs[|qs| - 1]
  }

  /** The queue `g[q]`, or nothing when there is no node `q`. */
  function Queue<T>(g: seq<seq<T>>, q: nat): seq<T>
  {
    if q < |g| then g[q] else []
  }

  /** The queues `g[idx[0]]`, `g[idx[1]]`, ... drained one after the other. */
  function Gather<T>(g: seq<seq<T>>, idx: seq<nat>): seq<T>
  {
    if |idx| == 0 then [] else Gather(g, idx[..|idx| - 1]) + Queue(g, idx[|idx| - 1])
  }

  lemma {:induction false} GatherAppend<T>(g: seq<seq<T>>, a: seq<nat>, b: seq<nat>)
    ensures Gather(g, a + b) == Gather(g, a) + Gather(g, b)
    decreases |b|
  {
    if |b| == 0 {
      assert a + b == a;
    } else {
      var b', x := b[..|b| - 1], b[|b| - 1];
      assert (a + b)[..|a + b| - 1] == a + b' && (a + b)[|a + b| - 1] == x;
      assert Gather(g, a + b) == Gather(g, a + b') + Queue(g, x);
      GatherAppend(g, a, b');
      assert Gather(g, b) == Gather(g, b') + Queue(g, x);
    }
  }

  /** Taking one queue out of the draining order takes its records out of
      what is collected. */
  lemma GatherRemove<T>(g: seq<seq<T>>, b: seq<nat>, k: nat)
    requires k < |b|
    ensures multiset(Gather(g, b)) == multiset(Gather(g, b[..k] + b[k + 1..])) + multiset(Queue(g, b[k]))
  {
    var b1, x, b2 := b[..k], b[k], b[k + 1..];
    var front, q, back := Gather(g, b1), Queue(g, x), Gather(g, b2);
    assert Gather(g, b) == front + q + back by {
      assert b == (b1 + [x]) + b2;
      GatherAppend(g, b1 + [x], b2);
      GatherAppend(g, b1, [x]);
      assert [x][..0] == [];
    }
    GatherAppend(g, b1, b2);
    assert multiset(front + q + back) == multiset(front + back) + multiset(q);
  }

  /** An occurrence of `x` in `b`, and what `b` holds without it. */
  lemma PickFrom(b: seq<nat>, x: nat) returns (k: nat)
    requires x in multiset(b)
    ensures k < |b| && b[k] == x
    ensures multiset(b[..k] + b[k + 1..]) == multiset(b) - multiset{x}
  {
    k :| 0 <= k < |b| && b[k] == x;
    assert b == b[..k] + [x] + b[k + 1..];
  }

  /** Draining the same queues in another order collects the same records. */
  lemma {:induction false} GatherPermutation<T>(g: seq<seq<T>>, a: seq<nat>, b: seq<nat>)
    requires multiset(a) == multiset(b)
    ensures multiset(Gather(g, a)) == multiset(Gather(g, b))
    decreases |a|
  {
    if |a| == 0 {
      assert |b| == |multiset(b)| == 0;
    } else {
      var x, a' := a[|a| - 1], a[..|a| - 1];
      assert multiset(a') == multiset(a) - multiset{x} by {
        assert a == a' + [x];
      }
      var k := PickFrom(b, x);
      GatherPermutation(g, a', b[..k] + b[k + 1..]);
      GatherRemove(g, b, k);
      assert Gather(g, a) == Gather(g, a') + Queue(g, x);
    }
  }

  lemma {:induction false} GatherAll<T>(g: seq<seq<T>>, n: nat)
    requires n <= |g|
    ensures Gather(g, Nodes(n)) == Flatten(g[..n])
  {
    if n > 0 {
      assert Nodes(n)[..n - 1] == Nodes(n - 1);
      assert g[..n][..n - 1] == g[..n - 1];
      GatherAll(g, n - 1);
    }
  }

  /** What each input contributes to node `i`. */
  function Contributions(inputs: seq<seq<Record>>, nMSB: nat, i: nat): (g: seq<seq<Record>>)
    requires nMSB <= MaxMSB
    ensures |g| == |inputs|
    ensures forall j :: 0 <= j < |inputs| ==> g[j] == OwnedBy(inputs[j], nMSB, i)
  {
    seq(|inputs|, j requires 0 <= j < |inputs| => OwnedBy(inputs[j], nMSB, i))
  }

  /** Picking node `i`'s records shard by shard picks them from all the
      shards together. */
  lemma {:induction false} ContributionsAll(inputs: seq<seq<Record>>, nMSB: nat, i: nat)
    requires nMSB <= MaxMSB
    ensures Flatten(Contributions(inputs, nMSB, i)) == OwnedBy(Flatten(inputs), nMSB, i)
    decreases |inputs|
  {
    if |inputs| > 0 {
      var m := |inputs|;
      ContributionsAll(inputs[..m - 1], nMSB, i);
      assert Contributions(inputs, nMSB, i)[..m - 1] == Contributions(inputs[..m - 1], nMSB, i);
      OwnedByAppend(Flatten(inputs[..m - 1]), inputs[m - 1], nMSB, i);
    }
  }

  lemma DrainStep<T>(g: seq<seq<T>>, self: nat, order: seq<nat>, p: nat)
    requires p < |order|
    ensures Gather(g, [self] + order[..p + 1]) == Gather(g, [self] + order[..p]) + Queue(g, order[p])
  {
    assert ([self] + order[..p + 1])[..p + 1] == [self] + order[..p];
  }

  /** Node `self` drains, besides its own records, every other node's
      contribution exactly once, so it holds what it owns of all shards. */
  lemma DrainedAll(inputs: seq<seq<Record>>, nMSB: nat, self: nat, order: seq<nat>)
    requires nMSB <= MaxMSB
    requires IsAcceptOrder(order, |inputs|, self)
    ensures self < |inputs| && forall k :: 0 <= k < |order| ==> order[k] < |inputs|
    ensures multiset(Gather(Contributions(inputs, nMSB, self), [self] + order))
         == multiset(OwnedBy(Flatten(inputs), nMSB, self))
  {
    AcceptOrderNamesPeers(order, |inputs|, self);
    var g := Contributions(inputs, nMSB, self);
    GatherPermutation(g, [self] + order, Nodes(|inputs|));
    GatherAll(g, |inputs|);
    assert g[..|inputs|] == g;
    ContributionsAll(inputs, nMSB, self);
  }

  /** A sorted permutation of what a node owns holds only what it owns. */
  lemma OnlyOwned(output: seq<Record>, owned: seq<Record>, nMSB: nat, self: nat)
    requires nMSB <= MaxMSB
    requires forall x :: x in owned ==> Owner(x.key, nMSB) == self
    requires multiset(output) == multiset(owned)
    ensures forall x :: x in output ==> Owner(x.key, nMSB) == self
  {
    forall x | x in output
      ensures Owner(x.key, nMSB) == self
    {
      assert x in multiset(output);
    }
  }

  /** Node `self` receives peer `peer`'s stream, which is made of the
      records of the peer's shard that `self` owns. */
  method ReceiveFrom(inputs: seq<seq<Record>>, nMSB: nat, self: nat, outs: seq<map<nat, seq<byte>>>,
                     peer: nat, grant: (nat, nat) -> nat)
    returns (rs: seq<Record>)
    requires nMSB <= MaxMSB && peer < |inputs| && peer < |outs|
    requires self in outs[peer]
    requires outs[peer][self] == EncodeRecords(OwnedBy(inputs[peer], nMSB, self)) + Encode(EndOfStream)
    ensures rs == OwnedBy(inputs[peer], nMSB, self)
  {
    var q := ReceiveData(outs[peer][self], grant);
    ReceiveEncoded(OwnedBy(inputs[peer], nMSB, self), []);
    assert outs[peer][self] + [] == outs[peer][self];
    rs := q.value.records;
  }

  /** The drain loop of `main` (src/netsort.go:274-278): node `self`'s own
      records, then each peer's, in accept order. */
  method DrainPeers(inputs: seq<seq<Record>>, nMSB: nat, self: nat, local: seq<Record>,
                    outs: seq<map<nat, seq<byte>>>, order: seq<nat>, grant: (nat, nat, nat) -> nat)
    returns (records: seq<Record>)
    requires nMSB <= MaxMSB && |inputs| == Pow2(nMSB) && |outs| == |inputs|
    requires IsAcceptOrder(order, |inputs|, self)
    requires self < |inputs| && local == OwnedBy(inputs[self], nMSB, self)
    requires forall j :: 0 <= j < |outs| && j != self ==>
               self in outs[j] && outs[j][self] == EncodeRecords(OwnedBy(inputs[j], nMSB, self)) + Encode(EndOfStream)
    ensures records == Gather(Contributions(inputs, nMSB, self), [self] + order)
  {
    AcceptOrderNamesPeers(order, |inputs|, self);
    var g := Contributions(inputs, nMSB, self);
    records := local;
    assert records == Gather(g, [self]) by {
      assert [self][..0] == [];
    }
    var p := 0;
    while p < |order|
      invariant p <= |order|
      invariant records == Gather(g, [self] + order[..p])
    {
      var peer := order[p];
      assert peer < |inputs| && peer != self;
      var rs := ReceiveFrom(inputs, nMSB, self, outs, peer, (f, k) => grant(peer, f, k));
      assert Queue(g, peer) == rs;
      DrainStep(g, self, order, p);
      records := records + rs;
      p := p + 1;
    }
    assert order[..p] == order;
  }

  /** Node `self` after every peer's end-of-stream frame has arrived: it
      receives each peer's stream, in accept order, joins the records to the
      ones it kept, and sorts. Its output is sorted, and holds exactly the
      records of all the shards that it owns. */
  method CollectNode(inputs: seq<seq<Record>>, nMSB: nat, self: nat, local: seq<Record>,
                     outs: seq<map<nat, seq<byte>>>, order: seq<nat>, grant: (nat, nat, nat) -> nat)
    returns (output: seq<Record>)
    requires nMSB <= MaxMSB && |inputs| == Pow2(nMSB) && |outs| == |inputs|
    requires IsAcceptOrder(order, |inputs|, self)
    requires self < |inputs| && local == OwnedBy(inputs[self], nMSB, self)
    requires forall j :: 0 <= j < |outs| && j != self ==>
               self in outs[j] && outs[j][self] == EncodeRecords(OwnedBy(inputs[j], nMSB, self)) + Encode(EndOfStream)
    ensures Sorted(output)
    ensures multiset(output) == multiset(OwnedBy(Flatten(inputs), nMSB, self))
    ensures forall x :: x in output ==> Owner(x.key, nMSB) == self
  {
    var records := DrainPeers(inputs, nMSB, self, local, outs, order, grant);
    DrainedAll(inputs, nMSB, self, order);
    output := SortByKey(records);
    OwnedByMembers(Flatten(inputs), nMSB, self);
    OnlyOwned(output, OwnedBy(Flatten(inputs), nMSB, self), nMSB, self);
  }

  /** The outputs, drained in node order, hold what nodes `0 .. m - 1` own. */
  lemma {:induction false} OutputsCover(outputs: seq<seq<Record>>, all: seq<Record>, nMSB: nat, m: nat)
    requires nMSB <= MaxMSB && m <= |outputs|
    requires forall i :: 0 <= i < m ==> multiset(outputs[i]) == multiset(OwnedBy(all, nMSB, i))
    ensures multiset(Flatten(outputs[..m])) == OwnedBelow(all, nMSB, m)
  {
    if m > 0 {
      assert outputs[..m][..m - 1] == outputs[..m - 1];
      OutputsCover(outputs, all, nMSB, m - 1);
    }
  }

  /** Node outputs concatenated in node order are sorted: each is sorted,
      and every key of a lower node is below every key of a higher one. */
  lemma {:induction false} OutputsSorted(outputs: seq<seq<Record>>, nMSB: nat, m: nat)
    requires nMSB <= MaxMSB && m <= |outputs|
    requires forall i :: 0 <= i < m ==> Sorted(outputs[i])
    requires forall i, x :: 0 <= i < m && x in outputs[i] ==> Owner(x.key, nMSB) == i
    ensures Sorted(Flatten(outputs[..m]))
    ensures forall x :: x in Flatten(outputs[..m]) ==> Owner(x.key, nMSB) < m
  {
    if m > 0 {
      var front := Flatten(outputs[..m - 1]);
      assert outputs[..m][..m - 1] == outputs[..m - 1];
      assert Flatten(outputs[..m]) == front + outputs[m - 1];
      OutputsSorted(outputs, nMSB, m - 1);
      forall x, y | x in front && y in outputs[m - 1]
        ensures KeyLe(x.key, y.key)
      {
        KeyOrderIsNumeric(x.key, y.key);
        KeyOrderIsNumeric(y.key, x.key);
        if !KeyLe(x.key, y.key) {
          OwnerMonotone(y.key, x.key, nMSB);
        }
      }
      SortedConcat(front, outputs[m - 1]);
    }
  }

  /** Node `q`'s output is sorted and holds exactly the records of `all`
      that it owns. */
  ghost predicate NodeDone(output: seq<Record>, all: seq<Record>, nMSB: nat, q: nat)
    requires nMSB <= MaxMSB
  {
    && Sorted(output)
    && (forall x :: x in output ==> Owner(x.key, nMSB) == q)
    && multiset(output) == multiset(OwnedBy(all, nMSB, q))
  }

  /** Node `q` kept the records of `input` it owns and wrote the rest to
      its `n - 1` peers, each stream closed by an end-of-stream frame. */
  ghost predicate RoutedAs(local: seq<Record>, out: map<nat, seq<byte>>, input: seq<Record>,
                           nMSB: nat, q: nat, n: nat)
    requires nMSB <= MaxMSB
  {
    && local == OwnedBy(input, nMSB, q)
    && forall i :: 0 <= i < n && i != q ==>
         i in out && out[i] == EncodeRecords(OwnedBy(input, nMSB, i)) + Encode(EndOfStream)
  }

  /** Every node runs its routing loop. */
  method RouteAll(inputs: seq<seq<Record>>, nMSB: nat)
    returns (locals: seq<seq<Record>>, outs: seq<map<nat, seq<byte>>>)
    requires nMSB <= MaxMSB && |inputs| == Pow2(nMSB)
    ensures |locals| == |inputs| && |outs| == |inputs|
    ensures forall q :: 0 <= q < |inputs| ==> RoutedAs(locals[q], outs[q], inputs[q], nMSB, q, |inputs|)
  {
    var n := |inputs|;
    locals, outs := [], [];
    var j := 0;
    while j < n
      invariant j <= n && |locals| == j && |outs| == j
      invariant forall q :: 0 <= q < j ==> RoutedAs(locals[q], outs[q], inputs[q], nMSB, q, n)
    {
      var local, out := Route(inputs[j], nMSB, j);
      assert RoutedAs(local, out, inputs[j], nMSB, j, n);
      locals := locals + [local];
      outs := outs + [out];
      j := j + 1;
    }
  }

  /** Node `i` drains the streams its peers routed to it. */
  method RunNode(inputs: seq<seq<Record>>, nMSB: nat, i: nat, locals: seq<seq<Record>>,
                 outs: seq<map<nat, seq<byte>>>, order: seq<nat>, grant: (nat, nat, nat) -> nat)
    returns (output: seq<Record>)
    requires nMSB <= MaxMSB && |inputs| == Pow2(nMSB) && i < |inputs|
    requires |locals| == |inputs| && |outs| == |inputs|
    requires forall q :: 0 <= q < |inputs| ==> RoutedAs(locals[q], outs[q], inputs[q], nMSB, q, |inputs|)
    requires IsAcceptOrder(order, |inputs|, i)
    ensures NodeDone(output, Flatten(inputs), nMSB, i)
  {
    var n := |inputs|;
    assert RoutedAs(locals[i], outs[i], inputs[i], nMSB, i, n);
    forall j | 0 <= j < n && j != i
      ensures i in outs[j] && outs[j][i] == EncodeRecords(OwnedBy(inputs[j], nMSB, i)) + Encode(EndOfStream)
    {
      assert RoutedAs(locals[j], outs[j], inputs[j], nMSB, j, n);
    }
    output := CollectNode(inputs, nMSB, i, locals[i], outs, order, grant);
  }

  /** The cluster-wide facts that follow once every node is done. */
  lemma ClusterDone(outputs: seq<seq<Record>>, inputs: seq<seq<Record>>, nMSB: nat)
    requires nMSB <= MaxMSB && |outputs| == Pow2(nMSB)
    requires forall q :: 0 <= q < |outputs| ==> NodeDone(outputs[q], Flatten(inputs), nMSB, q)
    ensures forall i :: 0 <= i < |outputs| ==> Sorted(outputs[i])
    ensures forall i, x :: 0 <= i < |outputs| && x in outputs[i] ==> Owner(x.key, nMSB) == i
    ensures forall i :: 0 <= i < |outputs| ==>
              multiset(outputs[i]) == multiset(OwnedBy(Flatten(inputs), nMSB, i))
    ensures multiset(Flatten(outputs)) == multiset(Flatten(inputs))
    ensures Sorted(Flatten(outputs))
  {
    var n := |outputs|;
    assert outputs[..n] == outputs;
    OutputsCover(outputs, Flatten(inputs), nMSB, n);
    OwnedPartition(Flatten(inputs), nMSB);
    OutputsSorted(outputs, nMSB, n);
  }

  /** The distributed sort over `2^nMSB` nodes. Node `j` routes
      `inputs[j]`; node `i` drains its peers in `acceptOrder[i]`; the
      network splits the stream from `j` to `i` as `grant(i, j, ...)` says.
      Each output is sorted and holds exactly the records its node owns;
      together the outputs are the inputs, and read in node order they are
      one sorted sequence. */
  method Shuffle(inputs: seq<seq<Record>>, nMSB: nat, acceptOrder: seq<seq<nat>>,
                 grant: (nat, nat, nat, nat) -> nat)
    returns (outputs: seq<seq<Record>>)
    requires nMSB <= MaxMSB && |inputs| == Pow2(nMSB) && |acceptOrder| == |inputs|
    requires forall i :: 0 <= i < |inputs| ==> IsAcceptOrder(acceptOrder[i], |inputs|, i)
    ensures |outputs| == |inputs|
    ensures forall i :: 0 <= i < |outputs| ==> Sorted(outputs[i])
    ensures forall i, x :: 0 <= i < |outputs| && x in outputs[i] ==> Owner(x.key, nMSB) == i
    ensures forall i :: 0 <= i < |outputs| ==>
              multiset(outputs[i]) == multiset(OwnedBy(Flatten(inputs), nMSB, i))
    ensures multiset(Flatten(outputs)) == multiset(Flatten(inputs))
    ensures Sorted(Flatten(outputs))
  {
    var n := |inputs|;
    var locals, outs := RouteAll(inputs, nMSB);
    outputs := [];
    var i := 0;
    while i < n
      invariant i <= n && |outputs| == i
      invariant forall q :: 0 <= q < i ==> NodeDone(outputs[q], Flatten(inputs), nMSB, q)
    {
      var output := RunNode(inputs, nMSB, i, locals, outs, acceptOrder[i],
                            (peer, f, k) => grant(i, peer, f, k));
      outputs := outputs + [output];
      i := i + 1;
    }
    ClusterDone(outputs, inputs, nMSB);
  }
}
