/** The shuffle sender: every input record either stays on this node or is
    written as a data frame to the node that owns it, and every outbound
    connection is then closed off with an end-of-stream frame. */
module Router {
  import opened Base
  import opened Codec
  import opened Partition

  /** The records of `input` that node `i` owns, in input order. */
  function OwnedBy(input: seq<Record>, nMSB: nat, i: nat): (r: seq<Record>)
    requires nMSB <= MaxMSB
    ensures |r| <= |input|
    decreases |input|
  {
    if |input| == 0 then []
    else
      var last := input[|input| - 1];
      OwnedBy(input[..|input| - 1], nMSB, i) + (if Owner(last.key, nMSB) == i then [last] else [])
  }

  /** A record is picked for node `i` exactly when it is in the input and
      node `i` owns it. */
  lemma {:induction false} OwnedByMembers(input: seq<Record>, nMSB: nat, i: nat)
    requires nMSB <= MaxMSB
    ensures forall x :: x in OwnedBy(input, nMSB, i) <==> x in input && Owner(x.key, nMSB) == i
    decreases |input|
  {
    if |input| > 0 {
      var init, last := input[..|input| - 1], input[|input| - 1];
      OwnedByMembers(init, nMSB, i);
      assert input == init + [last];
    }
  }

  lemma OwnedBySnoc(input: seq<Record>, x: Record, nMSB: nat, i: nat)
    requires nMSB <= MaxMSB
    ensures OwnedBy(input + [x], nMSB, i)
         == OwnedBy(input, nMSB, i) + (if Owner(x.key, nMSB) == i then [x] else [])
  {
    assert (input + [x])[..|input + [x]| - 1] == input;
  }

  /** Owning records are picked out batch by batch. */
  lemma {:induction false} OwnedByAppend(a: seq<Record>, b: seq<Record>, nMSB: nat, i: nat)
    requires nMSB <= MaxMSB
    ensures OwnedBy(a + b, nMSB, i) == OwnedBy(a, nMSB, i) + OwnedBy(b, nMSB, i)
    decreases |b|
  {
    if |b| == 0 {
      assert a + b == a;
    } else {
      var last := b[|b| - 1];
      assert (a + b)[..|a + b| - 1] == a + b[..|b| - 1];
      OwnedByAppend(a, b[..|b| - 1], nMSB, i);
    }
  }

  /** The multiset of records owned by nodes `0 .. m - 1`. */
  function OwnedBelow(input: seq<Record>, nMSB: nat, m: nat): multiset<Record>
    requires nMSB <= MaxMSB
  {
    if m == 0 then multiset{} else OwnedBelow(input, nMSB, m - 1) + multiset(OwnedBy(input, nMSB, m - 1))
  }

  /** Node `i` receives every copy of every record it owns and nothing
      else. */
  lemma {:induction false} OwnedByCount(input: seq<Record>, nMSB: nat, i: nat, x: Record)
    requires nMSB <= MaxMSB
    ensures Owner(x.key, nMSB) == i ==> multiset(OwnedBy(input, nMSB, i))[x] == multiset(input)[x]
    ensures Owner(x.key, nMSB) != i ==> multiset(OwnedBy(input, nMSB, i))[x] == 0
    decreases |input|
  {
    if |input| > 0 {
      var init, last := input[..|input| - 1], input[|input| - 1];
      assert input == init + [last];
      OwnedByCount(init, nMSB, i, x);
    }
  }

  /** Nodes `0 .. m - 1` together receive every copy of every record one of
      them owns. */
  lemma {:induction false} OwnedBelowCount(input: seq<Record>, nMSB: nat, m: nat, x: Record)
    requires nMSB <= MaxMSB
    ensures Owner(x.key, nMSB) < m ==> OwnedBelow(input, nMSB, m)[x] == multiset(input)[x]
    ensures Owner(x.key, nMSB) >= m ==> OwnedBelow(input, nMSB, m)[x] == 0
    decreases m
  {
    if m > 0 {
      var before, mine := OwnedBelow(input, nMSB, m - 1), multiset(OwnedBy(input, nMSB, m - 1));
      assert OwnedBelow(input, nMSB, m) == before + mine;
      assert OwnedBelow(input, nMSB, m)[x] == before[x] + mine[x];
      OwnedBelowCount(input, nMSB, m - 1, x);
      OwnedByCount(input, nMSB, m - 1, x);
    }
  }

  /** Every record goes to exactly one node: the records the `2^nMSB`
      nodes own, counted together, are the input, nothing dropped and
      nothing duplicated. */
  lemma OwnedPartition(input: seq<Record>, nMSB: nat)
    requires nMSB <= MaxMSB
    ensures OwnedBelow(input, nMSB, Pow2(nMSB)) == multiset(input)
  {
    forall x
      ensures OwnedBelow(input, nMSB, Pow2(nMSB))[x] == multiset(input)[x]
    {
      OwnedBelowCount(input, nMSB, Pow2(nMSB), x);
      OwnerBound(x.key, nMSB);
    }
  }

  /** The dialling loop of `main` (src/netsort.go:189-199): a connection
      to every other node, opened before any record is routed; `conns[i]`
      holds the bytes written to node `i`. */
  method OpenConnections(nServers: nat, self: nat) returns (conns: map<nat, seq<byte>>)
    ensures forall i: nat :: i in conns <==> i < nServers && i != self
    ensures forall i :: i in conns ==> conns[i] == []
  {
    conns := map[];
    var i := 0;
    while i < nServers
      invariant i <= nServers
      invariant forall j: nat :: j in conns <==> j < i && j != self
      invariant forall j :: j in conns ==> conns[j] == []
    {
      if i != self {
        conns := conns[i := []];
      }
      i := i + 1;
    }
  }

  /** Every open connection has carried one data frame per record of
      `sent` that its node owns, in order. */
  ghost predicate Carries(conns: map<nat, seq<byte>>, sent: seq<Record>, nMSB: nat)
    requires nMSB <= MaxMSB
  {
    forall i :: i in conns ==> conns[i] == EncodeRecords(OwnedBy(sent, nMSB, i))
  }

  /** Routing one more record to a peer keeps every connection in step. */
  lemma ForwardStep(conns: map<nat, seq<byte>>, sent: seq<Record>, r: Record, nMSB: nat)
    requires nMSB <= MaxMSB
    requires Carries(conns, sent, nMSB)
    requires Owner(r.key, nMSB) in conns
    ensures var o := Owner(r.key, nMSB);
      Carries(conns[o := conns[o] + Encode(DataFrame(r))], sent + [r], nMSB)
  {
    var o := Owner(r.key, nMSB);
    var conns' := conns[o := conns[o] + Encode(DataFrame(r))];
    forall i | i in conns'
      ensures conns'[i] == EncodeRecords(OwnedBy(sent + [r], nMSB, i))
    {
      OwnedBySnoc(sent, r, nMSB, i);
      if i == o {
        EncodeRecordsAppend(OwnedBy(sent, nMSB, o), [r]);
        assert EncodeRecords([r]) == Encode(DataFrame(r));
      } else {
        assert OwnedBy(sent + [r], nMSB, i) == OwnedBy(sent, nMSB, i);
      }
    }
  }

  /** Keeping a record local leaves every connection in step. */
  lemma KeepStep(conns: map<nat, seq<byte>>, sent: seq<Record>, r: Record, nMSB: nat)
    requires nMSB <= MaxMSB
    requires Carries(conns, sent, nMSB)
    requires Owner(r.key, nMSB) !in conns
    ensures Carries(conns, sent + [r], nMSB)
  {
    forall i | i in conns
      ensures conns[i] == EncodeRecords(OwnedBy(sent + [r], nMSB, i))
    {
      OwnedBySnoc(sent, r, nMSB, i);
      assert OwnedBy(sent + [r], nMSB, i) == OwnedBy(sent, nMSB, i);
    }
  }

  /** The routing loop of node `self` and the end-of-stream loop after it.
      Records this node owns stay in `local`, in input order; node `i`'s
      connection carries one data frame per record it owns, in input order,
      then one end-of-stream frame, also when it carries no data. */
  method Route(input: seq<Record>, nMSB: nat, self: nat)
    returns (local: seq<Record>, outbound: map<nat, seq<byte>>)
    requires nMSB <= MaxMSB && self < Pow2(nMSB)
    ensures local == OwnedBy(input, nMSB, self)
    ensures forall i: nat :: i in outbound <==> i < Pow2(nMSB) && i != self
    ensures forall i :: i in outbound ==>
              outbound[i] == EncodeRecords(OwnedBy(input, nMSB, i)) + Encode(EndOfStream)
  {
    var conns := OpenConnections(Pow2(nMSB), self);
    local := [];
    var k := 0;
    while k < |input|
      invariant k <= |input|
      invariant local == OwnedBy(input[..k], nMSB, self)
      invariant forall i: nat :: i in conns <==> i < Pow2(nMSB) && i != self
      invariant Carries(conns, input[..k], nMSB)
    {
      var r := input[k];
      var owner := Owner(r.key, nMSB);
      assert input[..k + 1] == input[..k] + [r];
      OwnedBySnoc(input[..k], r, nMSB, self);
      if owner == self {
        KeepStep(conns, input[..k], r, nMSB);
        local := local + [r];
      } else {
        // the lazy dial of src/netsort.go:231-238 never fires: the owner is a peer
        // and every peer was dialled above
        OwnerBound(r.key, nMSB);
        assert owner in conns;
        ForwardStep(conns, input[..k], r, nMSB);
        conns := conns[owner := conns[owner] + Encode(DataFrame(r))];
      }
      k := k + 1;
    }
    assert input[..k] == input;
    outbound := map i | i in conns :: conns[i] + Encode(EndOfStream);
  }
}
