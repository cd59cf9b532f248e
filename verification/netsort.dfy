/** One run of the program on every node, from input files to output
    files: each node reads its shard, the cluster shuffles and sorts, and
    each node writes its output file. */
module NetSort {
  import opened Base
  import opened Codec
  import opened Partition
  import opened Sorting
  import opened Shard
  import opened Cluster

  /** The records a well-formed shard file holds; nothing for any other. */
  function Contents(b: seq<byte>): seq<Record>
  {
    match ParseShard(b)
    case Success(rs) => rs
    case Failure(_) => []
  }

  /** The records of every file, file by file. */
  function Parsed(files: seq<seq<byte>>): (g: seq<seq<Record>>)
    ensures |g| == |files|
    ensures forall j :: 0 <= j < |files| ==> g[j] == Contents(files[j])
  {
    seq(|files|, j requires 0 <= j < |files| => Contents(files[j]))
  }

  /** A shard file is a whole number of records. */
  predicate WellFormed(b: seq<byte>)
  {
    |b| % RecordLen == 0
  }

  /** Every node reads its input file: the input loop of `main`
      (src/netsort.go:205-224), with a shard that is not a whole number of
      records rejected. */
  method ReadInputs(shards: seq<seq<byte>>) returns (r: Result<seq<seq<Record>>>)
    ensures r.Success? <==> forall j :: 0 <= j < |shards| ==> WellFormed(shards[j])
    ensures r.Failure? ==> r.fault == MalformedShard
    ensures r.Success? ==> r.value == Parsed(shards)
  {
    var inputs: seq<seq<Record>> := [];
    var j := 0;
    while j < |shards|
      invariant j <= |shards| && |inputs| == j
      invariant forall q :: 0 <= q < j ==> WellFormed(shards[q]) && inputs[q] == Contents(shards[q])
    {
      var parsed := ParseShard(shards[j]);
      if parsed.Failure? {
        return Failure(parsed.fault);
      }
      inputs := inputs + [parsed.value];
      j := j + 1;
    }
    return Success(inputs);
  }

  /** Every node writes its sorted records to its output file: the output
      loop of `main` (src/netsort.go:301-308). */
  function WriteOutputs(outputs: seq<seq<Record>>): (files: seq<seq<byte>>)
    ensures |files| == |outputs|
    ensures forall i :: 0 <= i < |outputs| ==> |files[i]| == RecordLen * |outputs[i]|
  {
    seq(|outputs|, i requires 0 <= i < |outputs| => Serialize(outputs[i]))
  }

  /** Every output file is well-formed, and reading the output files back
      gives the records that were written. */
  lemma ReadBackOutputs(outputs: seq<seq<Record>>)
    ensures forall i :: 0 <= i < |outputs| ==> WellFormed(WriteOutputs(outputs)[i])
    ensures Parsed(WriteOutputs(outputs)) == outputs
  {
    var files := WriteOutputs(outputs);
    forall i | 0 <= i < |outputs|
      ensures ParseShard(files[i]) == Success(outputs[i])
    {
      ParseSerialize(outputs[i]);
    }
  }

  /** The distributed sort over `2^nMSB` nodes, from shard files to output
      files. It fails exactly when some shard is not a whole number of
      records. Otherwise every output file is well-formed, sorted, and holds
      only keys its node owns, and the output files together hold exactly
      the records of the input files, in one sorted sequence when read in
      node order. */
  method Run(shards: seq<seq<byte>>, nMSB: nat, acceptOrder: seq<seq<nat>>,
             grant: (nat, nat, nat, nat) -> nat)
    returns (r: Result<seq<seq<byte>>>)
    requires nMSB <= MaxMSB && |shards| == Pow2(nMSB) && |acceptOrder| == |shards|
    requires forall i :: 0 <= i < |shards| ==> IsAcceptOrder(acceptOrder[i], |shards|, i)
    ensures r.Success? <==> forall j :: 0 <= j < |shards| ==> WellFormed(shards[j])
    ensures r.Failure? ==> r.fault == MalformedShard
    ensures r.Success? ==> |r.value| == |shards|
    ensures r.Success? ==> forall i :: 0 <= i < |shards| ==> WellFormed(r.value[i])
    ensures r.Success? ==> forall i :: 0 <= i < |shards| ==> Sorted(Contents(r.value[i]))
    ensures r.Success? ==> forall i, x :: 0 <= i < |shards| && x in Contents(r.value[i]) ==> Owner(x.key, nMSB) == i
    ensures r.Success? ==> multiset(Flatten(Parsed(r.value))) == multiset(Flatten(Parsed(shards)))
    ensures r.Success? ==> Sorted(Flatten(Parsed(r.value)))
  {
    var read := ReadInputs(shards);
    if read.Failure? {
      return Failure(read.fault);
    }
    var outputs := Shuffle(read.value, nMSB, acceptOrder, grant);
    var files := WriteOutputs(outputs);
    ReadBackOutputs(outputs);
    assert Parsed(files) == outputs;
    return Success(files);
  }
}
