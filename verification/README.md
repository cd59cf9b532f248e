# netsort in Dafny

A model of `netsort`, a distributed sort written in Go. Every node of a
cluster of `2^nMSB` nodes holds a shard of 100-byte records: a 10-byte key,
then a 90-byte value. The top `nMSB` bits of a key's first byte name the
node that owns the record.

A node's run has four steps:

- It reads its shard.
- It keeps the records it owns. It forwards every other record to the
  owning peer as a 101-byte frame: control byte 0, then the record.
- It closes every outbound connection with an end-of-stream frame: control
  byte 1 and an all-zero record.
- It drains one receiver per inbound connection, sorts everything it
  collected by unsigned byte-wise key order, and writes the result as
  100-byte records.

The model is organised as the program is:

| module | file | what it holds |
|---|---|---|
| `Base` | `base.dfy` | bytes, powers of two, the fatal conditions, `Result` |
| `Codec` | `codec.dfy` | `Record`, `Frame`, the frame codec, `bytes.Compare` and its numeric meaning |
| `Partition` | `partition.dfy` | the partition function `int(firstByte) >> (8 - nMSB)` |
| `Reader` | `reader.dfy` | the exact-length read loop that assembles one 101-byte frame |
| `Receiver` | `receiver.dfy` | `receiveData`: frames to a queue of records, up to the first end-of-stream frame |
| `Router` | `router.dfy` | dialling every peer, the routing loop and the end-of-stream loop |
| `Sorting` | `sorting.dfy` | sorting by key |
| `Shard` | `shard.dfy` | the on-disk format: the output writer, the input reader as written and corrected |
| `Cluster` | `cluster.dfy` | all nodes: routing, draining in accept order, sorting |
| `NetSort` | `netsort.dfy` | one run, from input files to output files |

The network is modelled as follows:

- A connection is the sequence of bytes its sender wrote.
- How the network splits that stream into reads is a function parameter
  (`grant`). Each `conn.Read` delivers between one byte and the smaller of
  the request and what is left.
- A read that finds the stream exhausted reports `io.EOF`, which the
  program treats as fatal (`Fault.PeerClosed`).
- The order in which a node accepted its inbound connections, and so drains
  their queues, is also a parameter: any ordering of the other nodes.

## Model

| member | source | states |
|---|---|---|
| Codec.Encode | src/netsort.go:239-250 | a frame on the wire is 101 bytes: the control byte, then the 10-byte key and the 90-byte value |
| Codec.EndOfStreamBytes | src/netsort.go:255-271 | the end-of-stream frame written on every outbound connection is byte 1 followed by 100 zero bytes |
| Codec.EncodeRecord | src/netsort.go:303-306 | a record is written as 100 bytes: the 10-byte key, then the 90-byte value |
| Codec.EncodeRecords | src/netsort.go:239-250 | forwarding `n` records writes `101 * n` bytes; with `Codec.EncodeRecordsAppend` and `Receiver.SentStreamShape` it is one data frame per record, in order |
| Codec.Decode | src/netsort.go:130-135 | the receiver takes the control byte from byte 0, the key from bytes 1-10 and the value from bytes 11-100 |
| Codec.DecodeEncode | src/netsort.go:130-135 | decoding what a sender wrote gives back the frame that was sent |
| Codec.EncodeDecode | src/netsort.go:130-135 | every 101-byte block is the encoding of exactly one frame |
| Codec.EncodeRecordsAppend | src/netsort.go:239-250 | forwarding two batches writes their frames one after the other |
| Codec.Compare | src/netsort.go:287 | `bytes.Compare` answers -1, 0 or 1; `Codec.CompareZeroIffEqual` and `Codec.CompareIsNumeric` say which, in terms of equality and of unsigned big-endian value |
| Codec.CompareZeroIffEqual | src/netsort.go:287 | `bytes.Compare` is 0 exactly on equal strings |
| Codec.CompareIsNumeric | src/netsort.go:287 | on equal-length strings `bytes.Compare` orders them as unsigned big-endian numbers, both for less and for greater |
| Codec.KeyOrderIsNumeric | src/netsort.go:285-292 | the key order is the order of keys read as 80-bit unsigned numbers, and equal numbers mean equal keys |
| Partition.ShiftRight | src/netsort.go:226 | Go's `>>` on a non-negative int, as one halving per shifted bit; `Partition.ShiftRightIsDiv` proves it is division by `2^s` |
| Partition.ShiftRightShrinks | src/netsort.go:226 | a right shift never grows its operand, and a shift by at least one bit of a positive value shrinks it |
| Partition.ShiftRightIsDiv | src/netsort.go:226 | shifting the first byte right by `s` is division by `2^s` |
| Partition.Owner | src/netsort.go:225-226 | the owner is computed from the key's first byte alone; `Partition.OwnerBound`, `Partition.OwnerRange` and `Partition.OwnerMonotone` prove it is one of the `2^nMSB` nodes, that each node owns one contiguous block of first bytes, and that it never decreases along the key order |
| Partition.OwnerBound | src/netsort.go:225-226 | every key is owned by one of the `2^nMSB` nodes, and by node 0 in a one-node cluster |
| Partition.OwnerRange | src/netsort.go:225-226 | node `i` owns exactly the keys whose first byte lies in the `i`-th block of `256 / 2^nMSB` consecutive values |
| Partition.OwnerMonotone | src/netsort.go:225-226 | a smaller key never has a larger owner |
| Partition.LeastKeyOf | src/netsort.go:225-226 | every node owns some key, and the key built here is the least key it owns |
| Reader.Delivered | src/netsort.go:121-122 | a read delivers at least one byte, at most the free buffer space and at most what is left in the stream |
| Reader.ReadFrame | src/netsort.go:118-129 | the read loop succeeds exactly when 101 bytes remain, and then returns exactly the next 101 bytes in order; it never holds more than 101 bytes; otherwise it fails with the peer-closed fault |
| Receiver.Receive | src/netsort.go:110-142 | a receiver either fails with the peer-closed fault or queues some records and stops after one more frame |
| Receiver.ReceiveSound | src/netsort.go:126-140 | the queued records are, in order, the payloads of the frames before the first frame with control byte 1; that frame exists; nothing after it is read |
| Receiver.ReceiveComplete | src/netsort.go:126-140 | when the first frame with control byte 1 is frame `n`, the receiver succeeds and queues exactly `n` records |
| Receiver.ReceiveFails | src/netsort.go:122-123 | the receiver fails exactly when no complete frame of the stream has control byte 1 |
| Receiver.ReceiveEncoded | src/netsort.go:239-271 | what a sender writes on one connection, data frames then the end-of-stream frame, is received as exactly the records sent, and any later bytes are left unread |
| Receiver.SentStreamShape | src/netsort.go:255-271 | a sender's stream is one data frame per forwarded record, in order, then exactly one end-of-stream frame |
| Receiver.OtherControlIsData | src/netsort.go:130-136 | a frame whose control byte is neither 0 nor 1 is queued as data, not rejected |
| Receiver.ReceiveData | src/netsort.go:110-142 | the receive loop built from the exact-length read loop gives the outcome of `Receive`, however the network splits the stream |
| Router.OwnedBy | src/netsort.go:225-250 | node `i`'s share of an input is no longer than the input; `Router.OwnedByMembers`, `Router.OwnedByCount` and `Router.OwnedByAppend` show it is every copy of every input record `i` owns and nothing else, in input order |
| Router.OwnedByMembers | src/netsort.go:225-230 | a record is picked for node `i` exactly when it is in the input and `i` owns it |
| Router.OwnedByAppend | src/netsort.go:205-251 | picking node `i`'s records from two batches picks them batch by batch, in order |
| Router.OwnedByCount | src/netsort.go:225-250 | node `i` gets every copy of every input record it owns, and no copy of any other record |
| Router.OwnedBelowCount | src/netsort.go:225-250 | nodes `0 .. m - 1` together get every copy of every record one of them owns, and nothing else |
| Router.OwnedPartition | src/netsort.go:225-250 | every record goes to exactly one node: all nodes' shares together are the input, with nothing lost or duplicated |
| Router.OpenConnections | src/netsort.go:189-199 | a connection is opened to every node except itself, and nothing has been written to it yet |
| Router.ForwardStep | src/netsort.go:239-250 | forwarding a record appends one data frame to its owner's connection and leaves the others unchanged |
| Router.KeepStep | src/netsort.go:227-229 | keeping a record leaves every connection unchanged |
| Router.Route | src/netsort.go:186-271 | a node keeps exactly its own records in input order; every peer, even one that gets no records, receives its records as data frames in input order, then one end-of-stream frame; the lazy dial never fires |
| Sorting.Insert | src/netsort.go:285-292 | inserting into a sorted run keeps it sorted and adds exactly the new record |
| Sorting.SortByKey | src/netsort.go:285-292 | the result is sorted by unsigned byte-wise key order and is a permutation of the input |
| Sorting.SortedConcat | src/netsort.go:285-292 | two sorted runs, every key of the first at most every key of the second, make one sorted run |
| Shard.Serialize | src/netsort.go:301-308 | each record is written as 100 bytes, key then value |
| Shard.ParseShard | src/netsort.go:206-224 | a shard is read when its length is a multiple of 100 bytes and rejected as malformed otherwise |
| Shard.ParseSerialize | src/netsort.go:301-308 | reading back a written file gives the records that were written |
| Shard.SerializeParse | src/netsort.go:206-224 | writing back the records of a well-formed shard gives the shard |
| Shard.ReadShardAsWritten | src/netsort.go:206-224 | the program's input loop yields records covering every byte of the shard except a trailing fragment of at most 10 bytes, and pads fewer than 90 bytes that were never read |
| Shard.ReadShardAgrees | src/netsort.go:206-224 | on a shard that is a whole number of records, the program's input loop reads what `ParseShard` reads |
| Shard.PartialRecordIsPadded | src/netsort.go:206-224 | on a 150-byte shard the program's input loop produces two records and 200 bytes, where a whole-record reader rejects the file |
| Shard.PartialKeyIsDropped | src/netsort.go:206-224 | on a 105-byte shard the program's input loop silently drops the last five bytes, where a whole-record reader rejects the file |
| Cluster.AcceptOrderNamesPeers | src/netsort.go:91-106 | an accept order names every node except this one, each exactly once |
| Cluster.GatherPermutation | src/netsort.go:273-278 | draining the same queues in another order collects the same records |
| Cluster.GatherAll | src/netsort.go:273-278 | draining queues `0 .. n - 1` in order collects them one after the other |
| Cluster.ContributionsAll | src/netsort.go:225-230 | node `i`'s records taken shard by shard are its records taken from all shards together |
| Cluster.DrainedAll | src/netsort.go:273-278 | a node's own records plus every peer's queue, in any accept order, are exactly the records the node owns across all shards |
| Cluster.ReceiveFrom | src/netsort.go:110-142 | the queue of peer `j` at node `i` holds exactly the records of `j`'s shard that `i` owns, in `j`'s input order |
| Cluster.DrainPeers | src/netsort.go:273-278 | a node collects its own records, then each peer's queue, in accept order |
| Cluster.CollectNode | src/netsort.go:273-292 | a node's sorted output holds exactly the records of all shards that it owns |
| Cluster.OutputsCover | src/netsort.go:273-278 | the outputs of nodes `0 .. m - 1` together hold what those nodes own |
| Cluster.OutputsSorted | src/netsort.go:225-226 | the outputs read in node order form one sorted sequence, because the owner never decreases along the key order |
| Cluster.RouteAll | src/netsort.go:186-271 | every node routes its own shard |
| Cluster.RunNode | src/netsort.go:273-292 | a node that drains what its peers routed to it ends sorted and holding exactly its own records |
| Cluster.ClusterDone | src/netsort.go:273-308 | once every node is done, the outputs together are the inputs, with nothing lost or duplicated, and form one sorted sequence in node order |
| Cluster.Shuffle | src/netsort.go:180-292 | each output is sorted and holds exactly the records of all shards that its node owns; the outputs together are a permutation of the inputs and sorted in node order |
| NetSort.ReadInputs | src/netsort.go:205-224 | the inputs are read exactly when every shard is a whole number of records; otherwise the run fails as malformed |
| NetSort.WriteOutputs | src/netsort.go:301-308 | each output file is 100 bytes per record |
| NetSort.ReadBackOutputs | src/netsort.go:301-308 | every output file is well-formed, and reading it back gives the records written |
| NetSort.Run | src/netsort.go:180-308 | a run fails exactly when some shard is malformed; otherwise every output file is well-formed, sorted and holds only its node's keys, and the output files together hold exactly the input records, sorted in node order |

## Left out

- Sockets, listening and accepting (src/netsort.go:89-106, 171-175): a connection is its byte stream. Dial retry (src/netsort.go:75-87) is left out too: a dial always eventually succeeds. Its sleep is `time.Duration(250)`, which is 250 nanoseconds, not the 250 ms its comment says, so a failed dial is retried almost at once, logging each failure.
- Goroutines and channels: each receiver is modelled as a function of its whole stream, and its queue as the list of records it produced. Blocking on unbuffered channels is not modelled. While every node is still sending, its receivers cannot hand records to the main goroutine, so on large inputs TCP back-pressure could deadlock two nodes. The model says nothing about termination of the concurrent program.
- The `time.Sleep` calls (src/netsort.go:178, 202, 253): timing only.
- `nMSB := int(math.Log2(float64(nServers)))` (src/netsort.go:186): floating point. The model takes `nMSB` as given, with `2^nMSB` nodes and `nMSB <= 8`.
- YAML configuration, command-line arguments and the sort of the server list (src/netsort.go:44-56, 144-167): configuration only. Node ids are `0 .. 2^nMSB - 1`.
- Write errors and open/create errors on files and sockets: every `checkErrorWithExit` on a write or open is taken to succeed. Only `io.EOF` on a connection read and a malformed shard are modelled as faults.
- Sorting.SortByKey: an insertion sort with a strict less-than, not `sort.Slice`'s algorithm. The program's comparator answers "less" also for equal keys. That is not a strict order, and the model does not reproduce it. The contract is what the program needs: sorted and a permutation.
- Cluster.Shuffle: it assumes every node has accepted all `n - 1` inbound connections before it starts draining. The program's drain loop (src/netsort.go:274) reads `len(othersDataChannel)` while the accept goroutine may still be appending to it, and only the sleeps make the accepts finish first. That race is not modelled.
- The control byte: the sender writes only 0 (src/netsort.go:240) or 1 (src/netsort.go:258), and the receiver tests only `data[0] == 1` (src/netsort.go:130). A frame with any other control byte is treated as data, and the model does the same (`Receiver.OtherControlIsData`).
- The output file's name and handling (src/netsort.go:294-299, 310) are I/O.
- src/netsort1.go (entirely commented out) and src/test.go (an unrelated scratch file) are not part of this model.

## Findings

| source | as written | input that shows it | evidently intended | confidence | as-written member | corrected member |
|---|---|---|---|---|---|---|
| src/netsort.go:206-224 | the input loop stops only on `io.EOF`. A value cut short is kept, zero-padded to 90 bytes; a trailing fragment of at most 10 bytes is dropped | a 150-byte shard is routed as two records, 200 bytes in all; a 105-byte shard is routed as one record, and its last 5 bytes are lost | a shard whose length is not a multiple of 100 bytes is a fatal malformed-input error | not executed | Shard.ReadShardAsWritten, Shard.PartialRecordIsPadded, Shard.PartialKeyIsDropped | Shard.ParseShard |

`Shard.ReadShardAsWritten` is the loop as written. `Shard.PartialRecordIsPadded` and `Shard.PartialKeyIsDropped` prove the two discrepancies on concrete inputs. The corrected reader `Shard.ParseShard` is proved to round-trip with the writer (`Shard.ParseSerialize`, `Shard.SerializeParse`). It agrees with the program's loop on every well-formed shard (`Shard.ReadShardAgrees`). The whole-run model `NetSort.Run` reads its inputs with it.
