# Kademlia routing table (kbucket) in Dafny

This project models the routing table of a small Kademlia node, `kbucket/kbucket.go`. The
`Kbucket` object owns a map from partition index to bucket (`routes`), its own node (`Self`),
the bucket size `k` (8), the search fan-out `alpha` (3) and a key/value store. One worker
goroutine receives messages and dispatches each one to a private operation:

- `add` records a peer in the bucket of its partition.
- `remove` drops a peer from that bucket.
- `find` collects up to alpha peers near an identifier and sends them on the reply channel,
  or closes the channel without a value (see Findings).
- `findOne` looks up one exact identifier.
- `storeKV` writes one key.

Identifiers are bit strings, most significant bit first. The distance between two identifiers is
their XOR, and a distance's partition is the index of its highest set bit (-1 for zero).

Module layout:

- `Wrappers`: `Option`, `Result` and the error kinds.
- `NodeIds`: identifiers, `CalDistance`, `Partion` (here `Partition`) and the distance order.
- `KQue`: one bucket as a sequence, least recently seen first. It has `updateAdd`, `remove`,
  `findOne` and `findN`.
- `Partions`: the order in which a search widens across partitions.
- `Storage`: the key/value store as a map.
- `Routing`: the table as a value. It holds what `add`, `remove`, `find` and `findOne` compute
  from it.
- `Kbucket`: the `Kbucket` class. Its fields are the object's fields, and its methods are
  `New`, `add`, `remove`, `find`, `findOne` and `storeKV`, with the loops the source has. It also
  has a pure `Step` for one iteration of `run`, a `Run` fold over a message sequence, and
  `Handle`, the method that dispatches one message and is proved equal to `Step`.
- `Findings`: three places where the code does not do what its callers rely on. Each is shown on
  the as-written model and paired with a corrected definition.

The class methods model the code as written. A reply channel is modelled as what becomes of it:

- `Sent(nodes)`: a value was sent, then the channel was closed.
- `Closed`: closed without a value.
- `Unanswered`: neither written nor closed.
- `NoReply`: the message has no channel.

## Model

| member | source | states |
|---|---|---|
| NodeIds.CalDistance | kbucket/kbucket.go:180-184 | fails with InvalidID exactly when the widths differ; otherwise the result is the bitwise XOR and is zero exactly when the identifiers are equal |
| NodeIds.Partition | kbucket/kbucket.go:185 | the index of the highest set bit counted from the least significant end; -1 exactly for the zero distance |
| NodeIds.NodePartition | kbucket/kbucket.go:121-125 | a node whose identifier is the local one or cannot be compared falls into partition -1; any other node falls into a partition within the identifier width |
| KQue.UpdateAdd | kbucket/kbucket.go:132-133 | a known identifier moves to the most recently seen end and the size is kept; a new one is appended while there is room; a full bucket is unchanged; capacity and distinct identifiers are preserved; nothing foreign appears |
| KQue.Remove | kbucket/kbucket.go:154-156 | exactly the entries with another identifier remain |
| KQue.RemovePresent | kbucket/kbucket.go:154-156 | removing a present identifier shortens the bucket, by exactly one when identifiers are distinct |
| KQue.RemoveAbsent | kbucket/kbucket.go:154-156 | removing an absent identifier leaves the bucket unchanged |
| KQue.FindOne | kbucket/kbucket.go:248-253 | finds a node exactly when the bucket holds the identifier, and the node found carries it |
| KQue.FindN | kbucket/kbucket.go:186-191 | fails exactly when some entry's width differs from the target; otherwise returns min(n, size) entries of the bucket, nearest first, with distinct identifiers kept |
| Partions.Sort | kbucket/kbucket.go:201-205 | a permutation of the partition indices, ordered by distance from the base partition |
| Partions.SortIsOrder | kbucket/kbucket.go:195-205 | under the model's tie-break, sorting any enumeration of the map's keys gives the same probing order |
| Partions.BaseFirst | kbucket/kbucket.go:201-205 | a populated base partition is probed first in the widening pass |
| Storage.Put | kbucket/kbucket.go:288-290 | the key reads back the new value; every other key keeps its value |
| Routing.AddRoutes | kbucket/kbucket.go:120-136 | the node's partition is present afterwards and every other bucket is untouched |
| Routing.AddRecords | kbucket/kbucket.go:127-134 | after add, the node is the most recently seen entry of its bucket unless that bucket was full without it; other entries stay |
| Routing.AddKeepsTable | kbucket/kbucket.go:120-136 | add keeps every bucket within k nodes of its own partition with distinct identifiers |
| Routing.RemoveRoutes | kbucket/kbucket.go:145-158 | nothing changes when the partition is absent; otherwise exactly the node's identifier leaves its bucket |
| Routing.RemoveKeepsTable | kbucket/kbucket.go:145-158 | remove keeps the table invariant |
| Routing.WidenBounded | kbucket/kbucket.go:206-220 | the widening pass never exceeds alpha nodes and keeps what it held as a prefix |
| Routing.WidenAbandons | kbucket/kbucket.go:206-212 | the widening pass gives up without a value when it reaches a bucket holding a node of another width before the quota is filled, because `findN` fails there |
| Routing.FindBounded | kbucket/kbucket.go:174-222 | a sent reply holds at most alpha nodes, all of them from the table |
| Routing.Probe | kbucket/kbucket.go:267-275 | a node found by the exact-match pass carries the identifier and is in the table |
| Routing.ProbeNone | kbucket/kbucket.go:267-275 | the exact-match pass finds nothing exactly when no probed bucket holds the identifier |
| Routing.FindOneCorrect | kbucket/kbucket.go:238-277 | for a comparable identifier other than the local one, NOT FOUND exactly when no bucket holds it; otherwise the node carries it and is in the table |
| Kbucket.Step | kbucket/kbucket.go:89-108 | each message kind reaches its operation; queries change nothing; mutations send nothing; a store write reads back; find replies with at most alpha nodes or closes; findOne leaves its channel unanswered |
| Kbucket.StepKeepsInvariant | kbucket/kbucket.go:89-108 | every message preserves the table invariant |
| Kbucket.RunKeepsInvariant | kbucket/kbucket.go:83-111 | the invariant holds after any sequence of messages, and Self, k and alpha never change |
| Kbucket.AddsFillBucket | kbucket/kbucket.go:114-136 | distinct nodes of one partition that fit in its bucket end up there in arrival order |
| Kbucket.FindAnswers | kbucket/kbucket.go:159-171 | a `Find` caller reports Failed exactly when `find` sends nothing; otherwise it gets the nodes sent, at most alpha of them, all from the table |
| Kbucket.FindSelfFails | kbucket/kbucket.go:174-179 | looking up the local identifier makes `Find` report Failed |
| Kbucket.Kbucket.constructor | kbucket/kbucket.go:63-77 | `New`: Self from the configuration, empty routes and store, k = 8, alpha = 3 |
| Kbucket.Kbucket.Add | kbucket/kbucket.go:120-136 | the routes become AddRoutes of the old routes; the invariant is kept |
| Kbucket.Kbucket.Remove | kbucket/kbucket.go:145-158 | the routes become RemoveRoutes of the old routes; the invariant is kept |
| Kbucket.Kbucket.Partitions | kbucket/kbucket.go:195-200 | the collected slice holds each populated partition index exactly once |
| Kbucket.Kbucket.Find | kbucket/kbucket.go:174-221 | the reply is the one FindSpec describes, and there is none for the local identifier |
| Kbucket.Kbucket.SortedPartitions | kbucket/kbucket.go:195-205 | the collected and sorted partition indices are exactly the probing order around the base partition |
| Kbucket.Kbucket.Widening | kbucket/kbucket.go:206-221 | the loop computes the widening pass Widen over the sorted partitions |
| Kbucket.Kbucket.FindOne | kbucket/kbucket.go:238-277 | the return value is the one FindOneSpec describes; the local identifier yields Self |
| Kbucket.Kbucket.Probing | kbucket/kbucket.go:267-275 | the loop returns the first exact match in probing order, the one Probe describes |
| Kbucket.Kbucket.StoreKV | kbucket/kbucket.go:288-290 | the store becomes Put of the old store |
| Kbucket.Kbucket.Handle | kbucket/kbucket.go:83-108 | one dispatch changes the object and answers exactly as Step does, keeping the invariant |
| Findings.TableIsValid | kbucket/kbucket.go:120-136 | the example table satisfies the invariant add and remove keep: small buckets, distinct identifiers, every node in its own partition |
| Findings.BuiltByAdds | kbucket/kbucket.go:63-77 | the example table is what three adds of 0001, 0010 and 0011 build from the state `New` starts in for identifier 0000 |
| Findings.NarrowAddThenFind | kbucket/kbucket.go:120-134 | under the assumed partition -1, adding the one-bit node 1 files it under -1, and a later find for 0011 reaches that bucket in its widening pass and closes the channel without a value |
| Findings.WideningRepeatsBase | kbucket/kbucket.go:206-221 | as written, looking up 0011 from 0000 over {0: [0001], 1: [0010, 0011]} replies [0011, 0010, 0011] |
| Findings.BaseFullFails | kbucket/kbucket.go:192-194 | as written, when the base bucket can fill alpha, the dispatched find message closes its channel without a value and `Find` reports Failed |
| Findings.FindOneLeavesCallerWaiting | kbucket/kbucket.go:238-277 | as written, `findOne` neither writes to nor closes its reply channel |
| Findings.IntendedBaseFullAnswers | kbucket/kbucket.go:192-194 | corrected: a base bucket able to fill the quota is answered with exactly alpha nodes |
| Findings.IntendedBounded | kbucket/kbucket.go:174-222 | corrected: at most alpha nodes, all of them from the table |
| Findings.IntendedDistinct | kbucket/kbucket.go:206-221 | corrected: on a valid table no identifier is answered twice |
| Findings.IntendedOnExample | kbucket/kbucket.go:206-221 | corrected: the example lookup answers [0011, 0010, 0001] |
| Findings.FindOneIntended | kbucket/kbucket.go:224-236 | corrected: `FindOne` gets Self for the local identifier; for a comparable identifier it fails exactly when no bucket holds it, and otherwise gets a table node carrying it |

## Left out

- The goroutine, the `select` loop, the ticker and logging are not modelled. `run` is modelled as one message at a time (`Step`, `Run`, `Handle`). A logged error becomes "carry on" (`add`, `remove`) or an early return, as the code does. Which partition `add` and `remove` then use rests on an assumption about `CalDistance`, listed below.
- Channels are modelled as the `Reply` outcome. The blocking of `AddNode`, `RemoveNode` and `Store` on the mailbox is not modelled.
- `send` and `Mail` (lines 292-320) are left out: they only forward to an outside network layer.
- `KbConfig.Seeds` is carried in the configuration and never read. `LocalIP` (a `net.IP`) is a string and the `uint32` port a natural number; neither is inspected here.
- The source of `NodeID`, `Node`, `KQue`, `Partions` and `Storage` is not available. These helpers are modelled by stated contracts, and their behaviour is assumed as follows:
  - `CalDistance` fails when the widths differ.
  - On a width mismatch `CalDistance` is assumed to return the zero Distance, and its `Partion` to be -1. The source only shows that the error is logged and `Partion` is still called (lines 121-125 and 146-150). So `add` files such a node under partition -1, and a later `find` that probes that bucket fails at `findN` and reports Failed (`NarrowAddThenFind`, `WidenAbandons`).
  - `Partion` is the highest set bit, with -1 for the zero distance.
  - `updateAdd` moves a known identifier to the tail, appends when there is room and otherwise discards the newcomer. No eviction ping is modelled.
  - `findN` is a sort by XOR distance.
  - A `Partions` sort orders by distance from the base index, with ties going to the smaller index.
  - `Storage.Put` overwrites.
- Partions.Sort: the tie-break between two partitions equally far from the base is a choice made here. The model fixes the smaller index first.
- Identifiers have no fixed width. A width mismatch is the only way a distance computation fails.
- The map's iteration order is any enumeration (`Enumerate`). In the model, `SortIsOrder` shows that the result of `find` and `findOne` does not depend on it. This holds only because of the tie-break chosen for `Partions.Sort`.
- Partions.SortIsOrder: in the source, `sort.Sort` is not stable and the keys arrive in Go's randomised map order. Two populated partitions equally far from the base (base - d and base + d) can therefore be probed in either order, so the reply of `find` is not determined by the table alone there. The model fixes the smaller index first.
- The untyped payloads (`interface{}` and its type assertions) are replaced by typed messages. A payload of the wrong type, which would panic, is not modelled.
- KQue.FindN: the result is stated as sorted by distance and drawn from the bucket. That it holds the n nearest entries is not stated separately.

## Findings

| source | as written | input that shows it | evidently intended | confidence | as-written member | corrected member |
|---|---|---|---|---|---|---|
| kbucket/kbucket.go:195-221 | the widening pass sorts every populated partition, the base one included, so the base bucket is asked again and its nodes are appended a second time | self 0000, routes {0: [0001], 1: [0010, 0011]}, alpha 3, find 0011: the reply is [0011, 0010, 0011] | widen over the other partitions only: [0011, 0010, 0001], no identifier twice | not executed | Findings.WideningRepeatsBase | Findings.IntendedDistinct |
| kbucket/kbucket.go:192-194 | when the base bucket alone yields alpha nodes, `find` returns before sending, so `Find` reports Failed | self 0000, routes {3: [1000, 1001, 1010]}, alpha 3, find 1011: the channel closes without a value | send the base bucket's alpha nodes | not executed | Findings.BaseFullFails | Findings.IntendedBaseFullAnswers |
| kbucket/kbucket.go:238-277 | `findOne` returns its result to `run`, which drops it; the reply channel is never written or closed, so `FindOne` blocks forever | any `FindOne` call, for example on the local identifier | send the node, or close the channel when none is found | not executed | Findings.FindOneLeavesCallerWaiting | Findings.FindOneIntended |
