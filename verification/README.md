# rustydht-lib: a verified model

`rustydht-lib` is a library for running a node of the mainline DHT, the
Kademlia-style network of BitTorrent (BEP 5). This project models its state and
algorithms in Dafny and proves what they keep over whole runs. To verify it, run
`dafny verify dfyconfig.toml` in this directory.

The heart of the model is the routing table. `Buckets` keeps a vector of buckets that
starts with one bucket and is split only when its deepest bucket overflows; the loop that
does this lengthens the vector it walks, moves nodes by `swap_remove`, sorts by age and
cuts off the newest. The main theorem is that none of this shows: after any run of
insertions the table holds, for every prefix length, the k oldest nodes of that length
ever added, and the same nodes in the same buckets whatever the order of insertion.
On top of that stand the pair of tables a node runs (verified and unverified nodes,
with promotion between them), the iterative lookup, whose result is shown to be as good
at every prefix length as everything it heard of allows, for which it is shown exactly when
that makes it the nearest by distance, and why it stops, and the 160-bit XOR metric that
carries all of it.

| file | part of the library |
|---|---|
| Wrappers.dfy, Nodes.dfy | shared datatypes |
| Ids.dfy | ids as bytes and as bits; prefix, order and XOR distance |
| ClassSizes.dfy | how many ids share just so many bits with an id |
| IpIds.dfy | ids derived from IPv4 addresses (BEP 42), ids resembling others |
| Tables.dfy | contents of a list of buckets, classes by prefix, the meaning of one insertion |
| Nearest.dfy | nearest-node queries |
| Buckets.dfy | the routing table object and its loops |
| BucketRuns.dfy, Filling.dfy | runs of insertions: refinement, order independence, depth; an object filled by a loop |
| Outcomes.dfy | every insertion and every query has an outcome, so the steps above can always be taken |
| Storages.dfy, NodeBucketStorage.dfy | the verified and unverified tables: steps and runs; the object |
| StorageRuns.dfy | every storage operation has an outcome; the number of buckets over all runs |
| Histories.dfy | what a stored node records: the history of the operations since it came in |
| Pruning.dfy | pruning against its documentation, on one call and over all runs; nodes never verified |
| Displacement.dfy | nodes verified before that are displaced into the unverified table and outlive their verification |
| Lookups.dfy | what a table knows of the ids it was offered |
| LookupRuns.dfy, FindNode.dfy | the iterative lookup: turns and whole runs; the loop |
| Closeness.dfy, Forgetting.dfy | when a lookup finds the nearest nodes; one that asks the nearest and forgets it |
| Convergence.dfy | why a lookup stops |
| Hearing.dfy | what a lookup hears and lists, told from the main table and the replies |
| Throttling.dfy, Throttler.dfy | rate limiting: records, runs, bounds on what passes; the object |
| Fairness.dfy | rate limiting from the side of senders: who keeps within the limit passes |
| Voting.dfy, VoteCounts.dfy, Ipv4Consensus.dfy | votes on the external address: runs; what the list counts; the object |
| Messages.dfy, Compact.dfy, Wire.dfy | messages, compact encodings, conversion to and from wire structures |
| WireMeaning.dfy, Utf8.dfy | what a decoded message says, told from the bytes alone; what well-formed UTF-8 is |
| Requests.dfy, OutboundRequestStorage.dfy | outstanding requests: runs; the object |
| Tokens.dfy | announce tokens and secret rotation |

## How things are represented

- An object whose methods update its fields is a class; a `Vec` or `HashMap` it changes is
  a `seq` or `map` field that its methods reassign, and the fixed array of throttler records
  is an `array`. The meaning of a class's methods is stated on values (`Table`, `Storage`,
  sequences of `Record`, ...), and the theorems over runs are about those values.
- The `Bucketable` items of a table are `NodeWrapper`s, the only kind the library stores.
- A clock reading is a natural number passed in, one for each reading the code takes.
  Random bytes and network replies are arbitrary arguments.
- An unstable sort is a method that promises a sorted permutation and nothing else; the
  stable sort of the votes promises in addition that ties keep their order.
- `get_mut` gives the place of a node and `Write` overwrites it with the same node; that is
  how its callers use the reference.
- `Add` returns what it pushes out; a caller that passes no chump list ignores it.
- A lookup is specified as a run of turns, one for each round of nodes found in the main table
  and of replies; `LookupRuns.Lookup` ties every table, query and outcome of a turn to its round, and
  the loop is proved to take such a run.
- CRC-32C is a parameter; nothing else that the code computes is left open.
- Packet counts saturate at the largest 64-bit `usize`; intervals wrap as an `i32` cast to a
  `u64` does; other integers are unbounded where the code's stay in range.

## Where the code and its documentation differ

- The documentation of the node storage promises at most 160 buckets. Over all runs that
  holds exactly for capacities of 1 and more (`DocumentedMaximumUnlessCapacityZero`); with
  capacity 0 one insertion makes 161 (`CapacityZeroOutgrows`).
- `prune` is documented to drop a node verified before exactly if that was too long ago, and
  a node never verified exactly if it was not seen within the unverified grace period. The code
  departs from that in the unverified table, on one call exactly if a node in dispute is stored
  (`PrunesAsDocumentedUnlessDisputed`): one verified too long ago but seen since both instants, which
  it keeps, or one never verified that was seen since the unverified instant but not the other, which it
  drops. Over all runs nodes never verified are pruned as documented exactly if the grace period is at
  least the unverified one (`NeverVerifiedPrunedAsDocumented`, `PrunedTooEarly`), as it is in the default
  settings. Nodes verified before are, whatever the grace periods, exactly if the capacity is 0 or at
  least 2^159, the size of the largest class of ids (`FormerlyVerifiedPrunedAsDocumented`); with the default
  of 8 they are not (`FormerlyVerifiedKeptTooLong`): an older node displaces a verified one into the unverified
  table, where being seen keeps it (`KeptTooLong`). All of this is about prunes whose grace periods do not
  reach back before the clock's start; one of which either does changes nothing
  (`SkippedPruneIsDocumentedUnlessStale`).
- The throttle limit is ineffective in one case: counts saturate, so a limit equal to the
  largest count lets everything through (`LargestLimitPassesAll`). The rate bound holds in all
  runs exactly for the smaller limits (`RateHoldsUnlessLimitIsLargest`).
- The first entry of the vote list is the most voted one, and the list counts the votes, over all runs exactly
  if the maximum number of votes is at least 1 (`FirstIsMostUnlessNoVoteCounts`, `CountsVotesUnlessNoneCounts`).
- The lookup is described as finding the nodes closest to the target. Of all ids that it hears
  of, its result lists the nearest exactly if, of the class in which eight of them come to an end,
  counted from the nearest, there are no more than eight (`FindsNearestUnlessCrowded`): a full
  class gives up its newest node however near that is. A lookup of two rounds that asks the nearest node
  and ends without it is given (`ExampleForgetsTheNearest`).
- It is described as running until it stops making progress. The main table may change under it. When
  nodes have ages of their own and what replies bring is newer than what was there before, it asks no
  more often than it hears of ids, and no more than 1280 times, but for once more for each node that the
  main table offers only in other rounds than that of the first query (`AsksNoMoreThanHeard`). Given that
  many turns after the main table first knows another node than the target it stops by itself
  (`LookupConverges`); it never does if the main table knows none (`NeverConverges`).

## Model

| member | source | states |
|---|---|---|
| `Ids.MatchingPrefixBits` | src/common/id.rs:94-111 | the byte loop with its early exit counts exactly the leading bits on which the two ids agree |
| `Ids.CommonPrefix` | src/common/id.rs:90-93 | the count is the length of agreement: all earlier bits agree and the next one, if any, differs |
| `Ids.PrefixLaws` | src/common/id.rs:90-111 | the shared prefix is symmetric, is 160 for equal ids only, and satisfies the ultrametric inequality |
| `Ids.Xor` | src/common/id.rs:127-134 | the loop computes the bytewise exclusive or |
| `Ids.PartialCmp` | src/common/id.rs:171-183 | byte-by-byte comparison is comparison of the ids as 160-bit big-endian numbers, and says equal for equal ids only |
| `Ids.FromBytes` | src/common/id.rs:26-38 | exactly 20 bytes make an id |
| `Ids.DistanceLaws` | src/common/id.rs:123-134 | XOR distance is a metric on ids, and for one id every distance belongs to one other id only |
| `Ids.LongerPrefixIsNearer` | src/common/id.rs:94-134 | a strictly longer shared prefix means a strictly smaller distance |
| `Ids.FewIdsSharePrefix` | src/common/id.rs:94-111 | fewer than 2^(160-d) ids other than t share d bits with t |
| `ClassSizes.ClassAtMost` | src/common/id.rs:94-111 | at most 2^(159-d) ids share just d bits with t |
| `ClassSizes.LargestClass` | src/common/id.rs:94-111 | 2^159 ids share no bit with the zero id |
| `IpIds.FromIp` | src/common/id.rs:42-59 | the generated id has the first 21 bits of the checksum, three noise bits, noise and seed in place, byte by byte, and is valid for the address |
| `IpIds.ValidityIsASharedPrefix` | src/common/id.rs:79-88 | an id is valid exactly if the address begins with 127 or the id shares 21 bits with one generated for the address from the same last byte |
| `IpIds.MagicIsChecksumOfCounted` | src/common/id.rs:204-217 | the checksum is taken of 2, 4, 6 and 8 bits of the four octets and three bits of the seed, in network order |
| `IpIds.OnlyCountedBitsMatter` | src/common/id.rs:79-88 | addresses that agree in those 20 bits have the same valid ids |
| `IpIds.MakeMutant` | src/common/id.rs:140-151 | fails exactly outside 1..19 bytes, and otherwise shares at least eight bits for every byte kept |
| `Buckets.Buckets.constructor` | src/storage/buckets.rs:21-31 | a new table has one empty bucket |
| `Buckets.Buckets.Add` | src/storage/buckets.rs:33-42 | our own id is ignored; otherwise stored and pushed-out nodes together are the old ones and the new one, at most one is pushed out, from a full class that is not in the deepest bucket and holds nothing newer, and the table deepens only as far as more than k nodes reach |
| `Buckets.Buckets.HandleBucketOverflow` | src/storage/buckets.rs:152-189 | the loop ends although it lengthens the vector, leaves every node placed and every bucket within capacity, and neither loses nor invents nodes beyond the one it gives back |
| `Buckets.Buckets.SplitBucket` | src/storage/buckets.rs:159-186 | one round: the bucket over capacity is sifted, and cut back to its k oldest if that was not enough |
| `Buckets.Buckets.Redistribute` | src/storage/buckets.rs:166-175 | the reverse loop with swap_remove sends on exactly the nodes whose place is the next bucket |
| `Buckets.SortByFirstSeen` | src/storage/buckets.rs:179 | some permutation sorted by age |
| `Buckets.Buckets.GetDestBucketIdxForId` | src/storage/buckets.rs:148-150 | the bucket of an id is the smaller of its shared prefix and the last index |
| `Buckets.Buckets.Contains` | src/storage/buckets.rs:49-59 | looking into one bucket agrees with a search of all stored nodes |
| `Buckets.Buckets.GetMut` | src/storage/buckets.rs:74-84 | finds a node with the id if any bucket holds one |
| `Buckets.Buckets.Write` | src/storage/buckets.rs:74-84 | writing a timestamp through the reference changes that node and nothing else |
| `Buckets.Buckets.Remove` | src/storage/buckets.rs:117-127 | takes out one node with the id if any bucket holds one, and otherwise changes nothing |
| `Buckets.Buckets.Retain` | src/storage/buckets.rs:108-115 | keeps exactly the nodes that satisfy the predicate, in their places |
| `Buckets.Buckets.Clear` | src/storage/buckets.rs:44-47 | back to one empty bucket |
| `Buckets.Buckets.SetId` | src/storage/buckets.rs:129-132 | an empty table around the new id |
| `Buckets.Buckets.Count` | src/storage/buckets.rs:61-68 | the number of stored nodes |
| `Buckets.Buckets.Values` | src/storage/buckets.rs:134-142 | the buckets one after the other |
| `Buckets.Nearer` | src/storage/buckets.rs:97-101 | comparing XORed ids is comparing distances |
| `Buckets.Buckets.GetNearestNodes` | src/storage/buckets.rs:89-106 | lists k nearest nodes but the excluded one, nearest first; no node left out is nearer than one listed |
| `Tables.BucketIsClass` | src/storage/buckets.rs:144-150 | a bucket is the class of nodes with its prefix length, the deepest one the class of all longer ones |
| `Tables.EjectedSharesPrefix` | src/storage/buckets.rs:166-185 | the node pushed out has the prefix length of the node added, whose class was full |
| `Tables.AddStepClass` | src/storage/buckets.rs:33-42 | an insertion changes one class only, and pushes out exactly if that class was full |
| `BucketRuns.SplittingTableKeepsTheOldest` | src/storage/buckets.rs:152-189 | after any run of insertions every class is k oldest of all nodes of its prefix length ever added, and the last index is the least depth at most k added nodes reach, none of which was lost |
| `Filling.AddAll` | src/storage/buckets.rs:33-42 | an object filled by a loop of insertions keeps the k oldest of every class and is as deep as they require |
| `BucketRuns.RefinesStep` | src/storage/buckets.rs:33-42 | one insertion preserves the refinement of the table of k-oldest lists |
| `BucketRuns.OrderDoesNotMatter` | src/storage/buckets.rs:152-189 | the same nodes of different ages in any order lead to the same number of buckets with the same nodes in each |
| `BucketRuns.AddKeepsRoomy` | src/storage/buckets.rs:157-164 | with distinct ids a split table of b buckets keeps k+2 <= 2^(162-b) |
| `BucketRuns.DocumentedMaximum` | src/storage/node_bucket_storage.rs:78-80 | hence at most 160 buckets for a capacity of at least 1 and at most 158 for 8 or more |
| `BucketRuns.ZeroCapacityOutgrowsIt` | src/storage/node_bucket_storage.rs:78-80 | with capacity 0 one node is enough for 161 |
| `Nearest.NthNearestPrefix` | src/storage/buckets.rs:86-106 | position j of an answer shares d bits with the target exactly if more than j of the nodes do |
| `Nearest.AnswerCoversPrefix` | src/storage/buckets.rs:86-106 | of the nodes sharing d bits an answer misses none that it has room for |
| `Nearest.DeeperIsNearer` | src/storage/node_bucket_storage.rs:82-86 | every node of a deeper bucket is nearer to us than every node of a shallower one |
| `Nearest.NearestToUsReadsBucketsBackwards` | src/storage/buckets.rs:89-106 | asked for our own id a table of distinct ids answers with its sorted buckets, deepest first, cut to k |
| `Nearest.AnswersAgree` | src/storage/buckets.rs:97-105 | with distinct ids the unstable sort leaves one answer |
| `NodeBucketStorage.NodeBucketStorage.AddOrUpdateLastSeen` | src/storage/node_bucket_storage.rs:107-118 | updates the verified or else the unverified entry, or else adds an unverified one; `Histories` says what becomes of the entry |
| `NodeBucketStorage.NodeBucketStorage.AddOrUpdateVerified` | src/storage/node_bucket_storage.rs:120-159 | promotes an unverified entry, or else updates the verified one, or else adds one; what overflows goes to the unverified table |
| `NodeBucketStorage.NodeBucketStorage.Admit` | src/storage/node_bucket_storage.rs:130-135 | the node goes into the verified table and each node pushed out into the unverified one |
| `NodeBucketStorage.NodeBucketStorage.AddOrUpdate` | src/storage/node_bucket_storage.rs:163-169 | one step of the storage |
| `NodeBucketStorage.NodeBucketStorage.Prune` | src/storage/node_bucket_storage.rs:196-220 | keeps exactly the entries of each table that its rule keeps, or everything if a grace period reaches back before the clock's start |
| `NodeBucketStorage.NodeBucketStorage.Clear` | src/storage/node_bucket_storage.rs:171-174 | both tables empty, same id of ours |
| `NodeBucketStorage.NodeBucketStorage.SetId` | src/storage/node_bucket_storage.rs:222-225 | both tables empty around the new id |
| `NodeBucketStorage.NodeBucketStorage.Count` | src/storage/node_bucket_storage.rs:176-178 | the sizes of the unverified and verified tables |
| `NodeBucketStorage.NodeBucketStorage.GetNearestNodes` | src/storage/node_bucket_storage.rs:188-194 | the nearest verified nodes |
| `Storages.PromotionLosesNobody` | src/storage/node_bucket_storage.rs:123-136 | promoting a stored node leaves the ids known exactly as they were: what it displaces fits into the slot it frees |
| `Storages.AddOrUpdateNeverShrinks` | src/storage/node_bucket_storage.rs:163-169 | no add_or_update lowers the number of nodes known |
| `Storages.StepKeepsInvariant` | src/storage/node_bucket_storage.rs:162-226 | every operation keeps ids unique across both tables, our id shared and not stored, verified times honest, and both tables as shallow as their ids allow |
| `Storages.RunKeepsInvariant` | src/storage/node_bucket_storage.rs:93-226 | the same at every moment of every run from an empty storage |
| `Histories.StepTimes` | src/storage/node_bucket_storage.rs:107-169 | after any operation a stored node is as before, unless the call names it: then it has been seen now, verified now if the call says so, and keeps its address and first sight if it was stored, or is new |
| `Histories.StoredIsHistory` | src/storage/node_bucket_storage.rs:107-225 | at every moment of every run each stored node is the one of the call that brought it in, first seen then, stored ever since without a clearing, last seen when last named, and last verified when last said to be |
| `Histories.SameWhileStored` | src/storage/node_wrapper.rs:11-18 | while an id stays stored, its address and first sight never change |
| `Histories.OnlyTheCrowdedGo` | src/storage/node_bucket_storage.rs:107-159 | a call leaves all stored ids and the one it names stored, but for one of the prefix length of an unknown node when the tables are full at that length |
| `Histories.OurIdIsLastSet` | src/storage/node_bucket_storage.rs:222-225 | both tables see the id last set, over every run |
| `StorageRuns.StepExists` | src/storage/node_bucket_storage.rs:162-226 | every operation on a well-formed storage has an outcome, so that the theorems over runs speak of something |
| `StorageRuns.DocumentedMaximumUnlessCapacityZero` | src/storage/node_bucket_storage.rs:78-80 | over all runs of the storage no table has more than 160 buckets exactly if the capacity is at least 1; none has more than 158 if it is at least 8 |
| `StorageRuns.CapacityZeroOutgrows` | src/storage/node_bucket_storage.rs:78-80 | a run of one insertion that makes 161 with capacity 0 |
| `Pruning.PrunesAsDocumentedUnlessDisputed` | src/storage/node_bucket_storage.rs:52-58 | a prune of stored nodes is the documented one exactly if no stored unverified node is in dispute |
| `Pruning.SkippedPruneIsDocumentedUnlessStale` | src/storage/node_bucket_storage.rs:196-198 | a prune for which a grace period reaches back before the clock's start changes nothing, as documented exactly if every stored node is one the documentation keeps |
| `Pruning.NeverVerifiedPrunedAsDocumented` | src/storage/node_bucket_storage.rs:57-58 | over all runs nodes never verified are pruned as documented exactly if the grace period is at least the unverified one, or nothing can be stored |
| `Pruning.PrunedTooEarly` | src/storage/node_bucket_storage.rs:206-217 | otherwise, a run in which a node seen within the unverified grace period is dropped |
| `Displacement.KeptTooLong` | src/storage/node_bucket_storage.rs:206-217 | for any capacity but 0, any grace periods and any k+1 ids of one class, a run in which the unverified table keeps a node verified too long ago, because it is still seen |
| `Displacement.FormerlyVerifiedPrunedAsDocumented` | src/storage/node_bucket_storage.rs:55-56 | for any grace periods, nodes verified before are pruned as documented in all runs exactly if the capacity is 0 or at least 2^159, the size of the largest class of ids, so that nothing is ever displaced |
| `Displacement.RunKeepsNoneVerified` | src/storage/node_bucket_storage.rs:120-159 | while no class has more than k ids, no stored unverified node was ever verified |
| `Displacement.FormerlyVerifiedKeptTooLong` | src/storage/node_bucket_storage.rs:55-56 | so with the default capacity of 8, or any other below 256 but 0, they are not, whatever the grace periods |
| `Displacement.NoCrowdAboveLargestClass` | src/storage/buckets.rs:144-150 | more ids than the capacity can share just as many bits with some id exactly if the capacity is below 2^159 |
| `Outcomes.AddExists` | src/storage/buckets.rs:33-42 | every insertion into a well-formed table has an outcome |
| `FindNode.FindNode` | src/dht/operations.rs:95-192 | for any main table, replies and moment of timeout the loop takes a lookup run on them; its result lists different nodes, nearest first, for every prefix length as many of them as were heard of, up to 8, and the nearest of all if their cutoff class is not crowded |
| `FindNode.TakeTurn` | src/dht/operations.rs:105-168 | one turn of such a run: nobody is asked if no node is known, nothing changes if the nodes asked last come up again, and otherwise all replies are absorbed in order |
| `FindNode.Search` | src/dht/operations.rs:103-181 | the loop takes one turn per round and ends in the first that finds nothing new, or with the rounds |
| `FindNode.Offer` | src/dht/operations.rs:107-110 | a node is added unless its id is stored |
| `Lookups.OfferedKnows` | src/dht/operations.rs:107-110 | that keeps ids distinct, knows the id offered (stored, the target, or of a full class) and lowers no prefix count |
| `LookupRuns.QueryIsAware` | src/dht/operations.rs:105-113 | each query is made on a table of distinct ids that knows every id heard of by then, and nobody is asked exactly while none but the target was heard of |
| `LookupRuns.CandidatesNeverFall` | src/dht/operations.rs:105-168 | from query to query the number of stored nodes sharing d bits with the target never falls, for any d |
| `LookupRuns.LookupProgresses` | src/dht/operations.rs:113-191 | from one query to any later one, and to the result, no position is lost and the node at a position never shares fewer bits with the target |
| `LookupRuns.ConvergedMeansSameAgain` | src/dht/operations.rs:119-124 | a lookup has converged exactly if its last turn chose the ids that the turn before it asked; these are the result, and no earlier turn chose what was asked before it |
| `LookupRuns.LookupCoversHeard` | src/dht/operations.rs:187-191 | at every prefix length the result holds as many ids as were heard of, up to 8 |
| `Lookups.PositionFromHeard` | src/dht/operations.rs:113 | the ids heard of decide how many positions an answer has and how many bits each shares with the target |
| `Lookups.ProgressIsNeverUndone` | src/dht/operations.rs:113-124 | when no prefix count falls, no position of an answer is lost and none shares fewer bits with the target |
| `Lookups.AnswerIsPrefixOptimal` | src/dht/operations.rs:187-191 | at every prefix length an answer holds as many ids as were heard of, up to k |
| `Closeness.LookupFindsNearest` | src/dht/operations.rs:92-94 | the result lists the nearest of all ids heard of if no more than 8 of them are in their cutoff class |
| `Closeness.FindsNearestUnlessCrowded` | src/dht/operations.rs:92-94 | for any set of ids, every lookup that hears of just these lists the nearest of them exactly if that condition holds |
| `Forgetting.AskedAndForgotten` | src/dht/operations.rs:105-191 | when an older node of a full class turns up in the main table, a lookup that first asked its nearest and newest node ends without it, and with 8 that are all farther |
| `Forgetting.ExampleForgetsTheNearest` | src/dht/operations.rs:105-191 | two concrete rounds on which every lookup does that |
| `Hearing.HeardAtEndIsTold` | src/dht/operations.rs:105-191 | the ids a lookup hears of are those of the main table in its rounds and of all nodes in all usable replies once there was somebody to ask |
| `Hearing.ReceivedIsReplied` | src/dht/operations.rs:140-185 | the nodes of every usable reply are taken in, as new ones, and no others |
| `Hearing.ListedWasTold` | src/dht/operations.rs:187-191 | every node listed was told of with that id and address, by the main table or a reply |
| `Convergence.AsksOnlyWithMore` | src/dht/operations.rs:113-124 | a turn that asks right after another has more nodes stored, or the main table has offered a node that is now stored or shut out by older ones and was neither before |
| `Convergence.AsksNoMoreThanHeard` | src/dht/operations.rs:92-94 | from its first query on a lookup asks at most as many times as it hears of ids, and at most 1280 times, but for once more for each node the main table offers only in other rounds; whatever is replied |
| `Convergence.LookupConverges` | src/dht/operations.rs:92-94 | given more rounds than that after the main table first knows anybody, the lookup stops by itself |
| `Convergence.NeverConverges` | src/dht/operations.rs:105-111 | a lookup whose main table never knows anybody but the target does not |
| `Convergence.ConvergesWhileNothingChanges` | src/dht/operations.rs:92-94 | with a main table that stays as it is and more than 1280 rounds, it stops by itself exactly if that table knows another node than the target |
| `Throttler.Throttler.CheckThrottle` | src/storage/throttler.rs:64-135 | the array after the call and the verdict are those of the specified step, of which `Throttling` and `Fairness` say who is throttled and who is not |
| `Throttler.Throttler.Scan` | src/storage/throttler.rs:75-94 | finds the first record of the address and, failing that, the first of the saddest records |
| `Throttling.Lamest` | src/storage/throttler.rs:84-93 | no record has fewer packets, or as few and an earlier expiration, and no earlier record ties |
| `Throttling.RunKeepsOneRecordEach` | src/storage/throttler.rs:77-82 | over every run there is at most one record per address other than the placeholder |
| `Throttling.RateIsBounded` | src/storage/throttler.rs:105-133 | in any span T at most rate_limit * (T / min(period, naughty_timeout) + 2) packets of an address pass, while its record is left in place |
| `Throttling.RateHoldsUnlessLimitIsLargest` | src/storage/throttler.rs:105-133 | that bound holds in all runs exactly if the limit is below the largest count; a flood exceeds it otherwise |
| `Throttling.LargestLimitPassesAll` | src/storage/throttler.rs:106-114 | a limit of the largest count never throttles |
| `Throttling.PenaltyPersists` | src/storage/throttler.rs:96-123 | a throttled address that keeps sending within the penalty keeps its record and stays throttled until max tracking, provided that whenever another address needs a record some other one holds fewer packets |
| `Throttling.ThrottledStartsPenalty` | src/storage/throttler.rs:114-129 | every throttled call puts its record into that state |
| `Throttling.OthersCall` | src/storage/throttler.rs:119-123 | another address's call leaves a record as it is unless it needs a record and this one is the saddest |
| `Fairness.WithinRatePasses` | src/storage/throttler.rs:105-133 | whatever others send, an address that sends at most rate_limit packets in less than period from each of its calls on is never throttled, if it begins without a record, with room in it, or when it has expired |
| `Fairness.FirstWindowDecides` | src/storage/throttler.rs:105-133 | of the calls that an address without a record makes within period of its first, all pass exactly if they have no more than rate_limit packets, while its record is left in place |
| `Fairness.WindowDecides` | src/storage/throttler.rs:105-118 | until a record expires all calls pass exactly if its packets and theirs are no more than rate_limit |
| `Fairness.ExpiredIsForgiven` | src/storage/throttler.rs:110-113 | a call when the record has expired is judged by its own packets only |
| `Fairness.RecordLives` | src/storage/throttler.rs:96-103 | a record is forgotten exactly by a call more than max_tracking after it was made, which passes, and keeps the instant it was made until then |
| `Fairness.ForgottenIsFree` | src/storage/throttler.rs:31-38 | the record forgotten is blank: the placeholder with no packets, as of the clock |
| `Ipv4Consensus.Ipv4Consensus.GetBestIpv4` | src/common/ipv4_addr_src.rs:80-94 | reading the first entry gives a most voted address with enough votes, or none has enough |
| `Ipv4Consensus.Ipv4Consensus.AddVote` | src/common/ipv4_addr_src.rs:96-114 | raises the first entry of the address, up to the maximum, and sorts, or else appends it with one vote |
| `Ipv4Consensus.Ipv4Consensus.Decay` | src/common/ipv4_addr_src.rs:116-123 | every entry loses a vote and those left without one go; `VoteCounts` says it by address |
| `Ipv4Consensus.StableSort` | src/common/ipv4_addr_src.rs:107 | most votes first, nothing lost, ties in their old order |
| `Voting.RunIsOrderly` | src/common/ipv4_addr_src.rs:96-123 | over every run no duplicates, most votes first, all votes within 1..max_votes |
| `Voting.FirstIsMostUnlessNoVoteCounts` | src/common/ipv4_addr_src.rs:80-123 | the first entry is a maximum over all runs exactly if max_votes is at least 1 |
| `Voting.LeaderIsOvertaken` | src/common/ipv4_addr_src.rs:96-114 | a vote changes the leader only to the address voted for, when it strictly overtakes |
| `Voting.DecayKeepsLeader` | src/common/ipv4_addr_src.rs:116-123 | decay never changes the leader while any entry remains |
| `VoteCounts.DecayLowers` | src/common/ipv4_addr_src.rs:116-123 | a decay makes n votes of an address max(0, n - 1), for every address |
| `VoteCounts.VoteRaises` | src/common/ipv4_addr_src.rs:96-114 | a vote makes n votes of the address voted for min(max_votes, n + 1) and leaves all others |
| `VoteCounts.RunCountsVotes` | src/common/ipv4_addr_src.rs:96-123 | over every run the votes of every address are those counted from the operations alone |
| `VoteCounts.CountsVotesUnlessNoneCounts` | src/common/ipv4_addr_src.rs:96-123 | they are in all runs exactly if max_votes is at least 1 |
| `VoteCounts.BestIsMostVoted` | src/common/ipv4_addr_src.rs:80-94 | over every run the address given has most votes of all, by that count, and enough; none is given exactly if none has enough, or any |
| `Compact.SockaddrToBytes` | src/packets/public.rs:614-638 | the loop gives address and port in network order |
| `Compact.AddrRoundTrip` | src/packets/public.rs:586-638 | an address survives exactly if it is IPv4 |
| `Compact.AddrInverse` | src/packets/public.rs:586-612 | every six bytes are the encoding of what they decode to |
| `Compact.Nodes4ToBytes` | src/packets/public.rs:660-668 | the loop gives the compact list |
| `Compact.BytesToNodes4` | src/packets/public.rs:640-658 | the loop decodes exactly the strings whose length is a multiple of 26 |
| `Compact.NodesRoundTrip` | src/packets/public.rs:640-668 | a list of nodes survives exactly if all its addresses are IPv4 |
| `Compact.NodesInverse` | src/packets/public.rs:640-668 | every well-sized string is the encoding of the list it decodes to |
| `Compact.PeersRoundTrip` | src/packets/public.rs:670-683 | a list of peers survives exactly if all are IPv4 |
| `Compact.IdsRoundTrip` | src/packets/public.rs:315-323 | a list of samples survives |
| `Compact.IdsInverse` | src/packets/public.rs:441-461 | every well-sized string of samples is the encoding of what it decodes to |
| `Compact.SamplesToBytes` | src/packets/public.rs:315-323 | the loop joins the samples |
| `Wire.MessageRoundTrip` | src/packets/public.rs:202-509 | decoding the encoded form gives a message back exactly if its addresses are IPv4 and its interval is of whole seconds up to 21600 |
| `Wire.EncodeDecodeEncode` | src/packets/public.rs:202-509 | for every message that was decoded one encoding settles it, and only the interval changes |
| `WireMeaning.DecodesToWhatItSays` | src/packets/public.rs:341-509 | the wire decodes to a message exactly if that says, field by field, what the bytes say: peers before nodes, octets and ports in network order, flags and intervals by their values |
| `WireMeaning.NodesDecode` | src/packets/public.rs:640-658 | a string decodes to nodes exactly if each is what its 26 bytes say |
| `WireMeaning.ReencodedIsCanonical` | src/packets/public.rs:202-509 | encoding a decoded message gives the wire back but for flags made 0 or 1, nodes beside peers, missing nodes, intervals out of range, and parts of an error beyond the second |
| `WireMeaning.OnlyTheIntervalChanges` | src/packets/public.rs:202-339 | any message with IPv4 addresses only arrives as it was, but for an interval cut to whole seconds and to 21600 |
| `WireMeaning.AddrBytes` | src/packets/public.rs:614-638 | the octets are written in order and the more significant byte of the port first |
| `Utf8.Utf8ExactlyEncodings` | src/packets/public.rs:490-498 | an error text is taken exactly if its bytes encode Unicode scalar values in a row |
| `Wire.DecodesExactlyTheWellFormed` | src/packets/public.rs:341-509 | decoding fails on ill-sized fields and ill-formed errors, and on nothing else |
| `OutboundRequestStorage.OutboundRequestStorage.AddRequest` | src/storage/outbound_request_storage.rs:21-24 | stores the request under its transaction id |
| `OutboundRequestStorage.OutboundRequestStorage.GetMatchingRequestInfo` | src/storage/outbound_request_storage.rs:35-70 | gives a request exactly if it is stored under the transaction id and the message is a response from its address, from the id recorded if there is one, and of its kind |
| `OutboundRequestStorage.OutboundRequestStorage.TakeMatchingRequestInfo` | src/storage/outbound_request_storage.rs:72-83 | hands out and removes exactly such a request, or changes nothing |
| `OutboundRequestStorage.OutboundRequestStorage.PruneOlderThan` | src/storage/outbound_request_storage.rs:85-101 | keeps the requests young enough, or all if the duration reaches back before the clock's start |
| `Requests.HandedOutAtMostOnce` | src/storage/outbound_request_storage.rs:21-101 | over every interleaving a request is handed out and still stored no more often than it was added |
| `Requests.HandedOutIsAnswered` | src/storage/outbound_request_storage.rs:35-83 | over every interleaving, each event that hands out a request is a response that answers it in transaction id, address, recorded id and kind, and the request was added before and not replaced since under its transaction id |
| `Requests.StoredWasAdded` | src/storage/outbound_request_storage.rs:21-101 | over every interleaving what is stored under an id is what was added last under it |
| `Requests.HandedOutExactlyIfAgreed` | src/storage/outbound_request_storage.rs:35-101 | over every interleaving a response hands a request out exactly if it agrees with it in transaction id, address, recorded id and kind, and the request was added and neither replaced, answered nor pruned since |
| `Requests.MatchIsAgreement` | src/packets/public.rs:552-583 | a response hands out what is stored under its id exactly if address, recorded id and the pair of kinds agree, the five pairs written out |
| `Requests.StoredUntilEnded` | src/storage/outbound_request_storage.rs:21-101 | over every interleaving an added request is still the one stored under its transaction id exactly if no later event replaces it, answers it or prunes it as too old |
| `Requests.TakeLeavesTheRest` | src/storage/outbound_request_storage.rs:72-83 | a response that answers nothing changes nothing; one that does removes the request it answers and no other |
| `Tokens.TokenLifetime` | src/dht/dht.rs:985-1001 | a token is accepted from the same IP on any port before the second rotation after issue, and later exactly if the checksum takes its secret for one of the last two |
| `Tokens.TokenIsForOneIp` | src/dht/dht.rs:985-1001 | if the checksum tells texts apart, a token is accepted exactly from the IP it was issued to while its secret is one of the two in use |
| `Tokens.DhtState.constructor` | src/dht/dht.rs:145-158 | both secrets start equal |
| `Tokens.DhtState.RotateTokenSecrets` | src/dht/dht.rs:917-922 | the current secret becomes the old one |
| `Tokens.DhtState.IssueToken` | src/dht/dht.rs:397 | a token just issued is accepted |
| `Tokens.DhtState.AnnouncePeer` | src/dht/dht.rs:450-485 | an announcement is recorded, under its info hash, at the sender's IP and the implied or stated port, exactly if its token is one of the two valid ones |

## Left out

- Sockets, tasks, channels, shutdown, router lookup and the event loop: I/O without a local algorithm.
- Bencode text and serde derivation (src/packets/internal.rs): library code; the conversions stop at the wire structures.
- The error texts: an error is a string that no property depends on.
- CRC-32C: a parameter; that a token is refused elsewhere is claimed only where the checksum tells the texts apart.
- IPv6 ids (`IdPrefixMagic::from_ip`): the IPv6 arm converts a two-byte slice into a three-byte array and always panics. IPv6 socket addresses are modelled and shown not to survive the wire.
- `PeerStorage`: almost entirely the external `lru` crate; the announcements passed to it are recorded in order, without what it evicts.
- Message and settings builders, events, logging: field copying.
- `get_peers` and `announce_peer` of src/dht/operations.rs: the same loop as `find_node` with more bookkeeping, so only easy members would be added.
- Sleeps and timeouts of `find_node`: the sleeps show only in the hypothesis that later replies are newer; running out of rounds, the last of them possibly with fewer replies, stands for the timeout.
- The response channel of a stored request: it plays no part in matching.
- `Ipv4Consensus.Ipv4Consensus.AddVote`: 32-bit overflow of a count is a precondition, because the code aborts on it; it takes 2^31 votes for one address.
- `Throttling.RateIsBounded`: counts one packet a call for the address in question, as the event loop does; other addresses may send batches of any size.
- `Buckets.Buckets.GetMut`: gives a place in the table instead of a reference; aliasing is not modelled.
- Capacity hints of vectors and the width of `usize` in indices.
