# SetrixDB, verified

SetrixDB is an in-memory engine for exact algebra over sets of `uint64` IDs. This project
models its five hard pieces in Dafny and proves what each is for.

1. **The minimal perfect hash.** A counting sort groups the keys by bucket; whole buckets,
   largest first, get the least displacement that drops all their keys on free slots, with up
   to 1024 re-seeded attempts; the displacements are packed bit by bit and slots are turned into
   IDs by a two-level rank. Proved: whatever the mixer computes, a successful construction
   numbers the keys 0 .. n-1, each number once, and no other key is ever answered with a number
   outside that range; a failure means that all 1024 attempts really got stuck, and the program's
   mixer gives each of them another seed.
2. **The term dictionary (`Keyer`).** Built on a positional hash that is not injective. Proved,
   whatever that hash computes: a term is found exactly when it was indexed, `Lookup` and `Term`
   are inverses, and every error has the cause it names.
3. **The cluster.** Nodes behind a framed byte protocol, coordinators that slice, send and add
   up. Proved: over every run of loads and counts, whatever the nodes held before, for any
   assignment of shards to nodes and any order in which nodes are visited and answer, each count
   is that of one machine holding the whole arrays. For both coordinators the wiring under which
   this is so is stated and proved to be necessary as well.
4. **The consistent hash ring.** Proved: routing goes to the first point at or after the hash,
   wrapping round; adding a node moves IDs to it only; and exactly when removing one disturbs
   others.
5. **Fast forms against simple ones.** Bit extractors, lane-wise counts, sharded bitsets counted
   by any number of workers, the parallel branchless search, merge intersection under a lazily
   normalised `Set`, and the `.sxset` format.

Objects that the program updates in place are classes here (`CHDs.CHD`, `Keyers.Keyer`,
`Nodes.Node`, `Clusters.ShardedCluster`, `Coordinators.Coordinator`, `Rings.Ring`,
`Bitsets.Bitset`, `ShardedBitsets.ShardedBitset`, `Sets.Set`), loops are loops, and each method is
proved against a function or predicate on values whose properties are separate lemmas.

Machine words: a `uint64` is a `nat` below 2^64 (`Words.UInt64`); the bit operations are defined
digit by digit, and wherever the program's arithmetic can wrap, `% WORD_LIMIT` is written out.
Hash functions are parameters: the perfect hash takes any mixer, the dictionary any positional
hash, candidate chain and mixer, the ring any two hashes. `Mixers` gives the concrete finalisers.
Goroutines become loops that take the pending workers or nodes in any order.

## Where the code says less than its comments

- `rank` counts the bits strictly before the position, although its comment says "inclusive"
  (internal/mphf/mphf.go:234-247). IDs start at 0 because of that.
- `RemoveNode` deletes a virtual point without asking who owns it (internal/addb/ring.go:67-69).
  A node that took over a point loses it. `Rings.RemoveCanDisturbOthers` joins three nodes, two of
  which hash to one point, and removes the first: a position of the second moves to the third.
  `Rings.RemoveMovesOwnedOnly` is the exact condition.
- Adding and removing a node restores the ring exactly when its points were free, and its routes
  exactly when the points it claims are served by the same nodes without it
  (`Rings.AddThenRemove`, `Rings.AddThenRemoveRoutes`); `Rings.AddThenRemoveCanMoveRoutes` shows
  that they can move.
- `Coordinator` accepts one address twice; the two connections then overwrite each other's range.
  It also accepts no address at all. Every run is right exactly when the ranges cover the words and
  connections that share a node have none (`Ranges.RightExactlyWhenSharedAreEmpty`), which is to say
  exactly when all nodes are different, once there is a connection and as many words as connections.
- `ShardedCluster` likewise accepts two addresses that reach one node, no address, and no shard.
  Every run is right exactly when the shards cover the words, each under a connected address, and
  addresses that share a node own no words (`Deliveries.RightExactlyWhenSound`).
- Nodes outlive coordinators. Sets that a node already holds do no harm: a name that was loaded since,
  or that no node holds, is counted right (`Machines.Answerable`). A name that is counted without being
  loaded may find what an earlier coordinator left.
- A vocabulary of more than 4096 terms that contains the empty term is always rejected
  (keyer.go:133-137); a smaller one is accepted.
- The node's error branch for a request it cannot parse sends no reply (internal/cluster/cluster.go:142-175),
  so replies match requests only while every request is well formed (`Wire.OneReplyEach`).
- A name of 65536 bytes or more, or a payload above 2^30 bytes, is written but never read back
  (`Wire.NameRoundTrip`, `Wire.MsgRoundTrip`).
- The branch of `BuildKeyer` for a key without an ID (keyer.go:128-130) is dead
  (`Keyers.NumberOf`).
- `ShardedBitset` keeps IDs beyond the universe it was made for, up to `ShardBits*NumShards`
  (internal/addb/shard.go:27, 35-41).

## Model

| member | source | states |
|---|---|---|
| CHDs.CHD.BuildSized | internal/mphf/mphf.go:60-126 | For any mixer, keys, table sizes and seed: on success the table is perfect for the keys (bijection onto 0 .. n-1, every ok answer below n, for members and strangers alike) and comes from the first attempt that succeeds; failure only if the attempts for all 1024 seeds get stuck; repeated keys always fail |
| CHDs.CHD.BuildOpts | internal/mphf/mphf.go:60-126 | The same with the sizes for lambda keys a bucket and a share epsilon of spare slots, in exact arithmetic; with epsilon not negative there are more slots than keys |
| CHDs.BucketsFor | internal/mphf/mphf.go:65 | The least integer above n / lambda |
| CHDs.SlotsFor | internal/mphf/mphf.go:66 | The least integer above n(1 + epsilon) |
| CHDs.TableSlots | internal/mphf/mphf.go:66-69 | At least that many slots and more than there are buckets; more than there are keys when epsilon is not negative |
| CHDs.CHD.Build | internal/mphf/mphf.go:55-57 | All clauses of BuildOpts for 23 % spare slots |
| CHDs.CHD.GroupByBucket | internal/mphf/mphf.go:74-92 | The counting sort tiles `keyAt` into segments, segment j listing in input order exactly the keys of bucket j |
| CHDs.CHD.FillPlaces | internal/mphf/mphf.go:88-92 | The second pass over the keys: every place it fills is free, and each segment is filled up to its cursor |
| CHDs.CHD.BucketOrder | internal/mphf/mphf.go:95-103 | Exactly the non-empty buckets, each once, larger ones first |
| CHDs.CHD.TryDisplacement | internal/mphf/mphf.go:138-150 | A displacement is accepted exactly when all keys of the segment fall on free and pairwise different slots |
| CHDs.CHD.FindDisplacement | internal/mphf/mphf.go:137-157 | The displacement found is the least one that fits; none is found only if none below the limit fits |
| CHDs.CHD.PlaceAll | internal/mphf/mphf.go:130-164 | On success every bucket holds its first fit and the set bits are exactly the slots of all keys; failure means some bucket has no fit after those before it |
| CHDs.CHD.RunAttempt | internal/mphf/mphf.go:108-119 | One attempt depends on its seed only: whatever earlier attempts left, it succeeds or fails as a fresh placement does with the seed mix(seed + 1 + e\*0x9E3779B97F4A7C15) |
| CHDs.CHD.Clear | internal/mphf/mphf.go:113-118 | Before an attempt no slot is occupied and no displacement is set |
| CHDs.CHD.PackG | internal/mphf/mphf.go:167-192 | After packing, the field of every bucket reads its displacement, also across word boundaries; `maxD` is the greatest displacement and the width is what it needs |
| CHDs.CHD.PackEntries | internal/mphf/mphf.go:179-191 | Every entry is stored without disturbing the ones before it, and all writes are inside the array |
| CHDs.CHD.BuildRank | internal/mphf/mphf.go:220-232 | Each block entry is the number of set bits before the block |
| CHDs.CHD.Rank | internal/mphf/mphf.go:235-247 | Block entry, whole words and masked word together count the set positions strictly below pos |
| CHDs.CHD.Lookup | internal/mphf/mphf.go:207-217 | Lookup on the packed arrays answers what the abstract table says: the rank of the key's slot if that slot is occupied |
| Placement.GroupedIsPermutation | internal/mphf/mphf.go:84-92 | The grouped list is a permutation of the key indices |
| Placement.FillStep | internal/mphf/mphf.go:88-92 | Filing one more key keeps the fill invariant of the counting sort |
| Placement.SuccessSeparatesSlots | internal/mphf/mphf.go:130-164 | A placement that succeeds gives all keys pairwise different slots |
| Placement.DuplicatesNeverPlace | internal/mphf/mphf.go:130-164 | Keys with equal bucket and equal second hash never place: no attempt over repeated keys succeeds |
| Placement.PlacementUnique | internal/mphf/mphf.go:130-164 | First-fit placement is deterministic: two runs agree on every bucket both placed |
| Placement.SuccessExcludesFailure | internal/mphf/mphf.go:130-164 | No attempt can both succeed and get stuck |
| Placement.SegmentFitsIsFits | internal/mphf/mphf.go:138-150 | Fitting segment by segment of the grouped list is fitting bucket by bucket of the keys |
| Placement.SlotMoves | internal/mphf/mphf.go:139-144 | Displacement 0 leaves the hash where it is, and one more moves the slot on by one, wrapping round |
| Tables.RepresentsIsPerfect | internal/mphf/mphf.go:207-217 | Set bits that are exactly pairwise different key slots make lookup a bijection of the keys with 0 .. n-1 and bound every ok answer by n |
| Tables.OccupiedCount | internal/mphf/mphf.go:150-156 | As many slots are occupied as there are keys |
| Tables.PerfectMeansDistinct | internal/mphf/mphf.go:14-15 | A perfect table has no repeated key |
| Tables.AttemptSteps | internal/mphf/mphf.go:108 | Attempt 0 mixes seed + 1, and each further attempt adds the salt once, modulo 2^64 |
| Tables.AttemptSeedsDistinct | internal/mphf/mphf.go:108 | Under an injective mixer different attempts have different seeds |
| Tables.ProgramMixInjective | internal/mphf/mphf.go:40-45 | The mixer of the program is injective |
| Tables.HashesFollowSeeds | internal/mphf/mphf.go:47-48 | Before reduction each hash depends on its own seed and separates keys |
| Tables.HashesReduce | internal/mphf/mphf.go:47-48 | Each hash is the whole one modulo the number of buckets or slots |
| Packing.ReadIsField | internal/mphf/mphf.go:195-204 | Shifting, joining two words and masking reads exactly the digits of the field |
| Packing.Write | internal/mphf/mphf.go:184-190 | Writing an entry sets exactly its digits in the bit array and no others |
| Packing.PackedFields | internal/mphf/mphf.go:167-204 | In a packed array every field equals its entry |
| Bitmaps.SetBit | internal/mphf/mphf.go:272 | Sets one position and no other |
| Bitmaps.TestBit | internal/mphf/mphf.go:271 | True exactly if the position is set |
| Bitmaps.BitAtIsQuotient | internal/mphf/mphf.go:271-272 | Position p is the digit p mod 64 of word p / 64, counted from the least significant one |
| Bitmaps.RankInjective | internal/mphf/mphf.go:234-247 | Rank separates set positions |
| Bitmaps.RankOnto | internal/mphf/mphf.go:234-247 | Every number below the population count is the rank of a set position |
| Bitmaps.PartialWordRank | internal/mphf/mphf.go:243-245 | Whole words plus a masked partial word count the positions below |
| Bitmaps.AndCountIsCardinality | internal/addb/bitset.go:25-36 | The conjunction count of two arrays is the number of common positions |
| Mixers.MixUndone | internal/mphf/mphf.go:40-45 | The multiply and shift expression of `mix` has a left inverse: it loses nothing |
| Mixers.MixReached | internal/mphf/mphf.go:40-45 | `mix` has a right inverse: it reaches every word |
| Mixers.Mix64Permutes | keyer.go:149-156 | `mix64` is a permutation of the 64-bit words, with its inverse |
| Mixers.Mix64Steps | keyer.go:149-156 | Its three shifts as divisions and its two multiplications, with the constants |
| Mixers.ChainSteps | keyer.go:144-146 | What the i-th candidate mixes: base + i\*salt modulo 2^64 |
| Mixers.CandidatesDistinct | keyer.go:144-146 | From any base, different probe numbers give different candidates |
| Keyers.Keyer.BuildKeyer | keyer.go:62-140 | On success exactly the given terms are indexed, each once; up to 4096 terms always succeed and number first occurrences in order; more with the empty term never do; each error has its cause, and a chain that overflows always is the error; the collision count and the longest probe are those of the chains |
| Keyers.Keyer.IndexLarge | keyer.go:90-138 | The large path: the numbered terms are the given ones, each found again by replaying its chain |
| Keyers.Keyer.Lookup | keyer.go:187-210 | ok exactly if the term is indexed, and then the ID is its position; the ID is 0 otherwise |
| Keyers.Keyer.ProbeChain | keyer.go:196-209 | Replaying the chain up to the longest probe finds every indexed term, and a probe that hits another term changes nothing |
| Keyers.Keyer.TermOf | keyer.go:213-218 | The term at an ID, exactly for the IDs below Len |
| Keyers.Keyer.IDSet | keyer.go:222-232 | The set of the IDs of the listed terms that are indexed, and the list of the others: as often as they were listed, at ascending positions |
| Keyers.NotAmongIsMissing | keyer.go:222-231 | The missing list is what stands at the ascending positions of all terms that are not indexed |
| Keyers.NotAmongMultiset | keyer.go:222-231 | A term is missing as often as it was listed if it is not indexed, and never if it is |
| Keyers.AssignKeys | keyer.go:90-115 | Every term gets the first key of its chain that is still free; it stops exactly at a term whose whole chain is taken; the longest probe and the number of moved terms are counted right |
| Keyers.MovedIsCount | keyer.go:112-114 | The collision count is the number of terms that did not keep their first candidate |
| Keyers.KeyedDistinct | keyer.go:93-115 | The keys given to the terms are pairwise different |
| Keyers.NumberOf | keyer.go:125-131 | Every key of a built table has its number: the error branch is dead |
| Keyers.NumberTerms | keyer.go:122-138 | The terms are stored by number, and this fails exactly when the empty term is among them |
| Keyers.NumberedTerms | keyer.go:124-132 | The terms stored by number are the given ones, none lost or repeated |
| Keyers.NumberedReachable | keyer.go:195-208 | Every stored term is reached by one of the probes that lookup replays |
| Keyers.FullChainTakesSixteen | keyer.go:14-16 | With the program's mixer a chain is full only when sixteen different keys are taken |
| Keyers.OverflowIsLate | keyer.go:103-106 | Hence none of the first sixteen terms can overflow the chain |
| Keyers.FirstOf | keyer.go:66-74 | Duplicates are dropped, first occurrence kept, order kept |
| Dedup.FirstOccurrencesInOrder | keyer.go:66-74 | First occurrences follow the order of the input |
| Dedup.InOrderUnique | keyer.go:66-74 | Elements and order determine the list |
| Keyers.KeyedUnique | keyer.go:93-115 | Keys are assigned in one way only |
| Keyers.OverflowIsStuck | keyer.go:101-107 | Assigning keys stops at the term whose chain overflows |
| Wire.MsgRoundTrip | internal/cluster/cluster.go:35-57 | A framed message is read back, whatever follows it, exactly when the payload is at most 2^30 bytes |
| Wire.ReadMsgExactly | internal/cluster/cluster.go:43-57 | A stream is read as a payload and a rest exactly when it is that framed payload of at most 2^30 bytes followed by the rest |
| Wire.MessageBytes | internal/cluster/cluster.go:35-41 | A short message is three zero bytes, its length, and its bytes |
| Wire.NameRoundTrip | internal/cluster/cluster.go:73-91 | A name is read back, whatever follows it, exactly when it is shorter than 65536 bytes |
| Wire.ReadNameExactly | internal/cluster/cluster.go:81-91 | A name is read exactly from its own writing, and is shorter than 65536 bytes |
| Bytes.WordBytesRead | internal/cluster/cluster.go:59-71 | A word array is read back from its memory, also with a few stray bytes after it |
| Bytes.WordBytesPrefix | internal/cluster/cluster.go:66-71 | The words read from any bytes write back its whole words |
| Bytes.LittleEndianByte | internal/cluster/cluster.go:76 | Byte i of the little-endian form is the i-th digit to base 256 |
| Bytes.BigEndianByte | internal/cluster/cluster.go:37 | In the big-endian form it is the i-th from the end |
| Bytes.WordBytesByte | internal/cluster/cluster.go:59-64 | In a word array in memory it stands at 8i + j |
| Wire.ParseEncoded | internal/cluster/cluster.go:145-182 | Every request with names in range is parsed as the request it encodes |
| Wire.ParsedExactly | internal/cluster/cluster.go:142-182 | A message is parsed as a request exactly when it starts with its encoding and at most a broken word follows, or anything after two names |
| Wire.UnknownExactly | internal/cluster/cluster.go:142-182 | Only an operation above 2 closes the connection |
| Wire.LoadSetBytes | internal/cluster/cluster.go:29 | An encoded load, byte for byte |
| Wire.AndStoredBytes | internal/cluster/cluster.go:30 | An encoded count of two stored sets, byte for byte |
| Wire.AndQueryBytes | internal/cluster/cluster.go:31 | An encoded count against a query, byte for byte |
| Wire.Lockstep | internal/cluster/cluster.go:135-189 | Over any stream of well-formed requests the k-th reply answers the k-th request in the state reached by then, and the node ends in the state after all of them |
| Wire.RepliesRead | internal/cluster/cluster.go:183-187 | The reader of the reply stream finds the answers one by one |
| Wire.ServeMessages | internal/cluster/cluster.go:137-188 | What a node sends for any messages, well-formed or not, and the sets it is left with |
| Wire.OneReplyEach | internal/cluster/cluster.go:142-182 | There is a reply per message exactly when every message is a known request |
| Wire.ServeNoRequest | internal/cluster/cluster.go:142-182 | A message that is no request is skipped without a reply; an unknown operation ends the connection |
| Wire.SendableExactly | internal/cluster/cluster.go:32-53 | A request reaches the node exactly when its names are shorter than 65536 bytes and, with words, it has at most 2^30 bytes |
| Nodes.Node.Handle | internal/cluster/cluster.go:135-189 | The connection loop leaves the sets and sends the bytes of the protocol's meaning, for any input bytes |
| Nodes.Node.Perform | internal/cluster/cluster.go:146-182 | Load replaces one named set and acknowledges with zero; the two counts change nothing |
| Nodes.CountBoth | internal/cluster/cluster.go:93-103 | The counting loop computes the conjunction count modulo 2^64, for arrays of different lengths |
| Nodes.Call | internal/cluster/sharded.go:94-105 | A request sent as bytes and its reply read as bytes: the answer of the node, and its new state |
| Sharding.ShardsTile | internal/cluster/sharded.go:50-52 | The ranges s\*W/S tile 0 .. W without gap or overlap; without a shard nothing is covered |
| Sharding.ShardStartIsShare | internal/cluster/sharded.go:50-52 | Shard s starts at the integer part of s\*W/S |
| Sharding.OneOwnerHoldsAll | internal/cluster/sharded.go:56-66 | A single owner of all shards holds the words themselves, in order |
| Sharding.SliceCount | internal/cluster/sharded.go:56-66 | Counting over the concatenated shards of one owner is adding up the counts of its shards |
| Sharding.AllCountIsPrefix | internal/cluster/cluster.go:213-216 | The counts of consecutive ranges add up to the count over the words they cover |
| Sharding.DistributedCount | internal/cluster/sharded.go:86-116 | Whoever owns which shard, the counts of the owners add up to the count over the first W words |
| Clusters.ShardedCluster.constructor | internal/cluster/sharded.go:26-45 | Every shard belongs to the node the ring of the given addresses routes it to, or to the empty address without any; the cluster is sound when there are addresses and shards and the nodes are different; whatever the nodes hold, they mirror the empty database |
| Clusters.BuildRing | internal/cluster/sharded.go:27-30 | The ring of the addresses joined one after another, each once |
| Clusters.ShardedCluster.NodeSlice | internal/cluster/sharded.go:56-66 | The words of the shards of one node, in shard order |
| Clusters.ShardedCluster.LoadSet | internal/cluster/sharded.go:69-83 | Each node holds the slice of the last address that reached it and else what it held; on a sound cluster, nodes that mirror a database mirror the updated one |
| Clusters.ShardedCluster.Gather | internal/cluster/sharded.go:86-116 | The sum of the answers of all nodes, in whatever order they arrive; the nodes keep their sets |
| Gathering.ArrivalOrderIrrelevant | internal/cluster/sharded.go:107-115 | The replies add up to the same total in any order of arrival |
| Gathering.SumOfRemainders | internal/cluster/sharded.go:107-115 | Counts wrapped to 64 bits add up, wrapped, to the wrapped total |
| Clusters.ShardedCluster.IntersectStored | internal/cluster/sharded.go:120-127 | In any state the sum of the node answers; on a sound cluster that mirrors a database, the count of a single machine over the first W words of both sets, whatever else the nodes hold |
| Clusters.ShardedCluster.IntersectQuery | internal/cluster/sharded.go:130-137 | The same for a stored set against a query array |
| Clusters.Run | internal/cluster/sharded.go:69-137 | On any cluster the answers of a run are those of some order of delivery |
| Clusters.Session | internal/cluster/sharded.go:69-137 | Over every run of loads and counts on a sound cluster all answers are those of the single machine, for names that were loaded or that no node holds |
| Clusters.FitsBySize | internal/cluster/cluster.go:32 | What the sessions need of a request: names shorter than 65536 bytes and a whole array of at most 2^30 bytes |
| Machines.LocalStoredCounts | internal/cluster/sharded.go:117-120 | The count of the single machine: the number of common positions below 64 W, zero for an absent name |
| Machines.LocalQueryCounts | internal/cluster/sharded.go:129-130 | The same against a query array |
| Machines.LastLoadStands | internal/cluster/sharded.go:69-83 | The single machine holds for each name the array of its last load |
| Machines.LocalRunAnswers | internal/cluster/sharded.go:69-137 | A run of the single machine has one answer per count, in order, each for the arrays held by then |
| Deliveries.StoredSumIsLocal | internal/cluster/sharded.go:120-127 | Nodes that hold their parts of a database, and any other sets, together answer the count of the single machine |
| Deliveries.QuerySumIsLocal | internal/cluster/sharded.go:130-137 | The same for a query, sliced in the same order |
| Deliveries.DeliveryUpdates | internal/cluster/sharded.go:69-83 | However a load is delivered, a sound cluster stays in step with the database |
| Deliveries.SoundRunIsLocal | internal/cluster/sharded.go:69-137 | Every possible outcome of every run on a sound cluster is the run of the single machine |
| Deliveries.UnsoundMiscounts | internal/cluster/sharded.go:26-83 | On an unsound cluster some bit is lost or counted more than once, in every order of delivery |
| Deliveries.RightExactlyWhenSound | internal/cluster/sharded.go:26-137 | All runs are right, from any state of the nodes and in any order of delivery, exactly when the cluster is sound |
| Coordinators.Coordinator.Dial | internal/cluster/cluster.go:204-218 | The ranges of the connections tile the first W words, none without a connection; whatever the nodes hold, they mirror the empty database |
| Coordinators.Coordinator.LoadSet | internal/cluster/cluster.go:221-234 | Each connection finds the last range sent to its node, nothing else changes; when connections that share a node have no words the mirrored database is updated |
| Coordinators.Coordinator.Gather | internal/cluster/cluster.go:236-270 | The sum of the answers by position, whatever the order of the replies |
| Coordinators.Coordinator.IntersectStored | internal/cluster/cluster.go:274-281 | The total of the node answers in any state; the single machine's count when the database is mirrored |
| Coordinators.Coordinator.IntersectQuery | internal/cluster/cluster.go:285-292 | The same for a stored set against a query array |
| Coordinators.Run | internal/cluster/cluster.go:220-292 | Over any connections, shared nodes included, the answers of a run are exactly those of the run on values |
| Coordinators.RangeSession | internal/cluster/cluster.go:220-292 | When connections that share a node have no words, every count of every run is the single machine's |
| Coordinators.FitsBySize | internal/cluster/cluster.go:32 | The same sizes suffice here |
| Ranges.SoundRunIsLocal | internal/cluster/cluster.go:220-292 | The run on values is then the run of the single machine, whatever else the nodes held at first |
| Ranges.RightExactlyWhenSharedAreEmpty | internal/cluster/cluster.go:204-292 | All runs are right, modulo 2^64 and from any state of the nodes, exactly when the ranges cover the words and connections that share a node have none |
| Ranges.RightExactlyWhenDistinct | internal/cluster/cluster.go:204-292 | With at least one word per connection: exactly when all nodes are different |
| Ranges.CountAfterLoad | internal/cluster/cluster.go:221-281 | What the coordinator answers after a load is the wrapped total over the ranges found |
| OneBits.OneBitOwned | internal/cluster/sharded.go:56-66 | A single bit is counted once, by the owner of its shard |
| Rings.Ring.constructor | internal/addb/ring.go:26-35 | An empty ring; no or negative replicas mean 100 |
| Rings.Ring.AddNode | internal/addb/ring.go:50-59 | The new node claims its virtual points; on a non-empty ring every position keeps its node or moves to the new one; the cache invariant holds |
| Rings.Ring.RemoveNode | internal/addb/ring.go:62-71 | The virtual points go; positions of other nodes stay exactly when each of their points that goes is served by its node afterwards |
| Rings.Ring.Route | internal/addb/ring.go:74-88 | The owner of the first point at or after the hash, else of the first point; none exactly on the empty ring |
| Rings.Ring.EnsureSorted | internal/addb/ring.go:100-109 | The cache is the ordered set of points, rebuilt only when absent |
| Rings.SuccessorUnique | internal/addb/ring.go:80-87 | The first point at or after a position, wrapping round, is unique |
| Rings.AddMovesToNewNodeOnly | internal/addb/ring.go:50-59 | A position is served by the new node exactly when its successor is one of its points, and otherwise as before |
| Rings.RemoveMovesOwnedOnly | internal/addb/ring.go:62-71 | Other nodes' positions stay exactly when each point taken from another node is served by that node afterwards |
| Rings.RemoveOwnPointsOnly | internal/addb/ring.go:62-71 | In particular when the removed points are all its own |
| Rings.RemoveCanDisturbOthers | internal/addb/ring.go:67-69 | In the ring of "a", "b" and "c" whose nodes "a" and "b" hash to one point, removing "a" moves a position of "b" to "c" |
| Rings.AddThenRemove | internal/addb/ring.go:50-71 | Adding and removing restores the points exactly when the virtual points were free |
| Rings.AddThenRemoveRoutes | internal/addb/ring.go:50-71 | It restores all routes exactly when each claimed point of another node is served by that node without it |
| Rings.AddThenRemoveCanMoveRoutes | internal/addb/ring.go:50-71 | In the ring of "b" and "c", adding "a" that hashes to the point of "b" and removing it moves a position of "b" to "c" |
| Rings.PointsExactly | internal/addb/ring.go:50-71 | The points after a node joins or leaves: exactly the given ones with those that the node hashes to, or without them, and whose they are |
| Bitsets.Bitset.Set | internal/addb/bitset.go:20 | Adds one ID to the set of positions |
| Bitsets.Bitset.Test | internal/addb/bitset.go:23 | Membership in the set of positions |
| Bitsets.Bitset.AndPopcount | internal/addb/bitset.go:26-36 | The number of common positions, also for different lengths |
| ShardedBitsets.ShardedBitset.constructor | internal/addb/shard.go:25-33 | The shards are wide enough for the universe, and the set is empty |
| ShardedBitsets.ShardedBitset.Set | internal/addb/shard.go:44-50 | Adds exactly the ID, if it is below ShardBits\*NumShards, and else nothing |
| ShardedBitsets.ShardedBitset.Has | internal/addb/shard.go:53-59 | True exactly for the IDs in the set |
| ShardedBitsets.ShardedBitset.IntersectCountSerial | internal/addb/shard.go:65-71 | The size of the intersection of the two sets of IDs |
| ShardedBitsets.ShardedBitset.IntersectCount | internal/addb/shard.go:74-109 | The same for any number of workers and any order in which they add their counts |
| ShardedBitsets.ChunksAddUp | internal/addb/shard.go:85-107 | The chunks of the workers that start cover all shards once |
| ShardedBitsets.SizesAddUp | internal/addb/shard.go:65-71 | The sizes of the shards add up to the size of the set of IDs |
| ShardedBitsets.IdsOfPairwise | internal/addb/shard.go:65-71 | Intersecting shard by shard intersects the sets of IDs |
| ShardedBitsets.SetInShard | internal/addb/shard.go:44-50 | Setting an offset in one shard adds that ID and no other |
| Kernels.PositionsAreExact | internal/addb/extract.go:6-21 | The extracted list is strictly ascending, holds exactly the set positions, and is as long as the population count |
| Kernels.ExtractedIsUnique | internal/addb/extract.go:6-21 | It is the only such list, so all extractors return the same |
| Kernels.ExtractSet | internal/addb/extract.go:8-21 | The reference double loop returns that list |
| Kernels.ExtractTrailing | internal/simd/extract_generic.go:11-21 | The loop over trailing zeros returns that list |
| Kernels.ExtractScalar | internal/simd/extract.c:14-25 | The scalar C kernel writes that list and stays inside the output |
| Kernels.ExtractAvx512 | internal/simd/extract.c:28-54 | So does the kernel that skips zero words of a block by an 8-digit mask |
| Kernels.AndPopcountScalar | internal/simd/and_popcount.c:24-28 | The conjunction count of the first n words |
| Kernels.AndPopcountLanes | internal/simd/and_popcount.c:10-21 | Eight lane accumulators and the tail give the same, for every n |
| Searches.Contains | internal/addb/search.go:32-42 | The branchless scan finds the ID exactly if it is in the shard |
| Searches.EqualIsEquality | internal/addb/search.go:35-38 | The arithmetic kernel is 1 for equal words and 0 otherwise |
| Searches.ParallelSearchEngine | internal/addb/search.go:49-89 | For any number of workers: the first occurrences of the present IDs, in batch order |
| Searches.MergeUnique | internal/addb/search.go:93-111 | Concatenation with repetitions dropped |
| Searches.FirstFoundIsExact | internal/addb/search.go:44-48 | The result holds exactly the batch elements in the shard, in the order in which they first occur in the batch |
| Searches.FilterThenDedup | internal/addb/search.go:88-111 | Filtering and then dropping repetitions is dropping repetitions while filtering |
| Searches.ContainsSorted | internal/addb/setops.go:16-19 | Binary search finds the ID exactly if it is in the sorted shard |
| Searches.SearchSortedBatch | internal/addb/setops.go:23-36 | The serial search returns the same list as the parallel one |
| Searches.EnginesAgree | internal/addb/search.go:44-48 | Sorting the shard does not change the result |
| SetOps.IntersectSorted | internal/addb/setops.go:40-60 | On merely sorted lists: the sorted multiset intersection, each value as often as in the list that has it less |
| SetOps.MergeIsIntersection | internal/addb/setops.go:44-58 | Merging sorted lists is multiset intersection |
| SetOps.IntersectMany | internal/addb/setops.go:63-75 | The fold over many lists, early exit included, is the intersection of all |
| SetOps.MeetOfSets | internal/addb/setops.go:62-75 | Among lists without repetitions a value is in the result once exactly if it is in all lists |
| SetOps.MeetIsLeast | internal/addb/setops.go:62-75 | Among any lists a value is in the result as often as in the list that has it least |
| Sets.Set.Add | setrixdb.go:46-52 | Adds the IDs to the mathematical set |
| Sets.Set.Compact | setrixdb.go:79-86 | In-place compaction of the sorted list keeps each element once |
| Sets.Set.Finalize | setrixdb.go:74-88 | Normalising changes the list but not the set, and does nothing the second time |
| Sets.Set.Len | setrixdb.go:55-58 | The number of elements |
| Sets.Set.Has | setrixdb.go:61-64 | Membership |
| Sets.Set.IDs | setrixdb.go:67-72 | The elements in ascending order |
| Sets.Intersect | setrixdb.go:92-101 | A new set of the elements in all given sets, empty for none; the given sets keep theirs |
| Sets.Union | setrixdb.go:104-111 | A new set of the elements in any given set |
| Persist.WriteFile | persist.go:22-48 | The file is the encoding of the ascending list of the elements |
| Persist.ReadFile | persist.go:51-79 | Reading decides as the format's meaning does, error by error, and gives a new set already marked sorted |
| Persist.FileOfTwo | persist.go:22-48 | The file of the set of 5 and 258, byte for byte |
| Persist.RejectedBecause | persist.go:56-77 | Exactly when each of the four errors is returned |
| Persist.AcceptedExactly | persist.go:51-79 | A file is accepted as a list exactly when it starts with its encoding and the list is strictly ascending |
| Persist.RejectedExactly | persist.go:56-77 | A file is rejected exactly when it starts with no encoding of an ascending list |

## Left out

- TCP, listeners, the HTTP server, the command line, JSON, files and directories: messages and files are byte sequences.
- Network failures, timeouts and several callers on one coordinator: the code has no recovery and no lock there. An error return (`ok` false) is kept, its cause is not modelled.
- Several connections to one node at the same time: each request runs to its end, as the lock of the node makes it do.
- Concurrent readers of one `Set`: its normalisation writes on reads without a lock.
- cgo, `unsafe` views, DMA addresses and CPU dispatch: the C kernels are loops over words, and a word array in memory is little-endian.
- The 63-bit counters of the bitsets and C kernels are unbounded here; they wrap only beyond 2^57 words.
- CHDs.CHD.BuildOpts: computes the sizes from the load factors in exact arithmetic, where the program rounds in floating point; BuildSized covers whatever sizes come out.
- CHDs.CHD.Build: the same.
- Sorting is one deterministic sort; proofs use only that the result is ordered and a permutation, so ties may fall either way.
- FNV and the positional term hash: everything is proved for any hash functions. Anagram distinctness of the positional hash is false in general and not claimed.
- Hash quality, collision rates, balance of the ring, bits per key and timings: statistical statements.
- `SparseSet`, `FlatSynonymStorage`, `Index`, the C handle registry, `Filter`, benchmarks and demos: the same code again or easy members.
