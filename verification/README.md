# Mini-Dynamo: a verified model

This project models a Dynamo-style key-value store and proves what its parts promise, over every
input and every run. It has four linked cores.

**The storage engine** (`Codec`, `Index`, `Log`, `Engine`, `Counters`, `Oversize`, `Damage`, `Recovery`,
`Bitcask`). A data file is a byte sequence with a write buffer behind it; `Bitcask.Bitcask` is the engine object, and each of its
methods performs exactly one `Engine.Step`. Behind the bytes stands a list of records: the file and
the buffer are its encoding, the index is its replay. On that rest the refinement of a plain map by
every run, replay equal to the live index, compaction in any map order, the reading of torn logs, and
runs in which the process is lost and started again. `Counters` follows the index's counters through
the runs, `Oversize` says what a record too long for its header breaks, and `Damage` what a record
changed on disk does to opening, reading and compaction. The checksum is an arbitrary function. What
the buffered writer moves to the file, and when, is arbitrary.

**Quorum replication** (`Quorum`, `Availability`, `Coordinator`, `Replica`, `QuorumManager`). `Quorum` is the step
system of one key: replica writes, acknowledgements, replies and repairs in any order, and writes
delivered late. Its main result is freshness over whole runs, and that reads are fresh exactly when
the requirements overlap by more than the late writes. `Availability` adds when exactly an
acknowledged key is found at all.
`Coordinator` holds the coordinator's loops and shows that each operation is a series of those
steps; `Replica` shows that storage engines, one a node, hold the replica map of those steps.
`QuorumManager` interleaves worker goroutines, the waiter goroutine and the caller around a mutex, a
wait group and a channel that must be closed once.

**The hash ring** (`VirtualNodes`, `Ring`, `HashRing`, `TokenRanges`). The hash is an arbitrary function; that no two
tokens collide is a hypothesis only where it is needed, and some hash meets it whenever there are no
more tokens than hashes (`HashRing.SomeHashIsCollisionFree`). Sorting, binary search and the walks are
loops proved against the definitions in `Ring`.

**Causality and background protocols** (`VectorClock`, `Resolver`, `Causality`, `Handoff`, `Gossip`,
`Detection`, `Verdicts`, `Interruptions`, `Membership`). Vector clocks and what they characterise,
resolution, bounded hint queues with a retry limit, heartbeat merging and the failure detector.
`Detection` interleaves the detector's ticks with the receiver of gossip at the granularity of their
calls of the list and of the detector's reads of a node's state; `Verdicts` says when exactly a node is
marked dead, what is lost on the way and what the callback is told, and `Interruptions` has runs in
which that happens. In `Membership` the node objects are shared by
reference, as the detector's callback logic depends on it.

`Sequences` holds what several cores need about sequences without repeats and about counting, and
`Types` the identifier of a node.

Whole-run results are stated over lists of actions (`IsRun`, `StateAfter`) or over reachable states.
A class keeps the fields its source counterpart updates, and its methods tie the new state to the old
one through the functions the run results are about.

## Where the code does not do what it or its documentation says

- A `Put` over a tombstone does not count the key as active again. The active counter is short by
  exactly the number of such revivals (`Index.CounterDrift`), and `Keys` asks for a negative capacity
  exactly when they outnumber the live keys (`Index.KeysFailsExactly`, `Index.KeysCanFail`). Opening
  the store again does not help, compaction does (`Counters.KeysFailInRunExactly`, `Counters.CompactMakesExact`).
- A `Put` whose key or value does not fit the header's 32-bit lengths is accepted and not kept
  (`Oversize.PutKeptExactly`).
- Recovery on start is documented as automatic. A log cut anywhere but on a record boundary cannot be
  opened at all (`Log.TornLog`, `Engine.CrashRecovery`), because a wrapped error is not the bare end of file.
- The load percentages divide by a 64-bit sum of range sizes that is zero on every ring, so none is a
  finite number (`TokenRanges.TotalSpaceIsZero`, `TokenRanges.LoadDistribution`).
- On colliding tokens the token ranges do not partition the hash space: some hash is not in
  exactly one range (`TokenRanges.RangesPartition`, `TokenRanges.TieBreaksPartition`).
- Replicas never compare timestamps. With at most `d` writes delivered after their operation, reads
  stay fresh exactly when the two requirements exceed the number of replicas and `d` together
  (`Quorum.FreshExactlyWhenOverlapping`); two of three and two of three do not survive a single one
  (`Quorum.LateWriteBreaksFreshness`).
- A replica without a copy counts as no response. A Get that every listed node answers finds all
  acknowledged keys exactly when it needs no more answers than the Put needed acknowledgements
  (`Availability.FoundExactly`): after a Put at level one, a quorum Get that all replicas answer
  reports that the key was not found (`Availability.PutAtOneIsMissed`).
- A delivery, or giving up, removes every hint with the key, also one stored after the queue was
  copied and never sent. Barring eviction and expiry since the target's round began, it happens exactly
  when the key was stored since then (`Handoff.DropsNewerExactly`, `Handoff.DroppedUnsent`).
- When members come back by a heartbeat, the detector's revival has nothing left to do and its
  callback stays silent. It fires exactly when a stale transition of the same member was carried out
  between the two calls of the list (`Verdicts.RevivalCallsBackExactly`).
- A heartbeat that arrives between the detector's look at a node and the carrying out of what it
  decided is lost: the node is marked dead while alive (`Verdicts.HeartbeatLostExactly`,
  `Interruptions.HeartbeatDuringTickIsLost`).
- The detector reads a node's state again and again during one check. A heartbeat in between can make
  it keep silent about a transition, report another one than it made, or call back when it made none
  (`Verdicts.CallbackLostExactly`, `Verdicts.CallbackWrongExactly`, `Verdicts.CallbackUncalledForExactly`,
  `Interruptions.SuspicionIsNotReported`, `Interruptions.DeathIsReportedAsRecovery`).
- Gossip that arrives while a tick is under way does not save a node from being marked dead
  (`Verdicts.GossipIgnoredExactly`, `Interruptions.GossipDuringTickIsIgnored`).
- A date from the future can be taken back by a real heartbeat, and only that makes a heartbeat less
  than the greatest date heard (`Detection.GreatestExactly`, `Interruptions.FutureGossipIsUndone`).
- The state of a new member is that of the first message about it, so it depends on the order of
  messages unless they are unanimous (`Gossip.StateIsFirstNamed`, `Gossip.StateOrderIrrelevant`).

## Model

| member | source | states |
|---|---|---|
| Codec.RoundTripExactly | internal/storage/bitcask.go:116-209 | reading a written record followed by any bytes gives back the record and consumes 21 + key + value bytes, for all suffixes, iff both lengths fit 32 bits |
| Codec.ReadBack | internal/storage/bitcask.go:116-159 | any bytes that start with a written record read as that record, negative timestamps and both tombstone flags included |
| Codec.ReadsExactly | internal/storage/bitcask.go:116-159 | bytes read as a record iff it is all there and the number in its first four bytes is the checksum of the rest, and are refused as corrupt iff it is all there with another checksum; key, value, timestamp and tombstone flag are what lies at their places |
| Codec.DamageIsRefused | internal/storage/bitcask.go:140-147 | a record changed anywhere but in its length fields is refused iff the checksum tells, always so when only the stored checksum was changed |
| Codec.Layout | internal/storage/bitcask.go:162-180 | where each field lies in a written record, all numbers big-endian, the timestamp modulo 2^64 and the lengths modulo 2^32 |
| Codec.BigEndian | internal/storage/bitcask.go:133-138 | the numbers read from four or eight bytes are their values in base 256, first byte first |
| Codec.ConversionsKeepBits | internal/storage/bitcask.go:157-171 | the conversions between signed and unsigned widths change a number by a multiple of the target's range only |
| Codec.TornRecord | internal/storage/bitcask.go:128-147 | a proper prefix of a record is a clean end of file only when empty; otherwise the error says which part is cut |
| Codec.TruncatedLengths | internal/storage/bitcask.go:164-171 | a record whose lengths do not fit is never read to its end |
| Codec.BuildHeader | internal/storage/bitcask.go:167-180 | the header buffer filled in place, with the checksum over the rest, is the start of the record's encoding |
| Codec.PutUint64 | internal/storage/bitcask.go:169-171 | stores the eight bytes of which the number is the big-endian value, and nothing else |
| Index.CounterDrift | internal/storage/index.go:52-96 | after any operations the tombstone counter is exact and the active counter is the number of live keys less the number of revivals |
| Index.KeysFailsExactly | internal/storage/index.go:57-61 | the capacity asked for by Keys is negative iff revivals outnumber live keys |
| Index.KeysCanFail | internal/storage/index.go:108-119 | put, delete, put, delete of one key makes that capacity -1 |
| Counters.CountersOfLog | internal/storage/index.go:52-96 | in the index of any log, and so after crashes too, the tombstone counter is exact and the active counter is short by the records that store a key over its tombstone |
| Counters.KeysFailInRunExactly | internal/storage/index.go:108-114 | after any engine run, closings and reopenings included, the active counter is short by the Puts over a deleted key since the last compaction, and Keys fails iff they outnumber the live keys |
| Counters.CompactMakesExact | internal/storage/bitcask.go:404-459 | a compaction makes both counters exact |
| Counters.KeysCanFailInRun | internal/storage/bitcask.go:251-289 | storing and deleting one key twice is a run after which the active counter is -1 |
| Counters.GetErrorsExactly | internal/storage/bitcask.go:220-226 | after any run a Get of an open store reports a deleted key iff the key was deleted after its last Put, or without any, since the last compaction, and a missing key iff it is neither there nor so deleted |
| Counters.TombstoneEntry | internal/storage/index.go:72-96 | in the index of any log a tombstone keeps position and size of the key's last Put, zeros if there was none, and the time of the first delete since |
| Index.KeyIndex.Put | internal/storage/index.go:52-69 | replaces the entry and counts only a key that was absent |
| Index.KeyIndex.Delete | internal/storage/index.go:72-96 | marks or creates a tombstone, adjusts both counters, and reports whether the key was live |
| Index.KeyIndex.Get | internal/storage/index.go:33-49 | returns the entry whether or not it is a tombstone |
| Index.KeyIndex.Has | internal/storage/index.go:99-105 | a key is there iff its entry is no tombstone |
| Index.KeyIndex.ListKeys | internal/storage/index.go:108-119 | lists each live key once, or fails on a negative capacity |
| Log.FileFormatIsLawful | internal/storage/bitcask.go:116-209 | the file's record format has the framing laws that the log results rest on |
| Log.ReplayWhole | internal/storage/bitcask.go:84-113 | replaying a whole log rebuilds the index of its records, offsets, sizes, timestamps, tombstones and counters |
| Log.TornLog | internal/storage/bitcask.go:84-159 | a log cut at any byte replays iff the cut is on a record boundary, and then to the index after that many records |
| Log.IndexLocates | internal/storage/bitcask.go:251-289 | a key is live iff its last record is a Put, and its entry then points at that record |
| Log.ReadAtIndex | internal/storage/bitcask.go:212-248 | reading at a live key's offset gives the value and timestamp of its last Put |
| Engine.StepRefines | internal/storage/bitcask.go:212-462 | every operation keeps bytes, position and index explained by one record list, acts on its meaning as on a map, and answers as the map does |
| Engine.RunRefinesMap | internal/storage/bitcask.go:162-462 | after any run, compactions and reopenings included, all replies were those of a plain map and a replay of the flushed file gives the live index field for field |
| Engine.CrashRecovery | internal/storage/bitcask.go:84-113 | losing the buffer at any point, the file reopens iff it ends on a record boundary and then to a prefix of the history; with sync writes always, to everything |
| Oversize.PutKeptExactly | internal/storage/bitcask.go:164-171 | after a Put, whatever is done later is answered as by the plain map iff both lengths fit the header; a longer value is not read back and a longer key does not survive reopening |
| Damage.SpoiledFileStaysShut | internal/storage/bitcask.go:84-113 | a log with one record changed so that its checksum tells, live or not, is not opened: the replay stops at that record as corrupt |
| Damage.GetFromSpoiledStore | internal/storage/bitcask.go:212-248 | when a record is damaged under an open store, a Get of the key it is current for fails, and every other live key is answered as before |
| Damage.CompactionRefusesSpoiled | internal/storage/bitcask.go:386-401 | a compaction that would have to copy the damaged record fails, with file and index as they were |
| Engine.DataFileRefinesMap | internal/storage/bitcask.go:116-462 | the refinement for the data file with any checksum function |
| Engine.DataFileRecovers | internal/storage/bitcask.go:42-113 | what is left of the data file after a crash, with any checksum function |
| Recovery.LifeRollsBack | internal/storage/bitcask.go:42-113 | through any operations and crashes every reply is that of the plain map of a history of writes, which each crash rolls back to a prefix that keeps all that was flushed |
| Recovery.DataFileRollsBack | internal/storage/bitcask.go:42-358 | the same for the data file with any checksum function, the live index being what a replay rebuilds |
| Engine.CompactionKeepsContents | internal/storage/bitcask.go:361-462 | for any order of the live keys the copy succeeds, means the same map, has no tombstone, one record a key, and the log shrinks by at least a header for each record dropped |
| Engine.CompactedRecordsTile | internal/storage/bitcask.go:418-432 | the new records lie end to end from 0 to the new position and each reads where it lies |
| Engine.CompactionCrashSafe | internal/storage/bitcask.go:435-459 | the old file before the rename and the new one after it replay to the same live map |
| Engine.NothingUnreadable | internal/storage/bitcask.go:386-401 | in every represented state compaction finds each live record readable |
| Bitcask.RebuildIndex | internal/storage/bitcask.go:84-113 | the reading loop computes the replay, or stops with an error at the offset where it fails |
| Bitcask.NewBitcask | internal/storage/bitcask.go:42-81 | opens the file with the replayed index and its length as position, or not at all |
| Bitcask.Bitcask.WriteEntry | internal/storage/bitcask.go:162-209 | appends exactly the record's encoding behind all bytes written so far, and flushes with sync writes |
| Bitcask.Bitcask.Put | internal/storage/bitcask.go:251-268 | one Put step of the engine |
| Bitcask.Bitcask.Delete | internal/storage/bitcask.go:271-289 | one Delete step: a tombstone record, whether or not the key was there |
| Bitcask.Bitcask.Get | internal/storage/bitcask.go:212-248 | one Get step: flushes and reads at the indexed offset |
| Bitcask.Bitcask.Has | internal/storage/bitcask.go:292-301 | one Has step; a closed store has nothing |
| Bitcask.Bitcask.Keys | internal/storage/bitcask.go:304-313 | each live key once and nothing when closed, or a failure iff the active counter is negative |
| Bitcask.Bitcask.Sync | internal/storage/bitcask.go:345-358 | one Sync step: everything is in the file |
| Bitcask.Bitcask.Close | internal/storage/bitcask.go:323-342 | one Close step: flushed, and closed for good |
| Bitcask.Bitcask.Compact | internal/storage/bitcask.go:361-462 | one Compact step: file, index and position swapped for the copy, or nothing changed on a failed read |
| Bitcask.CopyLive | internal/storage/bitcask.go:386-433 | the copying loop, in whatever order the map yields the live keys |
| Quorum.Freshness | internal/replication/coordinator.go:80-153 | in every run whose reads overlap by more than the late writes, as many listed replicas as the newest acknowledged Put needed, less the late writes, hold it or something newer, and every successful Get returns it or something newer, despite failed Puts and unconditional repairs |
| Quorum.StepKeepsInv | internal/replication/coordinator.go:80-153 | each replica write, acknowledgement, reply, end of operation and repair step keeps the freshness invariant |
| Quorum.FreshExactlyWhenOverlapping | internal/replication/coordinator.go:315-336 | with one level for Puts and one for Gets and any bound on late writes, all reachable reads are fresh iff the two requirements exceed the replicas and the bound together (or one of them can never be met on a shorter list) |
| Quorum.FreshnessByLevel | internal/replication/coordinator.go:315-336 | the same for each of the nine pairs of levels, in the numbers of the configuration: a Get at ALL, and a Get after a Put at ALL, is fresh without late writes, ONE with ONE only on a single replica |
| Quorum.LateWriteBreaksFreshness | internal/api/handlers.go:306 | two of three and two of three: fresh in every reachable state without late writes, and not with one |
| Quorum.PutReaches | internal/replication/coordinator.go:80-114 | a whole Put, whatever becomes of each request, is a series of those steps |
| Quorum.GetReaches | internal/replication/coordinator.go:117-153 | a whole Get, whichever answers are heard, is a series of those steps |
| Availability.FoundExactly | internal/replication/coordinator.go:117-140 | a Get that all listed nodes answer finds every acknowledged key in all reachable states iff it needs no more answers than the Put acknowledgements, or no Put can be acknowledged; late writes and repairs make no difference |
| Availability.PutAtOneIsMissed | internal/replication/coordinator.go:138-140 | on three nodes a Put at level one can be missed by a quorum Get that all answer, a quorum Put cannot |
| Coordinator.GetFindsAcknowledged | internal/replication/coordinator.go:128-140 | so Get itself, hearing from all nodes, has enough responses for an acknowledged key |
| Coordinator.GetIsFresh | internal/replication/coordinator.go:138-152 | what Get answers from any reachable state is at least as new as every acknowledged Put, when the requirements overlap by more than the late writes so far |
| Coordinator.RepairReaches | internal/replication/coordinator.go:297-312 | a whole read repair is a series of those steps |
| Coordinator.GetThenRepair | internal/replication/coordinator.go:138-152 | a successful Get followed by the repair it starts, whatever is heard and delivered, is a series of those steps |
| Coordinator.RepairMends | internal/replication/coordinator.go:297-312 | after a repair every other listed node it reached holds exactly the latest copy, so does the coordinator unless its own copy is newer, which it keeps, and nodes not reached or not listed are untouched |
| Coordinator.RepairConverges | internal/replication/coordinator.go:297-312 | a repair that reaches all, with the latest copy of all, leaves that copy at every listed node |
| Coordinator.AcksByLevel | internal/replication/coordinator.go:315-324 | a Put has enough acknowledgements at ALL iff every listed node applied and acknowledged it, at ONE iff some node did, at QUORUM iff the write quorum is met |
| Coordinator.RepliesByLevel | internal/replication/coordinator.go:327-336 | a Get has enough responses at ALL iff every listed node has a copy and was heard, at ONE iff some node has and was, at QUORUM iff the read quorum is met |
| Coordinator.HeardAreReplies | internal/replication/coordinator.go:131-140 | on a list without repeats the number of collected responses is the number of distinct nodes that replied; this is where the preference list's distinctness is used |
| Coordinator.Coordinator.Put | internal/replication/coordinator.go:80-114 | succeeds iff enough distinct nodes of the preference list acknowledged, said for each level, and leaves whatever was delivered either way |
| Coordinator.Coordinator.Get | internal/replication/coordinator.go:117-153 | answers with a reply of greatest timestamp, reports a missing key on too few replies, said for each level, and indexes an empty list exactly when none is needed and none came |
| Coordinator.Coordinator.ReplicateToNodes | internal/replication/coordinator.go:156-184 | records one result a node, true exactly for acknowledged writes |
| Coordinator.Coordinator.ReadFromNodes | internal/replication/coordinator.go:187-218 | collects the copies of the nodes that answered and have one, in list order |
| Coordinator.Coordinator.ReadRepair | internal/replication/coordinator.go:297-312 | writes the local copy only when older or different at the same timestamp, and remote copies unconditionally: a reached node ends with the latest copy, said node by node |
| Replica.EnginesHoldReplicas | internal/api/handlers.go:285-338 | storage engines, one a node, hold the replica map of a key through any operations: a Put is an unconditional replica write, a Delete forgets the copy, all else changes nothing, a Get answers with the copy |
| Replica.Server.HandleReplication | internal/api/handlers.go:285-316 | performs the storage's Put or Delete and reports its failure |
| Replica.Server.HandleInternalRead | internal/api/handlers.go:319-338 | refuses an empty key, reports a failed read as not found, else returns the copy |
| QuorumManager.EveryInterleaving | internal/replication/quorum.go:53-181 | every interleaving of n operations takes at most 10n + 6 steps and closes the channel at most once; success is returned only with the required real successes, failure only after all operations ended with too few; when nothing moves the caller has returned iff enough succeeded or all are done, and in the end the channel was closed exactly once |
| QuorumManager.QuietMeansDone | internal/replication/quorum.go:95-107 | no deadlock: once nothing but unfinished operations can move, the caller has returned iff enough succeeded or all are done |
| QuorumManager.StepKeepsInv | internal/replication/quorum.go:67-107 | each step of a worker, the waiter or the caller keeps mutex, wait group, counters and channel consistent |
| QuorumManager.StepProgresses | internal/replication/quorum.go:67-107 | each step of each goroutine brings the end nearer |
| QuorumManager.QuorumsOverlap | internal/replication/quorum.go:111-181 | a successful read over the same at most N nodes shares a node with every successful write when the requirements exceed N, and returns something at least as new as that node answered |
| QuorumManager.ValidatedMeansOverlap | internal/replication/quorum.go:208-210 | the validation holds iff every two reachable successful executions overlap |
| QuorumManager.ScanLatest | internal/replication/quorum.go:169-178 | picks the first entry with the greatest timestamp |
| Ring.PreferenceShape | internal/ring/hash_ring.go:125-159 | a preference list has no repeats, min(n, nodes) members, starts with the key's owner and is a prefix of every longer one |
| Ring.RemovalDisruption | internal/ring/hash_ring.go:79-97 | on any sorted ring, collisions or not, removing a node leaves each list the old one, taken one longer, with the node erased |
| Ring.AdditionDisruption | internal/ring/hash_ring.go:46-76 | on a collision-free ring each new list without the newcomer is a prefix of the old one and a key's owner changes only to the newcomer |
| VirtualNodes.TextsDiffer | internal/ring/hash_ring.go:57-60 | the hashed texts of two virtual nodes are equal iff node and number are, whatever the nodes are called |
| VirtualNodes.DecimalReadsBack | internal/ring/hash_ring.go:59 | the number in a text is in decimal, read back as itself, without leading zeros |
| VirtualNodes.TwelfthToken | internal/ring/hash_ring.go:59-60 | virtual node 12 of node a lies at the hash of `a#vnode12` |
| HashRing.StepKeepsRepresentation | internal/ring/hash_ring.go:46-97 | every membership change keeps the ring sorted and holding exactly the members' tokens, once each |
| HashRing.HistoryRepresents | internal/ring/hash_ring.go:46-97 | so does every history, and the members are those added and not removed since |
| HashRing.CollisionFreeExactly | internal/ring/hash_ring.go:57-60 | a ring is free of collisions iff the hash tells the texts of all its virtual nodes apart |
| HashRing.SomeHashIsCollisionFree | internal/ring/hash_ring.go:57-60 | for any members with at most 2^64 virtual nodes together some hash does |
| HashRing.HistoryIndependence | internal/ring/hash_ring.go:46-97 | without collisions any two histories with the same final members give the same ring and the same lists |
| HashRing.AddThenRemove | internal/ring/hash_ring.go:46-97 | adding a new node and removing it is the identity |
| HashRing.MemberTokens | internal/ring/hash_ring.go:55-68 | a member owns exactly the configured number of virtual nodes, anyone else none |
| HashRing.PreferenceList | internal/ring/hash_ring.go:125-159 | on every reachable ring a list is distinct members, n or all there are, headed by the owner, and a prefix of every longer one |
| HashRing.RemoveDisruption | internal/ring/hash_ring.go:79-97 | the removal law on every reachable ring |
| HashRing.AddDisruption | internal/ring/hash_ring.go:46-76 | the addition law on every reachable ring whose tokens stay distinct |
| HashRing.HashRing.AddNode | internal/ring/hash_ring.go:46-76 | appends the node's tokens and sorts, or does nothing for a known node |
| HashRing.HashRing.RemoveNode | internal/ring/hash_ring.go:79-97 | filters out the node's tokens, or does nothing for an unknown one |
| HashRing.HashRing.GetNode | internal/ring/hash_ring.go:100-121 | binary search with wrap-around finds the owner |
| HashRing.HashRing.GetNodes | internal/ring/hash_ring.go:125-159 | the walk with its set of seen nodes computes the preference list; a negative length fails |
| HashRing.CollectDistinct | internal/ring/hash_ring.go:141-156 | walking indices modulo the length with a set of seen nodes gives the first distinct nodes met; `GetNodes` starts it on the clockwise walk |
| TokenRanges.RangesPartition | internal/ring/vnode.go:25-49 | the ranges put each hash in exactly one iff no two virtual nodes share a hash, and the range of a hash then names the node that answers for it |
| TokenRanges.TieBreaksPartition | internal/ring/vnode.go:25-49 | with a tie at all, the first token's hash is not in exactly one range |
| TokenRanges.SizeCountsHashes | internal/ring/vnode.go:73-82 | a range's integer size is the number of its hashes, and the code computes it modulo 2^64 |
| TokenRanges.SizesSumToSpace | internal/ring/vnode.go:72-85 | as integers the sizes of a collision-free ring sum to 2^64 |
| TokenRanges.TotalSpaceIsZero | internal/ring/vnode.go:72-85 | the uint64 total is zero on every ring |
| TokenRanges.LoadIsExactShare | internal/ring/vnode.go:72-85 | a node's uint64 load is exactly the number of hashes it owns, or zero when it owns all |
| TokenRanges.LoadDistribution | internal/ring/vnode.go:66-93 | the loops give each node on the ring an infinite percentage, or no number when its load is zero, and never a finite one |
| TokenRanges.PercentagesAreMeaningless | internal/ring/vnode.go:87-90 | on a collision-free ring it is no number exactly for a node that owns everything or nothing |
| TokenRanges.PercentagesAddUp | internal/ring/vnode.go:87-90 | of a positive total they would be finite, add up, and be 100 for the whole |
| TokenRanges.GetTokenRanges | internal/ring/vnode.go:25-49 | the loop builds the range of each virtual node from its predecessor's hash |
| TokenRanges.NeighbourShape | internal/ring/vnode.go:114-187 | successor and predecessor lists are distinct other members, n or all there are |
| TokenRanges.NeighbourOrder | internal/ring/vnode.go:114-187 | a shorter list is a prefix of a longer one, and the list starts with the first other node met on the walk |
| TokenRanges.WalksOpposite | internal/ring/vnode.go:129-175 | on a collision-free ring the forward walk is the clockwise walk from just after the virtual node, and on any ring the backward walk is the forward one reversed |
| TokenRanges.SuccessorsAreReplicas | internal/ring/vnode.go:114-149 | so the successors of a node are the preference list, one longer, of the hash just after its first virtual node, with the node erased |
| TokenRanges.GetSuccessorNodes | internal/ring/vnode.go:114-149 | the forward walk from the node's first token, without it |
| TokenRanges.GetPredecessorNodes | internal/ring/vnode.go:152-187 | the backward walk from the node's first token, without it |
| VectorClock.StrictOrder | pkg/types/types.go:76-104 | a negative comparison is a strict partial order on clocks with absent as zero, and swapping flips the sign |
| VectorClock.MergeIsLeastUpperBound | pkg/types/types.go:62-73 | a merge is above both clocks and below every common bound |
| VectorClock.MergeLaws | pkg/types/types.go:62-73 | pointwise commutative, associative and idempotent |
| VectorClock.MergedLists | pkg/types/types.go:62-73 | a merge has a component iff the first clock has it or it is positive in the second, and it is the greater of the two |
| VectorClock.Compare | pkg/types/types.go:76-104 | the two loops with their flags compute that comparison |
| VectorClock.Merge | pkg/types/types.go:62-73 | the two loops compute the merge |
| Resolver.SomeCandidate | internal/versioning/resolver.go:58-83 | the candidate list of a non-empty entry list is never empty, so the fallback never indexes nothing |
| Resolver.VectorClockWinner | internal/versioning/resolver.go:28-83 | there is always a winner; it is an entry dominated by none, with the greatest timestamp of those dominated by none |
| Resolver.WinnerExactly | internal/versioning/resolver.go:28-83 | under each strategy the winner of a non-empty list: the first of the latest entries, or of the latest among those dominated by none |
| Resolver.MergeDominates | internal/versioning/resolver.go:92-111 | the merged version strictly dominates every input iff the merging node's counter does not wrap |
| Resolver.Resolve | internal/versioning/resolver.go:28-44 | the same for the dispatch by strategy, with the zero entry for the empty list and the single list apart |
| Resolver.ResolveByVectorClock | internal/versioning/resolver.go:58-83 | the double loop over dominated entries finds a latest candidate |
| Resolver.MergeEntries | internal/versioning/resolver.go:92-111 | carries the key, value and timestamp of a winner, under the merged and incremented clock |
| Causality.ClocksCharacteriseCausality | internal/versioning/vector_clock.go:36-59 | in every run an increment happened before another iff its returned clock compares below, and the clocks are incomparable iff neither happened before the other |
| Causality.OwnComponentIsGreatest | internal/versioning/vector_clock.go:36-59 | no node's component for n ever exceeds n's own |
| Causality.VectorClockManager.IncrementKey | internal/versioning/vector_clock.go:36-46 | one more at this node, stored and returned |
| Causality.VectorClockManager.Update | internal/versioning/vector_clock.go:49-59 | the merge, stored and returned |
| Handoff.RunKeepsQueues | internal/replication/handoff.go:35-107 | in every run each queue has at most maxSize hints, in Store order and ordered by age |
| Handoff.RunExpiresPrefix | internal/replication/handoff.go:144-162 | in every run a cleanup takes off each queue exactly a prefix, of the hints at least maxAge old, and all left are younger |
| Handoff.OnlyLeavesBy | internal/replication/handoff.go:35-107 | a hint leaves only as the oldest of a full queue, expired, or with a delivery or a giving up for its own target and key |
| Handoff.LeavesWithinTwelveRounds | internal/replication/handoff.go:213-250 | a hint never accepted by a live target is gone by its twelfth delivery round, whatever Stores and other deliveries come between |
| Handoff.TwelfthRefusalGivesUp | internal/replication/handoff.go:242-246 | and not before: a lone hint survives eleven refusals and not the twelfth |
| Handoff.RunSplits | internal/replication/handoff.go:231-248 | in every run a target's queue is what is left of the copied hints followed by those stored since its round began |
| Handoff.DropsNewerExactly | internal/replication/handoff.go:75-93 | a delivery or giving up drops the key's copied and newer hints alike; barring eviction and expiry of the key's hints since the round began, it drops a newer one iff the key was stored since then |
| Handoff.DroppedUnsent | internal/replication/handoff.go:232-240 | a run in which a hint leaves without ever being sent |
| Handoff.RoundRun | internal/replication/handoff.go:231-248 | a round as the loop does it is a series of those steps and counts as one round |
| Handoff.PassExactly | internal/replication/handoff.go:213-250 | after a pass a target listed as alive when its turn came has exactly the queue of one round over its queue before, and any other target has its queue unchanged |
| Handoff.AcceptedRoundEmpties | internal/replication/handoff.go:231-240 | a round whose sends all succeed leaves the target no hint |
| Handoff.HintedHandoffStore.Store | internal/replication/handoff.go:35-56 | drops the oldest of a full queue and appends; fails exactly when there is no room and no oldest |
| Handoff.HintedHandoffStore.RemoveHint | internal/replication/handoff.go:75-93 | drops every hint with the key, and the queue when nothing is left |
| Handoff.HintedHandoffStore.IncrementAttempts | internal/replication/handoff.go:96-107 | counts an attempt for the first hint with the key only |
| Handoff.HintedHandoffStore.Cleanup | internal/replication/handoff.go:144-162 | keeps exactly the hints younger than maxAge, in all queues |
| Handoff.HintedHandoffStore.GetHints | internal/replication/handoff.go:59-72 | a copy of the queue |
| Handoff.DeliverPendingHandoffs | internal/replication/handoff.go:213-250 | does a pass over the targets with hints, each once: the targets listed as alive when their turn comes have one round, the others keep their queues |
| Gossip.HeartbeatIsGreatest | internal/gossip/membership.go:174-211 | after any messages a non-self member is known iff somebody named it, and its heartbeat is the greatest date seen |
| Gossip.AddressIsNewest | internal/gossip/membership.go:184-209 | its address is that of the first message with the newest date, or what it was when no message is newer |
| Gossip.GossipSparesSelf | internal/gossip/membership.go:180-182 | no messages change what this node knows of itself |
| Gossip.OrderIrrelevant | internal/gossip/membership.go:174-211 | so order and repetition of messages do not matter for heartbeats |
| Gossip.GossipKeepsState | internal/gossip/membership.go:203-209 | messages never change a known member's state |
| Gossip.StateIsFirstNamed | internal/gossip/membership.go:184-202 | after any messages a new member is known iff some message named it, with the state of the first that did: suspect or dead iff it says so, else alive |
| Gossip.StateOrderIrrelevant | internal/gossip/membership.go:184-209 | every order of the same messages gives a new member the same state iff all that name it agree |
| Gossip.StateDependsOnOrder | internal/gossip/membership.go:184-202 | two messages that disagree, in both orders |
| Gossip.GossipCarriesView | internal/gossip/membership.go:214-228 | merging a message into an empty list gives exactly what its sender knew, but for the receiver itself |
| Detection.RunKeepsInv | internal/gossip/membership.go:141-211 | in every interleaving, gossip from the future or not, each heartbeat is the greatest date since the member's last own heartbeat, and a tick's copies and decisions are as old as their dates say |
| Detection.GreatestExactly | internal/gossip/membership.go:141-211 | throughout a run each heartbeat is the greatest date ever heard iff no step takes a later date back |
| Detection.StepKeepsAddress | internal/gossip/membership.go:47-211 | in every interleaving a member's address changes only with a newer message about it or when it is added again |
| Detection.SelfStays | internal/gossip/membership.go:66-72 | in every run this node stays on its own list |
| Detection.TimelyNeverTakesBack | internal/gossip/membership.go:203-209 | gossip that is not from the future is never taken back |
| Interruptions.FutureGossipIsUndone | internal/gossip/membership.go:145-146 | a run from the start in which a heartbeat takes a future date back |
| Verdicts.DeathDecidedExactly | internal/gossip/detector.go:72-93 | in every run a look decides a death iff the member is another one, suspect, and all dates heard before the tick since its last heartbeat are older than deadTimeout |
| Verdicts.PastIsOlder | internal/gossip/detector.go:78 | in a run that took no date back these are all dates ever heard |
| Verdicts.DeadExactlyWhen | internal/gossip/detector.go:88-103 | in every run a known member becomes dead iff such a decision is carried out, or it is added as dead |
| Verdicts.HeartbeatLostExactly | internal/gossip/detector.go:81-108 | a node marked dead is alive at that moment iff it sent a heartbeat between look and carrying out; one earlier in the tick saves it |
| Interruptions.HeartbeatDuringTickIsLost | internal/gossip/detector.go:81-143 | a run from the start in which that happens, and in which the revival then calls back |
| Verdicts.GossipIgnoredExactly | internal/gossip/detector.go:69-94 | a node marked dead without a heartbeat since has a date within the timeout iff a message since the tick began gave it one |
| Interruptions.GossipDuringTickIsIgnored | internal/gossip/detector.go:69-94 | a run from the start in which that happens |
| Verdicts.RevivalCallsBackExactly | internal/gossip/detector.go:111-143 | the revival after a heartbeat calls back iff a stale transition of the member was carried out since, and otherwise changes nothing |
| Verdicts.StateFoundExactly | internal/gossip/detector.go:79-102 | in every run the state a check finds is alive iff the member sent a heartbeat since the read, the look or the carrying out before, and otherwise what was read or written there |
| Verdicts.CallbackLostExactly | internal/gossip/detector.go:79-102 | a transition carried out is not reported iff it made the member suspect and the state is again the one read first: alive at first with a heartbeat since, or suspect at first and back before the look with none since |
| Verdicts.CallbackWrongExactly | internal/gossip/detector.go:99-102 | a call reports the transition carried out iff it was decided from the state read first and no heartbeat came since |
| Verdicts.CallbackUncalledForExactly | internal/gossip/detector.go:79-102 | a check without a transition calls back iff its member was not alive at first and sent a heartbeat since |
| Interruptions.SuspicionIsNotReported | internal/gossip/detector.go:79-102 | a run from the start in which a node becomes suspect and comes back without any call |
| Interruptions.DeathIsReportedAsRecovery | internal/gossip/detector.go:79-102 | a run from the start in which the one call about a death says that a suspect came back |
| Interruptions.HeartbeatIsItsSteps | internal/gossip/detector.go:130-143 | with nothing in between a heartbeat makes its sender alive and never calls back |
| Verdicts.DeadStaysDead | internal/gossip/detector.go:94-95 | in every run a dead member comes back only by a heartbeat, a revival or being added |
| Gossip.SilentMember | internal/gossip/detector.go:81-96 | after any ticks a silent member is suspect iff some tick saw it silent for longer than the first timeout and dead iff a later tick did for the second |
| Interruptions.TickIsItsSteps | internal/gossip/detector.go:68-103 | a tick with nothing in between moves the whole list on and calls back once for each change |
| Membership.MembershipList.Merge | internal/gossip/membership.go:174-211 | takes in a message in any order, skipping this node, adding unknown ones, updating only newer ones |
| Membership.MembershipList.RecordHeartbeat | internal/gossip/membership.go:141-151 | dates a known member now and makes it alive |
| Membership.MembershipList.UpdateState | internal/gossip/membership.go:128-138 | sets the state through the shared node, and the date too when alive |
| Membership.MembershipList.AddMember | internal/gossip/membership.go:47-63 | adds a member or replaces a known one's node object |
| Membership.MembershipList.RemoveMember | internal/gossip/membership.go:66-72 | removes any member but this node |
| Membership.MembershipList.ToGossipFormat | internal/gossip/membership.go:214-228 | the message is the view |
| Membership.FailureDetector.CheckMembers | internal/gossip/detector.go:68-103 | a tick with nothing in between moves every member on as its silence says and calls back exactly for those whose state changed |
| Membership.FailureDetector.RecordHeartbeat | internal/gossip/detector.go:130-143 | one call with nothing in between: makes the sender alive and does not call back |
| Membership.FailureDetector.Revive | internal/gossip/detector.go:111-127 | makes a suspect or dead member alive and calls back once |

## Left out

- HTTP, JSON, UDP, configuration and the command line: a remote call is a step that may be lost, applied, or applied and acknowledged.
- CRC32 and MurmurHash3: arbitrary functions. The library's sort and binary search are modelled as loops with the library's contract; sorting is any sorted rearrangement.
- File system failures (failed rename, short writes, failed fsync) and reads that fail for other reasons than the bytes; the int64 file position is unbounded.
- Concurrent Gets sharing one seek position, and memory-model races: each engine, ring and list call is one step, and so is each read of a node's state.
- Engine.StepRefines: assumes keys and values shorter than 2^32 bytes, the lengths the header can describe; for a Put that is exactly when the refinement goes on (`Oversize.PutKeptExactly`), and what a tombstone with a longer key does on reopening depends on the key's bytes.
- Engine.RunRefinesMap: the same, and a store is reopened after a Close; `Recovery.LifeRollsBack` has reopening after a crash.
- Engine.CompactionCrashSafe: the rename itself is atomic in the model, because file system failures are left out.
- Quorum.Freshness: assumes Puts with increasing timestamps and operations of one key that do not overlap; requests that outlive their operation, and repairs that a newer Put overtakes, are the late writes.
- Distributed delete: a delete is local to one node and repair may undo it, so no law over the cluster holds; `Replica.EnginesHoldReplicas` covers the local effect.
- QuorumManager.EveryInterleaving: the caller's reading of the shared result after the channel closed is one step; the Errors slice and the context's cancellation are not modelled.
- Causality.ClocksCharacteriseCausality: runs use Increment and Update with clocks some node returned earlier, without counter overflow; Set and Delete of the manager are not modelled.
- Handoff.LeavesWithinTwelveRounds: counts rounds from a state in which the target is not being delivered to, and assumes no eviction, expiry or successful delivery of the key's hints.
- Handoff.RunKeepsQueues: assumes a clock that does not go back; without room Store fails, as `Handoff.HintedHandoffStore.Store` says, and no queue ever holds anything.
- Verdicts.DeadExactlyWhen: members are not added or removed during a tick or a heartbeat; the revival's own calls are one step.
- Membership.FailureDetector.RecordHeartbeat: nothing comes between its two calls of the list; `Verdicts` says what happens when something does.
- `PrintRingStatus` and other formatting; the rounding of the load percentages.
- Read and write statistics, incarnation numbers, `UpdateOffset`, `Clear`, `All` and other accessors: easy members.
- Time: dates and durations are unbounded integers, so Go's saturating differences are not modelled.
