# A verified model of a distributed cache

The system is a cluster of cache nodes. The nodes elect a leader with the election part of Raft, as in sections 5.1 and 5.2
of "In Search of an Understandable Consensus Algorithm (Extended Version)". The leader routes keys over a consistent hash
ring. Each node holds a bounded cache with a time to live (TTL) per entry and a pluggable eviction policy. A product API uses
the cache in front of a database with one of three invalidation strategies. Two prefix-cache simulators, one in Go and one in
Python, estimate what caching saves.

Code that changes state is modelled by classes and methods. Each is proved against a value-level specification, and the
system-wide properties are proved about those specifications for every input, every run and every interleaving.

| files | what they hold |
|---|---|
| `RaftModel`, `RaftSafety`, `RaftRuns`, `RaftRecovery`, `RaftReplies`, `RaftNode`, `CoordinatorFlags` | the lock sections of a node; the cluster as a transition system with lost, late and repeated messages and crashes; election safety; which clusters can elect, and that they can do so from every state; what a node answers; the node object; which nodes think they coordinate |
| `Recency`, `HeapOrder`, `LruList`, `IndexedHeap` | the theory of least-recently-used orders; heap order; the doubly linked list; the heap with index fields |
| `PolicyModel`, `PolicyHistory`, `Policies` | the four policies as values; what each is after any history; the policy objects behind one interface |
| `CacheModel`, `CacheCalls`, `CacheThreads`, `CacheHistory`, `TtlRuns`, `InMemoryCache` | the lock sections of the cache and their interleavings; serial runs against the last write of each key; overlapping Gets with the identity of every entry; what becomes of each key and entry; what the TTL-only policy evicts; the cache object |
| `Benchmark` | the workload loop of the eviction benchmark |
| `RingModel`, `VirtualNodes`, `Ring`, `Coordinator` | clockwise ownership; the names that are hashed; the ring object; routing |
| `Coherence`, `CacheAside`, `ProductRuns` | reads and updates split at their database and cache calls; the product paths over the cache object; any sequence of them |
| `PrefixModel`, `PrefixHistory`, `PrefixCaches`, `Rag` | the two prefix caches and their agreement; what they are after any calls; the cache objects; the retrieval simulation |

The model assumes one agreed member set with distinct non-empty ids, and saves that succeed. Times are integers, costs are
exact reals, hashes and JSON are function parameters. Injectivity is assumed only where a statement says so.

Where the code and its comments disagree the model follows the code, shows where the comment fails and proves exactly when it
holds:

- A cluster of one node never elects a leader (`CanElectIff`).
- A heartbeat can carry a term its sender never won (`UnwonHeartbeatIsReachable`, `HeartbeatTermIsWonIff`).
- Two nodes can think they coordinate (`TwoCoordinatorsAreReachable`, `TwoCoordinatorsIff`).
- LFU's frequency and the entry's access count can differ (`LateGetMiscounts`, `FrequenciesMatchIff`).
- The TTL-only policy can evict an entry that does not expire first (`TtlUpsertMisleads`, `EvictsFirstToExpireIff`).
- An entry stored with a TTL of 0 can still be found (`SetIsFoundUntil`).
- The benchmark's eviction counter counts updates in a full cache and misses the evictions by reads (`UpdateIsCounted`,
  `ReadMissIsNotCounted`, `EvictionCounterIsRightIff`).
- A token collision, or adding a node twice, leaves tokens without an owner after removal (`AddTwiceRemoveOnce`,
  `RemoveStaysCleanIff`, `AddStaysSoundIff`, `AddThenRemoveRestoresIff`).
- Rings built in different orders agree only without collisions (`OrderDoesNotMatterIff`).
- Write-through is not always in sync (`OverlapBreaksWriteThrough`, `CachedRowIsCurrentIff`, `FillIsUpToDateIff`,
  `FailedUpdateIsUpToDateIff`).
- The Go prefix cache evicts although the stored hash is present (`RestoreEvictsAnother`, `RestoreKeepsOthersIff`), and its
  scan for the oldest entry can be misled by an empty hash (`ScanFindsOldestIff`).

## Model

| member | source | states |
|---|---|---|
| `RaftSafety.ElectionSafety` | internal/raft/timer.go:92-154 | over any run, two nodes that are leaders at any two moments in the same term are the same node |
| `RaftSafety.OneVictoryPerTerm` | internal/raft/timer.go:137-147 | in every state that satisfies the invariant, a term has at most one winner, past or present |
| `RaftSafety.QuorumsMeet` | internal/raft/timer.go:101 | two sets of at least size/2 + 1 members share a member |
| `RaftSafety.StepKeepsInv` | internal/raft/timer.go:40-182 | every lock section, crash and restart keeps the invariant: saved state equals memory, ballots agree with the voter's term and vote, each voter has one ballot per term, counts are covered by ballots, victories have majorities |
| `RaftSafety.CollectVoteKeepsInv` | internal/raft/timer.go:126-150 | one turn of the vote loop keeps the invariant although the loop never re-checks the election's term |
| `RaftSafety.ServeVoteKeepsInv` | internal/raft/rpc.go:57-83 | answering a vote request keeps the invariant |
| `RaftSafety.CrashKeepsVote` | internal/raft/rpc.go:57-83 | a crash after any number of a vote handler's saves leaves a file whose term is not lower and whose vote in the same term is not a different one |
| `RaftSafety.TermsNeverDecrease` | internal/raft/state.go:133-149 | over any run with crashes and restarts a node's term never decreases |
| `RaftSafety.OneVotePerTerm` | internal/raft/rpc.go:57-83 | two granted replies of one node in one term, anywhere in a run, went to the same candidate |
| `RaftSafety.ElectionCountIsSound` | internal/raft/timer.go:93-150 | while votes are collected, a node still a candidate is still in the election's term, and its count is at most one plus the distinct peers heard that voted for it in that term |
| `RaftSafety.HeartbeatOnlyDemotes` | internal/raft/rpc.go:92-120 | serving a heartbeat of any term adds no ballot, vote or victory, creates no leader, touches no other node, and leaves a leader of that or a later term alone |
| `RaftSafety.HeartbeatTermIsWonIff` | internal/raft/timer.go:158-163 | in every run, a heartbeat about to be sent carries a term its sender won if and only if the sender is still the leader |
| `RaftRuns.UnwonHeartbeatIsReachable` | internal/raft/timer.go:51-57 | every cluster of at least two members can reach a state in which a heartbeat of a term its sender never won is sent |
| `RaftRuns.LonelyNodeNeverLeads` | internal/raft/timer.go:126 | the only member of a cluster is never leader, in any run |
| `RaftRuns.CanElectIff` | internal/raft/timer.go:126-154 | some run elects a leader if and only if there are at least two members |
| `RaftRuns.CanElectWithIff` | internal/raft/timer.go:100-101 | with the other members down, some run elects a leader if and only if more than half of the members are up and there are at least two members |
| `RaftRecovery.LeaderCanAlwaysBeElected` | internal/raft/timer.go:40-182 | from every reachable state, any more than half of at least two members can elect a leader by their own steps, whatever the others and the messages on their way |
| `RaftReplies.VoteIsGrantedIff` | internal/raft/rpc.go:57-83 | a vote is granted if and only if the request is of a later term, or of the node's own in which it voted for nobody else; the node ends in the later term and a grant is its saved vote |
| `RaftReplies.GrantStands` | internal/raft/rpc.go:57-83 | in every run, once a node has granted a vote it grants the same candidate again and refuses every other while it stays in that term, through crashes, and refuses all of that term later |
| `RaftReplies.BeatIsAcceptedIff` | internal/raft/rpc.go:92-120 | a heartbeat of an earlier term changes nothing and is refused with the node's later term; any other is accepted, and the node is in its term, follows its sender and is no candidate |
| `RaftReplies.ReplyDeposesIff` | internal/raft/timer.go:174-179 | in every run, a sender still in its heartbeat's term that takes the reply becomes a follower of the later term if the heartbeat was stale, and otherwise stays as it is |
| `RaftReplies.RecordedLeaderHasWon` | internal/raft/rpc.go:112-113 | in every run, whoever a node records as leader has won a term not later than the node's |
| `CoordinatorFlags.FlaggedIff` | cmd/cachenode/main.go:79-89 | in every run a node's coordinator flag is set if and only if it has won an election since it last started |
| `CoordinatorFlags.TwoCoordinatorsIff` | cmd/cachenode/main.go:79-89 | in every run two flags are set if and only if two nodes have won, in different terms, since they last started |
| `CoordinatorFlags.WinsInDifferentTerms` | cmd/cachenode/main.go:79-89 | two different nodes that win at any two steps of a run win different terms |
| `CoordinatorFlags.LeadersAreFlagged` | internal/raft/state.go:153-161 | in every run a leader's flag is set |
| `CoordinatorFlags.TwoCoordinatorsAreReachable` | cmd/cachenode/main.go:79-89 | a run after which two nodes are flagged, one of them no longer leader |
| `RaftNode.RaftNode.constructor` | internal/raft/state.go:73-90 | a new node is a follower with the term and vote of its state file |
| `RaftNode.RaftNode.WriteState` | internal/raft/state.go:115-127 | the file then holds the node's term and vote, and this is one more write |
| `RaftNode.RaftNode.StepDown` | internal/raft/state.go:133-140 | follower; only a higher term is adopted, with the vote cleared, and saved |
| `RaftNode.RaftNode.Stand` | internal/raft/state.go:144-149 | candidate in the next term, with its own vote saved |
| `RaftNode.RaftNode.Lead` | internal/raft/state.go:153-161 | leader, with nothing saved |
| `RaftNode.RaftNode.HandleRequestVote` | internal/raft/rpc.go:57-83 | node and reply are those of the vote section, the vote is granted exactly in a later term or to nobody's rival in the same, and the file receives exactly the section's saves in order |
| `RaftNode.RaftNode.HandleAppendEntries` | internal/raft/rpc.go:92-120 | a heartbeat of an earlier term changes nothing and is answered with the node's term; after any other the node is in its term, follows its sender and is no candidate |
| `RaftNode.RaftNode.TakeHeartbeatReply` | internal/raft/timer.go:174-179 | only a higher term makes the node step down |
| `RaftNode.RaftNode.TakeVote` | internal/raft/timer.go:126-150 | one turn of the vote loop is the step the cluster takes; it wins exactly if the grant makes the votes more than half of the members while the node is a candidate |
| `RaftNode.RaftNode.CollectVotes` | internal/raft/timer.go:126-150 | the candidate wins if and only if itself and the grants that arrive before any higher term are more than half of the members; otherwise it is a follower exactly if a higher term arrived, in the first such term, with no vote, and else a candidate as before |
| `RaftNode.RaftNode.StartElection` | internal/raft/timer.go:92-154 | the same for a whole election in the next term; without a majority or a higher term the node stays a candidate that voted for itself |
| `Recency.OrderIsByLastUse` | internal/eviction/lru.go:46-71 | moving used keys to the front and dropping evicted ones lists each key in use once, by decreasing position of its last use |
| `Recency.RequestKeepsMostRecent` | internal/benchmark/eviction.go:83-103 | a bounded cache's request commutes with cutting the unbounded order to the capacity |
| `Recency.HoldsMostRecent` | internal/benchmark/eviction.go:83-103 | after any requests a bounded LRU cache holds exactly the most recently requested distinct keys |
| `Recency.SmallerIsIncluded` | internal/benchmark/eviction.go:83-103 | on the same requests a smaller cache's contents are a prefix of a larger one's |
| `LruList.LRU.constructor` | internal/eviction/lru.go:30-41 | an empty list between its sentinels |
| `LruList.LRU.RemoveNode` | internal/eviction/lru.go:106-109 | the links skip exactly that node, and forward and backward links still agree |
| `LruList.LRU.InsertAtFront` | internal/eviction/lru.go:96-101 | the node is first and the rest follows in order |
| `LruList.LRU.MoveToFront` | internal/eviction/lru.go:113-116 | the node is first and the others keep their order |
| `LruList.LRU.OnAccess` | internal/eviction/lru.go:46-52 | a tracked key becomes the most recent; an unknown one changes nothing |
| `LruList.LRU.OnInsert` | internal/eviction/lru.go:56-61 | the key is most recent, and list and map still hold the same keys |
| `LruList.LRU.OnEvict` | internal/eviction/lru.go:65-72 | the key is gone from list and map, and the order of the others is kept |
| `LruList.LRU.Evict` | internal/eviction/lru.go:77-84 | the last key in recency order, and failure exactly if there is none |
| `LruList.LRU.WalksMirror` | internal/eviction/lru.go:96-116 | following next from the head and prev from the tail gives the same list, read in opposite directions |
| `LruList.LRU.KeysAreDistinct` | internal/eviction/lru.go:21-28 | the list's keys have no duplicates and are the map's keys |
| `HeapOrder.UpStep` | internal/eviction/lfu.go:27-41 | swapping a too small slot with its parent leaves only the parent's slot possibly too small |
| `HeapOrder.DownStep` | internal/eviction/lfu.go:27-41 | swapping a too large slot with its lesser child leaves only that child's slot possibly too large |
| `HeapOrder.RootIsLeast` | internal/eviction/lfu.go:27-35 | in heap order the root ranks at most any slot |
| `IndexedHeap.IndexedHeap.Swap` | internal/eviction/lfu.go:37-41 | two slots are exchanged and every index still names its entry's slot |
| `IndexedHeap.IndexedHeap.Up` | internal/eviction/lfu.go:27-48 | sifting up restores heap order with the same entries |
| `IndexedHeap.IndexedHeap.Down` | internal/eviction/lfu.go:27-58 | sifting down restores heap order with the same entries, or reports that the slot was not too large |
| `IndexedHeap.IndexedHeap.Fix` | internal/eviction/lfu.go:83-92 | after one slot's rank changed, heap order holds again with the same entries |
| `IndexedHeap.IndexedHeap.Push` | internal/eviction/lfu.go:44-48 | heap order and indices hold with exactly one more entry |
| `IndexedHeap.IndexedHeap.Remove` | internal/eviction/lfu.go:109-116 | removal from any slot keeps heap order and indices, and loses exactly that entry |
| `IndexedHeap.IndexedHeap.Insert` | internal/eviction/lfu.go:97-104 | heap and map hold one more key with its rank |
| `IndexedHeap.IndexedHeap.Reorder` | internal/eviction/lfu.go:83-92 | only that key's rank changed |
| `IndexedHeap.IndexedHeap.Delete` | internal/eviction/lfu.go:109-116 | the key is gone from heap and map; an unknown one changes nothing |
| `IndexedHeap.IndexedHeap.Peek` | internal/eviction/lfu.go:121-127 | a key of least rank among all keys, and failure exactly if there is none |
| `Policies.LFU.OnAccess` | internal/eviction/lfu.go:83-92 | a tracked key's frequency goes up by one and its last access becomes now |
| `Policies.LFU.OnInsert` | internal/eviction/lfu.go:97-104 | frequency one, last access now |
| `Policies.TTLOnly.OnInsert` | internal/eviction/ttl.go:67-71 | the key is ordered by the expiry given now |
| `Policies.Random.OnInsert` | internal/eviction/random.go:35-40 | the key is appended |
| `Policies.Random.OnEvict` | internal/eviction/random.go:45-54 | the last key takes the removed key's place; an unknown one changes nothing |
| `Policies.Random.Evict` | internal/eviction/random.go:58-65 | one of the keys, and failure exactly if there is none |
| `PolicyModel.SwapOutMembers` | internal/eviction/random.go:45-54 | swap and truncate removes exactly that key and keeps the keys distinct |
| `PolicyModel.AccessTracks` | internal/shared/eviction.go:8-30 | under all four policies an access keeps the tracked keys |
| `PolicyModel.InsertTracks` | internal/shared/eviction.go:8-30 | under all four policies an insertion adds exactly its key |
| `PolicyModel.EvictTracks` | internal/shared/eviction.go:8-30 | under all four policies a removal drops exactly its key |
| `Policies.EvictionPolicy.OnAccess` | internal/shared/eviction.go:8-30 | every policy object does what its value does |
| `Policies.EvictionPolicy.OnInsert` | internal/shared/eviction.go:8-30 | the same for insertion |
| `Policies.EvictionPolicy.OnEvict` | internal/shared/eviction.go:8-30 | the same for removal |
| `Policies.EvictionPolicy.Evict` | internal/shared/eviction.go:8-30 | a victim its value allows, and failure exactly if nothing is tracked |
| `PolicyHistory.LruFollowsHistory` | internal/eviction/lru.go:46-72 | after any history of notifications the order is that of last uses |
| `PolicyHistory.LfuFollowsHistory` | internal/eviction/lfu.go:83-116 | after any history each key's rank is its number of uses since insertion and the time of the last |
| `PolicyHistory.TtlFollowsHistory` | internal/eviction/ttl.go:64-80 | after any history each key's rank is the expiry given at insertion |
| `PolicyHistory.LruVictimIsOldest` | internal/eviction/lru.go:77-84 | after any history no key was last used before LRU's victim |
| `PolicyHistory.LfuVictimIsLeastUsed` | internal/eviction/lfu.go:121-127 | after any history no key has fewer uses than LFU's victim, or as many and an earlier last use |
| `PolicyHistory.TtlVictimExpiresFirst` | internal/eviction/ttl.go:85-90 | after any history no key was inserted with an earlier expiry than the victim |
| `CacheModel.SectionKeepsInStep` | internal/cache/cache.go:42-153 | each write-locked section keeps tracked keys equal to cached keys, without duplicates, and the size within the capacity |
| `CacheModel.RunKeepsInStep` | internal/cache/cache.go:42-153 | so does every interleaving of the sections of Get, Set and Delete, under all four policies |
| `CacheModel.PutEvictsAtMostOne` | internal/cache/cache.go:118-137 | a Set adds its key and removes at most one other, the policy's victim, and none unless the key is new and the cache full |
| `CacheThreads.StepRefines` | internal/cache/cache.go:42-153 | every step of overlapping calls, with Get split into lookup, expiry check and end, is a write-locked section or leaves the cache alone; a Get touches the cached entry exactly if that is the entry it found |
| `CacheThreads.RunStaysSane` | internal/cache/cache.go:42-153 | in every such interleaving, under all four policies, tracked keys equal cached keys and the size stays within the capacity |
| `CacheThreads.HitReturnsSetValue` | internal/cache/cache.go:44-71 | in every such interleaving a Get that hits returns a value that some Set of its key gave, and that of the last Set if the entry it found is still the cached one when the value is read |
| `CacheThreads.FrequencyCountsLateEnds` | internal/cache/cache.go:44-70 | in every interleaving LFU's frequency of a key is its entry's access count plus the Gets that ended on the key since that entry was inserted although they had found an earlier one |
| `CacheThreads.FrequenciesMatchIff` | internal/cache/cache.go:44-70 | so the frequencies are the access counts if and only if no Get has ended that late on a cached key |
| `CacheThreads.LateGetMiscounts` | internal/cache/cache.go:44-70 | a Get finds "a", "a" is deleted and stored anew, the Get ends: frequency 2, access count 1 |
| `CacheHistory.KeyIsCachedIff` | internal/cache/cache.go:42-153 | in every interleaving a key is cached after a step if and only if the step is a Set of it, or it was cached and the step is no Delete of it, no Set that evicts it from a full cache, and no end of a Get that reads a time later than the expiry of the entry then cached |
| `CacheHistory.EntryRemembersAccesses` | internal/cache/cache.go:65-137 | in every interleaving, for every entry ever made: created at the reading of the Set that made it, accessed last at the latest reading, and counted once for every Set and Get that ended on it |
| `CacheHistory.GetIsItsSteps` | internal/cache/cache.go:42-73 | the steps of a Get that nothing overlaps leave the cache, and find the value, of the Get of the cache object |
| `TtlRuns.RunRemembers` | internal/cache/cache.go:106-137 | in every interleaving each entry of a TTL-only cache has the expiry of the last Set of its key and the rank of the Set that inserted it |
| `TtlRuns.ExpiriesMatchIff` | internal/cache/cache.go:106-116 | ranks and expiries agree if and only if the last Set of every cached key gave the expiry of its insertion |
| `TtlRuns.EvictsFirstToExpireIff` | internal/eviction/ttl.go:64-90 | in every interleaving whatever may be evicted expires first if and only if every cached key of least expiry at insertion has the least expiry by its last Set |
| `TtlRuns.UnchangedExpiriesEvictFirst` | internal/eviction/ttl.go:85-90 | so it does where no Set changed the expiry of a cached key |
| `TtlRuns.TtlUpsertMisleads` | internal/eviction/ttl.go:64 | a reachable full cache that must evict "a" although "b" expires earlier |
| `CacheCalls.EntriesAreLastWrites` | internal/cache/cache.go:42-153 | in every serial run each cached entry holds the value and expiry of the last accepted Set of its key, with no later Delete |
| `CacheCalls.HitReturnsLastWrite` | internal/cache/cache.go:42-73 | in every serial run, under every policy, a hit returns the last value Set, which was neither deleted nor lapsed |
| `CacheCalls.FittingCacheIsTheMap` | internal/cache/cache.go:42-153 | if the keys ever Set fit the capacity, a Get finds exactly what an unbounded TTL map would |
| `CacheCalls.SerialFrequenciesMatch` | internal/cache/cache.go:42-153 | in every serial run LFU's frequency of a key is its entry's access count |
| `CacheCalls.SetIsFoundUntil` | internal/cache/entry.go:19-21 | what an accepted Set stores is found exactly up to its expiry, inclusive, so also with a TTL of 0 while the clock stands still |
| `InMemoryCache.InMemoryCache.constructor` | internal/cache/cache.go:25-31 | an empty cache over an empty policy |
| `InMemoryCache.InMemoryCache.Get` | internal/cache/cache.go:42-73 | a hit exactly if the entry has not expired at the first reading; it counts the access at the second; an entry that has expired at both is removed; no other key changes |
| `InMemoryCache.InMemoryCache.ExpireIfStale` | internal/cache/cache.go:54-60 | the entry is removed from cache and policy exactly if the reading is later than its expiry |
| `InMemoryCache.InMemoryCache.TouchEntry` | internal/cache/cache.go:65-70 | the entry seen counts the access, even if it was replaced, and the policy notes its key |
| `InMemoryCache.InMemoryCache.Set` | internal/cache/cache.go:83-140 | a TTL below 0 or above 86400 seconds changes nothing; otherwise the key has the value until the TTL has passed, and the cache is that of the Set section |
| `InMemoryCache.InMemoryCache.Upsert` | internal/cache/cache.go:108-116 | value, expiry and access data of a cached key are replaced and the policy notes an access |
| `InMemoryCache.InMemoryCache.MakeSpace` | internal/cache/cache.go:118-125 | there is room for one more entry, at the cost of a victim the policy allows and of nothing else |
| `InMemoryCache.InMemoryCache.InsertNew` | internal/cache/cache.go:127-137 | a new key enters cache and policy |
| `InMemoryCache.InMemoryCache.Delete` | internal/cache/cache.go:144-153 | the key is gone from cache and policy; an absent one changes nothing |
| `InMemoryCache.InMemoryCache.Len` | internal/cache/cache.go:158-162 | the number of entries, never above the capacity |
| `InMemoryCache.InMemoryCache.LiveLen` | internal/cache/cache.go:167-178 | the number of entries not expired at the reading |
| `Benchmark.MoreCapacityMoreHits` | internal/benchmark/eviction.go:83-103 | on the same workload a larger LRU cache never has fewer hits |
| `Benchmark.OperationIsRequest` | internal/benchmark/eviction.go:86-103 | on an LRU cache every operation, hit, miss, lapse or write, is one request; under every policy the cache holds all keys until it is full and then stays full |
| `Benchmark.RunOne` | internal/benchmark/eviction.go:83-103 | one iteration, whose Get, Set and policy each read the clock for themselves, leaves the cache of its calls and counts a hit, a miss, or an eviction for a write to a full cache |
| `Benchmark.PerformedWrites` | internal/benchmark/eviction.go:86-103 | a read that hits keeps value and expiry of its key, every other operation leaves "value" under it for sixty seconds, and no other key gets a new value or expiry |
| `Benchmark.RunMakesProgress` | internal/benchmark/eviction.go:83-103 | over every run of the loop: the counters, how full the cache is, and on an LRU cache its contents |
| `Benchmark.OperationLoses` | internal/benchmark/eviction.go:86-103 | under every policy an iteration makes the cache lose a key exactly if its own key is not cached and the cache is full |
| `Benchmark.RunWorkload` | internal/benchmark/eviction.go:76-112 | hits and misses add up to the reads; evictions counts the writes made once as many keys were seen as fit, which exceeds the keys really lost by the updates in a full cache less the reads that missed in one; on an LRU cache the contents are the most recent keys and hits fall short of the reads that find their key only by lapsed ones, of which there are none within a TTL |
| `Benchmark.EvictionCounterIsOffBy` | internal/benchmark/eviction.go:96-102 | on every run, under every policy, counted evictions plus reads that missed in a full cache are keys lost plus updates in a full cache |
| `Benchmark.EvictionCounterIsRightIff` | internal/benchmark/eviction.go:96-102 | the counter is right if and only if as many updates found their key in a full cache as reads missed in one |
| `Benchmark.UpdateIsCounted` | internal/benchmark/eviction.go:96-102 | writing one key twice to a cache of capacity 1 counts an eviction and loses nothing |
| `Benchmark.ReadMissIsNotCounted` | internal/benchmark/eviction.go:86-94 | a read miss in a full cache of capacity 1 loses a key and counts nothing |
| `RingModel.RemovalMovesOnlyItsOwn` | internal/cluster/ring.go:68-85 | removing a node keeps the owner of every position whose token survives; a position whose token goes moves to the next surviving token clockwise after that token, with the whole arc of it |
| `RingModel.AdditionMovesOnlyToIt` | internal/cluster/ring.go:45-61 | adding a node moves keys only to it |
| `RingModel.OrderDoesNotMatterIff` | internal/cluster/ring.go:45-61 | all orders of adding the same members give the same owners if and only if no two members share a token |
| `Ring.SearchFindsSuccessor` | internal/cluster/ring.go:105-116 | the first token not below the position, or else the first of all, is at the least clockwise distance |
| `Ring.ScanCount` | internal/cluster/ring.go:76-84 | how often the compaction keeps each token, duplicates included |
| `Ring.RemoveIsWithoutNode` | internal/cluster/ring.go:68-85 | on a ring whose list and map agree Remove leaves exactly the tokens of the other nodes in the map, and in the list those as often as before and each of the node's once less |
| `Ring.RemoveStaysCleanIff` | internal/cluster/ring.go:76-84 | Remove leaves every listed token with an owner if and only if no token of the node is listed twice |
| `Ring.AddStaysSoundIff` | internal/cluster/ring.go:51-55 | Add keeps tokens listed once and owned if and only if the new tokens are new and distinct |
| `Ring.RemoveStaysSound` | internal/cluster/ring.go:76-84 | Remove keeps tokens listed once and owned |
| `Ring.AddThenRemoveRestoresIff` | internal/cluster/ring.go:45-85 | on any ring, adding an absent node and removing it restores list and map if and only if its tokens are free and distinct; for a node with the empty name, if and only if they are free and no token was without an owner |
| `Ring.AddThenRemoveKeepsAnswers` | internal/cluster/ring.go:45-120 | and then every position is answered with node and address as before |
| `Ring.RemoveKeepsOtherAnswers` | internal/cluster/ring.go:68-120 | on a ring without duplicates Remove changes no answer but those of the node |
| `Ring.AddTwiceRemoveOnce` | internal/cluster/ring.go:45-120 | for every hash, node and key: after Add, Add and Remove of one node the map is empty, the list is not, and Get answers with an empty node as found; only a node with the empty name leaves an empty ring |
| `VirtualNodes.DecimalReadsBack` | internal/cluster/ring.go:52 | the digits of an index read back as that index, without leading zeros |
| `VirtualNodes.NamesAreUnique` | internal/cluster/ring.go:51-52 | no two virtual nodes, of one node or of two, have the same name |
| `Ring.AddAbsent` | internal/cluster/ring.go:45-61 | if the hash keeps the names apart, adding an absent node leaves every token listed once and owned, with one new token for each virtual node |
| `Ring.AddThenRemove` | internal/cluster/ring.go:45-85 | and removing it again restores list, map and addresses |
| `Ring.Ring.constructor` | internal/cluster/ring.go:30-36 | an empty ring with 150 virtual nodes per node |
| `Ring.Ring.Add` | internal/cluster/ring.go:45-61 | the node owns the positions of its names n-0, n-1, ... up to the number of virtual nodes, and the list is sorted with exactly these tokens more |
| `Ring.Ring.Remove` | internal/cluster/ring.go:68-85 | list and map are those of the in-place compaction, and the list is still sorted |
| `Ring.Ring.Compact` | internal/cluster/ring.go:76-84 | writing kept tokens over the same array gives the compaction of the old list |
| `Ring.Ring.Get` | internal/cluster/ring.go:95-120 | node and address of the clockwise successor of the key's hash, with an empty node for a token without an owner; on a ring whose list and map agree the key's owner; failure exactly on an empty ring |
| `Coordinator.BuildRing` | cmd/cachenode/main.go:59-67 | the ring that a node builds from its members is that of adding them in order, lists 150 tokens for each, has every member's address, and if the names hash apart has every token listed once and owned |
| `Coordinator.ApartIsCollisionFree` | internal/cluster/ring.go:51-52 | if the hash keeps the members' names apart, no two members share a token |
| `Coordinator.RouteOver` | internal/cluster/coordinator.go:66-92 | a leading coordinator over the ring it built picks the member that owns the key, under the address it was added with |
| `Coordinator.Coordinator.Route` | internal/cluster/coordinator.go:66-92 | the node that the ring answers with, and its address, exactly if it is known to be healthy, otherwise unavailable; an error exactly without leadership or tokens; on a ring whose list and map agree that node owns the key |
| `Coordinator.Coordinator.ValidateOwnership` | internal/cluster/coordinator.go:97-106 | confirmed if and only if the ring answers with the node; on a ring whose list and map agree if and only if the node owns the key |
| `Coordinator.CoordinatorsAgree` | internal/cluster/coordinator.go:66-92 | two coordinators that built their rings from the same members in any order, and both think they lead, pick the same member for every key, and it owns the key; their answers differ only by what they know of its health and address |
| `Coherence.HitIsRecentlyHeld` | internal/api/middleware.go:57-142 | in every interleaving, under every strategy, a hit is a row the database held, at most the TTL plus the filling request's delay ago |
| `Coherence.StepKeepsInSync` | internal/api/middleware.go:57-142 | every step without overlapping requests on one product keeps cache, requests and pending deletions in sync with the database |
| `Coherence.CachedRowIsCurrent` | internal/api/middleware.go:57-142 | in every run whose requests on one product do not overlap, a settled cached row is the database's under write-through, and under write-behind unless a deletion is pending |
| `Coherence.CachedRowIsCurrentIff` | internal/api/middleware.go:57-142 | in every interleaving without failed cache calls, under write-through, and under write-behind unless a deletion is pending, a settled cached row is current if and only if the last update committed between fetch and store of the request that stored it, if any, wrote the same row |
| `Coherence.FillIsUpToDateIff` | internal/api/middleware.go:80-101 | in every run a miss leaves its product in sync if and only if the last update since it fetched its row, if any, wrote that row |
| `Coherence.FailedUpdateIsUpToDateIff` | internal/api/middleware.go:136-141 | in every run an update whose cache call fails leaves its product in sync if and only if it is not cached, or the last update since the cached row was fetched wrote that row |
| `Coherence.OverlapBreaksWriteThrough` | internal/invalidation/writethrough.go:14-15 | write-through with overlapping requests reaches a state with no request running and a live stale row |
| `CacheAside.CacheAside.constructor` | internal/api/middleware.go:40-46 | an empty cache is coherent with any database |
| `CacheAside.CacheAside.GetProduct` | internal/api/middleware.go:57-102 | a row exactly if the product exists; the database's row on a miss, and on a hit wherever the strategy promises it; a value that does not decode is a miss; after a miss the row is found for exactly five minutes, and no other key gets a new value or lifetime |
| `CacheAside.CacheAside.UpdateProduct` | internal/api/middleware.go:115-142 | the database has the new row and the cache stays coherent; write-through caches it for five minutes, write-behind schedules one deletion, an unknown product changes nothing |
| `CacheAside.CacheAside.WriteAndStore` | internal/invalidation/writethrough.go:31-38 | database and cache both have the new row, the cache for exactly five minutes |
| `CacheAside.CacheAside.RunDeletion` | internal/invalidation/writebehind.go:39-58 | the product is not cached, one scheduled deletion fewer remains, and the cache stays coherent through any others |
| `ProductRuns.ServeAll` | internal/api/middleware.go:57-142 | over any sequence of reads, updates and due deletions: the database is that of the updates, and every read is answered from it as it then is, wherever the strategy promises that; under every strategy, from an empty cache, every row answered was the database's at most five minutes earlier |
| `PrefixModel.CachesAgree` | internal/llm/prefix_cache.go:71-111 | on every request sequence with increasing clock readings, and however the Go cache walks its map, as long as the empty hash is not the one oldest key when a full cache is scanned, the Go and the Python cache hold the same hashes with the same entries |
| `PrefixModel.NamedScansOk` | internal/llm/prefix_cache.go:99-107 | that condition holds of every sequence of requests with non-empty hashes |
| `PrefixModel.HoldsMostRecentHashes` | python/src/llmsim/prefix_cache.py:110-161 | after any lookup-then-store run the cache lists the most recently requested distinct hashes, up to its capacity |
| `PrefixHistory.ListsMostRecentlyUsed` | python/src/llmsim/prefix_cache.py:110-161 | after any lookups and stores the cache lists the most recently used hashes, up to its capacity, where a lookup that misses is no use |
| `PrefixHistory.EntryCountsHits` | python/src/llmsim/prefix_cache.py:110-161 | after any lookups and stores an entry has the figures it was last stored with, and has counted the hits since |
| `PrefixHistory.TimedEntryCountsHits` | internal/llm/prefix_cache.go:71-111 | the same of the Go cache, however it walks its map, and its time stamp is that of the last call |
| `PrefixHistory.PutKeepsOthers` | internal/llm/prefix_cache.go:93-111 | after any calls, a store loses at most the entry that the scan of a full map ends with |
| `PrefixModel.RestoreKeepsOthersIff` | internal/llm/prefix_cache.go:93-111 | for every walk of the map, Go's Store of a present hash keeps the other entries if and only if the cache is not full or the scan ends with that hash |
| `PrefixCaches.RestoreEvictsAnother` | internal/llm/prefix_cache.go:93-111 | storing "a", "b" and "b" again in a new cache of two loses "a" |
| `PrefixModel.ScanFindsOldestIff` | internal/llm/prefix_cache.go:99-107 | every walk of the map ends with an entry of least time stamp if and only if the empty hash is not the one oldest key among others |
| `PrefixCaches.OrderedCache.Create` | python/src/llmsim/prefix_cache.py:96-108 | a capacity below 1 is refused; otherwise the cache is empty |
| `PrefixCaches.OrderedCache.Lookup` | python/src/llmsim/prefix_cache.py:110-134 | a hit moves the hash to the recent end and adds its costs to the savings; a miss only counts |
| `PrefixCaches.OrderedCache.Store` | python/src/llmsim/prefix_cache.py:136-161 | a present hash is replaced and most recent; a new one evicts the least recent of a full cache; the size stays within the capacity |
| `PrefixCaches.OrderedCache.GetStats` | python/src/llmsim/prefix_cache.py:165-183 | hits and misses add up to the requests |
| `PrefixCaches.HitRate` | python/src/llmsim/prefix_cache.py:165-183 | between 0 and 100, and at an end exactly if all or none of the requests hit |
| `PrefixCaches.TimedCache.Lookup` | internal/llm/prefix_cache.go:71-89 | a hit is stamped with the reading and adds its costs to the savings; a miss only counts |
| `PrefixCaches.TimedCache.Oldest` | internal/llm/prefix_cache.go:99-107 | the outcome of the scan for the order in which the map was walked, each key once; an entry of least time stamp unless the empty hash is the one oldest key among others |
| `PrefixCaches.TimedCache.Store` | internal/llm/prefix_cache.go:93-111 | at the limit the entry that the scan ends with goes first, even if the hash is present |
| `Rag.DecodesEncoded` | python/src/llmsim/rag.py:164-177 | the token sequence determines the index list and the query length, for all integers |
| `Rag.SamePrefixIff` | python/src/llmsim/rag.py:164-177 | two calls give the same tokens if and only if index sets and query lengths are equal, whatever order and duplicates |
| `Rag.BuildPrefixTokens` | python/src/llmsim/rag.py:164-177 | eight tokens 500000 + i for each index i, sorted and without duplicates, and then the query tokens from 900000 on |
| `Rag.FittingMissesOncePerHash` | python/src/llmsim/rag.py:219-237 | while the distinct hashes fit, there are as many misses as distinct hashes |
| `Rag.MissesAreDocumentSets` | python/src/llmsim/rag.py:219-237 | if no two prefixes collide and the cache is large enough, there are as many misses as sets of documents retrieved |
| `Rag.Serve` | python/src/llmsim/rag.py:233-235 | one request keeps the tally: contents, requests, hits and savings of both kinds |
| `Rag.RunRequests` | python/src/llmsim/rag.py:219-237 | the cache lists the most recently requested hashes, counts every miss, and has saved one prefix cost for each hit |
| `Rag.SavingsAreWhatTheCacheSaved` | python/src/llmsim/rag.py:239-252 | cost without minus cost with cache is what one prefix cost per hit adds up to, its share is the hit rate, and the monthly figure is its projection |
| `Rag.RunSimulation` | python/src/llmsim/rag.py:200-270 | every figure reported, with and without the cache, in all, per request and per month, is what its requests and misses cost; the savings are what its cache accumulated, their share is the cache's hit rate, and the misses paid for are the sets of documents retrieved, if no two prefixes collide and they fit |

## Left out

- Integer widths: terms and counters are unbounded; 64-bit wrap-around is not modelled.
- Failed saves: the node drops errors when it writes its state file; every save is taken to succeed.
- The delay between a victory and the coordinator's flag: the flag is set in the step that wins.
- Liveness and real time: timeouts fire at any moment and the time of the last heartbeat is not kept; that an election can succeed is proved, that it does within some time is not claimed.
- Membership changes, log replication, `Stop` and the leader channel of the Raft node.
- CollectVotes: the vote loop of the node object takes its results without other handlers in between; interleavings are in the cluster model.
- StartElection: the node object runs one election without other handlers in between; interleavings are in the cluster model.
- SetLeader, UpdateNodeHealth, Nodes, NodeAddr and the `Name` methods: single reads or assignments.
- Unlocked reads: Get reads an entry's expiry and value outside the lock; each is one atomic read, at any moment between its locked steps or after them.
- The cached bytes are values; sharing of one slice between caller and cache is not modelled.
- The heap entries' ordering fields are kept as one rank of two numbers, shared by LFU and TTL-only; entry heaps move as in Go's container/heap.
- Sorting the ring's tokens is a sorting function rather than an in-place sort; the compaction of Remove is in place.
- Prefix cache entries are values in the cache; sharing the looked-up entry with the caller is not modelled.
- The ordered dictionary is a list of keys, most recent first, beside a map.
- Rag.RunRequests: the retrieved indices are given; Zipf sampling, document stores and configuration checks are not modelled.
- Floating-point rounding in costs, rates and savings.
- Database failures in the product object: they end a request early in the split model only.
- HTTP, gRPC, SQL, JSON, SHA-256 and FNV-1a bodies, the proxy, metrics, commands, workload generation, latency statistics and reports.
- FLOP and dollar formulas of the model tables: a cost is any non-negative real.
