# A verified model of the DDoS protection core

The system decides for every packet whether it is accepted. Four stateful parts carry that decision,
and this project models them and proves what they promise:

* **The connection table** (`src/storage/hashtable.c`, `src/storage/lru_cache.c`). Every tracked connection
  sits in a doubly linked recency list and in a hash chain at once. The heap classes `ConnTable.HashTable`
  and `ConnCache.LruCache` rewire the same pointers as the C code and are proved to keep both structures in
  agreement while refining move-to-front on a list of entries (`LruTheory`). On that list, `LruTraces` and
  `LruHistories` prove theorems over whole runs: the cache is exactly the list of the last `max_size` distinct
  connections by last access, larger caches include smaller ones, clean-up is a filter that composes. `LruRecords`
  says for every operation what becomes of every entry, position by position and field by field. `Murmur` proves that
  two IPv4 connections that differ in one field never share a hash; `MurmurValues` writes every step of the hash out
  and gives its values at fixed inputs.
* **The rate limiter** (`src/filter/ratelimit.c`). `SlidingWindows.SlidingWindow` is the circular buffer, proved to be
  the last seconds of an unbounded event log; `RateTheory` and `RateRuns` prove the bound per window, the exact
  condition of refusal and the isolation of sources; `RateLimiters.RateLimiter` is the bucket table on the heap.
* **The IP sets** (`src/storage/ipset.c`). `Cidr` proves that the mask arithmetic is prefix matching. `IpSetTheory`,
  `IpSetAnswers` and `IpSetChanges` say what the operations do to the answers, `IpSets.IpSet` is the heap structure, and
  `CidrText` and `IpSetFile` prove the round trip through a file. `IpSetLaws` says which entries a clean-up takes and
  which lines of a file are accepted.
* **TCP tracking and reputation** (`src/detection/tcp_protect.c`, `src/detection/analyzer.c`). `TcpTheory` is one
  packet as a function, `TcpProtection.TcpProtect` the imperative analysis over the heap cache, proved equal to it;
  `TcpHandshake`, `TcpTracking` and `TcpRuns` prove the history of connections and the accounting over all runs.
  `TcpRecords` proves what the record of a connection counts and the only ways it is lost, `TcpLaws` gives the rules in
  numbers: the condition of every report, what every counter counts, and exactly which packet is accepted.
  `Reputation` and `Analyzers.Analyzer` do the same for the score and the expiring blacklist,
  and `ReputationLaws` gives one packet in numbers and the exact score after a run.

Each heap class is tied to a function on values by its method contracts, and the theorems are about that function.
Chains and lists are followed pointer by pointer; only the rate limiter keeps a chain as a sequence (see below).

Modelling decisions. Time is an argument wherever the code calls `time(NULL)`; where several calls in one step
matter (TCP packets, the analyzer) each reading is its own argument. A locked operation is one atomic step, and
`calloc` succeeds. `free` means that nothing leads to the object any more. Bytes, ports and 32-bit words are numbers
within their range; wrap-around of hashes and of `reputation_score` is written out, and 64-bit counters do not
overflow. The machine is little-endian. Table and window sizes are positive.

Where the code differs from what its comments or its structure suggest, the difference is stated as a theorem.
The model follows the code here:

* `hashtable_insert` on a key that is present does not preserve the chain (`TableOverwrite.FreshInsertKeepsAll`,
  `TableOverwrite.InsertPresent`).
* A network without a slash always gets prefix 32, "/32 or /128" notwithstanding (`IpSetFile.BareAddress`).
* `ipset_remove` compares the address only, so removing a network address removes its whole block; and adding an IPv6
  host renews a /32 block written with that address (`IpSetChanges.RemovalUnnoticedExactly`,
  `IpSetChanges.AdditionUnnoticedExactly`).
* The unsigned reputation can wrap: after an expired ban a drop can lift a source from 0 to 100 points
  (`Reputation.DropWrapsExactlyBelowTen`, `Reputation.DropAfterBanWraps`).
* The PSH+ACK flood rule can never fire (`TcpRuns.PushFloodNeverSeen`).

In two places the main theorems are about the evident intent, and a module of its own says what the code does as written:

* A new rate limiter entry stores its chain link over its packet window. `RateTheory`, `RateRuns` and `RateLimiters` have
  separate links. `RateAsWritten` shows that as written the packets of a source alone in its bucket are never counted,
  says exactly when its bound on packets holds all the same, and that a reset destroys the entry behind the one it removes.
* `analyzer_get_ip_stats` replaces the entry it creates by the empty bucket head and returns NULL. `Reputation` and
  `Analyzers` are about the table that keeps what it creates. `AnalyzerAsWritten` shows that as written nothing is ever
  stored and every packet is accepted, that of a blacklisted source too.

## Model

| member | source | states |
|---|---|---|
| `Addresses.CompareAddresses` | src/core/logger.c:230-240 | zero exactly when family and significant address bytes agree; unused union bytes never count |
| `Addresses.TupleCompareTotalOrder` | src/storage/hashtable.c:109-127 | `conn_tuple_compare` is a total order (antisymmetric, transitive); its zero case means same protocol, ports and address bytes |
| `Addresses.TupleCompareIsLex` | src/storage/hashtable.c:109-127 | the branching comparison is the lexicographic order on protocol, ports, source and destination |
| `Murmur.Murmur3_32` | src/storage/hashtable.c:30-76 | the block loop, tail switch and finalization compute Murmur3, whose every step the next rows give with its constants |
| `MurmurValues.WordByTheBook` | src/storage/hashtable.c:40-49 | no word leaves the seed, and one more word is mixed in by this product, rotation by 15, product, exclusive or, rotation by 13, times 5 plus constant: shifts, bitwise operators and constants written out |
| `MurmurValues.FinishByTheBook` | src/storage/hashtable.c:51-75 | after the last word: the one to three remaining bytes, the length, and the finalization with its three shifts and two products, written out |
| `MurmurValues.NoBytes` | src/storage/hashtable.c:67-75 | a value: no bytes with seed 1 hash to 0x514e28b7 |
| `MurmurValues.ThreeBytes` | src/storage/hashtable.c:51-75 | a value: the bytes 21 43 65 (hexadecimal) with seed 0 hash to 0x7e4a8634 |
| `Murmur.RotationsAreOr` | src/storage/hashtable.c:43-47 | the rotations the theorems speak of are the code's shifts joined by bitwise or |
| `Murmur.SwitchTail` | src/storage/hashtable.c:50-65 | the fall-through switch that joins the last bytes by exclusive or yields them as one word |
| `Murmur.MixKeyInjective` | src/storage/hashtable.c:40-44 | the key schedule (odd multiply, rotate, odd multiply) is one-to-one modulo 2^32 |
| `Murmur.RoundOneToOne` | src/storage/hashtable.c:41-48 | one round (mix a word, xor, rotate, times 5 plus constant) is one-to-one in the state for a given word and in the word for a given state |
| `Murmur.AvalancheInjective` | src/storage/hashtable.c:67-75 | the finalization (xorshifts and odd multiplications) is one-to-one modulo 2^32 |
| `Murmur.SeedBijective` | src/storage/hashtable.c:30-76 | for fixed data the hash is a bijection of its seed: every value has exactly one seed |
| `Murmur.WordInjective` | src/storage/hashtable.c:30-76 | for a fixed seed two inputs that differ in one aligned word, or in the tail, never collide |
| `Murmur.ConnTupleHash` | src/storage/hashtable.c:78-107 | the five chained calls compute a function of protocol, ports and significant address bytes only, whose stages and seed the next row fixes |
| `MurmurValues.ConnectionHash` | src/storage/hashtable.c:78-107 | a value: every tuple from 10.0.0.1 port 1234 to 192.168.0.2 port 80 by TCP, whatever its unused bytes, hashes to 0x7c689aec, through whole words and tails of two bytes and one |
| `Murmur.CompareZeroSameHash` | src/storage/hashtable.c:78-127 | tuples that compare equal have equal hashes, so a chain walk never looks into the wrong bucket |
| `Murmur.Ipv4HashSeparates` | src/storage/hashtable.c:78-107 | two IPv4 tuples that differ in exactly one of the five fields never have the same 32-bit hash |
| `Murmur.HashSeparates` | src/storage/hashtable.c:78-107 | the same for IPv6 addresses that differ within one aligned word |
| `ConnTable.PushSound` | src/storage/hashtable.c:207-213 | a new chain head keeps every chain acyclic, complete and in its bucket |
| `ConnTable.UnlinkSound` | src/storage/hashtable.c:257-263 | unlinking a node keeps every chain acyclic, complete and in its bucket |
| `ConnTable.HashTable.Lookup` | src/storage/hashtable.c:218-241 | the chain walk finds exactly the node the finite map holds for the key, or null |
| `ConnTable.HashTable.Insert` | src/storage/hashtable.c:205-216 | an absent key is added to the finite map, the node heads its chain, `entries` grows by one |
| `ConnTable.HashTable.Remove` | src/storage/hashtable.c:243-278 | the node with the key leaves map and chain and `entries` shrinks by one; an absent key changes nothing |
| `TableOverwrite.FreshInsertKeepsAll` | src/storage/hashtable.c:195-203 | inserting a fresh entry loses no connection if and only if its key is absent or stands last in its chain; the no-op `curr->next = curr->next` cuts off all nodes behind an earlier one |
| `TableOverwrite.SecondOfTwoIsLost` | src/storage/hashtable.c:195-203 | the smallest case: inserting the head of a chain of two again loses the other |
| `TableOverwrite.InsertPresent` | src/storage/hashtable.c:194-203 | on the heap: the node that holds the key takes over all fields of a fresh entry, so its chain ends there, exactly as the lemmas above say, and its two links of the recency list become NULL |
| `TableOverwrite.SavedLinkKeepsAll` | src/storage/hashtable.c:195-203 | had the link been saved across the copy, as the comment says, the chain would be unchanged |
| `ConnCache.LruCache.constructor` | src/storage/lru_cache.c:25-52 | an empty cache; its table has `max_size` buckets and hashes by `conn_tuple_hash`; the joint invariant holds |
| `ConnCache.LruCache.MoveToHead` | src/storage/lru_cache.c:77-110 | the pointer surgery keeps the doubly linked list acyclic, mirrored, with right ends, and moves the node to the front |
| `ConnCache.LruCache.EvictLru` | src/storage/lru_cache.c:112-135 | the last node, and only it, leaves both list and table; the joint invariant is kept |
| `ConnCache.LruCache.Get` | src/storage/lru_cache.c:137-199 | a hit brings the entry to the front with a new last_seen and its tuple, state, first_seen, packets and bytes as they were; a miss puts an entry without packets there, and only a full cache loses its last entry; every other entry is unchanged, position by position; list and table hold the same nodes |
| `ConnCache.LruCache.Update` | src/storage/lru_cache.c:201-215 | the entry moves to the front with a new last_seen and nothing else of it changed; all others keep their order and their fields |
| `ConnCache.LruCache.Remove` | src/storage/lru_cache.c:217-254 | the entry of this connection leaves both structures: position i holds old i before it and old i + 1 behind it; without one nothing changes |
| `ConnCache.LruCache.CleanupExpired` | src/storage/lru_cache.c:268-344 | the backward walk leaves the order-preserving filter in both structures and returns how many left: an entry stays if and only if it has been idle for at most 7200 s (TCP ESTABLISHED), 30 s (other TCP), 10 s (ICMP) or 60 s (all others) |
| `ConnCache.LruCache.ViewKeys` | src/storage/lru_cache.c:137-199 | in every valid cache each connection is listed once, and the table maps it to its list node |
| `LruRecords.TouchLeaves` | src/storage/lru_cache.c:137-215 | the step of the theorems below on lists, field by field and position by position, for a hit and for a miss |
| `LruRecords.RemovedLeaves` | src/storage/lru_cache.c:217-254 | the same for a removal |
| `LruRecords.LiveLeaves` | src/storage/lru_cache.c:268-344 | the same for a clean-up, with the timeouts in seconds |
| `LruTraces.TouchMovesToFront` | src/storage/lru_cache.c:137-215 | on keys one step is take(max_size, [k] + (old without k)) |
| `LruTraces.RunIsRecencyList` | src/storage/lru_cache.c:137-215 | after any trace of gets and updates a list of keys is the cache if and only if it is the recency list: the last max_size distinct keys, by last access |
| `LruTraces.VictimIsOldest` | src/storage/lru_cache.c:112-174 | an evicted key had the oldest last access of all keys in the cache |
| `Recency.MovedIsRecencyList` | src/storage/lru_cache.c:137-215 | move-to-front with a capacity always yields the recency list of its trace |
| `Recency.RecencyListUnique` | src/storage/lru_cache.c:137-215 | there is only one recency list for a trace and a capacity |
| `LruHistories.ReachableInvariant` | src/storage/lru_cache.c:77-344 | through every mix of accesses, removals and clean-ups each connection is listed once and the capacity is respected |
| `LruHistories.LivePositions` | src/storage/lru_cache.c:268-344 | clean-up keeps exactly the entries at the unexpired positions, in order |
| `LruHistories.CleaningComposes` | src/storage/lru_cache.c:268-344 | cleaning at t1 and then at t2 >= t1 leaves what cleaning at t2 alone leaves |
| `LruHistories.SecondCleaningIsIdle` | src/storage/lru_cache.c:268-344 | a second clean-up at the same time removes nothing |
| `LruHistories.ReachableSorted` | src/storage/lru_cache.c:148-210 | under a non-decreasing clock the list stays sorted by last_seen |
| `LruHistories.ReachableExpiredNearestTail` | src/storage/lru_cache.c:268-344 | in every reachable cache, under a non-decreasing clock, the expired ones among entries with equal timeout are nearest the tail |
| `LruHistories.Inclusion` | src/storage/lru_cache.c:137-199 | the same history of cache operations, which never write the state of an entry, on capacities c <= c': after every step the smaller cache is a prefix of the larger one, key by key and stamp by stamp |
| `LruHistories.HitInBoth` | src/storage/lru_cache.c:137-199 | a hit in the smaller cache is a hit in the larger one, at the same position |
| `SlidingWindows.SlidingWindow.Add` | src/filter/ratelimit.c:78-108 | after the add the circular buffer is again the log: bucket j behind the current one holds the total of second window_start - j |
| `SlidingWindows.SlidingWindow.WindowTotal` | src/filter/ratelimit.c:110-133 | the sum is the log total of (window_start - size, window_start], and 0 once size seconds have passed |
| `SlidingWindows.SlidingWindow.BucketsSumToWindow` | src/filter/ratelimit.c:110-133 | the buckets add up to the logged total of the last size seconds |
| `SlidingWindows.WindowSumNeverLow` | src/filter/ratelimit.c:110-133 | a later sum never underestimates the true window; it is exact at the time of the last add |
| `SlidingWindows.WindowSumExactly` | src/filter/ratelimit.c:110-133 | until the window has passed, a later sum is the true window plus exactly what has left it since the last add |
| `RateTheory.AfterIsLog` | src/filter/ratelimit.c:248-284 | with separate chain links: with a non-decreasing clock the limiter remembers exactly the packets of the trace |
| `RateTheory.RefusedExactly` | src/filter/ratelimit.c:273-283 | with separate chain links: a packet is refused exactly when the attempts in (now - W, now], itself included, reach (max_pps + 1) * W packets or (max_bps + 1) * W bytes |
| `RateTheory.RateBound` | src/filter/ratelimit.c:248-284 | with separate chain links: any W consecutive seconds let at most (max_pps + 1) * W - 1 packets and (max_bps + 1) * W - 1 bytes through |
| `RateRuns.Isolation` | src/filter/ratelimit.c:208-284 | with separate chain links: the verdicts a source gets in any interleaved run are those of replaying its own operations alone |
| `RateRuns.SourceBound` | src/filter/ratelimit.c:208-284 | with separate chain links: the rate bound for one source in any interleaved run without a reset of it |
| `RateRuns.ResetForgets` | src/filter/ratelimit.c:343-375 | with separate chain links: after a reset the next packet is judged like a first sighting, and every other source is unchanged |
| `RateAsWritten.LoneEntry.constructor` | src/filter/ratelimit.c:225-245 | as written: the packet window of the first source of a bucket is lost to the chain link, and only its bytes are remembered |
| `RateAsWritten.LoneEntry.Judge` | src/filter/ratelimit.c:266-279 | as written: without a packet window the verdict looks at the bytes alone |
| `RateAsWritten.AdmittedExactly` | src/filter/ratelimit.c:266-279 | as written, for a source alone in its bucket: a packet is refused exactly for its bytes |
| `RateAsWritten.DiffersExactly` | src/filter/ratelimit.c:242-279 | the verdict differs from the intended one if and only if the bytes are within their limit and the packets are not |
| `RateAsWritten.ByteBound` | src/filter/ratelimit.c:248-284 | as written the bound on bytes holds on every trace |
| `RateAsWritten.PacketBoundExactly` | src/filter/ratelimit.c:242-279 | as written the bound on packets holds on all traces of packets of at least s bytes if and only if s > 0 and ((max_bps + 1) * W - 1) / s <= (max_pps + 1) * W - 1 |
| `RateAsWritten.TwoPacketsPass` | src/filter/ratelimit.c:242-279 | two packets in one second at one packet per second: both pass as written, at most one as intended |
| `RateAsWritten.PacketWindowExactly` | src/filter/ratelimit.c:221-243 | a source has no packet window if and only if it is absent or last in its chain; any other has another source's entry in its place |
| `RateAsWritten.ResetSparesExactly` | src/filter/ratelimit.c:357-366 | a reset leaves no destroyed entry reachable if and only if the source is absent or last in its chain |
| `RateAsWritten.ResetDestroysNeighbour` | src/filter/ratelimit.c:357-366 | two sources in one bucket: resetting the newer destroys the older |
| `RateLimiters.HashSimple` | src/filter/ratelimit.c:193-206 | the bucket index depends on family and address bytes only |
| `RateLimiters.FiledInsert` | src/filter/ratelimit.c:241-245 | a new chain head keeps every entry once, in the bucket of its address |
| `RateLimiters.FiledRemove` | src/filter/ratelimit.c:357-372 | unlinking keeps every other entry once, in the bucket of its address |
| `RateLimiters.RateEntry.Judge` | src/filter/ratelimit.c:248-284 | a packet is counted in both windows before the averages are compared, whatever the verdict |
| `RateLimiters.RateLimiter.GetOrCreate` | src/filter/ratelimit.c:208-246 | with separate chain links: finds the entry of the address or files a fresh one; no other source changes |
| `RateLimiters.RateLimiter.Allow` | src/filter/ratelimit.c:248-284 | with separate chain links: one step of the run model: only this source changes, and the verdict is that of its log |
| `RateLimiters.RateLimiter.Reset` | src/filter/ratelimit.c:343-375 | with separate chain links: the entry of this source is forgotten and no other source changes |
| `Cidr.InCidrIsPrefixMatch` | src/storage/ipset.c:214-246 | the mask arithmetic (network-order 32-bit mask, whole bytes plus partial byte) accepts exactly the addresses that share the first prefix_len bits, for every prefix 0..32 and 0..128 |
| `Cidr.BlocksNestOrAreDisjoint` | src/storage/ipset.c:214-246 | two blocks are nested or disjoint |
| `Cidr.ShorterPrefixMatches` | src/storage/ipset.c:214-246 | matching a prefix implies matching every shorter prefix of the same network |
| `Cidr.FullPrefixIsOneAddress` | src/storage/ipset.c:214-246 | a full prefix matches one address; an address lies in every block written with it |
| `IpSetTheory.ReachableSound` | src/storage/ipset.c:101-182 | in every reachable set entry_count is the total chain length, at most max_size, and every entry stands in its bucket |
| `IpSetLaws.HashByBytes` | src/storage/ipset.c:81-94 | an IPv4 address hashes to its own number, an IPv6 address to the exclusive or of its four words, bytes written out |
| `IpSetAnswers.ContainsIsListed` | src/storage/ipset.c:184-212 | the one-bucket probe equals existence of an unexpired entry with that address anywhere |
| `IpSetAnswers.ContainsCidrIsCovered` | src/storage/ipset.c:248-278 | the scan equals existence of an unexpired covering entry |
| `IpSetAnswers.ListedIsCovered` | src/storage/ipset.c:184-278 | whatever `ipset_contains` finds, `ipset_contains_cidr` finds |
| `IpSetAnswers.CleanupKeepsAnswers` | src/storage/ipset.c:378-416 | sweeping at now changes neither answer for any address at any time >= now |
| `IpSetLaws.CleanupExactly` | src/storage/ipset.c:378-416 | of every entry: with an expiry time before now no copy is left, otherwise all copies are; and the count is right |
| `IpSetAnswers.AddBlockAnswers` | src/storage/ipset.c:280-342 | adding a block adds one entry to the multiset and changes the answers exactly for what it names and covers |
| `IpSetChanges.AddHostAnswers` | src/storage/ipset.c:101-147 | an added host is listed until it expires; the host test of the other addresses stays; their covering test stays for IPv4 and where nothing is renewed, otherwise the renewed entry covers them until its new time instead of its old one |
| `IpSetChanges.AdditionUnnoticedExactly` | src/storage/ipset.c:117-126 | adding a host leaves the covering test of all other addresses alone, in every set that renews this entry for it, if and only if the host is IPv4 or nothing is renewed |
| `IpSetChanges.RenewingBlockUncovers` | src/storage/ipset.c:117-126 | an IPv6 /32 block without expiry, added again as a host until some time: afterwards its other addresses are covered no more |
| `IpSetChanges.RemoveAnswers` | src/storage/ipset.c:149-182 | removal takes one copy of the first entry with the address from the multiset; the host test of the others stays; an address was covered if and only if it still is or the removed entry covered it; the address itself stays listed if and only if a later live entry has it |
| `IpSetChanges.RemovalUnnoticedExactly` | src/storage/ipset.c:163-177 | removal leaves the covering test of all other addresses alone, in every set with this first entry, if and only if there is none or it has the full prefix |
| `IpSetChanges.RemovingBlockUncovers` | src/storage/ipset.c:163-177 | removing the network address of the only block uncovers every address of the block |
| `IpSetChanges.RemovedForGoodExactly` | src/storage/ipset.c:149-182 | after one removal the address is listed at no time if and only if it had at most one entry |
| `IpSetChanges.TwiceAddedStays` | src/storage/ipset.c:117-138 | an IPv6 host added twice is still listed after one removal |
| `IpSetAnswers.HeldThroughout` | src/storage/ipset.c:101-416 | a held address is found up to its expiry through any run without removal, renewal, clear or a sweep past its time |
| `IpSets.Chain.SweepOut` | src/storage/ipset.c:378-416 | the walk that unlinks while walking leaves the order-preserving filter of the chain and counts what left |
| `IpSets.Chain.RemoveFirst` | src/storage/ipset.c:149-182 | the first entry with the address is unlinked, the rest of the chain is untouched |
| `IpSets.IpSet.constructor` | src/storage/ipset.c:35-57 | an empty set of 4096 chains |
| `IpSets.IpSet.AddExpiring` | src/storage/ipset.c:101-147 | full: refused before the duplicate check; an entry with prefix 32 is renewed in place; otherwise a new chain head, and the counter follows |
| `IpSets.IpSet.AddNetwork` | src/storage/ipset.c:280-342 | parses, validates and files a block; refused when it does not parse or the set is full |
| `IpSets.IpSet.RemoveAddress` | src/storage/ipset.c:149-182 | the heap operation is the removal on the abstract table |
| `IpSets.IpSet.Has` | src/storage/ipset.c:184-212 | the heap scan of one bucket answers `ipset_contains` |
| `IpSets.IpSet.HasCovering` | src/storage/ipset.c:248-278 | the heap scan of all buckets answers `ipset_contains_cidr` |
| `IpSets.IpSet.Size` | src/storage/ipset.c:344-354 | the counter is the number of entries, at most max_size |
| `IpSets.IpSet.ClearAll` | src/storage/ipset.c:356-376 | the set is the empty set again |
| `IpSets.IpSet.CleanupExpired` | src/storage/ipset.c:378-416 | every chain is filtered, the counter follows, the number removed is returned |
| `IpSets.IpSet.LoadFrom` | src/storage/ipset.c:418-445 | the line loop (255-character reads, comments, empty lines, refused lines) computes the abstract load and its count |
| `IpSets.IpSet.SaveTo` | src/storage/ipset.c:447-477 | one line for each entry, bucket by bucket and chain by chain, and the count |
| `CidrText.AtoiOfDecimal` | src/storage/ipset.c:294-302 | reading a printed prefix gives the prefix back |
| `CidrText.ParseOfFormat` | src/storage/ipset.c:280-342 | a printed network splits at its slash and reads back with the same address and prefix |
| `IpSetLaws.ParsedExactly` | src/storage/ipset.c:288-312 | address/prefix is accepted if and only if the address has at most 45 characters and can be read and the prefix is at most 32 (IPv4) or 128 (IPv6); it then is this network without expiry |
| `IpSetLaws.BareExactly` | src/storage/ipset.c:288-306 | without a slash the first 45 characters are the address, with prefix 32 |
| `IpSetLaws.Read` | src/storage/ipset.c:301 | `atoi` on nothing, other text, a sign, spaces and trailing text, and -1 as unsigned number |
| `IpSetLaws.OneLine` | src/storage/ipset.c:427-438 | a line of a file adds its network; an empty line, a comment, a refused line adds nothing; the count counts what was added |
| `IpSetLaws.LongLine` | src/storage/ipset.c:424-429 | a longer line is read in pieces of 255 characters |
| `IpSetFile.LoadOfSave` | src/storage/ipset.c:418-477 | loading a saved text adds its entries one by one, in order |
| `IpSetFile.RoundTripCount` | src/storage/ipset.c:418-477 | save then load into an empty set of size n keeps min(n, count) entries and returns that number |
| `IpSetFile.RoundTripMirrors` | src/storage/ipset.c:418-477 | with room every chain comes back reversed and the multiset of (address, prefix) is the same |
| `IpSetFile.RoundTripAnswers` | src/storage/ipset.c:418-477 | the reloaded set says yes exactly to what some saved entry named or covered, expired or not: a superset in general, identical when all entries are permanent |
| `IpSetFile.TwoRoundTrips` | src/storage/ipset.c:418-477 | two round trips restore the order of every chain |
| `IpSetFile.BareAddress` | src/storage/ipset.c:288-302 | an address without a slash gets prefix 32, which is the address alone if and only if it is IPv4 |
| `TcpTheory.KindByDigits` | src/detection/tcp_protect.c:110-224 | each of the six branches, by the flag bits that lead there |
| `TcpHandshake.StateIsTold` | src/detection/tcp_protect.c:110-246 | the state after any sequence of packets: ESTABLISHED exactly when the last restart was a pure SYN followed by SYN+ACK and ACK and no FIN; FIN_WAIT exactly with that FIN; CLOSE_WAIT never |
| `TcpTracking.HandshakeHistory` | src/detection/tcp_protect.c:77-266 | in every run the state of every tracked connection is what the flags since its entry was created make it; eviction, expiry and Slowloris removal start over |
| `TcpTracking.EstablishedHasShakenHands` | src/detection/tcp_protect.c:77-266 | a tracked connection is ESTABLISHED, or in FIN_WAIT, exactly when its own packets shook hands in that order |
| `TcpTracking.RunInvariant` | src/detection/tcp_protect.c:77-320 | in every run each connection is tracked once and never more than the capacity |
| `TcpTracking.RunSorted` | src/detection/tcp_protect.c:97-108 | the list stays sorted by last_seen although last_seen is also written directly |
| `TcpRecords.TrackLeaves` | src/detection/tcp_protect.c:88-108 | one packet and the list: a known connection comes to the front with one packet and len bytes more, a new one counts this packet only; every other record is unchanged |
| `TcpRecords.RecordHistory` | src/detection/tcp_protect.c:88-108 | in every run, for every tracked connection: packets is the number of its packets since its entry was created, bytes the sum of their lengths, first_seen and last_seen the clocks of the first and last of them |
| `TcpRecords.LostExactly` | src/detection/tcp_protect.c:77-320 | a connection stops being tracked if and only if the expiry walk finds it idle for too long, a new connection arrives while the list is full and it is the last, or its own packet is reported as Slowloris; otherwise another connection's packet leaves it exactly as it was |
| `TcpRecords.LeavesOnlySo` | src/detection/tcp_protect.c:77-320 | over runs: whoever was tracked once and no longer is, was lost at an event of one of these three kinds in between |
| `TcpLaws.ReportedExactly` | src/detection/tcp_protect.c:110-246 | which packet is reported as which flood, as an if and only if on flags, clock, counters and thresholds in numbers |
| `TcpLaws.SourceAfter` | src/detection/tcp_protect.c:110-246 | what each packet leaves of its source: when the SYN and ACK counters grow and start over, when last_update moves, what RST and FIN count |
| `TcpLaws.MeterCounts` | src/detection/tcp_protect.c:113-182 | in every run tcp_syn_pps and tcp_ack_pps are the numbers of pure SYNs and of ACKs of the source since the counter last started over |
| `TcpLaws.ForGood` | src/detection/tcp_protect.c:203-246 | in every run packets[RST] and packets[FIN] are the numbers of all RST and FIN packets of the source |
| `TcpLaws.CountersCount` | src/detection/tcp_protect.c:86-233 | in every run total_tcp_packets, syn, ack, rst and fin count the TCP packets, and those of each kind |
| `TcpLaws.VerdictExactly` | src/detection/tcp_protect.c:77-320 | a TCP packet is accepted if and only if no flood is reported, the connection is not slow (over 60 s with under 10 packets, or over 30 s with under 100 bytes), it is no SYN below 50 points with over 471859 connections, and its flags make sense; Slowloris is reported, and the connection taken out, exactly without a flood and with a slow connection |
| `TcpRuns.Accounting` | src/detection/tcp_protect.c:113-266 | dropped_packets is the number of DROP verdicts; attacks_detected is the sum over all sources of packets[] (SYN, ACK, PSH+ACK flood, Slowloris) or of max(0, packets[] - 5000) (RST, FIN flood) |
| `TcpRuns.PushFloodNeverSeen` | src/detection/tcp_protect.c:184-201 | packets[PSH_ACK] stays 0 in every run and no such attack is reported |
| `TcpRuns.SynCounterStaysHigh` | src/detection/tcp_protect.c:113-144 | once tcp_syn_pps exceeds the threshold it never falls back to it |
| `TcpRuns.StepKeepsHigh` | src/detection/tcp_protect.c:113-144 | and every later pure SYN at least a second after last_update is dropped |
| `TcpTheory.AcceptedIsSane` | src/detection/tcp_protect.c:268-319 | whatever came before, an accepted TCP packet is well-formed, has some flag and no SYN+FIN, SYN+RST or FIN+PSH+URG, and is no SYN of a low-reputation source while the table is nearly full |
| `TcpProtection.TcpProtect.ApplyRules` | src/detection/tcp_protect.c:110-246 | the branch chain moves the connection's state, judges the source as `TcpLaws.ReportedExactly` and `TcpLaws.SourceAfter` say in numbers, and keeps the counters; list and table stay joined |
| `TcpProtection.TcpProtect.LooksSlow` | src/detection/tcp_protect.c:53-75 | `is_slowloris_attack` on the connection in front of the list |
| `TcpProtection.TcpProtect.LastChecks` | src/detection/tcp_protect.c:268-319 | the checks that need no history, in order: nearly full table, malformed, SYN+FIN, SYN+RST, no flags, FIN+PSH+URG |
| `TcpProtection.TcpProtect.Inspect` | src/detection/tcp_protect.c:77-320 | the whole analysis over the heap cache is one step of the run model, in its verdict and in all it writes; `TcpLaws.VerdictExactly` gives that step in numbers |
| `Reputation.DropWrapsExactlyBelowTen` | src/detection/analyzer.c:156-160 | a drop lowers the unsigned score if and only if it is at least 10; below 10 the subtraction wraps and is capped at 100 |
| `Reputation.ReputationSandwich` | src/detection/analyzer.c:147-175 | with the intended table: for a source no HTTP rule touched, until it is marked: 50 - 10D <= score <= 50 - 10D + A, and score >= 10 |
| `Reputation.FewDropsNeverBlock` | src/detection/analyzer.c:147-175 | with the intended table: until then no drop wraps, and the drop that blocks a source is at least its fifth |
| `ReputationLaws.ExactScore` | src/detection/analyzer.c:147-175 | with the intended table, under the same conditions: the score is exactly 50 - 10D + A as long as it was not full, and min(100, 50 + A) when D is 0 |
| `ReputationLaws.PacketByNumbers` | src/detection/analyzer.c:342-394 | with the intended table, one packet in numbers: +1 up to 100 for ACCEPT, -10 for DROP (100 below 10), nothing for RATE_LIMIT and CHALLENGE; on a list only the mark changes; below 10 an unmarked source is marked and blocked; no other source changes |
| `ReputationLaws.StartsNeutral` | src/detection/analyzer.c:128-134 | a source starts with 50 points and no mark |
| `Reputation.BlockedAtMostOnce` | src/detection/analyzer.c:163-172 | over any run a source is auto-blacklisted at most once |
| `Reputation.AutoBlockBans` | src/detection/analyzer.c:163-172 | with the intended table: if the blacklist has room, the blocking packet bans its source until blacklist_expires |
| `Reputation.BlockedSourceIsDropped` | src/detection/analyzer.c:342-394 | with the intended table: from then on, whatever the other sources do, every packet up to blacklist_expires is DROP unless whitelisted and the score stands still, given no removal, renewal or clear |
| `Reputation.DropAfterBanWraps` | src/detection/analyzer.c:156-160 | with the intended table: a reachable run in which a drop after the ban lifts the score from 0 to 100 |
| `AnalyzerAsWritten.LookupIsNull` | src/detection/analyzer.c:112-144 | as written: in a table that stores nothing the look-up returns NULL and still stores nothing |
| `AnalyzerAsWritten.PacketsLeaveNoTrace` | src/detection/analyzer.c:104-145 | as written: after every run no statistics are stored and everything is as if the packets had not come |
| `AnalyzerAsWritten.EveryPacketAccepted` | src/detection/analyzer.c:342-350 | as written: every packet of every run is accepted |
| `AnalyzerAsWritten.VerdictAsIntendedExactly` | src/detection/analyzer.c:342-394 | the verdict as written is the intended one if and only if the source is whitelisted, or not blacklisted and accepted by the rules |
| `AnalyzerAsWritten.BlacklistedIsAccepted` | src/detection/analyzer.c:342-362 | a source blacklisted for good: accepted as written, dropped as intended |
| `Analyzers.Analyzer.GetIpStats` | src/detection/analyzer.c:104-145 | with the intended table: find-or-create: a new source starts at 50 points, no other source changes |
| `Analyzers.Analyzer.UpdateReputation` | src/detection/analyzer.c:147-175 | the heap update of score, flags, expiry and blacklist is the abstract update; no other source changes |
| `Analyzers.Analyzer.ProcessPacket` | src/detection/analyzer.c:342-394 | with the intended table: whitelist first, then blacklist, then the rules and the reputation: one step of the run model, which `ReputationLaws.PacketByNumbers` gives in numbers |

## Left out

- ConnTable.HashTable.Insert: requires the key to be absent, as it always is when `lru_cache_get` calls it; what the code does to a present key is `TableOverwrite`, on one chain of nodes with the recency links but without the rest of the table.
- ConnTable.HashTable.Remove: unlinks once; that the C code frees the entry in `hashtable_remove` and again in the LRU code is not modelled.
- ConnCache.LruCache.Update: takes an entry of the cache, as its callers pass one.
- RateLimiters.RateLimiter.GetOrCreate: a chain is the sequence of its entries, with separate links, because the C code lays the chain link over the field `pps_window`; what that does is `RateAsWritten`. A packet's step reads the clock once.
- RateAsWritten.LoneEntry.Judge: for a source alone in its bucket; with a second source the code takes that source's entry for a window, which C leaves undefined, and only which entry it takes is modelled.
- RateLimiters.RateLimiter.Allow: with separate links; the packet's size is unbounded and the 64-bit totals do not overflow.
- IpSets.IpSet.AddExpiring: nothing is claimed about uniqueness of IPv6 host entries, because the duplicate check only looks at prefix 32.
- IpSets.IpSet.SaveTo: entries have family IPv4 or IPv6.
- LruHistories.Inclusion: for operations of the cache alone; where the TCP rules write states, an entry the smaller cache lost and readmitted is CLOSED there and may be cleaned earlier.
- CidrText.ParseOfFormat: conversion of addresses to and from text is a parameter, assumed to be an inverse pair on the significant bytes.
- CidrText.AtoiOfDecimal: `atoi` saturates at a 64-bit long and is then cut to 32 bits, as the usual C library does; the C standard leaves overflow open.
- IpSetFile.BareAddress: a text of 45 characters or more without a slash leaves the last byte of a C buffer unset; the model takes the first 45 characters.
- TcpProtection.TcpProtect.Inspect: whether the parser found the packet malformed is an input.
- ReputationLaws.ExactScore: as ReputationSandwich, and exact only for runs that do not fill the score: a point added to a full score is lost.
- Reputation.ReputationSandwich: with the intended table, and for sources the HTTP rules never touch, because those rules write the score too.
- Analyzers.Analyzer.GetIpStats: the intended find-or-create map; the C code has no link field, does not store the new entry and returns NULL, so that every packet is accepted: see `AnalyzerAsWritten`.
- AnalyzerAsWritten.LookupIsNull: on values; the walk over a chain that does not advance is a look-up that never returns.
- Analyzers.Analyzer.ProcessPacket: with the intended table; the UDP, TCP, ICMP and HTTP rules are an arbitrary verdict and an arbitrary score left by HTTP.
- Concurrency between bucket locks and the cache lock, and callers that change an entry after the lock is released.
- Failure of `calloc`, NULL arguments, destruction of tables, caches, limiters and sets, and reclamation of memory.
- `hashtable_clear`, `hashtable_foreach`, `hashtable_size`, `rate_limiter_get_pps`, `rate_limiter_get_bps` and `rate_limiter_update`: they would only add easy members.
- The magnitude of `memcmp` results beyond their sign, and failure to open a file.
- Entropy, baseline, anomaly detection and classification in `src/detection/analyzer.c`: floating point and a flat decision list.
- `src/detection/udp_protect.c`, `icmp_protect.c`, `http_protect.c`, `ebpf`: straight-line threshold and byte checks.
- Packet capture and parsing, logging, configuration, the API, GeoIP, firewall control and process setup.
