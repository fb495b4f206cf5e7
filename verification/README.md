# System monitor: a verified model

This project models the stateful core of a Linux system monitor, a C library behind a Java interface, and
proves what its parts promise.

1. **The expiring hash cache** (`CacheTable`, `CacheRefinement`, `CacheRuns`, `CacheTimes`, `CacheValues`,
   `CacheRoom`, `NativeCache`). A chained table keyed by 64-bit ids that grows, shrinks and evicts idle entries in
   place. `NativeCache` is the code's own form, an array of chains of heap entries; the other modules state on
   values what it does: when a run is the run of a finite map, which entries outlive it under any clock, how far
   apart evictions are, where every value written ends, what rehashing costs.
2. **Its three clients**: the index of listening ports with the TCP counters (`NetStat`, `NetRecords`,
   `ListenTables`, `ListenRuns`, `ListenIndex`), the device index (`DeviceTables`, `DeviceRuns`, `IoDevice`) and the
   per-process CPU meter (`ProcStat`, `ProcSlot`, `ProcCpu`). `ListenTables` and `DeviceTables` follow a whole walk
   on the hash table and say exactly when its rehashes lose entries; `ListenRuns` and `DeviceRuns` say what a
   handle keeps over all its calls, and what its answers are once entries are lost. `NetRecords` and the end of
   `ProcCpu` carry the counters and the percentages down to the texts below `/proc`.
3. **The Java proxy cache** (`ProxyCache`, `SysmProxyCache`) over a map of soft references (`RefMap`,
   `ReferenceMaps`). The collector is an adversary: it may clear a reference at any moment and enqueue it at any
   later one. `SysmProxyCache` carries the run of its calls, and `Invoke` answers for the whole run: an answer is
   fresh, and until the collector has run a call is real only if there is no fresh answer.
4. **The text below `/proc`**: arguments (`ProcArgs`), environment (`ProcEnv`), `stat` lines (`ProcStat`),
   connection tables (`NetLine`, `NetWalk`, `NetPort`), hexadecimal and decimal text (`HexText`, `DecimalText`) and the fold
   of processor lines into sockets (`CpuTimes`, `CpuList`). `Text` and `Words` hold what they share.

Files, directories, `stat` calls and clocks are inputs: texts, lists, maps and numbers, arbitrary unless a lemma
says otherwise. Unsigned 64-bit differences of times wrap, as in C.

## Where the code departs from its intent

The model follows the code. Each of these is a theorem with the exact condition.

- `sysm_cache_rehash` (`sysm-native/src/main/sysm_util.c:362`) links an entry to the head of its new bucket but
  never stores it as that head, so a rehash forgets every entry while `count` stays. `Config.headStored` says
  which rehash is meant, `false` being the code as written; the results hold for both, and only `CacheIsMap`
  takes the completed insertion. `GetExact`, `CountExact`, `LiteralCache` and `LiteralMeterForgets` say exactly
  when the code as written still is a map, `ConservedExact` when it loses no value, `ListenTables.WalkExact` and
  `DeviceTables.WalkExact` when the two indexes stay complete: up to 32 listening ports and 15 devices. One more
  leaves one (`OnePortTooMany`, `OneDiskTooMany`). From then on inbound traffic is counted as outbound
  (`CountsFallShort`, `SecondPassFallsShort`), and a device that is listed may not be found (`HeldExact`,
  `FirstCallRight`).
- A clock that steps back wraps the unsigned differences and evicts entries in use (`ClockStepBack`,
  `ClockStepBackEvicts`); `SurvivesExact` says which entries outlive a run under any clock.
- `proc_stat_read` stamps its slot before it reads (`sysm-native/src/main/sysm.c:1799-1805`): one failed read
  serves another process's data, or data that has expired (`ServedAfterRead`, `FailedReadServesAnother`,
  `FailedReadServesStale`).
- A match ends one connection table and not the walk (`sysm-native/src/main/sysm.c:534-539`), so the last table with
  a match wins: a port that listens on IPv4 and IPv6 gets its tcp6 row (`LastFileWins`, `SearchExact`, `DualStack`).
- Only two tokens are skipped between fields 15 and 22 (`sysm-native/src/main/sysm.c:1843-1846`): start time,
  vsize, rss and processor come from fields 18, 19, 20 and 35 (`TailFields`, `StartTimeExact`).
- The CPU meter caches a record before its percentage is computed (`sysm-native/src/main/sysm.c:1764`): a call in
  the same millisecond returns the percentage that the caller's buffer held earlier (`SameMillisecond`). It stamps the time of a call
  before the reading, so after a failed one the next percentage is too high (`AfterFailure`).
- Several arguments of a proxied call are one XOR of hash codes
  (`sysm-jni/src/main/java/edu/scut/cs/hbdc/sysm/SysmProxyCache.java:72-76`): their order is lost (`KeysCollide`);
  freshness is stated up to equal keys.
- `poll` removes by key, so a stale reference can remove a fresh mapping (`PollExact`, `FreshMappingLost`); no
  value is ever wrong (`NeverWrong`).
- An environment entry without `=` hides every later one (`PairsOfJoined`).
- Processor lines are rolled up only on the first call of a handle (`RollsUpOnce`).

## Model

| member | source | states |
|---|---|---|
| CacheRefinement.PlacedLookup | sysm-native/src/main/sysm_util.c:342-343 | in a table where every entry stands in bucket `id % size` and ids are distinct, searching all buckets finds for every id exactly what searching its own bucket finds |
| CacheRefinement.SizeOfIndex | sysm-native/src/main/sysm_util.c:401-434 | the map a table stands for has as many ids as entries are linked, and `count` equals that number exactly when it is the size of the map |
| CacheRefinement.RehashKeeps | sysm-native/src/main/sysm_util.c:345-370 | for any table and any new size: with the head of line 362 stored, every id leads to the same entry, value and access time as before; as written, no id leads anywhere |
| CacheRefinement.RehashRefines | sysm-native/src/main/sysm_util.c:345-370 | a rehash with the head stored leaves the map unchanged and all entries linked; as written it leaves the empty map and no linked entry |
| CacheRefinement.SurvivorsLookup | sysm-native/src/main/sysm_util.c:392-412 | of one chain, exactly the entries whose idle time is within the expire period are still found, with distinct ids |
| CacheRefinement.SweptLookup | sysm-native/src/main/sysm_util.c:386-413 | over all buckets: an id is still found, unchanged, iff its entry was within the expire period; `count` falls by exactly the number of entries unlinked |
| CacheRefinement.CleanupRefines | sysm-native/src/main/sysm_util.c:372-416 | a cleanup is the removal of expired ids from the map, unless it ends in a losing rehash (as written, due, sparse, survivors left), which leaves the empty map and a positive `count` |
| CacheRefinement.StoreRefines | sysm-native/src/main/sysm_util.c:443-449 | a caller's write through an entry is the update of that id's value in the map and of nothing else |
| CacheRefinement.InsertRefines | sysm-native/src/main/sysm_util.c:434-449 | an insertion adds one entry without a value at its id, keeps all others and keeps `count` true, unless it grows the table with the rehash as written, which leaves the new id alone |
| CacheRefinement.GetRefines | sysm-native/src/main/sysm_util.c:418-450 | `get` is cleanup, then a hit with a new access time or one new id without a value, on the map; `count` stays true; for every call that does not lose |
| CacheRefinement.FindRefines | sysm-native/src/main/sysm_util.c:452-468 | `find` is cleanup, then a new access time if the id is there, on the map; a miss changes nothing |
| CacheRefinement.GetMissing | sysm-native/src/main/sysm_util.c:418-450 | `count` minus linked entries never falls, and a `get` raises it exactly under the guard of the losing rehash |
| CacheRefinement.FindMissing | sysm-native/src/main/sysm_util.c:452-468 | the same for `find`, whose only rehash is the one of the cleanup |
| CacheRuns.StepRefines | sysm-native/src/main/sysm_util.c:372-468 | every `get`, `find` and store keeps the table well placed, is the same call of a plain map unless it loses, and loses exactly when the surplus of `count` grows |
| CacheRuns.RunRefines | sysm-native/src/main/sysm_util.c:323-468 | any run of calls without a losing rehash is the run of a plain map, and keeps the surplus of `count` |
| CacheRuns.CacheIsMap | sysm-native/src/main/sysm_util.c:323-468 | with line 362 completed, every run from a new cache stands for the run of one finite map; entries are in their buckets and `count`, the linked entries and the ids of the map are the same number |
| CacheRuns.CountExact | sysm-native/src/main/sysm_util.c:345-370 | as written or completed: after a run `count` equals the linked entries if and only if no call of the run was a losing rehash |
| CacheRuns.GetExact | sysm-native/src/main/sysm_util.c:418-450 | one `get` agrees with the plain map if and only if its guard (a rehash as written, with entries to relink) is false |
| CacheRuns.LiteralNoLoss | sysm-native/src/main/sysm_util.c:434-441 | the rehash as written in a cache that never expires: a run loses nothing if and only if the ids held and asked for fit the buckets |
| CacheRuns.LiteralCache | sysm-native/src/main/sysm_util.c:337-370 | from a new never-expiring cache of `size` buckets, `count` stays true if and only if at most `size` distinct ids are ever asked for |
| CacheRuns.LiteralLosesTheFirstId | sysm-native/src/main/sysm_util.c:353-369 | a concrete run of the code as written: one bucket, two ids; the first entry and its value are gone while `count` is 2 |
| CacheRuns.CleanupLoad | sysm-native/src/main/sysm_util.c:414-415 | a cleanup never raises `count`, and its rehash strictly shrinks the table |
| CacheRuns.StepLoad | sysm-native/src/main/sysm_util.c:434-441 | `count <= size` after every call, and a growing rehash strictly enlarges the table |
| CacheRuns.RunLoad | sysm-native/src/main/sysm_util.c:347-441 | `1 <= size` and `count <= size` after every run |
| CacheRuns.LosingStep | sysm-native/src/main/sysm_util.c:345-450 | what a call leaves when its rehash loses: no entry, or the one new entry; the time of the cleanup is kept |
| CacheRuns.StepTimely | sysm-native/src/main/sysm_util.c:378-412 | one call on the table with a clock that does not step back, for either rehash and losing calls included: whatever it leaves was used within the expire period of the last cleanup |
| CacheRuns.IdleBounded | sysm-native/src/main/sysm_util.c:372-468 | after every `get` or `find` of any run on the table under such a clock, for either rehash, no entry has been idle for the expire period plus the cleanup period; with a cleanup on every call, for longer than the expire period |
| CacheRuns.IdleFromNew | sysm-native/src/main/sysm_util.c:323-468 | the same for every run from a new cache |
| CacheRuns.SurvivesExact | sysm-native/src/main/sysm_util.c:372-468 | for any clock and any run: an entry is still the entry of its id if and only if no call that comes the cleanup period or more after the last cleanup finds its unsigned idle time above the expire period; it then has the value last written |
| CacheRuns.TableSurvivesExact | sysm-native/src/main/sysm_util.c:345-468 | the same of the table, for either rehash: an entry outlives a run if and only if no due cleanup finds it expired and no rehash of the run loses entries |
| CacheRuns.InUseSurvives | sysm-native/src/main/sysm_util.c:372-468 | under a clock that does not step back, an entry that no call finds idle beyond the expire period keeps its identity and the last value written to it through the whole run |
| CacheRuns.NeverExpires | sysm-native/src/main/sysm_util.c:337-340 | in a cache with period -1 every entry pointer stays the entry of its id, with the last value written, through any run |
| CacheRuns.ClockStepBack | sysm-native/src/main/sysm_util.c:378-396 | a clock that steps back behind an access: the unsigned difference wraps, so the entry survives if and only if no cleanup is due or the wrapped distance is within the expire period |
| CacheRuns.ClockStepBackEvicts | sysm-native/src/main/sysm_util.c:378-396 | a concrete step back by fifty seconds evicts an entry that was in use |
| CacheRuns.LiteralCost | sysm-native/src/main/sysm_util.c:345-441 | as written, the entries visited by all rehashes of a run and those linked at its end are at most those linked before plus the insertions |
| CacheRuns.RehashCost | sysm-native/src/main/sysm_util.c:345-441 | amortised, for either rehash: entries visited by all growing and shrinking rehashes of a run are bounded by a potential plus four for each insertion |
| CacheRuns.CostFromNew | sysm-native/src/main/sysm_util.c:323-441 | from a new cache, for either rehash: at most the initial size plus four times the insertions, at most twice the insertions without expiry, and as written at most the insertions |
| CacheTimes.EarlyCleanup | sysm-native/src/main/sysm_util.c:378-384 | a cleanup before the period has passed, or with period -1, leaves the table as it is |
| CacheTimes.LateCleanup | sysm-native/src/main/sysm_util.c:379-412 | any other takes place: it notes the time; an id that stays is unchanged and was used within the expire period, and every such id stays unless the rehash behind it loses entries |
| CacheTimes.EarlyCall | sysm-native/src/main/sysm_util.c:372-468 | a `get` or `find` before the cleanup period has passed frees nothing, keeps the time of the last cleanup and keeps every id with its entry, for a new key as long as there is a place for it |
| CacheTimes.FirstRemoval | sysm-native/src/main/sysm_util.c:372-468 | over any run the first call that evicts an entry or frees a value comes at least the cleanup period after the last cleanup before the run |
| CacheTimes.RemovalsApart | sysm-native/src/main/sysm_util.c:372-468 | over any run under a clock that does not step back, for either rehash, any two calls that evict an entry or free a value are at least the cleanup period apart |
| CacheTimes.GetLeaves | sysm-native/src/main/sysm_util.c:418-450 | whatever its rehashes lose, a `get` leaves the entry of its key, used at that moment: with node and value as before if it outlived the cleanup, else new and without a value |
| CacheTimes.CleanupSize | sysm-native/src/main/sysm_util.c:414-415 | a cleanup that takes place shrinks a table whose `count` is below a quarter of the size to twice the `count` and one, and no other |
| CacheTimes.GetSize | sysm-native/src/main/sysm_util.c:434-436 | a new id raises `count` by one and grows a full table to twice the new `count` and one, and no other |
| CacheRoom.RoomIsNoLoss | sysm-native/src/main/sysm_util.c:418-450 | in a never-expiring cache with room (or with the head stored) a `get` loses nothing and takes one place of the room |
| CacheRoom.RoomExact | sysm-native/src/main/sysm_util.c:418-450 | in a never-expiring cache `count` stays true over a `get` if and only if there was room for its id |
| CacheRoom.HousedExact | sysm-native/src/main/sysm_util.c:418-450 | the same whatever was lost before: a `get` loses nothing if and only if there is room for its id, lost entries that `count` still counts included; otherwise its new entry is alone |
| CacheRoom.OverflowForgets | sysm-native/src/main/sysm_util.c:434-450 | a full never-expiring cache with the rehash as written: one more id is all that is left |
| CacheRoom.StillOwned | sysm-native/src/main/sysm_util.c:522-571 | a table that keeps the node of every id keeps every entry pointer the entry of its id |
| CacheValues.SweepConserves | sysm-native/src/main/sysm_util.c:396-406 | the values freed by a sweep and the values still linked are together the values before, each as often as before |
| CacheValues.RehashOwned | sysm-native/src/main/sysm_util.c:353-369 | a rehash with the head stored keeps every linked value; as written it keeps none |
| CacheValues.CleanupConserves | sysm-native/src/main/sysm_util.c:386-415 | a cleanup frees each unlinked value once; what a losing rehash drops is neither freed nor linked |
| CacheValues.SurvivorOrder | sysm-native/src/main/sysm_util.c:392-412 | any two survivors stand in the order they had in their chain |
| CacheValues.StepConserves | sysm-native/src/main/sysm_util.c:372-468 | one call, for either rehash: values linked before plus the value written equal values freed, replaced, lost by a rehash and linked after |
| CacheValues.RunConserves | sysm-native/src/main/sysm_util.c:345-491 | over any run, for either rehash, every value written is at the end in exactly one place: freed by a cleanup, replaced by a later write, lost by a rehash, or linked for `sysm_cache_destroy` to free |
| CacheValues.LostExact | sysm-native/src/main/sysm_util.c:345-441 | a call loses a value if and only if its rehash loses entries while an entry with a value is linked |
| CacheValues.LedgerExact | sysm-native/src/main/sysm_util.c:345-468 | a run loses no value if and only if no losing rehash of it meets an entry with a value; with line 362 completed it never does |
| CacheValues.ConservedExact | sysm-native/src/main/sysm_util.c:345-491 | values written and linked before are freed, replaced or linked after, with nothing lost, if and only if that condition holds |
| NativeCache.Cache.constructor | sysm-native/src/main/sysm_util.c:323-335 | a new cache: empty chains, `count` 0, the two periods, the clock of creation as last cleanup |
| NativeCache.Cache.MoveEntry | sysm-native/src/main/sysm_util.c:357-364 | one turn of the relinking loop on the heap: the entry's `next` is redirected, the rest of the old chain and all new chains stay intact |
| NativeCache.Cache.MoveChain | sysm-native/src/main/sysm_util.c:357-364 | the loop empties one old chain into the new table as `Relink` says |
| NativeCache.Cache.MoveAll | sysm-native/src/main/sysm_util.c:353-365 | both loops together put every chain into the new array as `RelinkAll` says |
| NativeCache.Cache.Rehash | sysm-native/src/main/sysm_util.c:345-370 | the heap after the in-place rehash is the table that `CacheTable.Rehash` gives, in a new array |
| NativeCache.Cache.Unlink | sysm-native/src/main/sysm_util.c:396-406 | one stale entry leaves its chain, from the middle or from the bucket head; `count` falls by one and its value is freed |
| NativeCache.Cache.SweepChain | sysm-native/src/main/sysm_util.c:388-412 | one chain after the loop holds exactly its survivors in order, whatever runs of consecutive entries were removed |
| NativeCache.Cache.SweepAll | sysm-native/src/main/sysm_util.c:386-413 | all chains hold their survivors, `count` is lowered by the removed entries, and the freed values are those of the removed entries in order |
| NativeCache.Cache.Cleanup | sysm-native/src/main/sysm_util.c:372-416 | the exits of the cleanup: nothing at all happens while the period is -1 or has not passed since the last cleanup; otherwise every chain is swept, with a rehash below a quarter of the size; what was freed |
| NativeCache.Cache.Seek | sysm-native/src/main/sysm_util.c:423-432 | the search loop ends at the entry of the key and at the link before it, or at the free link of the chain |
| NativeCache.Cache.Overwrite | sysm-native/src/main/sysm_util.c:429 | writing an entry in place changes the table at that entry's id only if the table still holds that very entry |
| NativeCache.Cache.Write | sysm-native/src/main/sysm_util.c:528-532 | a client's write through a pointer that is the entry of its id is the store of that id; in a cache that never expires a pointer that a rehash dropped may be written too, which the table does not show |
| NativeCache.Cache.Append | sysm-native/src/main/sysm_util.c:443-447 | the new entry is linked at the end of its chain and no other chain changes |
| NativeCache.Cache.Grow | sysm-native/src/main/sysm_util.c:434-441 | `++count`, then a rehash iff `count` passes `size` |
| NativeCache.Cache.Get | sysm-native/src/main/sysm_util.c:418-450 | the heap after `sysm_cache_get` is the table of `CacheTable.Get`; the entry returned is the one the table holds for the key, new iff the key was absent, with no value then; values of other entries stay; before the cleanup period has passed nothing is freed, the time of the last cleanup stays and a key that is there is found |
| NativeCache.Cache.Find | sysm-native/src/main/sysm_util.c:452-468 | the heap after `sysm_cache_find` is the table of `CacheTable.Find`; a non-null result iff the key survives the cleanup; before the cleanup period has passed that is iff the key is there, and nothing is freed |
| NativeCache.Cache.Destroy | sysm-native/src/main/sysm_util.c:470-491 | every value still linked is freed once, bucket by bucket |
| NetStat.IndexContent | sysm-native/src/main/sysm.c:2839-2856 | after any walk: a port has the last listener that is not IPv6, else what was stored before, else the first listener, which is then IPv6; it is known iff it was ever seen listening |
| NetStat.CountersConserve | sysm-native/src/main/sysm.c:2863-2900 | over any walk: the states sum to the TCP records, inbound plus outbound to the TCP records not in LISTEN, and the `all` counters equal the TCP ones |
| NetStat.WarmWalk | sysm-native/src/main/sysm.c:2875-2887 | with all listeners of the records known beforehand, inbound and outbound are plain counts by port |
| NetStat.SecondPass | sysm-native/src/main/sysm.c:2863-2924 | a second pass over the same records in any order counts as inbound exactly those whose port has a recorded listener |
| NetStat.FirstPass | sysm-native/src/main/sysm.c:2874-2887 | a first pass finds at most the inbound of a warm one, and all of it if and only if no traffic of an unknown port precedes its listener |
| NetRecords.PrintedListeners | sysm-native/src/main/sysm.c:2863-2875 | from the text of a TCP table: the ports seen listening are those of its rows in state 0A |
| NetRecords.PrintedTwice | sysm-native/src/main/sysm.c:2863-2924 | from the text: in a second look at a table, inbound are the rows not in state 0A whose local port was seen listening, outbound the other rows not in that state |
| NetRecords.ListenCode | sysm-native/include/main/sysm.h:460-475 | the state code that is taken for listening is the one the kernel prints as 0A |
| NetRecords.PrintedOther | sysm-native/src/main/sysm.c:2889-2891 | from the text of any other table: its rows are neither listeners nor traffic, and count in no state |
| ListenTables.AddedIsAddListener | sysm-native/src/main/sysm.c:2839-2856 | on the hash table itself, adding a listening address is the update of a port map, and every entry keeps a non-null value |
| ListenTables.AddedExact | sysm-native/src/main/sysm.c:2839-2856 | the index stays good over the addition if and only if there was room for the port |
| ListenTables.VisitedExact | sysm-native/src/main/sysm.c:2863-2900 | one record on the hash table: the index stays good if and only if there was room for a listening port, is then the step of the port map, and the lookup tells whether the port is known |
| ListenTables.WalkExact | sysm-native/src/main/sysm.c:2863-2900 | a walk keeps `count` true and an address in every entry if and only if the table had room for all ports seen listening; with the rehash as written these must fit the 32 buckets |
| ListenTables.WalkRefines | sysm-native/src/main/sysm.c:2863-2900 | a walk that keeps the index good is the walk of the port map, and its counters are those of that walk |
| ListenTables.WalkCountConserves | sysm-native/src/main/sysm.c:2863-2900 | the counters of any walk on the table balance, whatever its rehashes lose |
| ListenTables.LastPortAlone | sysm-native/src/main/sysm.c:2839-2856 | with the rehash as written, one listening port more than the full index holds is the only one known afterwards |
| ListenTables.OnePortTooMany | sysm-native/src/main/sysm.c:2863-2924 | a concrete walk over one listener more than there are buckets, such as 33 over 32: only the last port is known, where the port map knows them all |
| ListenRuns.VisitedAny | sysm-native/src/main/sysm.c:2863-2900 | one record on any index with an address in every entry: a step of the port map, or, when its rehash loses, the one port; every entry has an address again |
| ListenRuns.IndexedWalk | sysm-native/src/main/sysm.c:2863-2900 | what a handle keeps over all its walks, for either rehash: every entry has an address, one that was seen; the index is the port map of all records seen if and only if their listening ports fit the buckets |
| ListenRuns.CountsFallShort | sysm-native/src/main/sysm.c:2878-2894 | inbound falls short of the port map's by exactly the records whose port the table has forgotten, all counted as outbound; the states agree |
| ListenRuns.WalkOfHandle | sysm-native/src/main/sysm.c:2863-2924 | a walk with new counters: they balance, fall short by the forgotten records, and none is forgotten while the listening ports fit |
| ListenRuns.SecondPassFallsShort | sysm-native/src/main/sysm.c:2863-2924 | a concrete second pass, as written: after listeners of one port more than there are buckets, traffic of the first port is no longer inbound |
| ListenIndex.NetMonitor.AddAddress | sysm-native/src/main/sysm.c:2839-2856 | the in-place version is the addition on the table, for any index |
| ListenIndex.NetMonitor.IsListening | sysm-native/src/main/sysm.c:2879-2880 | the lookup answers whether the port is in the table and changes no more than its time |
| ListenIndex.NetMonitor.CountTraffic | sysm-native/src/main/sysm.c:2878-2887 | a TCP record not in LISTEN raises inbound if its port is found and outbound if not |
| ListenIndex.NetMonitor.Visit | sysm-native/src/main/sysm.c:2863-2900 | one record through the walker is one step on the table and on the counters, by what the lookup answered |
| ListenIndex.NetMonitor.Walk | sysm-native/src/main/sysm.c:2863-2900 | the whole walk on the heap is the walk on the table, for any index and either rehash |
| ListenIndex.NetMonitor.StatGet | sysm-native/src/main/sysm.c:2902-2924 | counters start from zero and balance in any case; inbound falls short of the port map of all records seen so far by exactly the forgotten records, none while the listening ports fit; the index is made once, and the invariant holds again |
| ListenIndex.NetMonitor.StatGetTwice | sysm-native/src/main/sysm.c:2863-2924 | two calls of one handle over the same records in any order: while all ports seen listening fit, the second counts as inbound exactly the traffic of ports with a recorded listener |
| ListenIndex.NetMonitor.Learn | sysm-native/src/main/sysm.c:3277-3293 | a port that the index knows needs no walk and the index stays as it is; any other takes one walk |
| ListenIndex.NetMonitor.AddressOf | sysm-native/src/main/sysm.c:3295-3296 | the read behind a successful lookup meets an address and changes nothing that is known |
| ListenIndex.NetMonitor.ListenAddressGet | sysm-native/src/main/sysm.c:3277-3300 | over any run of calls: status 0 exactly when an address is given, one the port was seen listening at; while the listening ports fit, the call succeeds if and only if the port has ever been seen listening, with the address of the port map of all records seen; what the index holds afterwards is the invariant |
| NetPort.Visit | sysm-native/src/main/sysm.c:2780-2817 | one record keeps: counters so far plus records ahead are the records of the port, for all five counters and every state |
| NetPort.PortGet | sysm-native/src/main/sysm.c:2819-2837 | after the walk every counter is the number of TCP records on its side of the port, at the address or at any, and every state counter that of its state |
| NetPort.PortConserves | sysm-native/src/main/sysm.c:2780-2817 | inbound plus outbound is the sum of the states and the number of TCP records naming the port; the counts for one address are part of those for all |
| NetPort.SameAddressExact | sysm-native/src/main/sysm_util.c:581-600 | two addresses are the same if and only if their families are, and not the unspecified one, and all their words |
| DeviceTables.DeviceFound | sysm-native/src/main/sysm_util.c:543-567 | after the loop over the file systems an id keeps the device it had, or has the first local disk with a device name and that id |
| DeviceTables.IsDevExact | sysm-native/include/main/sysm.h:419-422 | the names of devices are exactly those that start with `/dev/` |
| DeviceTables.VisitedExact | sysm-native/src/main/sysm_util.c:546-566 | one file system on the hash table: `count` stays true if and only if there was room for its id; it is then one step of the map of devices and every entry pointer stays good |
| DeviceTables.WalkExact | sysm-native/src/main/sysm_util.c:543-567 | the loop keeps the index sound if and only if the table had room for all ids asked for; with the rehash as written these must fit the 15 buckets |
| DeviceTables.WalkRefines | sysm-native/src/main/sysm_util.c:543-567 | a loop that keeps the index sound is the loop on the map of devices, and every entry pointer held before it stays the entry of its id |
| DeviceTables.LastDeviceAlone | sysm-native/src/main/sysm_util.c:546-566 | with the rehash as written, one id more than the full index holds is the only one known afterwards |
| DeviceTables.OneDiskTooMany | sysm-native/src/main/sysm_util.c:493-567 | a concrete loop over one local disk more than there are buckets, such as 16 over 15: only the last is known |
| DeviceRuns.FirstOffered | sysm-native/src/main/sysm_util.c:493-579 | over any run of calls an id keeps the device it had, or has the first one that the run offers for it |
| DeviceRuns.AnswerIsFirstOffer | sysm-native/src/main/sysm_util.c:493-579 | the answer of the last call of a run is the first device that the run offers for its id |
| DeviceRuns.IndexedCall | sysm-native/src/main/sysm_util.c:493-579 | what a handle keeps over all its calls: the index is the map of devices of the whole run if and only if the ids of the run fit the buckets |
| DeviceRuns.LoopExact | sysm-native/src/main/sysm_util.c:543-567 | on any table: the loop loses nothing if and only if there is room for all ids asked for |
| DeviceRuns.HeldExact | sysm-native/src/main/sysm_util.c:541-578 | an entry held across the loop ends with the first device listed for its id if and only if none is listed or no rehash before it loses entries |
| DeviceRuns.ArrivesExact | sysm-native/src/main/sysm_util.c:543-567 | no rehash before the first device of an id loses entries if and only if there is room for the ids asked for before it |
| IoDevice.AskedOnly | sysm-native/src/main/sysm_util.c:522-541 | the exits of a call that read no list: the answer is what is known of the id, and what the index holds for every id is stated |
| IoDevice.OwnDevice | sysm-native/src/main/sysm_util.c:527-533 | a path that is a device itself becomes the device of its id, and no other id changes |
| IoDevice.ListRead | sysm-native/src/main/sysm_util.c:535-578 | the exit behind the loop: the map of devices afterwards, for every id; the answer is right if and only if none is listed or there is room for the ids asked for before it |
| IoDevice.FirstCallRight | sysm-native/src/main/sysm_util.c:493-579 | the first call of a handle that reads the list is answered right if and only if no device is listed, the ids up to the first one are at most 15, or heads are stored |
| IoDevice.DeviceIndex.Visit | sysm-native/src/main/sysm_util.c:546-566 | one file system on the heap is one step on the table: the id is asked for and gets its device only if it has none; an entry held since before changes exactly when it is the one asked for |
| IoDevice.DeviceIndex.VisitAll | sysm-native/src/main/sysm_util.c:543-567 | the loop on the heap is the loop on the table, for any index and either rehash, and so is what a held entry ends with |
| IoDevice.DeviceIndex.Search | sysm-native/src/main/sysm_util.c:543-578 | the answer is what the entry obtained before the loop holds behind it, on any index |
| IoDevice.DeviceIndex.Conclude | sysm-native/src/main/sysm_util.c:526-578 | the four exits: for every one, the map of devices afterwards and when the answer is right |
| IoDevice.DeviceIndex.Get | sysm-native/src/main/sysm_util.c:493-579 | over any run of calls whose ids fit the index, the answer is the first device that the run offers for the id of the path, and the index is the map of devices of the run; on an index that is complete before the call, the answer is right if and only if no device is listed or there is room for the ids asked for before it |
| Text.SkipTokenFrom | sysm-native/src/main/sysm_util.c:21-26 | the two pointer loops skip blanks and then one word |
| Text.SkipTokenOver | sysm-native/src/main/sysm_util.c:21-26 | on words with blanks before them, skipping a token consumes exactly one word |
| Text.StrToUlOver | sysm-native/src/main/sysm.c:1828-1831 | on the same lines, reading a number consumes one word and gives its value, a minus sign wrapping modulo 2^64 |
| Text.DecimalValue | sysm-native/src/main/sysm_util.c:256-260 | decimal digits read back as the number they were printed from |
| Text.SpaceExact | sysm-native/include/main/sysm_util.h:15-16 | blanks are the six characters that `isspace` holds of |
| Text.MinusWraps | sysm-native/src/main/sysm.c:1828 | a minus sign gives the two's complement of the number modulo 2^64 |
| Text.StrToUlElse | sysm-native/src/main/sysm.c:1828 | a number that does not fit gives the largest that does, and a plus sign changes nothing |
| Text.StrToUlNone | sysm-native/src/main/sysm.c:1828 | a text that starts no number is left where it is and gives 0 |
| Words.TickFloor | sysm-native/include/main/sysm.h:131-132 | ticks become the whole milliseconds that have passed in them |
| ProcStat.SkipMultiple | sysm-native/src/main/sysm_util.c:28-37 | skipping several tokens is skipping one, that many times |
| ProcStat.HeadFields | sysm-native/src/main/sysm.c:1824-1841 | state, ppid, tty, fault counts, utime and stime are fields 3, 4, 7, 10, 12, 14 and 15 of the line |
| ProcStat.TailFields | sysm-native/src/main/sysm.c:1843-1869 | what is stored as start time, vsize, rss and processor are fields 18, 19, 20 and 35, not 22, 23, 24 and 39 |
| ProcStat.NameSplit | sysm-native/src/main/sysm.c:1807-1822 | for any name, with spaces and parentheses, before fields without `)`: the name is found whole, cut to 127 characters, and the rest of the line follows it |
| ProcStat.StatSplit | sysm-native/src/main/sysm.c:1807-1869 | name and all fields of a whole line together |
| ProcStat.NoName | sysm-native/src/main/sysm.c:1807-1812 | a text without an opening or a closing parenthesis is refused with EINVAL |
| ProcStat.StartTimeIs | sysm-native/src/main/sysm.c:1846-1849 | a start time is the boot time and the whole seconds of its ticks, in milliseconds |
| ProcStat.StartTimeExact | sysm-native/src/main/sysm.c:1843-1849 | the stored start time is that of field 22 if and only if fields 18 and 22 are in the same whole second |
| ProcSlot.ProcReader.StoreHead | sysm-native/src/main/sysm.c:1824-1841 | the fields stored one by one through the moving pointer are those of the split |
| ProcSlot.ProcReader.Store | sysm-native/src/main/sysm.c:1807-1869 | the line is stored as the split says; a text without a name gives EINVAL and stores nothing |
| ProcSlot.ProcReader.Read | sysm-native/src/main/sysm.c:1782-1872 | a hit serves the slot; otherwise pid and time are stamped before the read, whether or not it succeeds |
| ProcSlot.SlotIsFresh | sysm-native/src/main/sysm.c:1782-1805 | in any run whose reads succeed, however pids alternate, the last call leaves data read for its own pid less than two seconds before |
| ProcSlot.ServedAfterRead | sysm-native/src/main/sysm.c:1782-1805 | a call that has to read reports what became of the read; the next call for that process within two seconds succeeds without reading, and serves that process with data less than two seconds old if and only if the read succeeded |
| ProcSlot.FailedReadServesAnother | sysm-native/src/main/sysm.c:1799-1805 | a concrete failed read for another process: the next call serves the data of the process before |
| ProcSlot.FailedReadServesStale | sysm-native/src/main/sysm.c:1799-1805 | a concrete failed read for the same process: the next call serves data six seconds old |
| ProcCpu.SameMillisecond | sysm-native/src/main/sysm.c:1748-1755 | a second call in the same millisecond repeats the reading with the percentage of the caller's earlier buffer: it repeats the earlier result iff that buffer held it |
| ProcCpu.ReportedIsRise | sysm-native/src/main/sysm.c:1757-1779 | percentage times interval of a call is the rise of the total, and 0 on a first reading or after a drop, which restarts the series |
| ProcCpu.MeterTelescopes | sysm-native/src/main/sysm.c:1726-1780 | on the table, for either rehash, with calls for any pids, failures and repeats interleaved: while every `get` leaves the record of the pid, the sum of percentage times interval is its last total minus the first |
| ProcCpu.TakenTelescopes | sysm-native/src/main/sysm.c:1726-1780 | on the same runs: that sum is the rise of the totals that the calls read for the pid, from the first to the last |
| ProcCpu.PrintedTimes | sysm-native/src/main/sysm.c:1874-1888 | for a printed line of the file that the slot has to read: user and system are fields 14 and 15 in milliseconds, the total their sum |
| ProcCpu.TextTelescopes | sysm-native/src/main/sysm.c:1726-1888 | down to the texts: over any interleaving of calls, the sum of percentage times interval for a pid first measured in the run is the rise of field 14 plus field 15, in milliseconds, from the first line read for it to the last |
| ProcCpu.MeasureCopies | sysm-native/src/main/sysm.c:1764-1779 | a call that succeeds in a later millisecond gives the times that were read, and keeps them |
| ProcCpu.AfterFailure | sysm-native/src/main/sysm.c:1748-1779 | a failed reading stamps the time all the same: the next success sets the rise since the last success against the time since the failure alone, so its percentage is too high if and only if anything has risen |
| ProcCpu.KeptExact | sysm-native/src/main/sysm.c:1736-1739 | one call leaves a record that is there if and only if the cleanup period has not passed or the record is not expired, and no rehash of the call loses entries |
| ProcCpu.TenAndTwentyMinutes | sysm-native/src/main/sysm.c:47-48 | a record stays if and only if less than ten minutes have passed since the last cleanup or at most twenty since its own call, and no rehash of the call loses entries |
| ProcCpu.RegularKept | sysm-native/src/main/sysm.c:1736-1739 | a pid measured at least every expire period keeps its record through any run in which no rehash loses entries |
| ProcCpu.LiteralMeterForgets | sysm-native/src/main/sysm.c:1734-1739 | with the rehash as written, a due cleanup that leaves 1 to 31 processes forgets them all, and no other cleanup of a table of the initial size differs from the plain map |
| ProcCpu.ProcMeter.TimeGet | sysm-native/src/main/sysm.c:1874-1888 | the times of the pid as the slot serves them, user and system as in the slot and their sum as the total |
| ProcCpu.ProcMeter.MeasureEntry | sysm-native/src/main/sysm.c:1740-1779 | on the heap: the cached record is stamped, then replaced by the reading before the percentage is computed; status, result and table are those of one measurement |
| ProcCpu.ProcMeter.Fetch | sysm-native/src/main/sysm.c:1734-1746 | the entry of the pid, through a cache made on first use, holds the record that the table has for it after the `get`, and no value if there is none |
| ProcCpu.ProcMeter.CpuGet | sysm-native/src/main/sysm.c:1726-1780 | a whole call, whatever its rehashes lose, is one call of the meter on the table, with the slot read at most once; what the slot gives for a printed line is `PrintedTimes` |
| RefMap.PollExact | sysm-jni/src/main/java/edu/scut/cs/hbdc/sysm/ReferenceMap.java:80-86 | a poll empties the queue and unmaps exactly the keys with a stale reference on it, even keys put again with a live one |
| RefMap.RunCurrent | sysm-jni/src/main/java/edu/scut/cs/hbdc/sysm/ReferenceMap.java:37-86 | for every interleaving of calls and collector steps, whatever is mapped is the last value put |
| RefMap.NeverWrong | sysm-jni/src/main/java/edu/scut/cs/hbdc/sysm/ReferenceMap.java:37-48 | a get returns null or the last value put for the key since its last remove or clear |
| RefMap.ExactWithoutCollector | sysm-jni/src/main/java/edu/scut/cs/hbdc/sysm/ReferenceMap.java:37-86 | without collector steps it is exactly a map |
| RefMap.MappedExact | sysm-jni/src/main/java/edu/scut/cs/hbdc/sysm/ReferenceMap.java:37-86 | for each kind of call, a key stays mapped if and only if it is not the one removed, cleared or found stale |
| RefMap.FreshMappingLost | sysm-jni/src/main/java/edu/scut/cs/hbdc/sysm/ReferenceMap.java:80-86 | a concrete run in which a stale reference removes a mapping that was just made and never collected |
| RefMap.LiveAfterPut | sysm-jni/src/main/java/edu/scut/cs/hbdc/sysm/ReferenceMap.java:51-54 | after a put its key leads to the value, and any other key to what it led to or to nothing |
| ReferenceMaps.ReferenceMap.Poll | sysm-jni/src/main/java/edu/scut/cs/hbdc/sysm/ReferenceMap.java:80-86 | the loop over the queue, tied to the poll on values |
| ReferenceMaps.ReferenceMap.Get | sysm-jni/src/main/java/edu/scut/cs/hbdc/sysm/ReferenceMap.java:37-48 | the result is what the key leads to; a cleared reference is unmapped, and nothing reachable changes |
| ReferenceMaps.ReferenceMap.Put | sysm-jni/src/main/java/edu/scut/cs/hbdc/sysm/ReferenceMap.java:51-54 | a poll, then a new reference under the key; the replaced one is returned |
| ReferenceMaps.ReferenceMap.Remove | sysm-jni/src/main/java/edu/scut/cs/hbdc/sysm/ReferenceMap.java:57-60 | a poll, then the removal; the removed reference is returned |
| ReferenceMaps.ReferenceMap.Clear | sysm-jni/src/main/java/edu/scut/cs/hbdc/sysm/ReferenceMap.java:63-66 | nothing is reachable afterwards |
| ReferenceMaps.ReferenceMap.Size | sysm-jni/src/main/java/edu/scut/cs/hbdc/sysm/ReferenceMap.java:69-72 | the number of mappings after a poll |
| ProxyCache.MemoIsLastReal | sysm-jni/src/main/java/edu/scut/cs/hbdc/sysm/SysmProxyCache.java:139-147 | the memo holds for every method and key what the last real call since the last clear returned, if it returned a value |
| ProxyCache.AnswersAreFresh | sysm-jni/src/main/java/edu/scut/cs/hbdc/sysm/SysmProxyCache.java:93-152 | in every legal run an answer without a real call is what the last real call for the same method and key returned, at most `expire` before, with no clear and no failed call in between |
| ProxyCache.FreshSince | sysm-jni/src/main/java/edu/scut/cs/hbdc/sysm/SysmProxyCache.java:93-152 | the same of the newest answer of a run, in terms of the run before it |
| ProxyCache.FreshExact | sysm-jni/src/main/java/edu/scut/cs/hbdc/sysm/SysmProxyCache.java:93-98 | the memo has something fresh if and only if the last real call since the last clear returned a value at most `expire` before |
| ProxyCache.RealExact | sysm-jni/src/main/java/edu/scut/cs/hbdc/sysm/SysmProxyCache.java:93-147 | in a run that is real only for want of a fresh answer, a call is real if and only if no earlier real call answers it |
| ProxyCache.KeysCollide | sysm-jni/src/main/java/edu/scut/cs/hbdc/sysm/SysmProxyCache.java:72-76 | with two arguments their order is lost and equal arguments always share one key |
| ProxyCache.KeyExact | sysm-jni/src/main/java/edu/scut/cs/hbdc/sysm/SysmProxyCache.java:66-77 | two lists of arguments share a key if and only if they are equal, or both have several arguments and the XOR of the hash codes is the same |
| ProxyCache.OneArgument | sysm-jni/src/main/java/edu/scut/cs/hbdc/sysm/SysmProxyCache.java:66-71 | single arguments share a key if and only if they are equal, and share none with no argument or several |
| ProxyCache.XorOfParts | sysm-jni/src/main/java/edu/scut/cs/hbdc/sysm/SysmProxyCache.java:72-76 | the hash of several arguments is the XOR of the hashes of any two parts of them, and that of one argument its hash code |
| ProxyCache.AnswerableForKey | sysm-jni/src/main/java/edu/scut/cs/hbdc/sysm/SysmProxyCache.java:61-98 | a history of keys has a fresh answer for the key of some arguments if and only if the history of the arguments has one for them |
| SysmProxyCache.Handler.Settle | sysm-jni/src/main/java/edu/scut/cs/hbdc/sysm/SysmProxyCache.java:89-98 | a found object is reset in place exactly when it has expired, a missing one is made |
| SysmProxyCache.Handler.Record | sysm-jni/src/main/java/edu/scut/cs/hbdc/sysm/SysmProxyCache.java:100-140 | a returned value and its time go into the object; a call that threw leaves it empty and forgets the key; what else can be found still can |
| SysmProxyCache.Handler.CollectorRuns | sysm-jni/src/main/java/edu/scut/cs/hbdc/sysm/ReferenceMap.java:23-86 | any number of collector steps on both levels, at any moment, only make keys unreachable |
| SysmProxyCache.Handler.KeepKey | sysm-jni/src/main/java/edu/scut/cs/hbdc/sysm/SysmProxyCache.java:145 | the object is found under its key, and what else could be found still can unless the collector cleared something |
| SysmProxyCache.Handler.FoundIsMemo | sysm-jni/src/main/java/edu/scut/cs/hbdc/sysm/SysmProxyCache.java:79-98 | while nothing was collected, a lookup finds an answer if and only if the memo has a fresh one |
| SysmProxyCache.Handler.InvokeDirect | sysm-jni/src/main/java/edu/scut/cs/hbdc/sysm/SysmProxyCache.java:85-152 | a call without arguments is one legal step of the memo, real exactly when the lookup found nothing that is still fresh; its result is what the next lookup finds |
| SysmProxyCache.Handler.InvokeKeyed | sysm-jni/src/main/java/edu/scut/cs/hbdc/sysm/SysmProxyCache.java:79-152 | the same through the two levels of maps, with the collector running during the real call |
| SysmProxyCache.Handler.HashArgs | sysm-jni/src/main/java/edu/scut/cs/hbdc/sysm/SysmProxyCache.java:72-76 | the loop computes the XOR of the hash codes |
| SysmProxyCache.Handler.Invoke | sysm-jni/src/main/java/edu/scut/cs/hbdc/sysm/SysmProxyCache.java:61-153 | any run of calls, clears and collector steps, on the arguments of the calls: each call is a real one, whose result the next lookup finds, or its answer is what the last real call for the same method and arguments returned, at most `expire` before, with no clear and no other real call since; for at most one argument these are the same arguments, several are told apart by the XOR of their hash codes; until the collector has run, a call is real if and only if there is no such answer |
| SysmProxyCache.Handler.InvokeOn | sysm-jni/src/main/java/edu/scut/cs/hbdc/sysm/SysmProxyCache.java:61-153 | one call, for any collector schedule, is one allowed step of the memo for its method and key; its result is kept, and while the memo is complete it is real only for want of a fresh answer there |
| SysmProxyCache.Handler.Clear | sysm-jni/src/main/java/edu/scut/cs/hbdc/sysm/SysmProxyCache.java:48-50 | after a clear nothing can be answered from the memo |
| SysmProxyCache.Handler.Collect | sysm-jni/src/main/java/edu/scut/cs/hbdc/sysm/ReferenceMap.java:23-86 | collector steps between calls leave the run legal and the maps sound |
| ProcArgs.SplitJoin | sysm-native/src/main/sysm.c:346-361 | splitting undoes joining for any arguments, empty ones included, and keeps an unterminated last piece whole |
| ProcArgs.JoinSplit | sysm-native/src/main/sysm.c:346-361 | joining undoes splitting up to the NUL a last piece may lack, and no piece holds a NUL |
| ProcArgs.ArgList.Grow | sysm-native/src/main/sysm.c:291-298 | a larger block with the same contents |
| ProcArgs.ArgList.Push | sysm-native/include/main/sysm.h:155-158 | one more argument at the end; `number <= size` through every growth |
| ProcArgs.ArgsGet | sysm-native/src/main/sysm.c:346-361 | the loop returns exactly the split and ends, its remaining length falling below zero on an unterminated piece |
| ProcEnv.PairsOfJoined | sysm-native/src/main/sysm.c:1931-1961 | of any entries the walk meets those before the first without `=`, all of them and in order |
| ProcEnv.EnvRoundTrip | sysm-native/src/main/sysm.c:1931-1961 | parsing the NUL-separated text of any pairs visits exactly those pairs in order |
| ProcEnv.PutAllIsLast | sysm-native/src/main/javasysm.c:681-693 | the map of all values holds the last value of every key |
| ProcEnv.LookupsAgree | sysm-native/src/main/javasysm.c:681-756 | the map of all values and the single lookup agree on every key if and only if no repeated key has differing first and last values |
| ProcEnv.Getter.Visit | sysm-native/src/main/javasysm.c:681-756 | the two callbacks: one always goes on and puts, the other stops at its key |
| ProcEnv.EnvWalk | sysm-native/src/main/sysm.c:1931-1963 | the pointer loop with either callback: the map of all pairs, or the first value of the key; keys that the walk comes to stay within their buffer |
| ProcEnv.GetAll | sysm-native/src/main/javasysm.c:699-732 | the map returned has for every key its last value and no other keys |
| ProcEnv.GetValue | sysm-native/src/main/javasysm.c:758-788 | the value returned is the first one of the key |
| HexText.OrNibble | sysm-native/src/main/sysm.c:62-69 | the bitwise or with a digit adds it, as the shifted number has its low four bits clear |
| HexText.HexIsValue | sysm-native/src/main/sysm.c:53-73 | `hex2int` is the number modulo 2^32 for digits of any length and either case |
| HexText.HexRoundTrip | sysm-native/src/main/sysm.c:53-73 | `hex2int` inverts hexadecimal printing for every word and width |
| HexText.Hex2Int | sysm-native/src/main/sysm.c:53-73 | the loop, tied to the value |
| HexText.ConvertHexAddress | sysm-native/src/main/sysm.c:370-384 | the family follows from the length alone; four words, one word or 0 |
| HexText.AddressRoundTrip | sysm-native/src/main/sysm.c:370-384 | converting undoes printing for every IPv4 and IPv6 address, whatever follows on the line |
| HexText.ShortAddress | sysm-native/src/main/sysm.c:379-383 | a text of fewer than eight digits is the IPv4 address 0 |
| DecimalText.Uitoa | sysm-native/src/main/sysm_util.c:251-263 | the digits stand before the NUL at the end of the 13-byte buffer, `len` grows by their number, and nothing before them is written |
| DecimalText.ProcFilename | sysm-native/src/main/sysm_util.c:287-306 | the buffer holds `/proc/`, the digits of the pid as unsigned, the file name and a NUL |
| DecimalText.PathsDiffer | sysm-native/src/main/sysm_util.c:287-306 | different pids or different files never share a path |
| DecimalText.PathIs | sysm-native/src/main/sysm_util.c:287-306 | the path of a pid is `/proc/`, its decimal number and the file, a negative pid counting down from 2^32 |
| DecimalText.PutOctet | sysm-native/src/main/sysm_util.c:609-622 | one octet without leading zeros and a dot, nothing else written |
| DecimalText.InetNtoa | sysm-native/src/main/sysm_util.c:601-628 | the dotted text of the word, at most fifteen characters, then a NUL over the last dot; the rest of the buffer unchanged |
| DecimalText.DottedIsIPv4 | sysm-native/src/main/sysm_util.c:601-628 | the texts of addresses are exactly the IPv4address forms of section 3.2.2 of RFC 3986, both ways |
| DecimalText.DottedInjective | sysm-native/src/main/sysm_util.c:601-628 | no two addresses have the same text |
| DecimalText.KernelAddressText | sysm-native/src/main/sysm.c:370-384 | the kernel's hexadecimal print of a.b.c.d comes back as a.b.c.d, low byte first |
| NetLine.ParseLine | sysm-native/src/main/sysm.c:472-531 | the pointer loops over one line, tied to the value-level read that `LineRoundTrip` inverts |
| NetLine.LineRoundTrip | sysm-native/src/main/sysm.c:472-531 | reading undoes printing a line, for any row and any widths between columns: a row with a remote port is given if and only if clients are asked for, one without if and only if servers are, with every field as printed |
| NetLine.TableRoundTrip | sysm-native/src/main/sysm.c:464-540 | a printed table, every row with its own slot number and column widths, reads back as its rows of the kind asked for, all and in order; `AskedExact` says which these are |
| NetLine.AskedExact | sysm-native/src/main/sysm.c:501-508 | what the flags ask for, in terms of the rows: with client alone those with a remote port, with server alone those without, with both all rows, with neither none |
| NetWalk.Getter.Visit | sysm-native/src/main/sysm.c:392-414 | the walker's two modes: a list that grows, or a search that stops at the server of one port |
| NetWalk.NetRead | sysm-native/src/main/sysm.c:446-545 | the loop over a file, for a getter that may have been through others: the list grows by all its connections, or the search takes its first server of the port if it has one |
| NetWalk.PairRead | sysm-native/src/main/sysm.c:1505-1517 | the two files of a kind: the first must be there, the second may be missing |
| NetWalk.Walk | sysm-native/src/main/sysm.c:1500-1545 | the files of the kinds asked for are read one after the other with one getter, until one fails |
| NetWalk.LastFileWins | sysm-native/src/main/sysm.c:392-414 | a match ends one file only: of all files read, the last one with a match decides |
| NetWalk.SearchExact | sysm-native/src/main/sysm.c:547-565 | what is found is the first server of all records if and only if the first and the last file with a match have the same one |
| NetWalk.TwoFilesExact | sysm-native/src/main/sysm.c:547-565 | for the two files of a kind: the second wins, which is the first match of both if and only if one has none or both have the same |
| NetWalk.DualStack | sysm-native/src/main/sysm.c:547-565 | a concrete port that listens on IPv4 and IPv6: its tcp6 row is found |
| NetWalk.ConnectionGet | sysm-native/src/main/sysm.c:547-565 | the match of the last file that has one; without any, the caller's buffer stays as it was and the status is still 0 |
| NetWalk.ConnectionListGet | sysm-native/src/main/sysm.c:1359-1380 | the connections of all files in order, or an empty list with the errno of the file that failed; for printed files these are the rows that `ListRoundTrip` and `AskedExact` name |
| NetWalk.ListRoundTrip | sysm-native/src/main/sysm.c:1359-1380 | the list of printed files is their rows of the kinds asked for, file by file and in order, each file giving the rows that `AskedExact` names |
| NetWalk.ServerFound | sysm-native/src/main/sysm.c:392-414 | with the server flag a search in a printed file finds its first row with that local port and no remote port, and nothing if it has none, whatever the client flag says |
| NetWalk.MissingFile | sysm-native/src/main/sysm.c:1518-1519 | a second file that is missing (ENOENT) leaves the rows of the first and no error; any other failure of it is reported, and so is every failure of the first |
| NetWalk.FirstFailure | sysm-native/src/main/sysm.c:1500-1548 | the status of a walk is the error of the first kind that is asked for and fails, and a kind behind it is not read |
| CpuList.RollsUpOnce | sysm-native/src/main/sysm_util.c:100-112 | over any calls on one handle only the first can say to roll up |
| CpuList.Handle.CoreCount | sysm-native/src/main/sysm_util.c:78-98 | the count of logical processors is settled by the first call and stays whatever `cpuid` says later; it is the count that `cpuid` gave, or 1 without it or without threads |
| CpuList.Handle.CoreRollup | sysm-native/src/main/sysm_util.c:100-112 | it says to roll up iff the count was not settled before, cores are not asked for and there is more than one; then `lcpu > 1` |
| CpuTimes.LineExact | sysm-native/src/main/sysm.c:967-984 | a line with any number of counters: each field is the number at its place, absent ones 0 |
| CpuTimes.GroupedNew | sysm-native/src/main/sysm.c:1011-1016 | a line that starts a group makes a record that is that line alone |
| CpuTimes.GroupedMore | sysm-native/src/main/sysm.c:1009-1010 | any other line is added to the last record, which exists |
| CpuTimes.CoversIsCeil | sysm-native/src/main/sysm.c:1009-1016 | the number of records is the number of lines divided by the group size, rounded up |
| CpuTimes.RollupConserves | sysm-native/src/main/sysm.c:1003-1021 | the totals of all records are the milliseconds on all lines |
| CpuTimes.GroupingIsIrrelevant | sysm-native/src/main/sysm.c:1009-1016 | listing by core and by socket have the same grand total |
| CpuTimes.ExactRate | sysm-native/include/main/sysm.h:131-132 | with a tick rate that divides 1000 the grand total is the ticks of all lines, unrounded |
| CpuList.Cpus.Grow | sysm-native/src/main/sysm.c:1046-1054 | a larger block with the same records |
| CpuList.Cpus.Append | sysm-native/src/main/sysm.c:1013-1015 | one zeroed record more, after growing when full |
| CpuList.TakeLine | sysm-native/src/main/sysm.c:1007-1018 | one line is added to the last record or to a new one |
| CpuList.FoldedIsGrouped | sysm-native/src/main/sysm.c:1003-1021 | folding the lines one by one gives one record a group, each the sum of its lines, with its total the sum of its eight fields |
| CpuList.FileRead | sysm-native/src/main/sysm.c:990-1030 | round trip of the file: of a summary line, any number of printed lines tagged cpu and their number, and other lines behind them, the counters listed are those of all the tagged lines in order, or of the summary line if there are none |
| CpuList.SummaryRead | sysm-native/src/main/sysm.c:967-984 | the summary line, with its two spaces, gives its counters too |
| CpuList.ListOfFile | sysm-native/src/main/sysm.c:990-1033 | for such a file of n lines, a list by groups of any size has n divided by the size, rounded up, records, and their grand total is the milliseconds on all n lines |
| CpuList.CpuListGet | sysm-native/src/main/sysm.c:990-1033 | the list of a call: one record a core or a socket over the cpu lines, or one record of the summary line if there are none; the errno of a failed open; `FileRead` and `ListOfFile` say what that is for a printed file |

## Left out

- Allocation failure, and 32-bit or 64-bit overflow of counts, sizes and times in milliseconds: assumed away.
- NativeCache.Cache.Write: pointers to entries that a cleanup has freed, through which C may not write, are excluded.
- ProcEnv.EnvWalk: keys of 128 characters or more that the walk comes to, which overrun the key buffer, are excluded by `KeysFit`; the shortcut through `getenv` for the own process is not modelled.
- NetStat.CountersConserve: connection states of 14 and above, which would index past the counters, are excluded by `InRange`.
- NetPort.PortGet: the same states are excluded.
- ListenIndex.NetMonitor.StatGet: the connections that the walk over the tables hands to the counters are an input, as are those of `NetPort.PortGet`.
- IoDevice.DeviceIndex.Get: device names and paths are unbounded here; the source truncates a relative name to its buffer.
- ProcStat.StatSplit: numbers stand where the code reads numbers; a line that ends inside the fields reads as NUL there, and the bytes behind the end of the buffer are not modelled.
- HexText.ConvertHexAddress: an address field of more than eight characters must have 32 characters behind its start, or the source reads past it; texts are ASCII.
- NetLine.ParseLine: a line that breaks off inside a fixed-width column; the source reads what an earlier line left in the buffer.
- CpuList.CpuListGet: an empty `/proc/stat`, whose first line the source uses without having read it.
- CpuTimes.LineExact: `double` arithmetic in the tick conversion; the quotient is exact and rounded down.
- ProcCpu.MeterTelescopes: percentages are reals; floating-point rounding is not modelled.
- SysmProxyCache.Handler.Invoke: exception messages and classes are one outcome `Throws`; a null among several arguments and calls from several threads are not modelled.
- Reading files in blocks, directory scans, sockets, `ioctl`, `sysconf`: their results are inputs.
- Printing of IPv6 and MAC addresses: done by foreign functions.
- The native field tables and copying wrappers, Java beans and text formatting: no state.
- Library loading, file-system and interface type tables, resource limits, boot time, swap, load average, disk rates: single reads or finite case lists.
- The list of processor descriptions (`sysm_cpu_info_list_get`): it folds like the processor times.
