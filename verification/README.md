# Idle-connection pool of the JDK HTTP client, and G1's remembered-set tracking policy

This project is a Dafny model of two pieces of the JDK.

**`jdk.internal.net.http.ConnectionPool`** keeps idle HTTP/1.1 connections for reuse. Its parts:

- Two key-to-list maps, one for plain connections and one for secure connections. Each is keyed by a `CacheKey`: a security flag, an optional proxy and an optional destination. Secure keys also compare their host names, ignoring case.
- An `ExpiryList` that orders every idle connection by its keep-alive deadline. The farthest deadline is at the head and the nearest at the tail. The list also carries a conservative "may contain entries" hint.
- A terminal `stopped` flag.
- The operations:
  - `getConnection` acquires a connection.
  - `returnToPool` releases one. When the pool is full, it first evicts the connection with the nearest deadline, whatever its key.
  - `purgeExpiredConnectionsAndReturnNextDeadline` is the sweep.
  - `stop` shuts the pool down.
  - `cleanup` is reached through the `CleanupTrigger` that watches each idle connection's flow.

**`G1RemSetTrackingPolicy`** decides which heap regions keep a remembered set. It moves a region's set through the states Untracked, Updating and Complete around a concurrent rebuild.

How the model is built:

- Each pool operation runs under the pool's lock in the source. In the model each one is a single atomic step: a pure function from the old `Pool` to a `Step` that carries:
  - the operation's answer;
  - the new pool;
  - the connections the operation closes, in order.
- `PoolInvariants.Valid` collects the invariants the pool keeps:
  - the expiry list is sorted and its hint is sound;
  - every bucket holds connections of its own kind under their own key, without repeats;
  - a connection is in a bucket exactly when it is in the expiry list, and it appears there at most once;
  - a positive maximum size is respected;
  - a stopped pool is empty.

  Each operation is proved to keep `Valid`, and its effect is stated against it.
- The G1 policy is a set of transitions on a `Region` (kind and remembered-set state). Each region's own step follows the graph Untracked → Updating → Complete. After the rebuild, the sets of humongous objects that are not eager-reclaim candidates are dropped; `update_after_rebuild` is applied to the heap's regions in address order.

Files:

- `seqs.dfy`: `Option`, plus sequence helpers (first-occurrence search and removal, duplicate-freedom).
- `cache_key.dfy`: `CacheKey`, its equality and hash, and the canonical `KeyClass` under which the maps are keyed.
- `expiry_list.dfy`: the expiry list.
- `connection_pool.dfy`: the pool operations.
- `pool_invariants.dfy`: the invariant and the per-operation properties.
- `cleanup_trigger.dfy`: the cleanup trigger.
- `remset_tracking.dfy`: the G1 policy.

Modelling decisions:

- **The maps.** A `HashMap<CacheKey, LinkedList<HttpConnection>>` is a `map<KeyClass, seq<Connection>>`. `KeyClass` is a canonical form of a key; host names are folded to lower case. `CacheKeys.KeyEqualsIffSameClass` shows that two keys are `equals` exactly when they have the same class, for every key whose host string is present (`getHostString()` never answers null).
- **Connection kind.** A connection that is not secure stands for a `PlainHttpConnection`. Only those and secure connections are ever returned to the pool.
- **Time.** Time is an integer count of milliseconds. Truncation to seconds floors to a multiple of 1000.
- **`MAX_POOL_SIZE`.** It is the pool's `maxPoolSize` field, where 0 or less means unbounded.
- **Register-then-lock race.** `returnToPool` asks the freshly registered trigger `isDone()` under the lock. That answer is a parameter, `triggerDone`. `CleanupTriggers.EarlySignalKeepsConnectionOut` composes the two halves of that race.
- **`is_tracked`.** It is defined outside the policy file. Here it is "state is not Untracked".
- **Repeated cleanup signals.** `triggerCleanup` (ConnectionPool.java:579-585) sets `done` but never tests it, so a second signal runs `cleanup` again. `CleanupTriggers.SecondSignalChangesNothing` shows that this only closes the connection again and leaves the pool as it was.
- **Dropping humongous remembered sets.** After the rebuild, a starts-humongous region that is not a potential eager-reclaim candidate has the card sets of all regions of its object cleared (g1RemSetTrackingPolicy.cpp:94-106). `G1HeapRegionRemSet::clear` is not part of this model; called as it is here, without keeping tracking, it leaves each of those regions Untracked, and the model does the same. `is_potential_eager_reclaim_candidate` is a per-region input.

## Model

| member | source | states |
|---|---|---|
| CacheKeys.KeyEqualsIffSameClass | src/java.net.http/share/classes/jdk/internal/net/http/ConnectionPool.java:94-119 | Equal keys have the same canonical class. For keys with a known host, the converse holds too, so a lookup by class finds what a lookup by `CacheKey.equals` finds. |
| CacheKeys.KeyEqualsIsEquivalence | src/java.net.http/share/classes/jdk/internal/net/http/ConnectionPool.java:94-119 | On keys with a known host, `equals` is reflexive, symmetric and transitive. |
| CacheKeys.EqualsIgnoreCaseIffSameLower | src/java.net.http/share/classes/jdk/internal/net/http/ConnectionPool.java:111-116 | The host-name test (`equalsIgnoreCase`) holds exactly when the lower-cased strings are equal. |
| CacheKeys.KeyEquals | src/java.net.http/share/classes/jdk/internal/net/http/ConnectionPool.java:94-119 | Equal keys hash alike, as the `hashCode` contract requires. `KeyEqualsIffSameClass` gives the full characterisation. |
| CacheKeys.HashCode | src/java.net.http/share/classes/jdk/internal/net/http/ConnectionPool.java:121-124 | The hash is a 32-bit `int`, and a key with neither proxy nor destination hashes to 961, the `Objects.hash` of two nulls. |
| CacheKeys.SecureHostsDistinguished | src/java.net.http/share/classes/jdk/internal/net/http/ConnectionPool.java:111-117 | Two secure keys whose host names differ other than by case are never equal, even when their addresses are equal. |
| CacheKeys.EqualKeysHashEqually | src/java.net.http/share/classes/jdk/internal/net/http/ConnectionPool.java:121-124 | Equal keys have equal 32-bit hash codes. |
| CacheKeys.HashIgnoresSecurity | src/java.net.http/share/classes/jdk/internal/net/http/ConnectionPool.java:102-124 | The hash is coarser than equality: flipping the security flag keeps the hash but never gives an equal key. |
| ExpiryLists.TruncatedToSeconds | src/java.net.http/share/classes/jdk/internal/net/http/ConnectionPool.java:416 | The truncated time is a whole second, at most `now` and less than one second before it. |
| ExpiryLists.ExpiryFor | src/java.net.http/share/classes/jdk/internal/net/http/ConnectionPool.java:416-417 | The deadline is a whole second, `keepAlive` seconds after the second that contains `now`. |
| ExpiryLists.InsertionPoint | src/java.net.http/share/classes/jdk/internal/net/http/ConnectionPool.java:423-434 | The insertion scan stops at the first entry due strictly earlier than the new deadline, or at the end; every entry before it is due no earlier. |
| ExpiryLists.Add | src/java.net.http/share/classes/jdk/internal/net/http/ConnectionPool.java:415-440 | The list grows by exactly the new (connection, deadline) entry, at the insertion point; the hint becomes true; a sorted list with a sound hint stays so. |
| ExpiryLists.AddPlacesAfterTies | src/java.net.http/share/classes/jdk/internal/net/http/ConnectionPool.java:415-440 | On a sorted list, `add` yields the entries due no earlier, then the new entry, then those due strictly earlier. Ties therefore land tail-ward of existing equal deadlines. |
| ExpiryLists.Remove | src/java.net.http/share/classes/jdk/internal/net/http/ConnectionPool.java:443-454 | A no-op for null, an empty list or an absent connection. Otherwise it removes one entry, the first for that connection, and sets the hint to "non-empty"; sortedness and hint soundness are kept. |
| ExpiryLists.RemoveDropsFirstMatch | src/java.net.http/share/classes/jdk/internal/net/http/ConnectionPool.java:443-454 | `remove` deletes exactly the first matching entry and keeps the others in order. |
| ExpiryLists.AddThenRemove | src/java.net.http/share/classes/jdk/internal/net/http/ConnectionPool.java:415-454 | Adding a connection the list does not hold and then removing it gives back the original entries. |
| ExpiryLists.RemoveOldest | src/java.net.http/share/classes/jdk/internal/net/http/ConnectionPool.java:404-407 | On an empty list it answers null and changes nothing. Otherwise it pops the tail entry's connection, whose deadline is the nearest on a sorted list, and leaves the hint as it was. |
| ExpiryLists.NextExpiryDeadline | src/java.net.http/share/classes/jdk/internal/net/http/ConnectionPool.java:398-401 | None exactly for an empty list. Otherwise it is a deadline in the list, and on a sorted list the nearest one. |
| ExpiryLists.ExpiredFrom | src/java.net.http/share/classes/jdk/internal/net/http/ConnectionPool.java:467-477 | The tail-first scan stops at the start of the longest tail whose entries are all due at or before `now`. |
| ExpiryLists.PurgeUntil | src/java.net.http/share/classes/jdk/internal/net/http/ConnectionPool.java:458-480 | An empty list is returned untouched. Otherwise it keeps a prefix whose last entry is due after `now`, returns the rest tail first (each due at or before `now`), sets the hint to "non-empty" and keeps validity. |
| ExpiryLists.PurgeRemovesExactlyExpired | src/java.net.http/share/classes/jdk/internal/net/http/ConnectionPool.java:458-480 | On a sorted list an entry is kept exactly when it is due after `now`, and the purged entries come out in non-decreasing deadline order. |
| ExpiryLists.PurgeClosesExactlyExpired | src/java.net.http/share/classes/jdk/internal/net/http/ConnectionPool.java:458-480 | On a sorted list of distinct connections, a connection is returned for closing exactly when its deadline is at or before `now`. |
| ExpiryLists.PurgePartitions | src/java.net.http/share/classes/jdk/internal/net/http/ConnectionPool.java:458-480 | The kept and the purged connections are disjoint, each is duplicate-free, and together they are the list's connections. |
| ExpiryLists.PurgeLeavesFutureDeadline | src/java.net.http/share/classes/jdk/internal/net/http/ConnectionPool.java:398-401 | After a purge the next deadline is the nearest remaining one and lies after `now`; there is none exactly when nothing remains. |
| ExpiryLists.FalseHintMeansNothingToPurge | src/java.net.http/share/classes/jdk/internal/net/http/ConnectionPool.java:389-394 | With a sound hint, a false `purgeMaybeRequired()` means purging would return nothing and there is no next deadline. |
| ExpiryLists.Clear | src/java.net.http/share/classes/jdk/internal/net/http/ConnectionPool.java:488-491 | The cleared list is valid, holds no connection, has no next deadline and a false hint. |
| ConnectionPool.PutConnection | src/java.net.http/share/classes/jdk/internal/net/http/ConnectionPool.java:280-290 | Appends the connection to the list of its key (a missing list is read as empty); every other list is unchanged. |
| ConnectionPool.RemoveFromBuckets | src/java.net.http/share/classes/jdk/internal/net/http/ConnectionPool.java:264-277 | Reports whether the connection was in the list of its key, and removes its first occurrence there; every other list is unchanged. |
| ConnectionPool.RemoveFromPool | src/java.net.http/share/classes/jdk/internal/net/http/ConnectionPool.java:494-504 | Reports whether the connection was pooled, and touches only the map of its own kind. |
| ConnectionPool.LookupKey | src/java.net.http/share/classes/jdk/internal/net/http/ConnectionPool.java:172-177 | The lookup key keeps the flag and the proxy. It has no destination exactly when none was given or when the connection is plain and goes through a proxy. |
| ConnectionPool.FindConnection | src/java.net.http/share/classes/jdk/internal/net/http/ConnectionPool.java:251-262 | Misses exactly when the key's list is missing or empty, and then changes nothing. A hit hands out the list's first connection, shortens that list by it, removes its expiry entry and touches no other list. |
| ConnectionPool.GetConnection | src/java.net.http/share/classes/jdk/internal/net/http/ConnectionPool.java:160-184 | A stopped pool answers null. A hit comes from the list of the requested kind under the lookup key; a miss changes nothing. |
| ConnectionPool.ReturnToPool | src/java.net.http/share/classes/jdk/internal/net/http/ConnectionPool.java:194-238 | A done trigger leaves everything as it was. A stopped pool closes the connection only. Otherwise, after `MakeRoom`, the connection is appended at the end of the list of its key and gets exactly one new expiry entry, due `keepAlive` seconds after the second of `now`; only what `MakeRoom` evicted is closed, and the size grows by one below capacity and stays put at capacity. |
| ConnectionPool.PurgeExpiredConnections | src/java.net.http/share/classes/jdk/internal/net/http/ConnectionPool.java:298-334 | A false hint answers 0 and changes nothing. The answer is never negative, and (with a true hint) positive exactly when connections remain. The closed connections and the remaining ones account for the old size, and the remaining entries are a prefix of the old list. |
| ConnectionPool.Stop | src/java.net.http/share/classes/jdk/internal/net/http/ConnectionPool.java:342-360 | The pool is stopped, empty, with a false hint, and nothing is pooled; the connections closed are exactly the expiry list's, as many as there were. |
| ConnectionPool.Cleanup | src/java.net.http/share/classes/jdk/internal/net/http/ConnectionPool.java:528-558 | The connection is closed. The close carries the "unexpected cleanup" cause, wrapping the signal's error, exactly when the connection was not in its bucket and data was pending. |
| ConnectionPool.NewPool | src/java.net.http/share/classes/jdk/internal/net/http/ConnectionPool.java:138-144 | A new pool keeps the given maximum, is running, has an empty expiry list with a false hint, and neither pools nor contains any connection. |
| ConnectionPool.Contains | src/java.net.http/share/classes/jdk/internal/net/http/ConnectionPool.java:516-526 | A pooled connection is always found; `ContainsIffPooled` gives the converse on a valid pool. |
| ConnectionPool.MakeRoom | src/java.net.http/share/classes/jdk/internal/net/http/ConnectionPool.java:215-218 | Below capacity nothing happens. At capacity exactly one connection is scheduled for closing, the one at the tail of the expiry list, and the list loses one entry. |
| PoolInvariants.NewPoolValid | src/java.net.http/share/classes/jdk/internal/net/http/ConnectionPool.java:138-144 | A new pool satisfies the invariant and holds nothing. |
| PoolInvariants.PutEffect | src/java.net.http/share/classes/jdk/internal/net/http/ConnectionPool.java:280-290 | Filing a connection that is not pooled keeps the buckets well shaped and pools exactly it in addition. |
| PoolInvariants.RemoveEffect | src/java.net.http/share/classes/jdk/internal/net/http/ConnectionPool.java:264-277 | Removal keeps the buckets well shaped and unpools exactly that connection. |
| PoolInvariants.FindIsRemoveFirst | src/java.net.http/share/classes/jdk/internal/net/http/ConnectionPool.java:251-262 | A hit of `findConnection` is the same as `removeFromPool` of the first connection plus removal of its expiry entry. |
| PoolInvariants.GetConnectionSpec | src/java.net.http/share/classes/jdk/internal/net/http/ConnectionPool.java:160-184 | On a valid pool the invariant is kept. A hit is a pooled connection of the requested kind and key that leaves both structures, while every other connection stays and the size drops by one. A miss on a running pool means no pooled connection of that kind has that key. |
| PoolInvariants.AcquiredKeyMatches | src/java.net.http/share/classes/jdk/internal/net/http/ConnectionPool.java:172-181 | What a hit hands out has a key `equals` to the lookup key. |
| PoolInvariants.EvictOldestEffect | src/java.net.http/share/classes/jdk/internal/net/http/ConnectionPool.java:215-218 | On a valid pool the eviction step keeps the invariant, and exactly the connections it closes leave the pool, so the size drops by their number. |
| PoolInvariants.AdmitEffect | src/java.net.http/share/classes/jdk/internal/net/http/ConnectionPool.java:220-227 | On a valid, running pool with room, the admission step files an unpooled connection in its bucket and in the expiry list. The pool stays valid and grows by one, and every other connection keeps its membership. |
| PoolInvariants.ReturnToPoolSpec | src/java.net.http/share/classes/jdk/internal/net/http/ConnectionPool.java:194-238 | For a connection not already pooled the invariant is kept, so a positive maximum is never exceeded. On a running pool with a trigger not yet done, the connection becomes pooled. At capacity exactly the connection with the nearest deadline is closed; otherwise nothing is. Every other connection keeps its membership. |
| PoolInvariants.ReturnUnderCapacity | src/java.net.http/share/classes/jdk/internal/net/http/ConnectionPool.java:216-227 | Below capacity nothing is closed, the invariant is kept and exactly the returned connection joins the pool. |
| PoolInvariants.ReturnAtCapacity | src/java.net.http/share/classes/jdk/internal/net/http/ConnectionPool.java:216-227 | At capacity the tail connection, whose deadline is the nearest, is closed and unpooled, the returned one is pooled, and the invariant is kept. |
| PoolInvariants.DoubleReturnDuplicates | src/java.net.http/share/classes/jdk/internal/net/http/ConnectionPool.java:194-238 | Returning a connection that is already pooled gives it two expiry entries, so the callers' guarantee is needed. |
| PoolInvariants.CapacityEvictsNearestDeadline | src/java.net.http/share/classes/jdk/internal/net/http/ConnectionPool.java:216-227 | With a maximum of two, three plain connections returned at 0 s, 1 s and 2 s with a 60 s keep-alive: the third return closes the first connection, and the pool holds the second and third with deadlines 61 s and 62 s. |
| PoolInvariants.RemoveAllEffect | src/java.net.http/share/classes/jdk/internal/net/http/ConnectionPool.java:316-324 | Removing a duplicate-free list of pooled connections finds every one of them and unpools exactly them. |
| PoolInvariants.SweepFindsEveryPurged | src/java.net.http/share/classes/jdk/internal/net/http/ConnectionPool.java:316-324 | Every connection the purge returns is found in its bucket (the source asserts this), and the pool stays valid. |
| PoolInvariants.SweepSpec | src/java.net.http/share/classes/jdk/internal/net/http/ConnectionPool.java:304-334 | The sweep keeps the invariant. It closes distinct connections that were pooled, and unpools exactly those. |
| PoolInvariants.SweepClosesExactlyExpired | src/java.net.http/share/classes/jdk/internal/net/http/ConnectionPool.java:304-334 | A pooled connection is closed by the sweep exactly when its deadline is at or before `now`, and stays pooled exactly when it is after. |
| PoolInvariants.SweepAnswersNearestDeadline | src/java.net.http/share/classes/jdk/internal/net/http/ConnectionPool.java:326-328 | The answer is 0 when nothing remains. Otherwise it is positive, and `now` plus the answer is the nearest remaining deadline. |
| PoolInvariants.StopSpec | src/java.net.http/share/classes/jdk/internal/net/http/ConnectionPool.java:342-360 | `stop` keeps the invariant and closes each pooled connection exactly once. |
| PoolInvariants.StoppedPoolRefuses | src/java.net.http/share/classes/jdk/internal/net/http/ConnectionPool.java:194-212 | After `stop`, lookups answer null, returned connections are closed rather than pooled, and `contains` is false. |
| PoolInvariants.ContainsIffPooled | src/java.net.http/share/classes/jdk/internal/net/http/ConnectionPool.java:516-526 | On a valid pool, looking in both maps finds a connection exactly when it is pooled, that is, when it is in the expiry list. |
| PoolInvariants.CleanupSpec | src/java.net.http/share/classes/jdk/internal/net/http/ConnectionPool.java:528-539 | `cleanup` keeps the invariant and takes the connection out of both structures. Every other connection keeps its membership, and the size drops by one exactly when the connection was pooled. |
| PoolInvariants.CleanupUnpooledKeepsContents | src/java.net.http/share/classes/jdk/internal/net/http/ConnectionPool.java:528-558 | Cleaning up a connection the pool does not hold changes no list contents and no expiry entry. It attaches the cause exactly when data was pending. |
| PoolInvariants.CleanupIdempotent | src/java.net.http/share/classes/jdk/internal/net/http/ConnectionPool.java:528-558 | A second cleanup of the same connection leaves the contents as the first left them, and attaches the cause exactly when data was pending. |
| PoolInvariants.ReturnThenGet | src/java.net.http/share/classes/jdk/internal/net/http/ConnectionPool.java:194-262 | Returning a connection to a pool with room and no other connection under its key, then looking that key up, hands back the same connection and restores the original contents and expiry entries. |
| CleanupTriggers.DropSubscription | src/java.net.http/share/classes/jdk/internal/net/http/ConnectionPool.java:614-617 | After the subscription is dropped, a later `onSubscribe` requests nothing; `done` is unchanged. |
| CleanupTriggers.OnSubscribe | src/java.net.http/share/classes/jdk/internal/net/http/ConnectionPool.java:590-594 | A freshly registered trigger requests an item; one that is done or dropped does not. |
| CleanupTriggers.PendingData | src/java.net.http/share/classes/jdk/internal/net/http/ConnectionPool.java:596-602 | Errors and completion pass no pending data; data passes its byte count. |
| CleanupTriggers.ErrorOf | src/java.net.http/share/classes/jdk/internal/net/http/ConnectionPool.java:596-602 | Completion passes no error, an error signal passes its own, and data passes "data received while in pool". |
| CleanupTriggers.Fire | src/java.net.http/share/classes/jdk/internal/net/http/ConnectionPool.java:579-585 | The trigger becomes done and the connection is closed. The cause is attached exactly when the connection was not pooled and the signal carried data. |
| CleanupTriggers.SubscribeRequestsOnlyWhenIdle | src/java.net.http/share/classes/jdk/internal/net/http/ConnectionPool.java:590-594 | A fresh trigger requests one item. One that has fired, or whose subscription was dropped, requests nothing. |
| CleanupTriggers.CauseOnlyForUnexpectedData | src/java.net.http/share/classes/jdk/internal/net/http/ConnectionPool.java:596-602 | Errors and completion never carry the cause. Data carries it exactly when the connection was not pooled and the buffers were non-empty. |
| CleanupTriggers.SignalEvicts | src/java.net.http/share/classes/jdk/internal/net/http/ConnectionPool.java:579-602 | Any signal leaves the pool valid. The connection is no longer contained and no later lookup hands it out; every other connection keeps its membership. |
| CleanupTriggers.EarlySignalKeepsConnectionOut | src/java.net.http/share/classes/jdk/internal/net/http/ConnectionPool.java:194-214 | A signal that arrives before `returnToPool` takes the lock closes the connection. `returnToPool` then leaves the pool's contents as they were, and the connection is never pooled. |
| CleanupTriggers.SecondSignalChangesNothing | src/java.net.http/share/classes/jdk/internal/net/http/ConnectionPool.java:579-585 | A second signal to a fired trigger closes the connection again but leaves the pool's contents and expiry entries unchanged. |
| RemSetTracking.UpdateAtAllocate | src/hotspot/share/gc/g1/g1RemSetTrackingPolicy.cpp:32-43 | For young, humongous or old regions only. The kind is kept, the set is tracked exactly when the region is not old, and it is never left Updating. |
| RemSetTracking.UpdateAtFree | src/hotspot/share/gc/g1/g1RemSetTrackingPolicy.cpp:45-47 | Freeing is the identity on the region, since `update_at_free` does nothing. |
| RemSetTracking.UpdateOldBeforeRebuild | src/hotspot/share/gc/g1/g1RemSetTrackingPolicy.cpp:70-85 | For an old region not Updating, it selects exactly when occupancy is low and the set is untracked. A selected region becomes Updating; any other is unchanged. |
| RemSetTracking.UpdateHumongousBeforeRebuild | src/hotspot/share/gc/g1/g1RemSetTrackingPolicy.cpp:49-68 | For a humongous object whose first region is not Updating, it selects exactly when the object is a type array and its first region is untracked. Then every region of the object becomes Updating, kinds kept; otherwise nothing changes. |
| RemSetTracking.UpdateAfterRebuild | src/hotspot/share/gc/g1/g1RemSetTrackingPolicy.cpp:90-93 | The region's own step: an old or humongous region that was Updating becomes Complete; every other region is unchanged. |
| RemSetTracking.UpdateAfterRebuildAt | src/hotspot/share/gc/g1/g1RemSetTrackingPolicy.cpp:87-106 | Kinds are kept. For a starts-humongous region that is not an eager-reclaim candidate, exactly the regions of its object become Untracked and nothing else changes; otherwise only the region itself takes its own step. |
| RemSetTracking.RunIsObject | src/hotspot/share/gc/g1/g1RemSetTrackingPolicy.cpp:98-105 | The regions the clear visits after a starts-humongous region (its run of continues-humongous regions) are exactly those belonging to its object. |
| RemSetTracking.AfterRebuildAll | src/hotspot/share/gc/g1/g1RemSetTrackingPolicy.cpp:87-106 | Applying `update_after_rebuild` to every region in address order keeps the number of regions and their kinds. |
| RemSetTracking.AfterRebuildClosedForm | src/hotspot/share/gc/g1/g1RemSetTrackingPolicy.cpp:87-106 | After every region is processed, a region of a non-candidate humongous object is Untracked and every other region is as its own step leaves it. |
| RemSetTracking.StepsFollowRebuildGraph | src/hotspot/share/gc/g1/g1RemSetTrackingPolicy.cpp:49-93 | The before-rebuild selections and each region's own after-rebuild step (:90-93) only stay put, go Untracked → Updating or go Updating → Complete; for a humongous object this holds for every region when its regions share one state. Allocation, which resets a region's state, and the clear of a non-candidate humongous object (:98-105), which leaves its regions Untracked, are the two steps outside this graph. |
| RemSetTracking.AfterRebuildSettles | src/hotspot/share/gc/g1/g1RemSetTrackingPolicy.cpp:87-106 | After the rebuild no old or humongous region is Updating. A region is tracked exactly when it was tracked before and its object's set is not dropped; a region neither Updating nor dropped is untouched. |
| RemSetTracking.OldRegionCycle | src/hotspot/share/gc/g1/g1RemSetTrackingPolicy.cpp:70-93 | A selected old region was untracked and ends the cycle Complete, and an unselected one ends it unchanged. After the cycle the region is tracked exactly when it was before or its occupancy was low. |
| RemSetTracking.HumongousCycle | src/hotspot/share/gc/g1/g1RemSetTrackingPolicy.cpp:49-106 | A humongous object that is not an eager-reclaim candidate ends the cycle with every region Untracked. A selected candidate ends it with every region Complete; an unselected candidate with no region Updating ends it unchanged. |
| RemSetTracking.AllocationThenSelection | src/hotspot/share/gc/g1/g1RemSetTrackingPolicy.cpp:32-85 | A newly allocated old region is later selected exactly when its occupancy is low. A humongous object whose regions were all just allocated has every region Complete, so it is never selected and no region changes. |

## Left out

- Concurrency. This covers the `ReentrantLock`, the volatile `stopped`, hint and `done` fields, the unlocked `stopped` and hint reads, and the closes performed after releasing the lock. Each operation is one atomic step, and the closes are the `closed` sequence of its `Step`.
- The flow plumbing is not modelled: `registerCleanupTrigger`/`connectFlows`, `subscribe`, `request`, `cancel` and `Utils.remaining`. A signal carries its byte count instead.
- `HttpConnection` I/O, debug output and `Log` output.
- `close` failures: the model treats `close` as never failing. In the source the private `close` helper (ConnectionPool.java:336-340) swallows failures on the eviction, sweep and `stop` paths, but a failing `conn.close()` in `returnToPool` on a stopped pool (:213) and a failing close in `cleanup` (:554, :556) propagate to the caller.
- `returnToPool(conn)`, `ExpiryList.add(conn)` and the no-argument `purgeExpiredConnectionsAndReturnNextDeadline()`, which only read the clock and the keep-alive setting and then delegate. The clock is the `now` parameter.
- `Deadline` overflow: `plus` of a huge keep-alive throws in the source. Integers are unbounded here.
- The connection kinds: only plain (non-secure) and secure connections are represented. The source's assertion at line 196, that every returned connection is one of the two, is therefore built into the model.
- `InetSocketAddress`: its `equals`/`hashCode` are those of an abstract endpoint value. `AddressHash` wraps that value to 32 bits, and `getHostString()` is an optional string.
- `CacheKeys.EqualsIgnoreCase` folds ASCII letters only. Java's `String.equalsIgnoreCase` also folds non-ASCII letters, which is not modelled.
- `ExpiryList.stream()` and `size()`: they are the entry sequence and its length.
- `PoolInvariants.ReturnToPoolSpec` states its properties only for a connection that is not already pooled. The source does not check this; its callers guarantee it, and `PoolInvariants.DoubleReturnDuplicates` shows what breaks otherwise.
- `PoolInvariants.AcquiredKeyMatches` requires a lookup key whose host string is present, which `getHostString()` always gives.
- G1:
  - The card-set contents themselves and the assertion that continues-humongous card sets are empty: only the state change of the clear is modelled.
  - Memory accounting and trace logging (g1RemSetTrackingPolicy.cpp:108-128).
  - The safepoint assertions.
  - Region indices and type strings in the messages.
- The other files of the repository: compiler, javadoc, zip, CDS, class-loader statistics, ZGC, headers and tests.
