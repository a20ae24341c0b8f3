# Verified model of the federation read paths

The repository answers Matrix federation reads from a Synapse database: auth chains, the state before an
event, missing events, whole `/state` responses, redacted events. Much of it is a fast form of something
simple: a chain cover index instead of a walk, a filter pushed below a delta resolution, a collapsed
pattern instead of a backtracking one, a digest instead of a body, a cache instead of the database. This
project models those fast forms as the code has them and proves each equal to its simple form, on all
inputs.

The database is an immutable value: auth edges, prev edges, chain positions and links, state group deltas,
redaction rows. A query is a method over it that may return its rows in any order. Code that works step by step is a method with a loop or a class with the
same fields, proved against a specification function; what the code promises is then proved of that
function. JSON canonicalisation, SHA-256, per-room-version redaction and IP address parsing are function
parameters; where a property needs a collision-free hash it says so.

| file | models |
|---|---|
| Basics.dfy, Ordering.dfy | shared wrappers; byte order and sorting of strings |
| LruCache.dfy | the byte-bounded LRU of `internal/cache/lru.go` |
| CacheKeys.dfy | the key encodings of the auth chain cache and the filtered state cache |
| AuthChain.dfy | the cover index worklist, the breadth-first walk, and the cached store in front of them |
| MissingEvents.dfy, WalkRoom.dfy | the bounded backward walk of `/get_missing_events`, and how much room it needs |
| RateLimiter.dfy | the per-origin limiter as a protocol over its lock sections |
| AclGlob.dfy | server ACL parsing, glob compilation, the verdict on a server |
| StateStream.dfy | the batched `/state` writer, its digest, and the scanner of the far side |
| Diagnosis.dfy | the two-pass diagnosis of a digest mismatch |
| StateGroups.dfy, StateStore.dfy | state group resolution, the filters, and the two caches |
| StoreCaches.dfy | the five caches of the store as one |
| StateBefore.dfy | the state before an event |
| Resolver.dfy | the two state endpoints put together |
| Redaction.dfy | redaction on read over a shared event cache |

## What was found

Where the code and what is said about it differ, the model follows the code.

- The comments of the limiter say that a limit of zero disables a stage. The settings are completed first,
  and that replaces every zero by its default, so no accepted configuration reaches that branch
  (`RateLimiter.ZeroTakesDefault`).
- The reject limit does not bound how many requests of an origin wait. A request that was let in and does
  not sleep is counted nowhere until its second lock section. If at most k stand there whenever somebody
  arrives, the number that sleep or wait stays within a bound exactly if that bound is the reject limit plus
  k + 1 or more (`RateLimiter.OverrunIsExact`), and without a limit on k there is none
  (`RateLimiter.WaitingIsUnbounded`).
- The clock of the limiter is read before the lock is taken, so readings can be out of order. The window is
  counted exactly if no arrival in it was let in and then overtaken by a reading a whole window later
  (`RateLimiter.WindowIsExact`, `RateLimiter.ForgettingDecides`). Unsorted readings alone do no harm as long
  as none is later than now (`RateLimiter.OnTimeForgetsNothing`); where one is, a request may pass that
  should have slept (`RateLimiter.BackwardClockForgets`), but nobody ever sleeps for nothing
  (`RateLimiter.WindowNeverOvercounts`).
- The truncated flag of the missing-events walk does not say that an untruncated answer is complete: the
  row limit of each query is applied before rows already seen are dropped
  (`WalkRoom.UntruncatedMayMiss`). The answer is complete exactly if every row that was cut off is
  one the caller has or the walk found anyway (`MissingEvents.UntruncatedIsComplete`). What sizes of graph
  are safe can be said beforehand: all graphs with so many missing events and at most so many prev events
  to each are answered completely exactly if the two numbers together exceed the limit by no more than one
  (`WalkRoom.RoomIsExact`).
- `allow_ip_literals: null` in an ACL event is read as false, although the comment says that a value that
  is no boolean is ignored (`AclGlob.ParseServerAcl`).
- The collapsed pattern means the glob whose wildcards take no newline, on every name
  (`AclGlob.CollapsePreserves`), so it means the glob of the specification exactly on names without a newline
  (`AclGlob.NewlineIsTheException`), and an entry is dropped exactly if some stretch of wildcards holds
  more than 1000 question marks (`AclGlob.CompilesIffShort`).
- The batched writer rescans the whole ID list for every chunk. That writes the unbatched answer exactly
  if no held, unrejected ID occurs in a chunk and again outside it
  (`StateStream.BatchedEqualsUnbatched`). Distinct IDs never do, repeated ones may
  (`StateStream.RepeatedIdsStraddle`); the auth chain never repeats one
  (`Resolver.State`), and a state lists one per key.
- When a scanned response repeats a field, the count is that of the last array while the digest covers
  all of them (`StateStream.RepeatedFieldUndercounts`). The two describe the same events exactly if every
  array under that key before the last is empty (`StateStream.CountDescribesDigest`).
- The in-memory and the SQL membership filter agree exactly for server names without a backslash; the
  guard of the lookup only refuses `%` and `_` (`StateGroups.FiltersAgree`).
- Only the seeds of a question are checked for a position in the cover index, so an ancestor that the index
  does not describe makes the answer silently short. That the index covers every auth edge that leaves one of
  its events is not only enough but needed (`AuthChain.CoverageIsExact`).
- Joining type names with commas forgets where the names end. Two lists share a cache key exactly if their
  sorted names have the same pieces between commas (`CacheKeys.TypesFilterIdentifies`), so a name that holds
  a comma may share the key of two names (`CacheKeys.CommaCollides`), and the list of one empty name that of
  the empty list. A filtered answer is right if all questions asked under its key keep the same entries
  (`StateStore.StateStore.GetFilteredStateForGroup`). The only caller passes one constant name without a comma
  (`internal/matrixstate/event.go:153`), so none of this is reached today.
- An `Add` takes effect exactly if the entry fits the cache; an oversized one leaves an older value of the
  same key in place and served (`LruCache.AddTakesEffect`).
- The idle test of `Cleanup` holds with requests under way between the lock sections
  (`RateLimiter.HostLimiter.IdleMeansAway`). An object dropped at such a moment goes on beside the one its
  origin is given next, and each admits as many as Concurrent says (`RateLimiter.CleanupCanSplit`).

## Model

| member | source | states |
|---|---|---|
| AuthChain.MaterialiseChains | internal/store/authchain.go:143-198 | for every finite link table, cyclic ones too, the worklist ends with the least bound per chain: each bound is the end of a path of usable links, and no path ends above it |
| AuthChain.FollowRows | internal/store/authchain.go:171-194 | one generation keeps the bound reached, leaves no fetched link unfollowed that the frontier allows, and either changes nothing or satisfies a link that was not |
| AuthChain.LeastBoundUnique | internal/store/authchain.go:143-198 | there is one least bound, so row order and map iteration order cannot show in the result |
| AuthChain.ClosedIsAbove | internal/store/authchain.go:178-188 | a bound that no usable link exceeds lies above the end of every path of links |
| AuthChain.NextFront | internal/store/authchain.go:233-266 | the batches of a generation together fetch exactly the held auth successors of the front |
| AuthChain.GetAuthChainIDsRecursive | internal/store/authchain.go:225-284 | the walk ends on every graph, cyclic ones too, with exactly the held events one or more auth steps from the seeds, each once |
| AuthChain.ClosedContainsChain | internal/store/authchain.go:268-277 | a set of reached events that is closed under auth successors is the whole chain |
| AuthChain.StartPositions | internal/store/authchain.go:44-69 | which seeds have a position, and the furthest position of a seed in each chain |
| AuthChain.AddOwnChains | internal/store/authchain.go:86-95 | the bounds after step 3 cover a position exactly if the links reach it or it lies strictly before a seed in the seed's own chain |
| AuthChain.PathReaches | internal/store/authchain.go:22-27 | a seed auth-reaches every event at or below the end of a path of links from its position |
| AuthChain.UnderIsReached | internal/store/authchain.go:79-114 | soundness: every event under the bound is in the auth chain of the seeds |
| AuthChain.CoverStaysUnder | internal/store/authchain.go:79-95 | what an event at or under the bound covers through the index is under the bound |
| AuthChain.ReachedIsUnder | internal/store/authchain.go:71-114 | completeness: every event along an auth path from a seed has a position, and it is under the bound |
| AuthChain.IndexAnswersChain | internal/store/authchain.go:30-135 | reading everything under the bound off the index gives exactly the auth chain |
| AuthChain.LeastBoundExists | internal/store/authchain.go:143-198 | every finite link table has a least bound |
| AuthChain.RightIndexCovers | internal/store/authchain.go:71-77 | an index that answers every positioned question rightly covers each auth edge that leaves one of its events |
| AuthChain.CoverageIsExact | internal/store/authchain.go:71-77 | of an index whose other promises hold, every question whose seeds have positions is answered rightly if and only if every auth edge that leaves an event of the index is covered by it |
| AuthChain.AuthStore.KeysTellApart | internal/store/authchain.go:35-42 | with a collision-free hash and rooms without a NUL, whatever was asked under one key was asked of the same events |
| AuthChain.AuthStore.GetAuthChainIDs | internal/store/authchain.go:30-135 | for every room and every hash: the answer names each event once and is the auth chain of some question asked under its key, hence its own wherever these ask for the same events, and it reports a gap only if an event has no position |
| AuthChain.AuthStore.FromIndex | internal/store/authchain.go:44-132 | steps 1 to 4 answer exactly if every event has a position, and then with the auth chain, each event once |
| AuthChain.AuthStore.SetArmed | internal/store/cache.go:107 | arming and disarming keep the store right, and disarming empties its cache |
| AuthChain.AuthStore.Purge | internal/store/cache.go:122 | emptying keeps the store right and its cache armed as it was |
| AuthChain.AuthStore.GetAuthChainIDsWithFallback | internal/store/authchain.go:288-296 | each event is named once, and without confusion of keys the answer is the auth chain whichever branch gives it, and the fallback is reported exactly if some event has no position |
| AuthChain.SizesAdd | internal/store/cache.go:70-76 | the sizer counts the bytes of every ID and sixteen more |
| CacheKeys.AuthChainKey | internal/cache/stores.go:98-116 | the loop hashes the room, a NUL and the sorted, length-prefixed IDs; the caller's array is not written |
| CacheKeys.BigEndianInjective | internal/cache/stores.go:106-110 | an eight byte length prefix determines the length |
| CacheKeys.EncodeIdsInjective | internal/cache/stores.go:107-112 | different ID lists have different encodings, wherever the IDs split |
| CacheKeys.KeyIdentifiesQuestion | internal/cache/stores.go:93-116 | for rooms without a NUL two questions hash the same bytes exactly if the rooms are equal and the IDs are permutations |
| CacheKeys.NulInRoomCollides | internal/cache/stores.go:103-105 | a witness that the NUL matters: a room ID of eight NULs, which no text column can hold, collides with another question |
| CacheKeys.JoinForgetsNames | internal/store/state.go:157-159 | any two lists join to the same string exactly if their names have the same pieces between commas |
| CacheKeys.TypesFilterIdentifies | internal/store/state.go:157-159 | any two type lists share a filter string exactly if their sorted names have the same pieces |
| CacheKeys.CommaFreeFilter | internal/store/cache.go:25-34 | of comma-free lists these are the permutations, and the empty list with the list of one empty name |
| CacheKeys.CommaCollides | internal/store/state.go:157-159 | a type name with a comma shares its key with the two names around it |
| CacheKeys.FilterKindsDiffer | internal/store/cache.go:25-34 | a type filter never shares a key with a membership filter |
| CacheKeys.MembersFilterIdentifies | internal/store/state.go:288 | membership filters share a key exactly if they name one server |
| Ordering.AscendingUnique | internal/cache/stores.go:99-101 | two ascending lists with the same elements are equal |
| Ordering.SortForgetsOrder | internal/cache/stores.go:99-101 | sorting gives one result exactly for the permutations of one list |
| Ordering.LeqIsBytewise | internal/store/missingevents.go:84-92 | the order is that of bytes: a prefix comes first, else the smaller at the first difference |
| LruCache.EvictsShortestSuffix | internal/cache/lru.go:140-152 | what eviction keeps is the longest prefix, most recent first, that fits |
| LruCache.StoredKeepsNewest | internal/cache/lru.go:108-138 | an entry that fits is at the front afterwards, within the bound, and never evicted by its own admission |
| LruCache.StepBounded | internal/cache/lru.go:69-152 | every operation keeps the total size within the bound, the keys unique, and a disarmed cache empty |
| LruCache.AddTakesEffect | internal/cache/lru.go:119-123 | after an Add to a cache that is on, the key holds the entry if and only if it fits; otherwise the older entry of the key is still served |
| LruCache.StepMembers | internal/cache/lru.go:69-216 | no operation makes the cache hold anything but what it held or was given |
| LruCache.HeldIsLatest | internal/cache/lru.go:66-138 | after any run of operations whatever is held is the last value admitted under its key since the key was dropped or the cache emptied or disarmed |
| LruCache.LeastRecentIsLast | internal/cache/lru.go:103-152 | after any run the items stand in the order in which their keys were last admitted or found, the latest first, so eviction drops what was used longest ago |
| LruCache.LRU.constructor | internal/cache/lru.go:52-64 | a new cache is armed and empty |
| LruCache.LRU.Purge | internal/cache/lru.go:190-199 | empties the cache and leaves it armed as it was |
| LruCache.LRU.SetArmed | internal/cache/lru.go:69-77 | disarming empties; arming keeps what is held |
| LruCache.LRU.Get | internal/cache/lru.go:90-106 | serves exactly what is held while enabled; a hit puts its entry in front and leaves the others in their order; counts a hit or a miss |
| LruCache.LRU.Add | internal/cache/lru.go:110-138 | the new recency list is the old one without the key, the entry put in front, evicted from the back; nothing changes when disabled or oversized |
| LruCache.LRU.EvictOldest | internal/cache/lru.go:142-150 | one turn drops the least recent entry from list, map and byte count |
| LruCache.LRU.EvictLocked | internal/cache/lru.go:140-152 | the loop computes the eviction of the specification and counts every entry it drops |
| LruCache.LRU.Remove | internal/cache/lru.go:203-216 | drops one key wherever it stands; an absent key changes nothing |
| MissingEvents.PrevEvents | internal/store/missingevents.go:125-149 | the first in-room prev events in byte order, as many as the limit allows |
| MissingEvents.OrderedIs | internal/store/missingevents.go:84-92 | the sorted order of a set does not depend on how its rows came in |
| MissingEvents.RowsAreFirst | internal/store/missingevents.go:124-134 | the rows ascend, are as many as the limit allows, and every prev event withheld comes after all of them |
| MissingEvents.LeastGoesFirst | internal/store/missingevents.go:83-111 | in every generation the least event of the front is expanded first, and what is new among its rows is found in their order |
| MissingEvents.VisitEvent | internal/store/missingevents.go:96-110 | expanding one event adds its unseen rows, in order, to seen, next and results, unless the budget is spent |
| MissingEvents.VisitFront | internal/store/missingevents.go:92-112 | a generation expands the sorted front event by event |
| MissingEvents.WalkBack | internal/store/missingevents.go:82-113 | the generations together compute the specified walk |
| MissingEvents.ReverseInPlace | internal/store/missingevents.go:115-118 | the swap loop reverses the array |
| MissingEvents.GetMissingEvents | internal/store/missingevents.go:37-122 | in terms of the arguments: every answer is missing, at most limit and 20, without duplicates, each a prev event of a start event or of one later in the answer; truncated exactly if it is as long as the smaller of limit and 20; complete exactly if nothing is left, and surely if there is room enough |
| MissingEvents.AskedIsMeant | internal/store/missingevents.go:37-60 | the walk is run on the question of the caller: what it can reach is what the caller is missing, and its limit is the smaller of limit and 20 |
| MissingEvents.CompleteIffNothingLeft | internal/store/missingevents.go:30-36 | an answer is all that is missing exactly if every prev event of a start event or of one in the answer is in the answer or with the caller |
| MissingEvents.RoomEnoughIsComplete | internal/store/missingevents.go:82-121 | the room the walk needs, stated of the arguments before the call |
| MissingEvents.AnswerIsWellFormed | internal/store/missingevents.go:37-121 | on every graph: at most min(limit, 20) events, no duplicates, none the caller has, each missing, and each a prev event of a start event or of one later in the answer |
| MissingEvents.WalkedKeeps | internal/store/missingevents.go:82-113 | the walk collects only missing events, and if it does not spend its budget every prev event of what it knows was seen or cut off by a row limit |
| MissingEvents.CutIsMissing | internal/store/missingevents.go:124-134 | a row cut off by a limit is a missing event unless the caller has it |
| MissingEvents.UntruncatedIsComplete | internal/store/missingevents.go:30-36 | an untruncated answer is exactly what is missing if and only if every row that was cut off is one the caller has or the walk found |
| MissingEvents.UnfilledIsComplete | internal/store/missingevents.go:30-36 | if in addition no query returned as many rows as its limit, the answer is exactly what is missing |
| MissingEvents.EnoughRoomIsComplete | internal/store/missingevents.go:82-121 | before the call: if no event the walk can meet has prev events that together with what is missing exceed the limit by more than one, the answer is complete |
| WalkRoom.RoomIsExact | internal/store/missingevents.go:82-121 | all graphs with so many missing events and at most so many prev events to each are answered completely if and only if the two numbers sum to at most the limit plus one |
| WalkRoom.UntruncatedMayMiss | internal/store/missingevents.go:99-106 | for every limit and all sizes beyond that bound whose missing events fit the limit there is a graph whose untruncated answer misses one |
| RateLimiter.ZeroTakesDefault | internal/ratelimit/config.go:41-78 | a setting that is not zero is kept, what each zero becomes, and that every accepted configuration runs with all five positive |
| RateLimiter.StepKeeps | internal/ratelimit/limiter.go:114-222 | every lock section and every end of a wait keeps the invariant |
| RateLimiter.RunKeeps | internal/ratelimit/limiter.go:102-222 | in every interleaving: processing counts the requests that hold a slot, at most the limit; sleeping and queued count theirs; if anybody waits all slots are taken; queue, closed channels and grant history agree |
| RateLimiter.AbandonKeeps | internal/ratelimit/limiter.go:197-222 | a cancelled waiter is in the queue or was handed a slot, never both and never neither, so the default arm is unreachable, and no slot is lost or duplicated |
| RateLimiter.PhaseTellsStory | internal/ratelimit/limiter.go:114-222 | in every run and for every request, which events there were about it and what they found says where it stands, and it goes through its sections in order |
| RateLimiter.RefusedForCause | internal/ratelimit/limiter.go:118-142 | a request is refused exactly if it arrived when more than the reject limit slept and waited, was cancelled in its sleep, or abandoned its wait |
| RateLimiter.SleeperGoesOn | internal/ratelimit/limiter.go:132-147 | after its sleep a request can enter the second lock section exactly if it was not cancelled, and is refused exactly if it was |
| RateLimiter.NoOvertaking | internal/ratelimit/limiter.go:144-155 | a request takes a free slot only when nobody waits, else it goes behind all who do |
| RateLimiter.GrantsFollowQueue | internal/ratelimit/limiter.go:180-222 | the slots handed over are a prefix of the queue's history less those who withdrew; no channel is closed twice; every waiter is queued or granted, not both |
| RateLimiter.QueueCanMove | internal/ratelimit/limiter.go:180-195 | while somebody waits, some request can release a slot or take up the one it was handed |
| RateLimiter.IdleMeansNobodyCounted | internal/ratelimit/limiter.go:258-259 | the counter part of the idle test of Cleanup holds exactly if every request is finished, refused or between the two lock sections |
| RateLimiter.AdmittedAreLetIn | internal/ratelimit/limiter.go:118-130 | in every run the recorded history is the clock readings of the arrivals that were not refused, in order |
| RateLimiter.RefusedLeaveNoTrace | internal/ratelimit/limiter.go:118-123 | where no arrival reads an earlier clock than a refused one before it, the run without its refused arrivals is a run and ends with the same counters, queue, history and window and with every other request where it was |
| RateLimiter.AdvancingIsEnough | internal/ratelimit/limiter.go:110-116 | an advancing clock is more than that takes |
| RateLimiter.WaitingBound | internal/ratelimit/limiter.go:118-156 | if never more than k stand between the lock sections when a request arrives, then sleeping, queued and those never exceed the reject limit by more than k + 1 |
| RateLimiter.WaitingAttained | internal/ratelimit/limiter.go:118-156 | under every configuration and for every k some run with an advancing clock reaches that number in the queue |
| RateLimiter.OverrunIsExact | internal/ratelimit/limiter.go:118-156 | every run with at most k between the lock sections keeps sleeping and queued within a bound if and only if the bound is the reject limit plus k + 1 or more |
| RateLimiter.WaitingIsUnbounded | internal/ratelimit/limiter.go:118-156 | under every configuration, with an advancing clock, more requests can be queued than any given number |
| RateLimiter.WindowIsExact | internal/ratelimit/limiter.go:225-234 | for every run, clock and cutoff: the pruned list holds exactly the admitted arrivals after the cutoff if none has been forgotten, and strictly fewer otherwise |
| RateLimiter.OnTimeForgetsNothing | internal/ratelimit/limiter.go:110-116 | readings in any order forget nothing of the window as long as none is later than now |
| RateLimiter.ForgettingDecides | internal/ratelimit/limiter.go:125-129 | the pruned list and the full history decide alike against every limit if and only if nothing in the window has been forgotten |
| RateLimiter.SleepsByFullHistory | internal/ratelimit/limiter.go:114-130 | an admitted request sleeps only if the full history inside the window, itself included, exceeds the sleep limit, and exactly then if nothing of it has been forgotten |
| RateLimiter.WindowNeverOvercounts | internal/ratelimit/limiter.go:225-234 | whatever the clock does, the pruned list never counts more than the history |
| RateLimiter.BackwardClockForgets | internal/ratelimit/limiter.go:110-116 | a run with readings out of lock order in which a request passes that the full history would have put to sleep |
| RateLimiter.HostLimiter.Prune | internal/ratelimit/limiter.go:225-234 | keeps exactly the times after the cutoff, in order |
| RateLimiter.HostLimiter.Admit | internal/ratelimit/limiter.go:114-130 | the first lock section makes the arrival step of the protocol and reports refusal, sleep or passage |
| RateLimiter.HostLimiter.WakeUp | internal/ratelimit/limiter.go:134-141 | the lock section after the sleep; Acquire goes on exactly if the context was not cancelled |
| RateLimiter.HostLimiter.TakeOrQueue | internal/ratelimit/limiter.go:144-156 | the second lock section takes a slot or joins the queue as the protocol says |
| RateLimiter.HostLimiter.ReleaseSlot | internal/ratelimit/limiter.go:182-195 | hands the slot to the first waiter, or returns it when nobody waits |
| RateLimiter.ReleaseFunc.constructor | internal/ratelimit/limiter.go:172-178 | what Acquire returns has not fired yet |
| RateLimiter.ReleaseFunc.Call | internal/ratelimit/limiter.go:172-178 | the first call frees the slot and every later one changes nothing |
| RateLimiter.HostLimiter.AbandonWait | internal/ratelimit/limiter.go:198-222 | withdraws the waiter from wherever it stands, or passes on the slot it was handed; the third case is proved unreachable |
| RateLimiter.HostLimiter.Withdraw | internal/ratelimit/limiter.go:201-207 | a waiter leaves the queue from wherever it stands |
| RateLimiter.HostLimiter.GiveBack | internal/ratelimit/limiter.go:208-221 | a cancelled waiter that is not in the queue was handed a slot, which goes to the next waiter or back to the pool |
| RateLimiter.HostLimiter.IdleMeansAway | internal/ratelimit/limiter.go:257-259 | an object is idle exactly if it was last used before the cutoff and every request is finished, refused or between the lock sections |
| RateLimiter.Limiter.constructor | internal/ratelimit/limiter.go:54-65 | the settings are completed and there are no objects yet |
| RateLimiter.Limiter.HostFor | internal/ratelimit/limiter.go:236-245 | the object of an origin, a fresh one exactly if there was none; no other entry changes |
| RateLimiter.Limiter.Cleanup | internal/ratelimit/limiter.go:250-267 | discards exactly the idle objects, counts them, and writes none |
| RateLimiter.CleanupCanSplit | internal/ratelimit/limiter.go:109-114 | under every accepted configuration an object can be dropped while a request stands between its lock sections, and then two objects of one origin run requests at once |
| AclGlob.GlobToRegex | internal/matrixstate/acl.go:129-163 | the nested loops end with the collapsed pattern, and with none exactly if a repeat count is too large |
| AclGlob.ScanWildcards | internal/matrixstate/acl.go:143-152 | scans one maximal wildcard run, counting its question marks and noting a star |
| AclGlob.RunMeans | internal/matrixstate/acl.go:143-158 | a run of wildcards matches as its collapsed quantifier does, in front of any rest |
| AclGlob.LiteralMeans | internal/matrixstate/acl.go:134-141 | a literal run matches itself, case folded, in front of any rest |
| AclGlob.FoldsAlike | internal/matrixstate/acl.go:123-124 | two characters are the same to a pattern exactly if they are equal or the two cases of one letter |
| AclGlob.CollapsePreserves | internal/matrixstate/acl.go:123-163 | on every name the collapsed pattern matches exactly if the glob does with wildcards that take no newline |
| AclGlob.LineIsGlob | internal/matrixstate/acl.go:123-128 | on names without a newline that is the glob language of the specification |
| AclGlob.NewlineIsTheException | internal/matrixstate/acl.go:153-158 | pattern and glob agree on a name for all globs exactly if the name has no newline |
| AclGlob.CompilesIffShort | internal/matrixstate/acl.go:153-162 | a glob compiles exactly if no stretch of wildcards in it holds more than 1000 question marks |
| AclGlob.CompileGlobs | internal/matrixstate/acl.go:62-84 | the patterns of the string entries that compile, in order; nothing for what is no list |
| AclGlob.ItemsMatch | internal/matrixstate/acl.go:62-84 | some compiled entry matches a name exactly if some string entry with short wildcard stretches matches it as such a glob |
| AclGlob.NamesByGlobs | internal/matrixstate/acl.go:62-84 | on names without a newline these are the globs of the specification |
| AclGlob.ParseServerAcl | internal/matrixstate/acl.go:40-59 | IP literals are allowed exactly unless the field is false or null; both lists are compiled |
| AclGlob.Allowed | internal/matrixstate/acl.go:90-121 | allowed exactly if the IP rule passes, no deny pattern matches and some allow pattern does |
| AclGlob.CheckServer | internal/matrixstate/acl.go:40-121 | parsing, compiling and evaluating together decide every name by the globs of the lists; no ACL event allows everybody |
| StateStream.SumForgetsOrder | internal/matrixstate/state.go:48-93 | the digest sum depends on the multiset of PDUs only |
| StateStream.SumOfCanonicals | internal/matrixstate/state.go:66-81 | bodies are summed as their canonical forms are |
| StateStream.BatchedEqualsUnbatched | internal/matrixstate/state.go:220-291 | scanning all IDs once per chunk finds the unbatched list if and only if no found ID stands in a chunk and again outside it |
| StateStream.DistinctDoesNotStraddle | internal/store/event.go:203-225 | distinct IDs never do, for any batch size |
| StateStream.RepeatedIdsStraddle | internal/matrixstate/state.go:227-231 | a held, unrejected ID listed twice and read in chunks of one is picked more often than it is listed |
| StateStream.StreamOne | internal/matrixstate/state.go:227-287 | one ID is skipped, or found and kept out by its depth, or written once with the right separator and digested; it fails exactly if its body cannot be rendered |
| StateStream.StreamChunk | internal/matrixstate/state.go:222-289 | a chunk finds and writes its held, unrejected IDs in the order of the whole list |
| StateStream.StreamEvents | internal/matrixstate/state.go:220-291 | all chunks: tokens, digest, count and found list are those of the batched list, or it fails exactly if one of those bodies cannot be rendered |
| StateStream.BodiesJoin | internal/matrixstate/state.go:227-287 | bodies are served in the order of their events |
| StateStream.OneBody | internal/matrixstate/state.go:106-136 | an event is served as its body unless its depth is an integer beyond 2^53 - 1 either way or no integer; no depth and a quoted one pass |
| Resolver.State | internal/matrixstate/state.go:158-213 | answers exactly the questions that can be answered, with a body that holds the served bodies of the state before the event and of the auth chain of what was found, their counts and digests; each held, unrejected event of the chain is found exactly once; it fails exactly if such an event of either list cannot be rendered |
| Resolver.WriteState | internal/matrixstate/state.go:170-212 | the two arrays are written, the chain computed from what was found for the first |
| Resolver.ComputeStateIDs | internal/matrixstate/stateids.go:66-92 | lists the state before the event and the auth chain of that list, each event of the chain once |
| StateStream.DistinctAreFoundOnce | internal/matrixstate/state.go:220-291 | of distinct IDs exactly the held and unrejected ones are found, each once and in the order of the list |
| StateStream.ScanArrayLoop | internal/matrixstate/state.go:482-510 | the loop visits every PDU of the array once, in order and with its index, or fails where the grammar does |
| StateStream.ScanStateResponse | internal/matrixstate/state.go:427-473 | the loop over fields computes the specified scan, unknown fields skipped |
| StateStream.DigestStateResponse | internal/matrixstate/state.go:377-398 | counts and digests of the visits of the scan, each array on its own |
| StateStream.DigestVisits | internal/matrixstate/state.go:381-389 | folding the visits sums the hashes of each array's PDUs |
| StateStream.ScanIsGenuine | internal/matrixstate/state.go:406-411 | every visit carries the canonical form of the PDU it carries |
| StateStream.RenderIsScanned | internal/matrixstate/state.go:413-473 | scanning any rendered response, fields in any order, repeated or unknown, recovers its fields |
| StateStream.DigestForgetsLayout | internal/matrixstate/state.go:48-81 | responses whose arrays hold the same multisets of canonical forms agree, however the bodies are spelt, in whatever order, whatever the order of the fields and whatever unknown fields there are |
| StateStream.AgreeIffCongruent | internal/matrixstate/state.go:475-479 | two scanned responses agree exactly if in each of the two arrays the sums of the hashes of the canonical forms are congruent modulo 2^256 |
| StateStream.CountDescribesDigest | internal/matrixstate/state.go:438-468 | the count of a section is the number of PDUs its digest covers if and only if every array of it before the last is empty, and smaller otherwise |
| StateStream.RepeatedFieldUndercounts | internal/matrixstate/state.go:445-457 | a response with the field twice, the second time empty: one PDU digested and none counted |
| StateStream.BodyRoundTrip | internal/matrixstate/state.go:158-213 | scanning a written body gives back its counts and its digests |
| StateStream.RoundTrip | internal/matrixstate/state.go:158-398 | scanning what State writes gives the very result State reports |
| Diagnosis.TallyOne | internal/shadow/diagnose.go:96-109 | adding or cancelling one hash keeps the residue the signed difference without zero entries |
| Diagnosis.TallySide | internal/shadow/diagnose.go:88-116 | after a side is read the residue of each array is the difference of what was read |
| Diagnosis.CountResidue | internal/shadow/diagnose.go:118-128 | the counts are the sizes of the two multiset differences |
| Diagnosis.CollectOne | internal/shadow/diagnose.go:150-165 | counts a hash down if it is still wanted, and names it if there is room |
| Diagnosis.CollectSide | internal/shadow/diagnose.go:136-173 | names different events of the stream whose hashes, repetitions included, lie in the residue, as many as it meets up to the cap |
| Diagnosis.CompareResidue | internal/shadow/diagnose.go:118-175 | empty exactly if both sides held the same multisets, else both arrays are diagnosed from what the second pass was handed |
| Diagnosis.DiagnoseStateMismatch | internal/shadow/diagnose.go:80-175 | both passes together: nothing exactly if the first pass broke off; else exact counts, samples drawn from the residue, emptiness exactly on agreement, and an error beside the diagnosis exactly if the second pass broke off |
| Diagnosis.SameIffCounts | internal/shadow/diagnose.go:53-56 | the four counts are zero exactly if the arrays hold the same hashes |
| Diagnosis.CountsBalance | internal/shadow/diagnose.go:37-39 | the two counts differ by as much as the arrays do in length |
| Diagnosis.RepeatedReplayNamesAll | internal/shadow/diagnose.go:136-173 | when a replay repeats itself the samples number min(cap, count), and with room for all they name exactly the residue |
| Diagnosis.DigestSumsHashes | internal/matrixstate/state.go:74-81 | the digest of a scanned array is the sum of the hashes the diagnosis tallies |
| Diagnosis.SumOfMultiset | internal/matrixstate/state.go:48-59 | equal multisets of hashes have equal sums |
| Diagnosis.DisagreementIsFound | internal/shadow/diagnose.go:129-134 | responses whose digests disagree differ in some array's hashes, so the diagnosis is not empty; no assumption on collisions |
| StateGroups.TakeNewest | internal/store/state.go:65-68 | one row per key, and none of a higher group is passed over |
| StateGroups.DistinctOnUnique | internal/store/state.go:65-68 | with one row per group and key the selection is determined |
| StateGroups.ReplayIsSelected | internal/store/state.go:49-68 | replaying the deltas from the root and filtering afterwards is a selection of the filtered rows by highest group |
| StateGroups.SelectedIsReplay | internal/store/state.go:49-68 | and the only one: whatever the query returns is the filtered replay, for either filter or none |
| StateGroups.LikeUnescaped | internal/store/state.go:261-280 | a LIKE pattern without wildcards matches exactly its unescaped text |
| StateGroups.LikeSuffix | internal/store/state.go:261-295 | `%:server` matches exactly the keys that end in the unescaped rest |
| StateGroups.FiltersAgree | internal/store/state.go:245-295 | the SQL and the in-memory membership filter agree on all keys exactly if the name has no backslash |
| StateStore.CopyState | internal/store/state.go:214-224 | the copy is a new map with the same entries |
| StateStore.FilterInMemory | internal/store/state.go:226-259 | builds a new map with exactly the entries the filter keeps |
| StateStore.StateStore.GetStateForGroup | internal/store/state.go:81-121 | the replay of the group, cached or queried; the map is one the cache may share |
| StateStore.StateStore.CachedFilteredState | internal/store/state.go:182-212 | whichever source answers, the map is that of a question asked under the key, and the right one if these all keep the same entries; a new object no cache holds |
| StateStore.StateStore.ProperIsUnconfused | internal/store/state.go:156-166 | while only comma-free lists and names without LIKE characters are asked, every answer is the right one |
| StateStore.StateStore.GetFilteredStateForGroup | internal/store/state.go:156-166 | for any type names: the entries of the types of some list asked under the same key; wherever these lists keep the same entries, exactly the entries of the group whose type is asked for; a new object |
| StateStore.StateStore.GetServerMembershipStateForGroup | internal/store/state.go:284-296 | refused exactly if the name holds `%` or `_`; else a new object with the members by one of the two filters, and without a backslash exactly the memberships whose user ID ends in a colon and the name |
| StateStore.StateStore.SetArmed | internal/store/cache.go:104-108 | arming and disarming keep the store right, and disarming empties its two caches |
| StateStore.StateStore.Purge | internal/store/cache.go:119-123 | emptying keeps the store right and its two caches armed as they were |
| StoreCaches.Caches.SetCachesArmed | internal/store/cache.go:100-109 | every one of the five caches is armed or disarmed, and disarming empties them all |
| StoreCaches.Caches.PurgeCaches | internal/store/cache.go:111-124 | all five are emptied, armed as they were |
| StoreCaches.Caches.DropEvent | internal/store/cache.go:126-135 | the event leaves the two caches keyed by events; nothing else leaves any cache |
| StateStore.AdjustAnswer | internal/store/state.go:214-219 | a caller that overwrites its answer changes no later answer, and no purge, disarming or arming in between does |
| StateStore.ProperAgree | internal/store/state.go:245-259 | on the questions the store answers, memory and SQL keep the same entries |
| StateStore.KeyTellsQuestion | internal/store/cache.go:25-34 | questions that share a key keep the same entries |
| StateBefore.ListBefore | internal/matrixstate/stateids.go:214-241 | the loop lists the map with the event's own entry taken back, each other entry once, without writing the map |
| StateBefore.StateIDsForEvent | internal/matrixstate/stateids.go:175-241 | answers exactly for an event that is held, in the room, not rejected, no outlier and has a group, and says which of these failed first; the answer lists the adjusted replay of its group; only caches are written |
| StateBefore.AdjustedIsBefore | internal/matrixstate/stateids.go:214-228 | taking back the event's entry restores the state before it exactly if replaces_state names what it superseded, or nothing where there was nothing |
| StateBefore.DeltaOfOneEvent | internal/matrixstate/stateids.go:209-241 | the same for a group whose delta is that one event: the answer is the resolved previous group |
| Redaction.GetRedactions | internal/store/redaction.go:20-50 | all redaction rows that target each event, and no others |
| Redaction.CheckOne | internal/store/redaction.go:160-175 | a deferred redaction stands exactly if it is held, not rejected, in the same room and from the same server |
| Redaction.ShouldRedact | internal/store/redaction.go:152-178 | finds a redaction that stands, and none only if none does |
| Redaction.GetBanRedactions | internal/store/redaction.go:218-249 | exactly the bans on the given room and sender pairs |
| Redaction.MarkOf | internal/store/redaction.go:114-147 | merges the two sources: a redaction that stands, else a ban that covers the event, else nothing; a create event is never marked |
| Redaction.MarkedIffRedacted | internal/store/redaction.go:52-149 | an event is marked exactly if it is no create event and some redaction of it stands or its sender is banned and it lies before the end of the ban, if there is one |
| Redaction.MarkNamesCause | internal/store/redaction.go:129-145 | the mark names a redaction that stands or, where none does, the ban |
| Redaction.DomainFollowsColon | internal/store/redaction.go:180-192 | the domain is what follows the first colon of the sender, and nothing where there is none |
| Redaction.EventStore.Lookup | internal/store/event.go:116-124 | a cache hit is the stored event, unmarked |
| Redaction.EventStore.Put | internal/store/event.go:158-161 | only an unmarked stored event enters the cache |
| Redaction.EventStore.SetArmed | internal/store/cache.go:105 | arming and disarming keep the cache free of marks, and disarming empties it |
| Redaction.EventStore.Purge | internal/store/cache.go:120 | emptying does, and keeps the cache armed as it was |
| Redaction.EventStore.DropEvent | internal/store/cache.go:126-135 | the event is gone from the cache and the rest is as right as before |
| Redaction.EventStore.GetEventsRawOpt | internal/store/event.go:106-167 | every held event of the request, unmarked; without leave to populate, no object enters the cache |
| Redaction.EventStore.ApplyRedactions | internal/store/redaction.go:58-149 | every event gets its verdict; a marked event is a new object with all other fields unchanged, and no event that existed is written |
| Redaction.EventStore.GetEvents | internal/store/event.go:79-88 | exactly the held events, each marked exactly if it is to be redacted; marked ones are new and never in the cache |

## Left out

- HTTP serving, proxying, request authentication, replication, configuration files, metrics and logging: no invariant beyond single checks.
- Query errors, transactions, planner hints, context cancellation outside the limiter, and partial output after an error: only the success paths of the database are modelled.
- `internal/matrixstate/coalesce.go`: what it guarantees lies in a library that is not part of this model.
- The room-level access gates, server name stripping and the ACL cache: sequences of single checks.
- History visibility and the filtering of missing-events responses: single-branch logic next to the walk.
- LruCache.LRU.Add: operations are atomic, so that the enabled test and the fill are one step; the size is a parameter instead of a call of the sizer, and entries are values in a map with a recency list of keys instead of list elements shared by pointer.
- AuthChain.AuthStore.GetAuthChainIDs: assumes that the cover index keeps what Synapse promises of it (the predicate `CoverIndex`); that its last promise is needed is `AuthChain.CoverageIsExact`.
- MissingEvents.PrevEvents: the database orders by bytes; a collation that orders differently from the program's own sort is not modelled.
- RateLimiter.HostLimiter.Admit: the clock is a parameter and the wait durations reported to instrumentation are left out; that a map lookup and the lock section after it are two steps is shown by `RateLimiter.CleanupCanSplit`.
- RateLimiter.ReleaseFunc.Call: that every granted slot is released is up to the callers and not assumed.
- AclGlob.CollapsePreserves: letters fold as in ASCII; the folding of other letters and invalid UTF-8 are not modelled.
- AclGlob.Allowed: whether a name parses as an IPv4 address is a parameter.
- Resolver.State: bytes are tokens, a body is opaque text whose canonical form, depth and rendering are parameters; the byte count is left out, and the digest is a number below 2^256 instead of 32 bytes. The access gates come before it and are not modelled.
- StateStream.ScanStateResponse: malformed text is a token list outside the grammar; what was visited before an error is not reported.
- Diagnosis.DiagnoseStateMismatch: a replay is what it hands to its visitor and whether it came to its end; pipes, and which side broke off, are left out. The two passes may see different replays.
- StateGroups.SelectedIsReplay: assumes what Synapse promises of state groups: at most one previous group, numbered below its successor, and one row per group and key.
- StateStore.StateStore.GetServerMembershipStateForGroup: a pattern that ends in a backslash is an error of the database and matches nothing here.
- StateBefore.StateIDsForEvent: the event, its group and replaces_state are parameters, the cache of event groups with them.
- Redaction.EventStore.GetEvents: the sender is a field of the stored event instead of decoded from its JSON; bans are keyed by the pair of room and sender, which the program joins with a NUL that no column can hold.
