# Verified model of the Clash core's state machines and codecs

This project models, in Dafny, the parts of the repository's Go core whose correctness rests on an
invariant that spans several functions, and proves those invariants. It depends on nothing but Dafny
itself: `dafny verify dfyconfig.toml` checks every file.

What is modelled, file by file:

| files | subject |
|---|---|
| `ArcSpec`, `ArcLaws`, `ArcRuns`, `ArcSizes`, `ArcRecency`, `ArcVictims`, `ArcCache` | the adaptive replacement cache: its operations on values, what each request keeps, whole runs, sizes of zero and below, recency, which entry gives way, and the heap objects that refine the values |
| `Modulus`, `BitMask`, `RingValues`, `DequeCost`, `Deques` | the ring-buffer deque, as an array that is updated in place and refines a plain sequence |
| `GroupGraph`, `DagSort`, `GroupBuild` | the in-place topological sort of proxy groups, its loop report, and the pass that builds the groups |
| `QueueOrder`, `QueueLaws`, `Levels`, `RootOrder`, `QueueRuns`, `FallbackOrder` | the orders that the queue of the sort gives: what a run is, who is retired before whom in every run, and which configurations build in every order |
| `RuleMatch`, `SubRules`, `DialerProxies`, `Dialing` | rule matching over chains of groups, the sub-rule check with matching of nested rule sets, the dialer-proxy check, and dialing through dialers and groups |
| `ProxyOrder`, `GroupProxies`, `GroupCache`, `GroupBases` | the proxies of a group: filtering and ordering, and the version-keyed cache under interleaved updates |
| `JumpHashing`, `RoundRobins` | the two deterministic load-balancing strategies |
| `TunCallbacks` | the life of the TUN callback object |
| `DotPool`, `DotClients` | the connection pool of the DNS-over-TLS client: all interleavings, and one client on the deque |
| `DnsTtl` | TTLs of cached DNS messages |
| `Common` | what the others share |
| `SocksAddr` | the SOCKS address printer and parser (section 5 of RFC 1928) |

How it is built. Code that updates objects or arrays step by step is a class or a method over an array,
proved against functions on values; the laws are lemmas about those functions. Code that several
goroutines go through at once is a state machine whose steps are the program's atomic steps, with the
invariant proved for each step and then for every run. A map that the program ranges over is ranged over
in an arbitrary order. Integers are unbounded, except where a width matters: it is then written out
(bytes in `SocksAddr`, 32 bits in `DnsTtl`, 64-bit keys in `JumpHashing`). An index out of range, a nil
dereference or an explicit panic of the program is a result (`None` or `ok == false`), not a
precondition. Times, random choices, liveness of proxies, matches of filters and rules, and what a dial
or an exchange gives are parameters.

## Where the code differs from what it says or what one expects

Each of these is proved; the condition is exact unless said otherwise.

* `Len` of the ARC cache is documented as the number of entries; it falls behind whenever a ghost is deleted
  from a ghost list to make room, or demoted a second time (`ArcRuns.CapacityAndLen`, `ArcRuns.LenUndercounts`).
* An ARC cache of size 0, which `New` gives without an option, fails on any Set; one of negative size never
  evicts (`ArcSizes.RunFailsIffZero`, `ArcSizes.NegativeKeepsAll`).
* `CopyInSlice` is documented as Clear and pushes; when the slice fills the buffer to the brim it leaves
  `tail` one past the last slot, and a rotation is then out of range or loses elements. `shrinkToFit`, which
  the popping iterators call, does the same when the elements fill the smaller buffer, and does not end on a
  nonempty deque with a base capacity of zero (`Deques.Deque.CopyInSlice`, `Deques.Deque.Rotate`,
  `Deques.Deque.ShrinkToFit`, `BitMask.DoublingReaches`; inputs in `Deques.BrimfulByCopy`,
  `Deques.LostByCopy`, `Deques.BrimfulByShrink`, `Deques.EndlessShrink`).
* The sort of the groups does not look at `empty-fallback`, so whether a group that is the fallback of
  another is found can depend on the order of a map (`GroupBuild.FallbackDependsOnOrder`). It is found in
  every order exactly when the longest walk of references that ends in it is longer than the longest one that
  ends in the group that falls back on it, or as long and the lists put it later whichever group the map puts last
  (`QueueRuns.EveryRunAfterIff`, `FallbackOrder.FallbackFound`, `FallbackOrder.EveryOrderBuilds`). To be reached
  by references is enough (`FallbackOrder.ReachedIsFound`) but not needed
  (`FallbackOrder.FoundWithoutReaching`).
* The check of dialer references does not follow what a group chooses, although a dialer may be a group: a
  dial through an accepted table can go round for ever (`Dialing.AcceptedYetEndless`). Dialing always ends
  exactly when references and choices together form no circle (`Dialing.DialingEndsIff`).
* A group without providers would answer its first call with an empty list
  (`GroupCache.FirstCallHitsIffNoProvider`). The parser refuses such groups and gives the GLOBAL selector a
  provider, so the program does not make one.
* A cached TTL can rise from 0 to 1, and a very long TTL in a cached server failure can wrap
  (`DnsTtl.RaisedIff`, `DnsTtl.SectionStays`, `DnsTtl.WrapShrinks`). Answers that are not server
  failures need no bound on their TTLs (`DnsTtl.HitBeforeExpiry`).
* A 253-octet name loses the low octet of its port, longer ones lose more or fail
  (`SocksAddr.RoundTrip`, `SocksAddr.SerializedParses`).

## Model

| member | source | states |
|---|---|---|
| ArcLaws.ReqKeeps | core/src/foss/golang/clash/common/arc/arc.go:147-227 | any request, known, ghost or new: it never takes the back of an empty list, keeps the four lists disjoint and within 0 <= p <= c, t1+b1 <= c, t1+t2 <= c, total <= 2c, "no ghosts unless t1+t2 is full"; it puts the key first in t2 (known) or t1 (new), changes no surviving live entry, and moves the gap between live entries and `len` by exactly the ghosts counted twice |
| ArcLaws.DelLRUKeeps | core/src/foss/golang/clash/common/arc/arc.go:206-211 | dropping the oldest of a nonempty list keeps lists disjoint and map and lists in agreement, leaves the requested key where it is, changes no surviving live entry, and moves `len` away from the live count by one exactly when the entry dropped was a ghost |
| ArcLaws.ReplaceKeeps | core/src/foss/golang/clash/common/arc/arc.go:213-227 | a demotion moves one entry from t1 to b1 or from t2 to b2 (ReplaceVictim says which), keeps all keys in the map, changes no surviving live entry and not the requested one, and keeps lists and map in agreement |
| ArcLaws.AdaptByRatio | core/src/foss/golang/clash/common/arc/arc.go:152-178 | after a ghost hit the target moves by the ratio of the two ghost lists, at least by one, up for b1 and down for b2, and stays between 0 and c |
| ArcRuns.SetKeeps | core/src/foss/golang/clash/common/arc/arc.go:80-98 | a Set always succeeds, stores exactly the given value and expiry as a live entry, at the front of t1 or t2, and alters no other live entry |
| ArcRuns.GetKeeps | core/src/foss/golang/clash/common/arc/arc.go:113-136 | a Get answers for exactly the live keys, with their value and expiry, moves a known key (ghosts too) to t2 and changes nothing for an unknown one |
| ArcRuns.EveryRun | core/src/foss/golang/clash/common/arc/arc.go:45-227 | after any sequence of Set, Get and Clear on a cache of size c >= 1 the invariant holds, each live entry is the last Set of its key since Clear, and `len` is the live count less the double-counted departures |
| ArcRuns.HitIsLastSet | core/src/foss/golang/clash/common/arc/arc.go:126-136 | after any run a hit returns the value and expiry of the last Set of that key since Clear |
| ArcRuns.SetThenGet | core/src/foss/golang/clash/common/arc/arc.go:80-136 | a Get right after a Set of the same key hits, whatever came before |
| ArcRuns.CapacityAndLen | core/src/foss/golang/clash/common/arc/arc.go:138-145 | len <= live entries <= t1+t2 <= c in every reachable state; `len` is the live count exactly when no ghost departure was counted |
| ArcRuns.LenUndercounts | core/src/foss/golang/clash/common/arc/arc.go:138-227 | a sequence of operations on a cache of one entry after which one entry is live and Len reports 0 |
| ArcSizes.SetFits | core/src/foss/golang/clash/common/arc/arc.go:80-98 | in a cache of any size a Set fails, on the back of an empty list, exactly if the size is zero; else it stores the entry and keeps what holds of caches of that size |
| ArcSizes.GetFits | core/src/foss/golang/clash/common/arc/arc.go:113-136 | in a cache of any size a Get never fails |
| ArcSizes.RunFailsIffZero | core/src/foss/golang/clash/common/arc/arc.go:45-227 | a run on a cache of any size fails exactly when the size is zero and it has a Set |
| ArcSizes.NegativeKeepsAll | core/src/foss/golang/clash/common/arc/arc.go:200-203 | with a negative size, after any run exactly the keys set since the last Clear are live, with their last value and expiry, and len is their number |
| ArcRecency.RequestOrder | core/src/foss/golang/clash/common/arc/arc.go:147-227 | a request moves the key to the front of its order and keeps both orders, t1 then b1 and t2 then b2, but for dropping the last of one of them when the directory is full |
| ArcRecency.EveryRunIsByRecency | core/src/foss/golang/clash/common/arc/arc.go:80-227 | in every run both orders are by last use, newest first, so a demotion or a drop takes the least recently used of its list |
| ArcVictims.ReplaceVictim | core/src/foss/golang/clash/common/arc/arc.go:213-227 | with t1 above the target the oldest of t1 becomes the newest ghost of b1, with t1 empty or below it the oldest of t2 that of b2; at the target t1 gives it exactly if the key is a ghost of b2; the entry is wiped, the rest stays, and with no entry to give the step fails |
| ArcVictims.GhostLists | core/src/foss/golang/clash/common/arc/arc.go:152-181 | the four lists, the target, the count and the map after a request for a ghost: the target moves by the ratio, then the demotion under it, then the key is first in t2 |
| ArcVictims.NewLists | core/src/foss/golang/clash/common/arc/arc.go:182-204 | the same after a request for a new key: nothing goes while t1 and t2 do not fill the cache; else the oldest of t1 is dropped when t1 alone fills it, or a ghost goes if the directory has no room and the oldest of t1 or t2 is demoted; the key is first in t1 |
| ArcVictims.HitLists | core/src/foss/golang/clash/common/arc/arc.go:147-151 | a request for a key of t1 or t2 only moves it to the front of t2 |
| ArcVictims.SetEvicts | core/src/foss/golang/clash/common/arc/arc.go:80-98 | the keys that are live after a Set: those before, with its key, without the one named by the sizes and the target, which there is exactly for a ghost and for a new key in a full cache |
| ArcVictims.GetEvicts | core/src/foss/golang/clash/common/arc/arc.go:113-136 | a Get of a ghost evicts one entry in the same way, any other Get none |
| ArcCache.ARC.constructor | core/src/foss/golang/clash/common/arc/arc.go:35-56 | an empty valid cache, of any size |
| ArcCache.ARC.Clear | core/src/foss/golang/clash/common/arc/arc.go:45-56 | the cache becomes the empty cache of the same size |
| ArcCache.ARC.SetMRU | core/src/foss/golang/clash/common/arc/entry.go:22-32 | the entry leaves the list its `ll` names and becomes the front of the given one; every entry stays in exactly the list its `ll` names |
| ArcCache.ARC.DelLRU | core/src/foss/golang/clash/common/arc/arc.go:206-211 | the heap operation refines DelLRU on values |
| ArcCache.ARC.Demote | core/src/foss/golang/clash/common/arc/arc.go:213-227 | the heap operation refines Demote on values: value wiped, ghost, `len` less one, moved |
| ArcCache.ARC.Replace | core/src/foss/golang/clash/common/arc/arc.go:213-227 | the branch on t1, p and b2, read through the `ll` of the entry, refines Replace on values |
| ArcCache.ARC.ReqKnown | core/src/foss/golang/clash/common/arc/arc.go:147-181 | requests for an entry of the map refine Req on values |
| ArcCache.ARC.ReqNew | core/src/foss/golang/clash/common/arc/arc.go:182-204 | requests for an entry that is not in the map yet refine Req on values, and fail when they would take the back of an empty list |
| ArcCache.ARC.SetWithExpire | core/src/foss/golang/clash/common/arc/arc.go:80-98 | the program operation equals Set on values, for a cache of any size, fails exactly for size zero, and keeps the entry/list/map agreement |
| ArcCache.ARC.GetWithExpire | core/src/foss/golang/clash/common/arc/arc.go:113-136 | the program operation equals Get on values, result and new state |
| ArcCache.ARC.Len | core/src/foss/golang/clash/common/arc/arc.go:138-145 | returns the counter, which CapacityAndLen relates to the live count |
| BitMask.AndIsMod | core/src/foss/golang/clash/common/deque/deque.go:610-618 | the bitwise mask with a power of two less one is the remainder, also for negative operands |
| BitMask.DoublingReaches | core/src/foss/golang/clash/common/deque/deque.go:642-655 | the doubling loop reaches a positive target exactly when it starts above zero, so shrinkToFit with base capacity 0 never ends on a nonempty deque |
| Deques.Deque.constructor | core/src/foss/golang/clash/common/deque/deque.go:37-43 | a zero deque is empty, with no buffer |
| Deques.Deque.ResizeTo | core/src/foss/golang/clash/common/deque/deque.go:659-674 | the two copies put the elements in order at the start of the new buffer, zero values after them |
| Deques.Deque.GrowIfFull | core/src/foss/golang/clash/common/deque/deque.go:620-633 | the contents stay and a slot is free; the capacity becomes the base capacity or doubles |
| Deques.Deque.ShrinkIfExcess | core/src/foss/golang/clash/common/deque/deque.go:635-640 | the contents stay; the capacity halves exactly at a quarter full above the base capacity |
| Deques.Deque.PushBack | core/src/foss/golang/clash/common/deque/deque.go:65-73 | contents followed by the element, across wrap-around and growth |
| Deques.Deque.PushFront | core/src/foss/golang/clash/common/deque/deque.go:75-85 | the element followed by the contents |
| Deques.Deque.PopFront | core/src/foss/golang/clash/common/deque/deque.go:87-104 | removes and returns the first element, clears its slot, halves the buffer at a quarter; fails exactly on an empty deque |
| Deques.Deque.PopBack | core/src/foss/golang/clash/common/deque/deque.go:128-144 | the same for the last element |
| Deques.Deque.Front | core/src/foss/golang/clash/common/deque/deque.go:172-177 | the first element, or failure exactly when empty |
| Deques.Deque.Back | core/src/foss/golang/clash/common/deque/deque.go:181-186 | the last element, or failure exactly when empty |
| Deques.Deque.At | core/src/foss/golang/clash/common/deque/deque.go:200-203 | the i-th element, or failure exactly when i is out of range |
| Deques.Deque.Set | core/src/foss/golang/clash/common/deque/deque.go:209-212 | replaces the i-th element only, or fails exactly when i is out of range |
| Deques.Deque.Swap | core/src/foss/golang/clash/common/deque/deque.go:592-602 | exchanges two elements and nothing else |
| Deques.Deque.Insert | core/src/foss/golang/clash/common/deque/deque.go:522-551 | inserts before the clamped index, from whichever end is nearer |
| Deques.Deque.Remove | core/src/foss/golang/clash/common/deque/deque.go:560-578 | removes and returns the element at the index, from whichever end is nearer |
| Deques.Deque.Rotate | core/src/foss/golang/clash/common/deque/deque.go:438-481 | on a valid deque, for any n, negative too, the contents turned by n modulo the length, capacity and count as before; on a brimful one a forward rotation is out of range and a backward one by k loses the last k elements |
| Deques.RotatedByRem | core/src/foss/golang/clash/common/deque/deque.go:438-446 | turning by n is turning by the remainder of n, which has the sign of n in the program |
| Deques.RotatedAt | core/src/foss/golang/clash/common/deque/deque.go:438-481 | place by place: the element at i is the one that was n places further on, around the end, for any n |
| Deques.Deque.Clear | core/src/foss/golang/clash/common/deque/deque.go:260-282 | empty, the same capacity, every slot zero |
| Deques.Deque.Grow | core/src/foss/golang/clash/common/deque/deque.go:287-313 | room for n more elements, contents unchanged; fails exactly for negative n |
| Deques.Deque.SetBaseCap | core/src/foss/golang/clash/common/deque/deque.go:582-588 | the base capacity becomes the least doubling of the minimum that is not below the request |
| Deques.Deque.Index | core/src/foss/golang/clash/common/deque/deque.go:486-497 | the first index whose element satisfies the test, or -1 when none does |
| Deques.Deque.CopyInSlice | core/src/foss/golang/clash/common/deque/deque.go:375-394 | the capacity after the call, as a function of the one before and the length of the slice; the buffer starts with the slice; the deque is valid and holds it exactly unless the slice fills the buffer to the brim |
| Deques.Deque.ShrinkToFit | core/src/foss/golang/clash/common/deque/deque.go:642-657 | ends exactly unless the base capacity is zero and elements are left in a quarter of the buffer; then contents unchanged and the deque valid exactly unless the elements fill the new buffer |
| Deques.Deque.IterPopFront | core/src/foss/golang/clash/common/deque/deque.go:106-123 | takes the elements from the front up to the first at which the caller stops, then shrinks once: what is taken, what is left, when it ends and when the deque is valid |
| Deques.Deque.IterPopBack | core/src/foss/golang/clash/common/deque/deque.go:150-166 | the same from the back |
| Deques.EndlessShrink | core/src/foss/golang/clash/common/deque/deque.go:106-123 | Grow on a fresh deque, two pushes and one element taken by the iterator: its resize does not end |
| Deques.BrimfulByCopy | core/src/foss/golang/clash/common/deque/deque.go:375-394 | eight elements copied into a fresh deque: a rotation by one is out of range |
| Deques.LostByCopy | core/src/foss/golang/clash/common/deque/deque.go:375-394 | the same, a rotation by minus one: the last element is gone and the count still eight |
| Deques.BrimfulByShrink | core/src/foss/golang/clash/common/deque/deque.go:642-657 | seventeen pushes and an iteration that leaves eight elements: the buffer is full to the brim |
| DequeCost.RunCost | core/src/foss/golang/clash/common/deque/deque.go:621-674 | over any n pushes and pops on a fresh deque all resizes together copy at most 2n elements |
| DequeCost.BufferFits | core/src/foss/golang/clash/common/deque/deque.go:620-640 | in any run a buffer above the base capacity is always shorter than four times its contents, and never shorter than they are |
| DagSort.ProxyGroupsDagSort | core/src/foss/golang/clash/config/utils.go:18-145 | for any configuration and any map order it ends; no error exactly when the entries decode, names are distinct and the reference graph has no cycle, and then the array is a permutation in which every referenced group comes strictly before the group that names it, in an order that some run of the queue gives; a loop error reports exactly the groups of LoopReport; any other error is that of the first bad entry, with the array untouched |
| DagSort.AnswerDecides | core/src/foss/golang/clash/config/utils.go:93-145 | the three kinds of answer are decided by the configuration alone |
| DagSort.LoopReportIsUnique | core/src/foss/golang/clash/config/utils.go:98-144 | two reports for one configuration name the same groups: each node of each cycle, only groups, each with a reported predecessor and a reported successor, and all such |
| DagSort.BuildGraph | core/src/foss/golang/clash/config/utils.go:34-59 | step 1.1 gives one node per name with exact indegrees, or the error of the first entry that does not decode or repeats a name |
| DagSort.SortLoop | core/src/foss/golang/clash/config/utils.go:70-91 | each retired group is written once from the back, references first, and no retired node is looked up again; the queue is, at every round, what the specification of a run says: the start and then, batch by batch, what each retired node freed |
| DagSort.TopoSort | core/src/foss/golang/clash/config/utils.go:60-91 | what is left has predecessors throughout; if nothing is left the array is the sorted permutation |
| DagSort.FillFrom | core/src/foss/golang/clash/config/utils.go:99-117 | step 2.1 records for each node who names it, as often as named, and its outdegree |
| DagSort.Trim | core/src/foss/golang/clash/config/utils.go:118-137 | step 2.2 never looks up a deleted node and leaves exactly a set in which every node has a successor |
| DagSort.LocateLoops | core/src/foss/golang/clash/config/utils.go:98-144 | step 2 as a whole reports the loops |
| GroupGraph.PredClosedHasCycle | core/src/foss/golang/clash/config/utils.go:93-98 | a nonempty set of nodes with a predecessor each holds a cycle, so a nonempty rest means a loop |
| GroupGraph.ReportFromSets | core/src/foss/golang/clash/config/utils.go:98-144 | trimming nodes without predecessors and then nodes without successors leaves the groups of the loops |
| GroupBuild.GetProxies | core/src/foss/golang/clash/adapter/outboundgroup/parser.go:205-215 | every name is known, or the first that is not is reported |
| GroupBuild.BuildGroups | core/src/foss/golang/clash/config/config.go:938-951 | all groups are built and known exactly when each finds what it looks up, has a new name and no other flaw; else the first that does not is reported, with its first failure in the order of the checks |
| GroupBuild.BuildGroup | core/src/foss/golang/clash/adapter/outboundgroup/parser.go:48-203 | one group: fallback, then the proxies it names, then its own name, with the other reasons to fail before, between and after |
| GroupBuild.ReferredGroupIsKnown | core/src/foss/golang/clash/config/config.go:938-951 | after the sort a group reference is never missed by the single building pass |
| GroupBuild.OnlyStrangersAreMissing | core/src/foss/golang/clash/adapter/outboundgroup/parser.go:205-215 | after the sort a reference fails exactly when it names neither a proxy nor a group |
| QueueLaws.Releaser | core/src/foss/golang/clash/config/utils.go:70-91 | a node that was not in the queue at the start is freed by the last of those that name it, and retired after it |
| QueueLaws.LaterBatch | core/src/foss/golang/clash/config/utils.go:70-91 | what a node frees is retired before what a later node frees |
| QueueLaws.SameBatch | core/src/foss/golang/clash/config/utils.go:82-88 | what one node frees is retired in the order in which its list names it for the last time |
| Levels.LevelIsLongestWalk | core/src/foss/golang/clash/config/utils.go:60-91 | without cycles the level of a node is the number of references of the longest walk that ends in it |
| RootOrder.EveryNodeRetires | core/src/foss/golang/clash/config/utils.go:70-96 | without cycles every node is retired before the queue is empty |
| RootOrder.LowerFirst | core/src/foss/golang/clash/config/utils.go:62-91 | the queue retires the nodes level by level, whatever order the map gives its start |
| RootOrder.ByLastRoot | core/src/foss/golang/clash/config/utils.go:62-91 | on one level, nodes are retired in the order of their last roots: the last groups of the start from which a longest walk comes to them |
| RootOrder.LaterIfAfter | core/src/foss/golang/clash/config/utils.go:62-91 | on one level and with one last root, the node retired later is the one that the lists of the groups put later |
| QueueRuns.SomeRun | core/src/foss/golang/clash/config/utils.go:62-91 | the queue has a run for every order of its start |
| QueueRuns.EveryRunAfterIff | core/src/foss/golang/clash/config/utils.go:62-91 | one node is retired after another in every run exactly when it is on a higher level, or on the same and put later by the lists whichever root comes last in the start |
| FallbackOrder.AnswerOfRun | core/src/foss/golang/clash/config/utils.go:62-96 | every run of the queue on a configuration without cycles gives an answer of the sort: a permutation of the entries, references first, that mirrors the run |
| FallbackOrder.WrittenByLevel | core/src/foss/golang/clash/config/utils.go:70-91 | the sort writes the groups by level, the highest first |
| FallbackOrder.FallbackFound | core/src/foss/golang/clash/adapter/outboundgroup/parser.go:74-80 | a group that is the fallback of another is found in every order that the sort may give exactly when every run retires it later, and in none exactly when every run retires it earlier or it is the group itself |
| FallbackOrder.LevelDecides | core/src/foss/golang/clash/adapter/outboundgroup/parser.go:74-80 | a fallback on a higher level is found in every order, one on a lower level in none, and of two groups that nobody names each finds the other in some orders and not in others |
| FallbackOrder.ReachedIsFound | core/src/foss/golang/clash/adapter/outboundgroup/parser.go:74-80 | a fallback that its group reaches by references is found in every order |
| FallbackOrder.FoundWithoutReaching | core/src/foss/golang/clash/adapter/outboundgroup/parser.go:74-80 | three groups that build in every order although one does not reach its fallback |
| FallbackOrder.EveryOrderBuilds | core/src/foss/golang/clash/config/config.go:914-951 | a configuration that the sort accepts builds in every order the sort may give exactly when every reference is a proxy or a group, no group is called like a proxy, and every fallback is a proxy or a group that every run retires after the group that falls back on it |
| GroupBuild.FallbackDependsOnOrder | core/src/foss/golang/clash/adapter/outboundgroup/parser.go:74-80 | two groups, one the empty-fallback of the other, for which both orders are sorted and only one builds |
| RuleMatch.UnwrapDescends | core/src/foss/golang/clash/tunnel/tunnel.go:665-670 | what a group unwraps to comes earlier in the order of the sort, so every Unwrap loop ends |
| RuleMatch.BuiltDescends | core/src/foss/golang/clash/config/config.go:914-973 | a sorted and built configuration gives such an order, with the GLOBAL selector last when one is added, which may choose all that was built; a group may also include all proxies |
| RuleMatch.Passed | core/src/foss/golang/clash/tunnel/tunnel.go:663-670 | the loop ends and is true exactly when some way that follows the choice of each group, from the adapter on, leads to one of the given type |
| RuleMatch.CheckPassRule | core/src/foss/golang/clash/tunnel/tunnel.go:377-388 | true exactly when the named adapter exists and such a way leads from it to a PassRule |
| RuleMatch.Match | core/src/foss/golang/clash/tunnel/tunnel.go:652-696 | among the rules of the connection, special or default, exactly the first that matches, whose adapter is found by name, from which no way along the choices of the groups leads to a Pass, and which supports UDP if needed; else DIRECT and no rule |
| SubRules.VerifySubRule | core/src/foss/golang/clash/config/config.go:1041-1049 | for any map order: no error exactly when every sub-rule reference resolves and none comes back |
| SubRules.VerifyCircularReferences | core/src/foss/golang/clash/config/config.go:1051-1078 | the recursion ends; without an error no path from here leaves the table or repeats a name; an error names a real missing reference or a real circular path |
| SubRules.JustifiedRejects | core/src/foss/golang/clash/config/config.go:1064-1070 | a table with such an error is not acceptable |
| SubRules.PathIsShort | core/src/foss/golang/clash/config/config.go:1051-1078 | in an accepted table no chain of references names a rule set twice, so it is no longer than the table |
| SubRules.MatchSubRules | core/src/foss/golang/clash/rules/logic/logic.go:179-223 | matching nested rule sets ends and gives the adapter of the first rule, in the order of the rules and of those of the rule sets they name, whose conditions all hold on the way and whose adapter does not pass; equally, the first of the inlined rule set |
| SubRules.FirstIsFirstHit | core/src/foss/golang/clash/rules/logic/logic.go:179-223 | the first rule of the inlined rule set that applies is, of all ways through nested rules that hold and do not pass, the one that comes first rule by rule |
| SubRules.MatchRule | core/src/foss/golang/clash/rules/logic/logic.go:194-200 | a sub-rule matches its own rule set when its condition holds |
| SubRules.FirstOfGuarded | core/src/foss/golang/clash/rules/logic/logic.go:179-200 | inlining under a condition: the guarded rules match like the inner ones if the condition holds, else not at all |
| SubRules.AcceptedIsClear | core/src/foss/golang/clash/config/config.go:1041-1049 | every rule set of an accepted table can be matched |
| DialerProxies.ValidateDialerProxies | core/src/foss/golang/clash/config/utils.go:148-176 | for any map order: no error exactly when every named dialer exists and no chain of dialers comes back; the error is a real one, missing before circular |
| DialerProxies.HasCycle | core/src/foss/golang/clash/config/utils.go:179-203 | the search ends and is true exactly when the chain from its start comes back; the visited test never decides |
| DialerProxies.RevisitIsSelfDialing | core/src/foss/golang/clash/config/utils.go:179-203 | some chain comes back exactly when some proxy dials through itself |
| DialerProxies.AcceptedChainEnds | core/src/foss/golang/clash/config/utils.go:148-203 | in an accepted table the chain of dialer references from a proxy ends within the number of references, at one that names no dialer |
| Dialing.DialingEndsIff | core/src/foss/golang/clash/component/proxydialer/byname.go:24-36 | every dial ends, whatever the groups choose at each step, exactly when dialer references and choices of groups together form no circle; then in fewer steps than there are adapters |
| Dialing.AcceptedYetEndless | core/src/foss/golang/clash/config/utils.go:148-203 | a proxy that dials through a group that lists it: the check accepts and the dial never ends |
| Dialing.AcceptedDialingEnds | core/src/foss/golang/clash/config/utils.go:148-203 | when no proxy names a group as its dialer, the check and the sort of the groups together leave no circle |
| Dialing.LongDialCircles | core/src/foss/golang/clash/component/proxydialer/byname.go:24-36 | a dial of as many steps as there are adapters has gone in a circle |
| ProxyOrder.StableSortIsStable | core/src/foss/golang/clash/adapter/outboundgroup/groupbase.go:169-194 | the sort by first matching filter is ascending and keeps, per filter, the order of the input |
| ProxyOrder.StableSortAt | core/src/foss/golang/clash/adapter/outboundgroup/groupbase.go:169-194 | place by place: every entry once, by first matching filter and then by its place in the input |
| ProxyOrder.DedupAt | core/src/foss/golang/clash/adapter/outboundgroup/groupbase.go:154-164 | removing repeated names keeps exactly the entries whose name does not come earlier, in order |
| GroupProxies.AddMatching | core/src/foss/golang/clash/adapter/outboundgroup/groupbase.go:154-164 | the inner loop adds, in order, the matching proxies whose name is new |
| GroupProxies.AddUnmatched | core/src/foss/golang/clash/adapter/outboundgroup/groupbase.go:186-192 | the last loop adds, in order, the unmatched proxies whose name is new |
| GroupProxies.FilterPass | core/src/foss/golang/clash/adapter/outboundgroup/groupbase.go:152-164 | one pass over the filters: per filter in order, without repeated names |
| GroupProxies.Exclude | core/src/foss/golang/clash/adapter/outboundgroup/groupbase.go:196-224 | the two exclusion loops, by name and then by type, keep what neither excludes |
| GroupProxies.KeepIsOrdered | core/src/foss/golang/clash/adapter/outboundgroup/groupbase.go:196-224 | exclusion drops exactly the excluded proxies and keeps the others in order |
| GroupProxies.MatchedAt | core/src/foss/golang/clash/adapter/outboundgroup/groupbase.go:154-164 | what matches are exactly the entries whose name some filter accepts, in order |
| GroupProxies.FreshUnfiltered | core/src/foss/golang/clash/adapter/outboundgroup/groupbase.go:140-146 | without filters: the lists of the providers as they are, each at the sum of the lengths before it, and then exclusion |
| GroupProxies.FreshInTurn | core/src/foss/golang/clash/adapter/outboundgroup/groupbase.go:140-168 | with one provider or at most one filter: per provider, one after the other, its list as it is when it is compatible or there is no filter, else the stable sort of its matching proxies without repeated names; then exclusion |
| GroupProxies.WantedParts | core/src/foss/golang/clash/adapter/outboundgroup/groupbase.go:140-168 | what a group with filters wants: all of each compatible provider and what matches of the others, one after the other |
| GroupProxies.Compute | core/src/foss/golang/clash/adapter/outboundgroup/groupbase.go:140-224 | the whole computation gives the fresh list of the contents, if no provider changed between its reads |
| GroupProxies.OneProviderIsSorted | core/src/foss/golang/clash/adapter/outboundgroup/groupbase.go:152-165 | the filter pass over one provider is a stable sort of its matching proxies without repeated names |
| GroupProxies.TwoPassesAreOneSort | core/src/foss/golang/clash/adapter/outboundgroup/groupbase.go:140-224 | with several providers and filters: the per-provider pass and the reordering equal one stable sort of the wanted proxies without repeated names, then exclusion |
| GroupCache.StepKeepsInv | core/src/foss/golang/clash/adapter/outboundgroup/groupbase.go:122-235 | every atomic step of callers and of provider updates keeps coherence |
| GroupCache.EveryRunIsCoherent | core/src/foss/golang/clash/adapter/outboundgroup/groupbase.go:122-235 | in every interleaving, whenever the recorded versions are the current ones the cached list is the fresh list |
| GroupCache.CallIsFresh | core/src/foss/golang/clash/adapter/outboundgroup/groupbase.go:122-235 | a call during which no version changed returns the fresh list, or the fallback; no call returns an empty list |
| GroupCache.FirstCallHitsIffNoProvider | core/src/foss/golang/clash/adapter/outboundgroup/groupbase.go:135-138 | the very first call takes the cache branch exactly when the group has no provider, and then returns an empty list |
| GroupCache.ComputeFrom | core/src/foss/golang/clash/adapter/outboundgroup/groupbase.go:140-224 | what the loops compute from the lists read is what the step of the state machine may store |
| GroupBases.Provider.SetProxies | core/src/foss/golang/clash/adapter/provider/provider.go:103-112 | replaces the list and counts the version |
| GroupBases.GroupBase.GetProxies | core/src/foss/golang/clash/adapter/outboundgroup/groupbase.go:122-235 | one caller: always the fresh list of the current contents, or the fallback when that is empty; it is computed exactly when the versions differ from those stored, and stored unless it is empty |
| GroupBases.GroupBase.UpdateProvider | core/src/foss/golang/clash/adapter/provider/provider.go:103-112 | a provider update keeps the group valid |
| JumpHashing.JumpHash | core/src/foss/golang/clash/adapter/outboundgroup/loadbalance.go:74-84 | for any jump that goes forward the loop ends, in [0, buckets) when there are buckets: at the last bucket to which the key, multiplied on and on, jumps from bucket 0 before a jump leaves them |
| JumpHashing.BucketsAreConsistent | core/src/foss/golang/clash/adapter/outboundgroup/loadbalance.go:74-84 | when buckets are added a key stays or moves to an added bucket; with one more, to the new one |
| JumpHashing.NewBucketTakes | core/src/foss/golang/clash/adapter/outboundgroup/loadbalance.go:74-84 | one more bucket takes exactly the keys that jump to it |
| JumpHashing.QuotientIsForward | core/src/foss/golang/clash/adapter/outboundgroup/loadbalance.go:80-80 | the exact quotient is such a jump and fits an int64 |
| JumpHashing.QuotientIs | core/src/foss/golang/clash/adapter/outboundgroup/loadbalance.go:80-80 | the quotient is (b + 1) * 2^31 by the top 31 bits of the key plus one, rounded down |
| JumpHashing.ExactFloatJump | core/src/foss/golang/clash/adapter/outboundgroup/loadbalance.go:80-80 | but for rounding the expression of the program is the exact quotient |
| JumpHashing.FloatJumpIsForward | core/src/foss/golang/clash/adapter/outboundgroup/loadbalance.go:80-80 | so is the rounded expression of the program, for any monotone rounding that is exact on small integers and on 2^62 |
| JumpHashing.ConsistentHashing | core/src/foss/golang/clash/adapter/outboundgroup/loadbalance.go:161-183 | the first alive proxy among the five tries, else the first alive of the list, else the first; always in range |
| RoundRobins.RoundRobin.Choose | core/src/foss/golang/clash/adapter/outboundgroup/loadbalance.go:135-158 | one call: the choice and the next index; an untouched call changes nothing |
| RoundRobins.PickIsNextAlive | core/src/foss/golang/clash/adapter/outboundgroup/loadbalance.go:142-157 | with a live proxy a touched call chooses the first live one at or after the index, around the end, and moves the index behind it |
| RoundRobins.NextChoiceFollows | core/src/foss/golang/clash/adapter/outboundgroup/loadbalance.go:132-159 | the next touched call chooses the first live proxy after the last choice |
| RoundRobins.EachOnce | core/src/foss/golang/clash/adapter/outboundgroup/loadbalance.go:132-159 | as many touched calls as there are alive proxies choose each alive proxy exactly once, from any index |
| RoundRobins.PicksGoAround | core/src/foss/golang/clash/adapter/outboundgroup/loadbalance.go:132-159 | they choose them in the order of one round |
| RoundRobins.NoneAlive | core/src/foss/golang/clash/adapter/outboundgroup/loadbalance.go:142-157 | with none alive the first proxy is returned and the index is only reduced |
| TunCallbacks.StepKeepsInv | core/src/main/golang/native/tun.go:29-109 | each atomic step of callbacks, startTun, stopTun and close keeps the count of permits, the phase of each device, and "in use only while not closed" |
| TunCallbacks.ReleasedOnce | core/src/main/golang/native/tun.go:51-64 | each callback object is released at most once, and is unreleased only if its device is installed or being started or closed |
| TunCallbacks.CallbackLifetime | core/src/main/golang/native/tun.go:29-109 | no callback object is used during or after its release or released twice; at most one device is unreleased; when no start or stop is under way all but the installed one are released exactly once |
| TunCallbacks.CallEnds | core/src/main/golang/native/tun.go:66-109 | in every interleaving, a startTun creates one device and leaves it installed if its start succeeded and nothing otherwise; a stopTun creates none and leaves nothing installed |
| TunCallbacks.LookLetsThrough | core/src/main/golang/native/tun.go:29-49 | a callback with a permit is let through exactly while its device is installed or being started or a close of it still waits |
| TunCallbacks.HoldersFinish | core/src/main/golang/native/tun.go:29-54 | while a close waits, whatever the callbacks that hold permits do, they take at most three steps to a permit, and when none of them can go on the close has its four permits |
| TunCallbacks.CloseGetsPermits | core/src/main/golang/native/tun.go:51-54 | from every reachable state in which a close waits, steps of the current holders alone let it acquire its permits |
| TunCallbacks.CloseGoesThrough | core/src/main/golang/native/tun.go:51-64 | a close that can acquire its permits goes through, and its callback object has then been released exactly once |
| DotPool.StepKeepsInv | core/src/foss/golang/clash/dns/dot.go:48-109 | each step of exchanges and resets keeps every dialed connection in exactly one place |
| DotPool.NoConnectionIsLost | core/src/foss/golang/clash/dns/dot.go:48-109 | in every interleaving each dialed connection is pooled once, or held by one exchange, or closed, and the pool has at most 8 |
| DotPool.AllClosedAtTheEnd | core/src/foss/golang/clash/dns/dot.go:145-154 | when all exchanges are done and the pool is reset every connection is closed |
| DotPool.OnlyFailedAreClosed | core/src/foss/golang/clash/dns/dot.go:48-109 | with reuse, while at most 8 connections have been dialed and there is no reset, only connections on which an exchange failed are closed |
| DotPool.NewestIsReused | core/src/foss/golang/clash/dns/dot.go:61-103 | the connection given back last is the one taken next |
| DotClients.DotClient.constructor | core/src/foss/golang/clash/dns/dot.go:28-30 | no pooled connection; with the base capacity set |
| DotClients.DotClient.Keep | core/src/foss/golang/clash/dns/dot.go:93-100 | a connection is given back; the oldest is closed exactly when there are 8 |
| DotClients.DotClient.TryPool | core/src/foss/golang/clash/dns/dot.go:48-91 | the rounds on pooled connections try from the newest, close those that fail, and stop at the first that works |
| DotClients.DotClient.Exchange | core/src/foss/golang/clash/dns/dot.go:48-109 | a lone exchange makes at most one try per pooled connection before it dials, succeeds exactly if one of them or a new one works, and leaves exactly the untried connections and the one that worked |
| DotClients.LoneExchange | core/src/foss/golang/clash/dns/dot.go:48-109 | a lone exchange uses the newest pooled connection that works and keeps it with all older ones; if none does, the pool holds the dialed connection if it works, and else nothing |
| DotClients.DotClient.ResetConnection | core/src/foss/golang/clash/dns/dot.go:145-154 | closes all pooled connections, oldest first, unless reuse is off |
| DnsTtl.NewTTLCases | core/src/foss/golang/clash/dns/util.go:42-45 | all cases of the wrapping subtraction and the clamp for one record, for all 32-bit values |
| DnsTtl.RaisedIff | core/src/foss/golang/clash/dns/util.go:44-44 | a TTL is raised exactly from 0 to 1 with 0 seconds left |
| DnsTtl.SectionAges | core/src/foss/golang/clash/dns/util.go:38-46 | with no more seconds left than its least TTL a section gets least TTL max(1, seconds) and keeps its distances but for the clamp |
| DnsTtl.SectionStays | core/src/foss/golang/clash/dns/util.go:38-46 | with more seconds left a section is unchanged exactly if no record wraps |
| DnsTtl.WrapShrinks | core/src/foss/golang/clash/dns/util.go:38-46 | a section whose second record wraps to 2 seconds |
| DnsTtl.StoreLasts | core/src/foss/golang/clash/dns/util.go:60-87 | how long an entry lasts: 5 seconds for a server failure, else the least TTL of the records other than additional OPT ones, rounded down to a whole second; none for TTL 0 or no record |
| DnsTtl.WithoutOptIsOrdered | core/src/foss/golang/clash/dns/util.go:69-72 | dropping the OPT records keeps exactly the others, in order |
| DnsTtl.SecondsLeftIs | core/src/foss/golang/clash/dns/resolver.go:177-177 | the seconds left are the whole seconds up to the expiry |
| DnsTtl.HitTTL | core/src/foss/golang/clash/dns/resolver.go:166-179 | a hit up to a second before the least TTL has passed is not expired and hands out each TTL less the time since it was stored, to within two seconds, at least 1; a section of a higher least TTL loses the difference at once |
| DnsTtl.HitBeforeExpiry | core/src/foss/golang/clash/dns/resolver.go:166-179 | an answer stored and hit before it expires: per nonempty section least TTL max(1, seconds left), no record raised, distances kept but for the clamp |
| DnsTtl.FailureHitBeforeExpiry | core/src/foss/golang/clash/dns/util.go:74-78 | the same for a server failure, cached for 5 seconds, with TTLs below 2^31 (section 8 of RFC 2181) |
| DnsTtl.HitAfterExpiry | core/src/foss/golang/clash/dns/resolver.go:171-174 | after expiry every record has TTL 1 |
| DnsTtl.LaterHitIsNotLonger | core/src/foss/golang/clash/dns/resolver.go:166-179 | a later hit on the same entry never hands out a longer TTL |
| DnsTtl.MinimalTTL | core/src/foss/golang/clash/dns/util.go:28-36 | the least TTL, 0 for no record |
| DnsTtl.UpdateTTL | core/src/foss/golang/clash/dns/util.go:38-46 | rewrites the records in place by NewTTL |
| DnsTtl.UpdateMsgTTL | core/src/foss/golang/clash/dns/util.go:106-110 | updates each of the three sections by its own least TTL |
| DnsTtl.SetMsgTTL | core/src/foss/golang/clash/dns/util.go:89-104 | sets every TTL to 1 but those of OPT records of the additional section |
| DnsTtl.DnsCache.PutMsg | core/src/foss/golang/clash/dns/util.go:60-87 | stores a copy without OPT records until the last whole second of its least TTL, or of 5 seconds for a server failure; nothing when that TTL is 0, for a message without records, or for an ACME challenge |
| DnsTtl.DnsCache.GetMsg | core/src/foss/golang/clash/dns/util.go:50-56 | a fresh copy of the stored message |
| DnsTtl.DnsCache.CachedAnswer | core/src/foss/golang/clash/dns/resolver.go:166-180 | a hit hands out a fresh message and leaves every stored message as it was |
| SocksAddr.ParseSocksAddr | core/src/foss/golang/clash/adapter/inbound/util.go:14-32 | fills a fresh metadata, with the byte-wide index arithmetic; fails exactly where an index or slice is out of range |
| SocksAddr.RoundTrip | core/src/foss/golang/clash/adapter/outbound/util.go:15-33 | a serialized destination parses back to its host, or its unmapped address without zone, and its port exactly when the host has no trailing dot and at most 252 octets, or 253 and a port whose low octet is 3 |
| SocksAddr.SerializedParses | core/src/foss/golang/clash/adapter/inbound/util.go:18-24 | parsing a serialized destination fails exactly for host lengths 254 and 255 modulo 256 |
| SocksAddr.PrintParsed | core/src/foss/golang/clash/adapter/outbound/util.go:15-33 | the printer undoes the parser exactly on addresses without mapped address, trailing dot or overlong name |
| SocksAddr.UnmapIs | core/src/foss/golang/clash/adapter/inbound/util.go:14-32 | exactly the addresses ::ffff:a.b.c.d become IPv4 addresses |
| SocksAddr.SerializedDomain | core/src/foss/golang/clash/adapter/outbound/util.go:20-24 | the layout of a domain address, which determines it |

## Left out

- GroupProxies.Compute: says nothing about the list when a provider changes between two reads of one
  computation; `GroupCache` shows that such a list is stored only under versions that are no longer current.
- GroupCache.CallIsFresh: versions count without bound, where the program's wrap at 2^32 updates; a call
  may return a list that became stale while it was under way.
- Deques.Deque.CopyInSlice: states the layout, not a sequence, for a slice that fills the buffer, because the
  deque is then not valid.
- Deques.Deque.IterPopFront: the caller's function is a test on elements that does not touch the deque.
- GroupBuild.BuildGroups: the reasons to fail that do not come from the table of proxies (no type, a bad status
  range, an unknown provider or type) are given with each group, with the place in the order of the checks.
- ArcCache.ARC.SetWithExpire: expiry times are integers, in seconds.
- DnsTtl.HitTTL: takes both readings of the clock before that second; when the second one is far behind the first, only
  HitBeforeExpiry holds.
- JumpHashing.JumpHash: the jump is a parameter that only has to go forward; that the program's expression
  does is shown for the exact quotient and for any rounding with the three properties in `Rounds`.
- DnsTtl.DnsCache.CachedAnswer: the seconds left are rounded down exactly, where the program goes through
  float64 and can round up when less than a nanosecond is missing; the cache evicts nothing. Expiry times are kept in
  whole seconds, as both caches do.
- DnsTtl.SecondsLeft: gives 0 when the second reading of the clock is past the expiry; the program converts a
  negative float64 to uint32 there, whose result Go leaves to the implementation once a whole second has passed.
- DagSort.ProxyGroupsDagSort: after a loop error the array is left partly overwritten and nothing is said about it;
  the `topo` field, which nothing reads, is not modelled; nodes are values in a map instead of pointers.
- Dialing.DialingEndsIff: a dial is handed on one adapter at a time; repeated tries and health checks of a
  group are not modelled, nor is a change of the table during a dial.
- RuleMatch.Match: whether an adapter supports UDP is fixed for the call; what a rule answers is a parameter.
- SubRules.MatchSubRules: conditions answer the same each time they are asked for one connection; AND, OR and NOT
  rules are conditions.
- TunCallbacks.CallbackLifetime: what the foreign functions do with the object is not modelled; a step is what
  happens between two operations on the lock, the semaphore or the fields.
- TunCallbacks.HoldersFinish: that the scheduler runs the holders is not part of the model; a callback that comes
  later may take a permit before a close that waits, where the program's semaphore makes it queue behind.
- DotPool.NoConnectionIsLost: a connection handed to a goroutine that closes it counts as closed; a dial that
  fails leaves no connection.
- SocksAddr.ParseSocksAddr: only the destination fields of the metadata.
- Of the deque: Copy, AppendToSlice, CopyOutSlice, RIndex and the iterators that do not pop, which repeat what
  is shown.
- Sticky sessions and the URL test, which rest on wall-clock time; health checks; the adaptive choice of groups.
- The parsers of the configuration other than the checks above, share links, and the fake-IP pool.
- Outbound protocols, listeners, DNS-over-HTTPS and DNS-over-QUIC, and the Kotlin user interface.
- Domain tries, IP sets, the LRU cache, singleflight and the NAT table, whose code is not part of this model.
