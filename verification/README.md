# Verified models of the algorithm, protocol and data-structure programs

The repository is a collection of self-contained C++ programs. This project models the ones whose
correctness rests on more than a local reading of the code, with a Dafny module for each (topological
sort has a shared specification and a module for each of its two algorithms, round robin one for the
policy and one for the simulation), and proves what each of them is for.
`dafny verify dfyconfig.toml` checks everything.

The programs work by changing things step by step, and so do the models: loops stay loops, the
classes (`MatchingEngine`, `UnionFind`, `DFSTopoSort`, `SPSCQueue`, `LRUCache`, `SegmentTree`) keep
the original fields and update them in place, merge sort works on an array, and Floyd's algorithm and
the cache run over linked heap nodes. Each method is proved against a specification that does not
mention how the result is computed, and the lemmas say why the specification holds.

| module | source | what is proved |
|---|---|---|
| `Dijkstra` | `src/dsa/dijkstra.cpp` | exact distances, predecessor tree without cycles (zero-weight edges included), bounded queue work, reconstructed path shortest or empty exactly when unreachable |
| `Kmp` | `src/dsa/kmp_string_matching.cpp` | longest borders, all occurrences in order, linear number of loop rounds, least repeating period by the periodicity argument |
| `MatchingEngine` | `src/systems/hft/matching_engine.cpp` | price-time priority as a closed formula; over every run, who trades with whom and at what price, uncrossed ordered books and conserved quantities |
| `Floyd` | `src/dsa/two_pointers.cpp` | cycle detection and cycle start on any finite list of heap nodes |
| `TopologicalSort`, `KahnSort`, `DepthFirstSort` | `src/dsa/topological_sort.cpp` | Kahn and depth-first search meet one specification, so they agree |
| `UnionFind` | `src/dsa/union_find.cpp` | connected is the equivalence closure of the united pairs; component count; logarithmic depth |
| `SpscQueue` | `src/concurrency/lock_free_queue.cpp` | safety of every interleaving of the two threads' atomic steps; refinement of an atomic queue; the consumer receives what the pushes were called with |
| `LruCache` | `src/stl_like/lru_cache.cpp` | linked list and index refine a recency list; every answer is the last value put; the eviction policy exactly |
| `RoundRobin`, `RoundRobinPolicy` | `src/systems/os/scheduler_sim.cpp` | the simulation terminates and produces the one schedule the first-ready-first-served policy allows; exact service, time conservation, bounded wait, response and turnaround follow from the policy |
| `MergeSort` | `src/dsa/merge_sort.cpp` | the unique stable sort in place, and the exact number of inversions |
| `Lcs` | `src/dsa/longest_common_subsequence.cpp` | table, backtrack and two-row form against all common subsequences |
| `Knapsack` | `src/dsa/knapsack_01.cpp` | one-row form, table and backtrack against all selections |
| `BinarySearchOnAnswer` | `src/dsa/binary_search_on_answer.cpp` | greedy test exact, binary search finds the threshold |
| `Histogram` | `src/dsa/monotonic_stack.cpp` | largest rectangle by a rising stack; each bar's bounds |
| `SegmentTree` | `src/dsa/segment_tree.cpp` | queries are folds for any associative operation, updates change one element, queries split at any point, 4n cells suffice |

`Pigeonhole`, `Modulo`, `BitMask`, `Powers`, `Halving` and `Sequences` hold facts several modules share.

Preconditions are what the programs themselves rely on: non-negative weights and no path sum reaching
INT_MAX for Dijkstra, `quantum > 0` and `remaining_time == burst_time > 0` for round robin, a non-empty
array for the segment tree and the binary searches, a non-empty string for `shortest_period`, `m >= 1`
for `splitArray`, non-negative heights, weights, piles and capacity, a capacity that is a power of two
for the SPSC queue and positive for the cache.

## Where the code and its comments differ

- `update` of the segment tree is commented as setting `arr[idx] += val (or replace)`
  (`src/dsa/segment_tree.cpp:41`); it only adds. It does not check `idx`: an index outside the array
  lands on the nearest element. The model does the same.
- The histogram's comment says each bar finds how far it can extend (`src/dsa/monotonic_stack.cpp:60`).
  For a bar with an equal bar to its left, the width used stops at that bar.
  `Histogram.EqualBarsStopEarly` gives the input `[1, 1]`, `Histogram.FullUnlessEqualBar` says exactly
  when one width is the full extent and `Histogram.AllFullUnlessEqualPair` when all of them are, by the
  heights alone; the area returned is the largest all the same.
- `minEatingSpeed` is commented as returning the minimum feasible speed
  (`src/dsa/binary_search_on_answer.cpp:52`). When there are more non-empty piles than hours no speed is
  feasible, and it returns one that is not; `BinarySearchOnAnswer.NoSpeedForTwoPiles` gives
  the input `[1, 1]` with one hour, and `BinarySearchOnAnswer.MinEatingSpeed` states the exact condition.

## Model

| member | source | states |
|---|---|---|
| Dijkstra.Dijkstra | src/dsa/dijkstra.cpp:34-63 | `dist[v]` is the least weight of any walk from the source and INF exactly for unreachable `v`; `prev` follows shortest walks; each reachable node is expanded exactly once and no other; at most 1 + the number of edges is ever pushed |
| Dijkstra.Cut | src/dsa/dijkstra.cpp:46-60 | any walk either ends in a settled node at no less than its distance or weighs at least the least tentative distance outside: why the greedy choice is right |
| Dijkstra.Settle | src/dsa/dijkstra.cpp:47-51 | an up-to-date entry on top of the queue carries its node's true distance |
| Dijkstra.DropStale | src/dsa/dijkstra.cpp:50-51 | skipping an outdated entry loses nothing |
| Dijkstra.ScanEdges | src/dsa/dijkstra.cpp:53-59 | the loop over a settled node's edges leaves none of them able to improve a distance, restores the state of the main loop and pushes at most one entry an edge |
| Dijkstra.ScanImproves | src/dsa/dijkstra.cpp:53-58 | relaxing an edge keeps the tree of walks, the queue's coverage of the frontier and the edges already relaxed; the sum stays below INF |
| Dijkstra.Drained | src/dsa/dijkstra.cpp:46-62 | with the queue empty, the settled nodes are exactly the reachable ones and all results are exact |
| Dijkstra.TreeIsExact | src/dsa/dijkstra.cpp:54-62 | a predecessor is reachable and one edge short of its node's distance; the source and unreachable nodes have none |
| Dijkstra.TreeIsRooted | src/dsa/dijkstra.cpp:54-56 | the predecessor links form no cycle, even over zero-weight edges and cycles |
| Dijkstra.ReconstructPath | src/dsa/dijkstra.cpp:66-74 | on links without cycles the loop ends and returns the chain of links from source to target, or the empty path exactly when there is no such chain |
| Dijkstra.ChainUnique | src/dsa/dijkstra.cpp:68-70 | a target has at most one chain back to a root |
| Dijkstra.PathIsShortest | src/dsa/dijkstra.cpp:34-74 | both stages together: the path visits the nodes of a real walk of weight `dist[target]`, the least there is, and is empty exactly when the target is unreachable |
| Kmp.BuildPrefixTable | src/dsa/kmp_string_matching.cpp:29-49 | `lps[i]` is the length of the longest proper border of each prefix; at most 2m loop rounds |
| Kmp.NextBorders | src/dsa/kmp_string_matching.cpp:36-45 | the longest border grows by at most one per character |
| Kmp.TryShorter | src/dsa/kmp_string_matching.cpp:40-41 | falling back to the border of a border skips no candidate |
| Kmp.KmpSearch | src/dsa/kmp_string_matching.cpp:55-87 | exactly the positions of all occurrences, overlaps included, in ascending order; nothing for an empty or too long pattern; at most 2n loop rounds |
| Kmp.FallBack | src/dsa/kmp_string_matching.cpp:74-79 | shifting by the failure function keeps the alignment and passes over no occurrence, after a mismatch and after a match |
| Kmp.Compare | src/dsa/kmp_string_matching.cpp:69-83 | the next text character extends the alignment or rules its position out |
| Kmp.PeriodDifference | src/dsa/kmp_string_matching.cpp:93-100 | the difference of two short periods is a period |
| Kmp.LeastPeriodDivides | src/dsa/kmp_string_matching.cpp:93-100 | Fine and Wilf: a period that leaves room for the least one is a multiple of it, which justifies falling back to n |
| Kmp.DivisorPeriod | src/dsa/kmp_string_matching.cpp:97-98 | for a divisor p of n, being p characters repeated is the same as having period p |
| Kmp.ShortestPeriod | src/dsa/kmp_string_matching.cpp:93-100 | the least p dividing n such that the string is its first p characters repeated n/p times |
| MatchingEngine.SweepIsDue | src/systems/hft/matching_engine.cpp:82-99 | price-time priority: in priority order every crossing resting order trades exactly what the quantity ahead of it leaves, up to its size, at its own price; the others do not trade, and the rest of the book is unchanged |
| MatchingEngine.SweepLeaves | src/systems/hft/matching_engine.cpp:82-103 | quantity is left over only when nothing remaining crosses; what remains is a tail of the book, only its first order possibly reduced |
| MatchingEngine.SweepConserves | src/systems/hft/matching_engine.cpp:89-93 | for every order id, quantity before is quantity left plus quantity traded |
| MatchingEngine.InsertOk | src/systems/hft/matching_engine.cpp:100-103 | resting an order keeps the book in price-time order and adds that order only |
| MatchingEngine.InsertRests | src/systems/hft/matching_engine.cpp:100-103 | resting an order adds its quantity to its own id and to no other |
| MatchingEngine.SidesKept | src/systems/hft/matching_engine.cpp:82-103 | seen from either side, matching and resting keep both books ordered and no order of one crossing any of the other |
| MatchingEngine.AddToLevelFlat | src/systems/hft/matching_engine.cpp:102 | appending to a price level, created if missing, is insertion by price and arrival into the flat book |
| MatchingEngine.SubmitKeeps | src/systems/hft/matching_engine.cpp:51-60 | a submission keeps both books ordered with positive quantities and the best bid strictly below the best ask |
| MatchingEngine.SubmitConserves | src/systems/hft/matching_engine.cpp:51-60 | a submission adds its own quantity, resting or traded, and changes no other order's total |
| MatchingEngine.RunInvariant | src/systems/hft/matching_engine.cpp:41-60 | over every sequence of submissions: ordered, uncrossed books, and each order's submitted quantity is what rests plus the sum of its trades |
| MatchingEngine.SweepFills | src/systems/hft/matching_engine.cpp:82-99 | trade by trade, in fields: the trades are with the first orders of the book in order, the incoming order on its own side and the resting one on the other, at the resting price, within the limit, each but the last for all the resting order has; what they took is missing from the book and their volume from the quantity |
| MatchingEngine.SubmitExplained | src/systems/hft/matching_engine.cpp:51-129 | a Buy of r trades as buyer `nextId` with asks at prices up to its own, a Sell as seller with bids from its own up; what they leave of it rests in its own book at its own price with its arrival time, and only when nothing left could trade with it |
| MatchingEngine.RunTraced | src/systems/hft/matching_engine.cpp:41-129 | over every sequence of submissions, each trade's buyer is a Buy request and its seller a Sell request, at the price of the earlier of the two and within both limits; each resting order is on the side, at the price and with the arrival time of its own request, for no more than was asked |
| MatchingEngine.RunInOrder | src/systems/hft/matching_engine.cpp:41-45 | over every sequence of submissions: bids from the highest price, asks from the lowest, equal prices by arrival, every bid below every ask |
| MatchingEngine.SweepStep | src/systems/hft/matching_engine.cpp:82-99 | one round of the matching loop is one step of the walk over the flat book |
| MatchingEngine.FillFront | src/systems/hft/matching_engine.cpp:92-98 | taking a fill out of the best level, dropping a spent order and an empty level, is the same change on the flat book and leaves no empty level |
| MatchingEngine.RestResidue | src/systems/hft/matching_engine.cpp:100-103 | the residue joins the back of its price level; nothing rests when nothing is left |
| MatchingEngine.MatchingEngine.SubmitOrder | src/systems/hft/matching_engine.cpp:51-60 | the books and the log explained field by field as for `SubmitExplained`; the state is that of the submissions so far; the id returned is the number of this submission |
| MatchingEngine.MatchingEngine.MatchBuy | src/systems/hft/matching_engine.cpp:80-104 | books and trade log afterwards are those of the greedy walk of the asks, incoming buyer against resting sellers, the residue resting with the bids |
| MatchingEngine.MatchingEngine.MatchSell | src/systems/hft/matching_engine.cpp:106-129 | the same against the bids, resting buyers against the incoming seller |
| MatchingEngine.MatchingEngine.FillFromAsks | src/systems/hft/matching_engine.cpp:82-99 | the loop over price levels yields the walk's trades, remaining quantity and remaining book |
| MatchingEngine.MatchingEngine.FillFromBids | src/systems/hft/matching_engine.cpp:108-125 | the same over the bids |
| Floyd.HasCycle | src/dsa/two_pointers.cpp:45-55 | true exactly when following the links from the head never reaches null; at most as many rounds as there are nodes |
| Floyd.FindCycleStart | src/dsa/two_pointers.cpp:58-76 | null exactly when the list ends; otherwise the first node from the head that lies on the cycle; the pointers meet within as many rounds as there are nodes, and the second walk is no longer |
| Floyd.Meeting | src/dsa/two_pointers.cpp:49-52 | at some step count, no more than there are nodes, the fast pointer is where the slow one is (past the end included) |
| Floyd.MeetingIsLap | src/dsa/two_pointers.cpp:65-71 | once they have met after i steps, i steps lead every node of the cycle back to itself |
| Floyd.CycleNeverEnds | src/dsa/two_pointers.cpp:49-54 | a list that returns to a node has no end |
| KahnSort.TopoSortKahn | src/dsa/topological_sort.cpp:26-57 | a permutation of all nodes with every edge pointing forward when the graph is acyclic, the empty list when it has a cycle; duplicate edges and self-loops included |
| KahnSort.CountOffEdges | src/dsa/topological_sort.cpp:47-51 | after the loop over a node's edges every in-degree counts the edges from nodes not yet ordered, and exactly the nodes with none are queued or ordered |
| KahnSort.CountOff | src/dsa/topological_sort.cpp:47-51 | counting off one edge keeps every in-degree the number of edges from nodes not yet ordered, and queues a node at its last one |
| KahnSort.KahnDrained | src/dsa/topological_sort.cpp:54-56 | with the queue empty, a complete order is topological and an incomplete one leaves a cycle behind |
| TopologicalSort.PredecessorsMakeCycle | src/dsa/topological_sort.cpp:54-55 | a non-empty set in which every node has a predecessor in the set contains a cycle |
| DepthFirstSort.DFSTopoSort.Dfs | src/dsa/topological_sort.cpp:68-84 | a call either reports a cycle that exists, or leaves its node and all nodes finished before in post-order, the chain of open calls unchanged |
| DepthFirstSort.DFSTopoSort.Sort | src/dsa/topological_sort.cpp:87-106 | the same specification as Kahn's algorithm |
| DepthFirstSort.BackEdge | src/dsa/topological_sort.cpp:73-75 | an edge to a node in progress closes a cycle |
| DepthFirstSort.AllFinished | src/dsa/topological_sort.cpp:97-105 | reverse post-order of a search that met no open node is topological |
| TopologicalSort.TopologicalMeansAcyclic | src/dsa/topological_sort.cpp:26-57 | an order with every edge forward exists only for acyclic graphs |
| TopologicalSort.AnswersAgree | src/dsa/topological_sort.cpp:26-107 | for at least one node, two answers are both empty or both permutations of the same nodes, and empty exactly on a cycle |
| UnionFind.UnionFind.Find | src/dsa/union_find.cpp:36-41 | returns the root; exactly the elements on the path now point at it; nobody's root changes |
| UnionFind.UnionFind.Unite | src/dsa/union_find.cpp:44-55 | true exactly when the elements were not yet connected, and then one component fewer; connectedness is that of the pairs united so far |
| UnionFind.UnionFind.Connected | src/dsa/union_find.cpp:57 | true exactly when the united pairs relate the two, symmetrically and transitively |
| UnionFind.UnionFind.NumComponents | src/dsa/union_find.cpp:58 | the number of equivalence classes |
| UnionFind.CompressSound | src/dsa/union_find.cpp:38 | pointing one element at its root changes no class and keeps the rank invariants |
| UnionFind.UniteSound | src/dsa/union_find.cpp:49-53 | hanging the root of no larger rank keeps ranks rising along parent links, classes of at least 2^rank members, and the component count |
| UnionFind.MergeDescribes | src/dsa/union_find.cpp:50 | merging two classes is exactly what one more united pair does to the equivalence |
| UnionFind.ComponentsAreClasses | src/dsa/union_find.cpp:53 | the counter is the number of classes |
| UnionFind.DepthIsLogarithmic | src/dsa/union_find.cpp:49-51 | no element is deeper than log2 of the number of elements |
| UnionFind.UniteEdge | src/dsa/union_find.cpp:77-80 | uniting edge k fails to merge exactly when the edges before it already connect its ends |
| UnionFind.CountComponents | src/dsa/union_find.cpp:62-68 | the number of connected components of the graph |
| UnionFind.FindRedundantConnection | src/dsa/union_find.cpp:73-83 | the first edge whose ends earlier edges already connect, or (-1, -1) exactly when there is none |
| SpscQueue.RunKeeps | src/concurrency/lock_free_queue.cpp:43-68 | the invariant holds after every interleaving of the two threads' loads, slot accesses and stores |
| SpscQueue.Safety | src/concurrency/lock_free_queue.cpp:43-68 | in every interleaving the pushed items are the popped ones followed by those in flight, at most capacity - 1, sitting in the slots from head on |
| SpscQueue.NoConflict | src/concurrency/lock_free_queue.cpp:52-65 | the slot about to be written is never the slot about to be read, however old the compared indices |
| SpscQueue.FailuresAreReal | src/concurrency/lock_free_queue.cpp:48-63 | at the moment of its check, a push gives up exactly when capacity - 1 items are in flight, a pop exactly when none is |
| SpscQueue.RefinesQueue | src/concurrency/lock_free_queue.cpp:53-66 | each step is one of an atomic queue: the tail store appends the item, the head store removes the oldest, all others change nothing |
| SpscQueue.ThreadsAdvance | src/concurrency/lock_free_queue.cpp:43-68 | what each event does to its thread, the indices and the slot, whatever the other thread is doing: the check depends on how many items are in flight, the write stores the item of the push, the read takes the oldest item |
| SpscQueue.ItemIsArgument | src/concurrency/lock_free_queue.cpp:43-53 | in every interleaving, from its start through check and write, a push has in hand the argument it was called with |
| SpscQueue.PushedAreArguments | src/concurrency/lock_free_queue.cpp:43-55 | in every interleaving, what has been pushed is, in order, what the pushes that stored the tail were called with, computed from the events |
| SpscQueue.ReceivedAreArguments | src/concurrency/lock_free_queue.cpp:43-68 | so the consumer receives, in order, those arguments and nothing else |
| SpscQueue.FullAndEmpty | src/concurrency/lock_free_queue.cpp:48-61 | the index comparisons mean full and empty |
| BitMask.MaskIsModulo | src/concurrency/lock_free_queue.cpp:34-35 | the power-of-two assertion makes masking with Capacity - 1 the same as the remainder by Capacity |
| SpscQueue.SPSCQueue.Push | src/concurrency/lock_free_queue.cpp:43-55 | succeeds exactly with room and appends the item; the final state is that of the four protocol steps |
| SpscQueue.SPSCQueue.Pop | src/concurrency/lock_free_queue.cpp:57-68 | succeeds exactly on a non-empty queue and removes the oldest item; the final state is that of the four protocol steps |
| LruCache.LRUCache.Get | src/stl_like/lru_cache.cpp:78-83 | a hit answers the value stored with the key and brings that entry to the front over entries that were there; a miss means the key has no entry, and changes nothing; the cache stays in agreement with itself and owns only what it owned or allocated |
| LruCache.LRUCache.Put | src/stl_like/lru_cache.cpp:85-100 | the entry (k, v) is in front afterwards, also when k had another value, and the entries behind it are under other keys and keep their values; a full cache drops its last entry, and only for a new key; links, index and size stay in agreement, and any node added is newly allocated |
| LruCache.LRUCache.Perform | src/stl_like/lru_cache.cpp:78-100 | any run of gets and puts on the linked cache leaves the recency list the run prescribes; each get answers from the list as it stood, and if it answers, with the last value put under its key |
| LruCache.LRUCache.MoveToFront | src/stl_like/lru_cache.cpp:43-55 | the linked list loses the node at its place and gains it in front, with all links mutually inverse |
| LruCache.LRUCache.Detach | src/stl_like/lru_cache.cpp:46-48 | unlinking a node other than the first removes it and nothing else |
| LruCache.LRUCache.AttachFront | src/stl_like/lru_cache.cpp:49-54 | linking a node in front |
| LruCache.LRUCache.Evict | src/stl_like/lru_cache.cpp:57-66 | drops exactly the last node, from the list and from the index; nothing on an empty cache |
| LruCache.LRUCache.Renew | src/stl_like/lru_cache.cpp:87-91 | storing the new value under a present key, whose entry moves to the front |
| LruCache.LRUCache.Insert | src/stl_like/lru_cache.cpp:93-99 | a new node in front, indexed |
| LruCache.LRUCache.Hit | src/stl_like/lru_cache.cpp:79-82 | an indexed key's node sits where its entry does in the recency list |
| LruCache.RunKeeps | src/stl_like/lru_cache.cpp:78-100 | over every run the keys stay distinct and the entries within capacity |
| LruCache.PutStores | src/stl_like/lru_cache.cpp:85-100 | after a put the entry (k, v) is in front; every other entry is one from before, under another key and with its value |
| LruCache.GetFinds | src/stl_like/lru_cache.cpp:78-83 | a get finds the entry of its key and brings it to the front with its value, the others keeping theirs, or there is none and nothing changes |
| LruCache.EntriesAreLast | src/stl_like/lru_cache.cpp:78-100 | over every run, each entry holds the last value put under its key, or the one it started with |
| LruCache.RecentStays | src/stl_like/lru_cache.cpp:92 | an entry just used survives any run in which fewer than capacity other keys are used (put, or found by a get), and is preceded by exactly those |
| LruCache.UsesGoAhead | src/stl_like/lru_cache.cpp:49-53 | while an entry is still there, the keys used since are exactly those ahead of it |
| LruCache.EvictionPolicy | src/stl_like/lru_cache.cpp:78-100 | from one use of a key to the next, the key is still there if and only if fewer than capacity other keys have been used, puts and successful gets alike |
| RoundRobin.RoundRobin | src/systems/os/scheduler_sim.cpp:43-97 | the simulation ends with every process served exactly its burst, with its true first run and completion times, on a schedule of the policy: whoever became ready first runs, newcomers before the process whose turn just ended and in index order among themselves, for the quantum or what is left, and the CPU idles only when nobody waits; response and turnaround of each are within the bounds below |
| RoundRobin.Advance | src/systems/os/scheduler_sim.cpp:61-97 | one round of the main loop keeps the invariant and brings the end nearer |
| RoundRobin.TakeTurn | src/systems/os/scheduler_sim.cpp:73-96 | one turn: the front process runs, arrivals join in index order, and it rejoins behind them unless finished |
| RoundRobin.Admit | src/systems/os/scheduler_sim.cpp:84-89 | exactly the processes that have arrived, are unfinished and not yet queued join, once, in index order |
| RoundRobin.SortExists | src/systems/os/scheduler_sim.cpp:49-51 | an arrangement by arrival time exists, so relying on the sort's contract alone is sound |
| RoundRobin.TurnKeeps | src/systems/os/scheduler_sim.cpp:73-96 | a turn keeps the run invariant: schedule, service, the queue being the policy's line of all waiting processes, completed count |
| RoundRobin.TurnAllowed | src/systems/os/scheduler_sim.cpp:73-79 | the process at the front of the queue is the one the policy puts first, for the length it prescribes |
| RoundRobin.TickKeeps | src/systems/os/scheduler_sim.cpp:62-71 | so does an idle tick |
| RoundRobin.TurnOrder | src/systems/os/scheduler_sim.cpp:83-96 | queueing arrivals in index order and then the process that ran keeps the queue in the policy's order |
| RoundRobin.StillComing | src/systems/os/scheduler_sim.cpp:61-70 | while work remains and nobody is queued, somebody is still to arrive: why the clock need not tick for ever |
| RoundRobinPolicy.EventUnique | src/systems/os/scheduler_sim.cpp:61-97 | the policy allows at most one next event |
| RoundRobinPolicy.TraceUnique | src/systems/os/scheduler_sim.cpp:61-97 | the processes, in order, and the quantum determine the whole schedule |
| RoundRobinPolicy.ResultUnique | src/systems/os/scheduler_sim.cpp:49-97 | the arrangement by arrival determines every completion and first-run time |
| RoundRobinPolicy.OncePassed | src/systems/os/scheduler_sim.cpp:91-96 | whoever ran since a process became ready is behind it in line |
| RoundRobinPolicy.WaitInTurns | src/systems/os/scheduler_sim.cpp:73-96 | a waiting process has waited no more than a quantum for each process that ended a turn since it became ready |
| RoundRobinPolicy.SinceIsFair | src/systems/os/scheduler_sim.cpp:73-96 | since the last turn of a waiting process only turns happened, each of a different other process |
| RoundRobinPolicy.BoundedWait | src/systems/os/scheduler_sim.cpp:185 | from the dispatch rule alone: between two turns of a process the CPU does not idle, each other process runs at most once, and at most (n - 1) quanta pass |
| RoundRobinPolicy.BoundedResponse | src/systems/os/scheduler_sim.cpp:76-77 | the first turn starts at most (n - 1) quanta after arrival |
| RoundRobinPolicy.TurnaroundCoversBurst | src/systems/os/scheduler_sim.cpp:102 | completion minus arrival is at least the burst |
| RoundRobinPolicy.ServiceInTurns | src/systems/os/scheduler_sim.cpp:79-81 | all turns of a process but its last are full quanta, and before each at most (n - 1) quanta pass |
| RoundRobinPolicy.FinishedIsBounded | src/systems/os/scheduler_sim.cpp:185 | a finished process has waited at most (n - 1) quanta before each of its ceil(burst / quantum) turns, which bounds its turnaround |
| RoundRobinPolicy.TimeConserved | src/systems/os/scheduler_sim.cpp:61-97 | the clock at the end shows all bursts plus the idle ticks |
| MergeSort.MergeSort | src/dsa/merge_sort.cpp:66-69 | the array is left as the stable sort of what it was, and the result is the number of pairs i < j with the larger element first |
| MergeSort.MergeSortRange | src/dsa/merge_sort.cpp:52-63 | sorts its range stably, counts that range's inversions, touches nothing outside |
| MergeSort.MergeAndCount | src/dsa/merge_sort.cpp:28-49 | leaves the merge of the two runs in place of them and returns what the loop counts |
| MergeSort.MergeBoth | src/dsa/merge_sort.cpp:35-43 | the first loop ends with one run used up, and what it has with what is left of the other is the merge and its count |
| MergeSort.MergeRuns | src/dsa/merge_sort.cpp:29-45 | the three loops produce the merge and its count |
| MergeSort.OvertakenIsCross | src/dsa/merge_sort.cpp:38-41 | adding mid - i + 1 whenever the right run goes first counts exactly the inverted pairs across two sorted runs |
| MergeSort.MergeStable | src/dsa/merge_sort.cpp:36-37 | merging keeps equal elements in order, those of the left run first |
| MergeSort.HalvesCount | src/dsa/merge_sort.cpp:58-60 | sorting the halves and merging sorts the whole stably, and the three counts add up to its inversions |
| MergeSort.StableSortUnique | src/dsa/merge_sort.cpp:52-63 | a sequence has only one stable sort, so the result is determined |
| MergeSort.InversionsArePairs | src/dsa/merge_sort.cpp:66-69 | the recursive count is the size of the set of inverted position pairs |
| Lcs.LcsWithSequence | src/dsa/longest_common_subsequence.cpp:30-61 | the result is a subsequence of both strings, and no common subsequence is longer |
| Lcs.FillTable | src/dsa/longest_common_subsequence.cpp:34-44 | every cell is the length for its two prefixes |
| Lcs.LengthBounds | src/dsa/longest_common_subsequence.cpp:38-42 | no common subsequence is longer than the recurrence says |
| Lcs.Attained | src/dsa/longest_common_subsequence.cpp:38-42 | some common subsequence is as long as the recurrence says |
| Lcs.LongestHasLength | src/dsa/longest_common_subsequence.cpp:30-61 | every longest common subsequence has that length |
| Lcs.Symmetric | src/dsa/longest_common_subsequence.cpp:69 | the length does not depend on the order of the strings, which the argument swap needs |
| Lcs.LastRow | src/dsa/longest_common_subsequence.cpp:71-84 | two rows, swapped and cleared, end with the full table's last row value |
| Lcs.LcsLength | src/dsa/longest_common_subsequence.cpp:67-87 | the length of every longest common subsequence, in either argument order |
| Knapsack.KnapsackMaxValue | src/dsa/knapsack_01.cpp:30-41 | the in-place row gives the greatest value of any selection within capacity, which is the full table's last cell |
| Knapsack.KnapsackWithItems | src/dsa/knapsack_01.cpp:44-71 | the same optimum from the same last cell, with a selection of distinct items within capacity that is worth exactly it |
| Knapsack.FillTable | src/dsa/knapsack_01.cpp:49-57 | every cell is the best value for its items and capacity |
| Knapsack.BestBounds | src/dsa/knapsack_01.cpp:51-55 | no selection that fits is worth more than the recurrence says |
| Knapsack.BestAttained | src/dsa/knapsack_01.cpp:51-55 | some selection that fits is worth as much |
| Knapsack.PickOrSkip | src/dsa/knapsack_01.cpp:63-66 | comparing two cells decides rightly whether an item was taken |
| BinarySearchOnAnswer.SplitArray | src/dsa/binary_search_on_answer.cpp:58-87 | the least limit for which the numbers split into at most m contiguous blocks with no larger sum |
| BinarySearchOnAnswer.TestSplit | src/dsa/binary_search_on_answer.cpp:64-76 | the greedy test succeeds exactly when such a split exists |
| BinarySearchOnAnswer.RunGreedy | src/dsa/binary_search_on_answer.cpp:64-76 | the loop with its early exit decides whether greedy filling needs at most m blocks |
| BinarySearchOnAnswer.GreedyIsAhead | src/dsa/binary_search_on_answer.cpp:66-74 | greedy filling is never behind any split: fewer blocks, or as many with no more in the last |
| BinarySearchOnAnswer.GreedyDecides | src/dsa/binary_search_on_answer.cpp:64-76 | a split into at most m blocks exists if and only if greedy filling opens at most m |
| BinarySearchOnAnswer.BelowMaxFails | src/dsa/binary_search_on_answer.cpp:60 | no limit below a single number admits a split: the search may start at the largest |
| BinarySearchOnAnswer.TotalIsEnough | src/dsa/binary_search_on_answer.cpp:61 | the total always admits one: the search may end there |
| BinarySearchOnAnswer.MinEatingSpeed | src/dsa/binary_search_on_answer.cpp:31-53 | no slower speed finishes in time; the result does if and only if h is at least the number of non-empty piles, and otherwise no speed does |
| BinarySearchOnAnswer.NoSpeedForTwoPiles | src/dsa/binary_search_on_answer.cpp:52 | for piles [1, 1] and one hour every speed takes too long |
| BinarySearchOnAnswer.CeilingIs | src/dsa/binary_search_on_answer.cpp:39 | the rounding expression is the least number of hours that covers the pile |
| BinarySearchOnAnswer.HoursMonotone | src/dsa/binary_search_on_answer.cpp:36-42 | a faster speed never takes longer |
| BinarySearchOnAnswer.AtLeastOneEach | src/dsa/binary_search_on_answer.cpp:33 | a non-empty pile takes an hour at any speed, and just one at the largest pile's |
| Histogram.LargestRectangleArea | src/dsa/monotonic_stack.cpp:61-78 | the largest area of any rectangle that fits; every bar of positive height is popped, with its exact bounds; pushes and pops total at most 2(n + 1) |
| Histogram.PopHigher | src/dsa/monotonic_stack.cpp:69-74 | the inner loop pops exactly the bars higher than the one coming in, with their bounds, and keeps the largest area |
| Histogram.PopTop | src/dsa/monotonic_stack.cpp:69-72 | a popped bar lies between the nearest lower bar on the right and the nearest no higher bar on the left; the rest of the stack still rises |
| Histogram.PopCovers | src/dsa/monotonic_stack.cpp:72-73 | a popped bar's area is at least that of every rectangle in which it is the leftmost lowest bar |
| Histogram.AllPoppedIsLargest | src/dsa/monotonic_stack.cpp:66-77 | so the best area popped is the largest of all |
| Histogram.Drained | src/dsa/monotonic_stack.cpp:67-74 | the height 0 after the last bar leaves only bars of height 0 on the stack |
| Histogram.PopUnique | src/dsa/monotonic_stack.cpp:69-72 | the heights alone determine a popped bar's bounds |
| Histogram.FullUnlessEqualBar | src/dsa/monotonic_stack.cpp:60-72 | the width used is the bar's full extent if and only if the bar that stops it on the left is not of equal height |
| Histogram.AllFullUnlessEqualPair | src/dsa/monotonic_stack.cpp:60-72 | every width used in a run is the bar's full extent if and only if no two bars have the same positive height with nothing lower between them |
| Histogram.EqualBarsStopEarly | src/dsa/monotonic_stack.cpp:60-72 | on [1, 1] the second bar is given width one although it extends over both |
| SegmentTree.QueryIsFold | src/dsa/segment_tree.cpp:76-82 | for any `op` that is associative with a two-sided identity, and any bounds, a query is the left-to-right fold of the elements inside them; the operation need not commute |
| SegmentTree.NodeIsFold | src/dsa/segment_tree.cpp:54-63 | every node holds the fold of the elements it covers |
| SegmentTree.FoldSplits | src/dsa/segment_tree.cpp:79-81 | folding the part of start..end inside the bounds is `op` of the folds of its two halves |
| SegmentTree.BoundsSplit | src/dsa/segment_tree.cpp:76-81 | folding within l..r is `op` of folding within l..k and within k + 1..r, for bounds inside the array or not |
| SegmentTree.FourTimesIsEnough | src/dsa/segment_tree.cpp:37 | every cell index used by build, update and query is below 4n |
| SegmentTree.SegmentTree.constructor | src/dsa/segment_tree.cpp:35-39 | the tree represents the given array |
| SegmentTree.SegmentTree.Build | src/dsa/segment_tree.cpp:54-63 | fills the node's subtree for its elements and changes no cell outside it |
| SegmentTree.SegmentTree.Update | src/dsa/segment_tree.cpp:42-74 | exactly one element changes, to `add` of itself and the value: element idx for an index inside the array, the first for a negative one, the last for one past the end |
| SegmentTree.SegmentTree.UpdateAt | src/dsa/segment_tree.cpp:65-74 | the subtree represents the updated elements and no cell outside it changes |
| SegmentTree.SegmentTree.Query | src/dsa/segment_tree.cpp:47-49 | the left-to-right fold with `op` of the current elements inside the bounds |
| SegmentTree.SegmentTree.QueryOne | src/dsa/segment_tree.cpp:76-82 | the query of one position is its element |
| SegmentTree.SegmentTree.QuerySplits | src/dsa/segment_tree.cpp:76-82 | the query of l..r is `op` of the queries of l..k and k + 1..r, in that order, for every k between |
| SegmentTree.SegmentTree.QueryNothing | src/dsa/segment_tree.cpp:76-82 | bounds that cover nothing answer the identity |
| SegmentTree.SegmentTree.UpdateAll | src/dsa/segment_tree.cpp:42-44 | after a run of calls every element is what it was with, in order, each value added whose index was its own, or beyond the array on its side |
| SegmentTree.ElementAfterRun | src/dsa/segment_tree.cpp:65-74 | after any run of updates each element has received, in order, exactly the values whose index is its own (the first element also those below, the last those beyond) |
| SegmentTree.UpdateMovesQueries | src/dsa/segment_tree.cpp:42-49 | an update leaves every query that misses its element as it was, and for sums adds its value to every query that covers it |

## Left out

- MatchingEngine.MatchingEngine.SubmitOrder: does not model the wrap-around of the 64-bit id and timestamp counters; prices are `real` rather than `double`, so NaN prices are not modelled.
- MergeSort.MergeSort: models the element type as a key with a tag instead of an arbitrary type with an order; the tag tells equal elements apart, which is all stability needs.
- RoundRobin.RoundRobin: takes `std::sort` by its contract, so ties in arrival time may fall either way; the floating-point averages are not modelled.
- SpscQueue.RunKeeps: models the atomic loads and stores as sequentially consistent steps; weak memory orderings and cache-line padding are not modelled.
- SpscQueue.SPSCQueue.Push: a call is one uninterrupted run of its four steps; interleavings are the subject of the protocol lemmas.
- Floyd.HasCycle: the finite set of list nodes is a specification parameter, since a list in memory is finite.
- Integer widths: sums and areas are mathematical integers; Dijkstra's requirement that no sum reaches INT_MAX is the only overflow condition stated.
- `std::map`, `unordered_map` and `priority_queue` appear as sorted levels, maps and a multiset from which the least entry is taken.
- The depth of the CPU stack in the recursive programs.
- `LRUCache`: pointers returned by `get` and used after later operations, destructors and memory reclamation.
- `SPSCQueue::size` and `empty` called by a third thread.
- `priorityScheduling`, `maxArea`, `sortColors`, `nextGreaterElement` and `dailyTemperatures`: simpler members of files modelled here.
- `printBook`, `printResults`, every `main` function, timing and benchmarks.
- `src/systems/networking`, `src/systems/linux` and `src/systems/hpc_gpu`: system calls, sockets, signals and floating-point loops.
- `src/modern_cpp`, `src/solid` and `src/patterns`: language and design demonstrations with little behaviour to prove.
- `src/systems/embedded/state_machine.cpp` and `src/dsa/backtracking_nqueens.cpp`: finite as coded, so their claims are settled by enumeration.
- `src/systems/os/virtual_memory.cpp`: the table and its cache of translations.
- The hash map, order book, memory pool, trie, ring buffer, undo history, mutex-based queues and bit tricks: they would only add easier members.
