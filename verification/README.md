# Verified models of the APIHub algorithms and runtime

This Dafny project models the data structures, the rate limiters, the resilience
code and two ingestion algorithms of APIHub, and proves what they promise. Check
it with `dafny verify dfyconfig.toml`.

How the models are made:

- An object of the original is a class with the same fields. A ghost field or
  function gives its abstract value, every method states its whole new abstract
  value through a function of the old one, and the promises are lemmas about
  those functions, over every input and every run.
- Code that awaits is cut at its awaits. Each stretch between two awaits is one
  atomic step of a transition function, and the run theorems quantify over every
  order of steps (breaker, job queue, single-flight cache, bounded map, locks).
- The clock is a parameter that does not go back; times are integer milliseconds.
  Numbers that may be fractional are reals, so IEEE rounding is not modelled.
- Identifiers, keys and terms that the code only compares are abstract types.
- A JavaScript Map keeps insertion order: where that order shows, it is a list
  of the keys beside the map (`insertion_order.dfy`).

| files | what they model |
|---|---|
| `basics`, `insertion_order` | shared definitions, and the order in which a Map lists its keys |
| `closure`, `union_find`, `cluster_duplicates` | equivalence classes, path compression and union by rank, duplicate clusters |
| `lru_spec`, `lru_runs`, `lru_cache` | recency lists, what runs of them guarantee, and the linked list with its map |
| `graph_paths`, `graph_order`, `graph_cycles`, `graph_search`, `graph_shortest`, `graph_components`, `graph` | paths, Kahn's sort, the colouring search, breadth-first search, components, and the graph object |
| `edit_distance` | the rolling-row distance against shortest edit scripts |
| `binary_heap`, `priority_queue`, `top_k`, `merge_top_k` | heap order, stable priorities, bounded selection and merging |
| `rings`, `rolling_window`, `sliding_log`, `sliding_counter` | ring buffers over time |
| `token_bucket`, `redis_bucket` | the bucket in memory and as a Redis script |
| `breaker_spec`, `circuit_breaker` | breaker transitions over all interleavings, and the object over the outcome ring |
| `queue_spec`, `queue_runs`, `queue_orders`, `memory_queue` | queue transitions, run theorems, starts traced back to the calls that ordered them, and the object over the priority queue |
| `single_flight` | shared loads of the cache service |
| `sql_scanner`, `split_statements`, `sql_quoting` | the statement scanner, its loop, the round trips, and the five kinds of quoting |
| `slug_collisions` | unique and stable slugs |
| `inverted_index`, `index_search`, `search_laws` | posting lists against documents, ranked search against a scan, and the laws of the score |
| `best_list`, `trie` | cached completions |
| `bounded_map`, `locks` | the bounded-concurrency map and lease locks over all interleavings |
| `histogram`, `health_state` | quantiles from bucket counts, and the health state machine over runs of probes |

Where the code differs from what its documentation says, the model follows the code:

- A breaker call begun while closed that ends while half-open counts towards
  closing and frees a trial slot it never took.  So up to `successesToClose - 1`
  more trials run than configured (`BreakerSpec.OlderCallsFreeSlots`); when the
  limit holds is stated in `BreakerSpec.LimitHoldsExactly`.
- `retryFailed` leaves the id of the revived job unknown, so enqueuing the same id
  twice is not always a no-op (`QueueRuns.LiveTwice`). Delayed jobs of equal
  priority that come due together start in reverse order
  (`QueueRuns.DueIsBackwards`). A closed queue still accepts jobs; it starts none.
- The sliding counter's advice is always too early when the previous window is
  empty, and also when the current count leaves no room for the cost and does not
  decay enough by then (`SlidingCounters.AdviceIsRightExactly`,
  `SlidingCounters.AdviceIsTooEarlyWithHistory`).
- A request dearer than the token bucket's capacity is told a finite wait and is
  never admitted (`TokenBuckets.RetryAfterIsExact`). The time at which an admitted
  request is told that the bucket is full again does not count that request
  (`TokenBuckets.ResetIsTooEarly`). The script's reset time
  differs from that of `consume` for admitted requests (`RedisBuckets.ResetShifts`).
  A burst above what the bucket regains within its time to live is restored early
  by expiry, and only then do the two implementations differ in what they admit
  (`RedisBuckets.AgreementExactly`).
- The star of a `/*` is scanned again, so `/*/` is a complete comment
  (`SqlQuoting.EndsAtClose`). An LRU entry whose expiry falls on time 0 never
  expires, because 0 stands for never (`LruRuns.StillLives`).
- The slug fallback, called unique by construction, is not
  (`SlugCollisions.ExhaustedRecordsCollide`); with fewer than fifty slugs in the
  way of each API it is never needed (`SlugCollisions.SlugsAreUnique`).
- A loader that throws before returning a promise makes its error sticky, and
  deleting a key under a running load allows two loads
  (`SingleFlights.StuckUntilDeleted`, `SingleFlights.DeleteAllowsTwoLoads`).
  Nothing else breaks the single flight (`SingleFlights.OneLoadAtATime`).
- `requireAll` rejects every document when a query term is repeated
  (`IndexSearch.RequireAllExactly`).
- The trie's cached list becomes wrong when a listed term is lowered below one
  that was left out, and when a listed key is spelt differently, unless the former
  entry was the last of a full list with a lower score (`Tries.InsertIsExact`).
- With a concurrency below one the bounded map does nothing and leaves every
  result missing (`BoundedMaps.AllResultsAtTheEnd`).
- The health diagram's arrow from up to down is never taken in one step, and a
  degraded probe leads from down or unknown to degraded, for which it has no arrow
  (`HealthStates.ArrowsOfTheDiagram`).

## Model

| member | source | states |
|---|---|---|
| UnionFinds.UnionFind.constructor | packages/algorithms/src/union-find.ts:24-26 | starts with one singleton class per given id and no links |
| UnionFinds.UnionFind.MakeSet | packages/algorithms/src/union-find.ts:38-43 | a known id changes nothing; a new one becomes a class of its own, at the end of the insertion order, and no other element changes its representative |
| UnionFinds.UnionFind.Find | packages/algorithms/src/union-find.ts:49-65 | returns the representative, registering an unknown id first; exactly the nodes on its path are hung directly below the representative, which changes the representative of no element |
| UnionFinds.UnionFind.Union | packages/algorithms/src/union-find.ts:68-88 | afterwards two elements share a representative iff they are related by the closure of the old links and this one; reports a merge iff they were not linked before |
| UnionFinds.UnionFind.Link | packages/algorithms/src/union-find.ts:76-87 | union by rank hangs one root below the other, adding exactly one link to the closure and taking one off the component count |
| UnionFinds.UnionFind.Connected | packages/algorithms/src/union-find.ts:90-92 | true iff the two ids are related by the closure of all unions so far |
| UnionFinds.UnionFind.Groups | packages/algorithms/src/union-find.ts:95-104 | one bucket per representative, in the order in which they are first met, listing exactly its class in insertion order |
| UnionFinds.UnionFind.DuplicateClusters | packages/algorithms/src/union-find.ts:107-109 | exactly the classes of the closure with more than one element, each once |
| UnionFinds.CompressionKeepsRoots | packages/algorithms/src/union-find.ts:55-64 | pointing a node at its representative changes the representative of no element |
| UnionFinds.LinkMovesClass | packages/algorithms/src/union-find.ts:80-86 | hanging root a below root b moves exactly the class of a |
| UnionFinds.LinkRealisesUnion | packages/algorithms/src/union-find.ts:68-88 | the new parent map has exactly the classes of the closure extended by the new link |
| UnionFinds.RedundantLink | packages/algorithms/src/union-find.ts:74 | a union of two connected elements leaves the closure as it is |
| UnionFinds.LinkKeepsRankBound | packages/algorithms/src/union-find.ts:79-86 | union by rank keeps 2^rank(root) at most the size of the class |
| UnionFinds.ChainsAreLogarithmic | packages/algorithms/src/union-find.ts:49-65 | a chain of n links from parent to parent lies in a class of at least 2^n elements, so find takes at most log2 of its size steps |
| UnionFinds.LinkSound | packages/algorithms/src/union-find.ts:68-88 | a link keeps every invariant at once: forest, rank bound, closure, and component count equal to the number of roots |
| UnionFinds.KeptAreClasses | packages/algorithms/src/union-find.ts:107-109 | keeping the buckets of size above one keeps exactly the non-trivial classes |
| DuplicateClustering.BuildBlocks | packages/algorithms/src/union-find.ts:128-134 | every record is in exactly the bucket of its blocking key, in list order |
| DuplicateClustering.CompareBucket | packages/algorithms/src/union-find.ts:136-144 | a bucket adds exactly the links between its similar pairs |
| DuplicateClustering.AllPairsFound | packages/algorithms/src/union-find.ts:136-144 | the buckets together compare exactly the pairs that share a blocking key |
| DuplicateClustering.ClusterDuplicates | packages/algorithms/src/union-find.ts:120-147 | exactly the connected components of size above one of the graph whose edges are the similar pairs within a block |
| LruCaches.LruCache.constructor | packages/algorithms/src/lru-cache.ts:62-67 | starts empty with the configured size and time to live and all counters at zero |
| LruCaches.LruCache.Get | packages/algorithms/src/lru-cache.ts:74-90 | a hit moves the entry to the front and returns its value, an expired entry is dropped, a miss changes nothing; the three counters change accordingly |
| LruCaches.LruCache.Has | packages/algorithms/src/lru-cache.ts:93-103 | true iff a live entry exists; the order is untouched, and only an expired entry is dropped |
| LruCaches.LruCache.Put | packages/algorithms/src/lru-cache.ts:106-123 | the entry goes to the front, replacing one with the same key; on overflow exactly the last entry goes and is counted as an eviction |
| LruCaches.LruCache.Insert | packages/algorithms/src/lru-cache.ts:117-122 | a new node in front of the list and in the map, then an eviction if the cache is over its size |
| LruCaches.LruCache.Overwrite | packages/algorithms/src/lru-cache.ts:108-115 | the existing node gets the new value and expiry and moves to the front |
| LruCaches.LruCache.Evict | packages/algorithms/src/lru-cache.ts:204-210 | removes the node at the tail, and nothing when the list is empty |
| LruCaches.LruCache.Delete | packages/algorithms/src/lru-cache.ts:126-131 | removes exactly the entry of the key and reports whether there was one |
| LruCaches.LruCache.Clear | packages/algorithms/src/lru-cache.ts:133-137 | forgets every entry and keeps the counters |
| LruCaches.LruCache.Prune | packages/algorithms/src/lru-cache.ts:140-151 | drops exactly the expired entries, keeps the order of the others, and counts what it dropped |
| LruCaches.LruCache.Keys | packages/algorithms/src/lru-cache.ts:154-158 | the keys from most to least recently used |
| LruCaches.LruCache.AddToFront | packages/algorithms/src/lru-cache.ts:179-185 | the forward links spell the list with the node in front and the backward links spell its reverse |
| LruCaches.LruCache.RemoveNode | packages/algorithms/src/lru-cache.ts:187-196 | unlinking the node at any position leaves both link directions spelling the list without it |
| LruCaches.LruCache.MoveToFront | packages/algorithms/src/lru-cache.ts:198-202 | moves one position to the front and keeps map, list and both link directions in step |
| LruSpec.ApplyBounded | packages/algorithms/src/lru-cache.ts:74-151 | every operation keeps the keys distinct and the number of entries within the size |
| LruSpec.RunBounded | packages/algorithms/src/lru-cache.ts:74-151 | so does every run of operations |
| LruRuns.AlwaysByRecency | packages/algorithms/src/lru-cache.ts:74-151 | after every run the entries stand in strictly decreasing order of last use |
| LruRuns.EvictsLeastRecentlyUsed | packages/algorithms/src/lru-cache.ts:106-123 | writing a new key to a full cache forgets exactly one key, the one whose last use is oldest |
| LruRuns.KeepsMostRecentlyUsed | packages/algorithms/src/lru-cache.ts:74-123 | without expiry, deletion or clearing the cache holds exactly the maxSize most recently used keys of the whole history, in order |
| LruRuns.LivesForItsTtl | packages/algorithms/src/lru-cache.ts:74-176 | in every run a key written at t with a positive time to live, and since then not written, removed or pushed out, is found with that value iff now < t + time to live; without one it never expires; get, has and prune drop it from then on |
| Graphs.DirectedGraph.AddNode | packages/algorithms/src/graph.ts:34-42 | adds the node unless present and changes no edge |
| Graphs.DirectedGraph.AddEdge | packages/algorithms/src/graph.ts:53-58 | afterwards the edges are the old ones and this one, missing endpoints exist, and incoming is still the transpose of outgoing |
| Graphs.DirectedGraph.RemoveEdge | packages/algorithms/src/graph.ts:60-64 | removes exactly this edge from both directions and reports whether it existed |
| Graphs.SetEdgeKeeps | packages/algorithms/src/graph.ts:53-64 | rewriting one row of outgoing and one column of incoming keeps them transposes and changes one edge only |
| GraphOrder.Relax | packages/algorithms/src/graph.ts:195-203 | emitting a node takes exactly one off the waited-for predecessors of each successor and queues those that reach zero |
| GraphOrder.StuckIsCyclic | packages/algorithms/src/graph.ts:204-206 | if the queue runs dry early the nodes left over contain a cycle |
| GraphOrder.DependencyOrderIsAcyclic | packages/algorithms/src/graph.ts:182-207 | a full order with predecessors first exists only without a cycle |
| GraphOrder.TopologicalSort | packages/algorithms/src/graph.ts:182-207 | null iff the graph has a cycle; otherwise every node once, each after all its predecessors |
| Graphs.DirectedGraph.TopologicalSort | packages/algorithms/src/graph.ts:182-207 | the same for the graph object, whose incoming lists are always the transpose of its outgoing ones |
| GraphCycles.Walk | packages/algorithms/src/graph.ts:226-268 | the colouring search from one node either closes a real cycle or finishes every node it coloured, successors first |
| GraphCycles.Trace | packages/algorithms/src/graph.ts:242-254 | following the parent map back from the grey edge spells a closed walk along existing edges |
| GraphCycles.FindCycle | packages/algorithms/src/graph.ts:218-274 | what it returns is a closed walk along existing edges, and it returns null iff there is no cycle |
| Graphs.DirectedGraph.FindCycle | packages/algorithms/src/graph.ts:218-274 | so it is non-null in exactly the cases in which topologicalSort is null |
| GraphPaths.BackedIsCyclic | packages/algorithms/src/graph.ts:182-207 | a non-empty set in which every node has a predecessor contains a cycle |
| GraphPaths.FinishOrderIsAcyclic | packages/algorithms/src/graph.ts:218-274 | if the finished list has all successors before each node then no cycle exists |
| GraphSearch.NearIsFound | packages/algorithms/src/graph.ts:97-121 | once everything shallower is expanded, every path of n edges ends in a discovered node of depth at most n |
| GraphSearch.Bfs | packages/algorithms/src/graph.ts:97-121 | exactly the nodes at distance at most maxDepth, each once, in non-decreasing depth, with depth equal to the true distance |
| GraphSearch.TraversalComplete | packages/algorithms/src/graph.ts:97-121 | a fully processed work list is such a traversal |
| Graphs.DirectedGraph.Bfs | packages/algorithms/src/graph.ts:97-121 | the same for the graph object; an unknown start gives the empty list |
| GraphShortest.UndiscoveredIsFar | packages/algorithms/src/graph.ts:145-176 | while the target is undiscovered no path to it is shorter than one more than the layer being expanded |
| GraphShortest.Rebuild | packages/algorithms/src/graph.ts:164-172 | walking the previous map back yields a real path as long as the recorded depth |
| GraphShortest.ShortestPath | packages/algorithms/src/graph.ts:145-176 | a real path of minimum length, or null iff the target cannot be reached |
| Graphs.DirectedGraph.ShortestPath | packages/algorithms/src/graph.ts:145-176 | the same for the graph object |
| GraphComponents.Component | packages/algorithms/src/graph.ts:287-303 | one search collects exactly the undirected class of its start, each node once |
| GraphComponents.ConnectedComponents | packages/algorithms/src/graph.ts:281-305 | the classes of the edges read as undirected links: each listed once, disjoint, covering all nodes |
| Graphs.DirectedGraph.ConnectedComponents | packages/algorithms/src/graph.ts:281-305 | the same for the graph object |
| EditDistance.LevIsShortest | packages/algorithms/src/text.ts:117-160 | the full table gives the least number of insertions, deletions and substitutions: a script of that length exists and none is shorter |
| EditDistance.LevIsMetric | packages/algorithms/src/text.ts:117-160 | zero iff the texts are equal, symmetric (so swapping the arguments is harmless), and subject to the triangle inequality |
| EditDistance.RowsNeverDrop | packages/algorithms/src/text.ts:155 | a lower bound on one row bounds every later row, which is what makes the early exit sound |
| EditDistance.FillRow | packages/algorithms/src/text.ts:140-153 | the row written over the stale one is the next row of the full table, with its minimum |
| EditDistance.EditDistance | packages/algorithms/src/text.ts:126-160 | the exact distance whenever it is within maxDistance, and otherwise a value above maxDistance that does not exceed the true distance |
| EditDistance.SimilarityRatio | packages/algorithms/src/text.ts:163-167 | lies in [0, 1] and is 1 iff the texts are equal |
| BinaryHeaps.BinaryHeap.constructor | packages/algorithms/src/binary-heap.ts:22-31 | Floyd's construction orders the heap and keeps the bag of elements |
| BinaryHeaps.BinaryHeap.SiftUp | packages/algorithms/src/binary-heap.ts:98-110 | restores the heap order above one misplaced element and keeps the bag of elements |
| BinaryHeaps.BinaryHeap.SiftDown | packages/algorithms/src/binary-heap.ts:112-132 | restores the heap order from a position on and keeps the bag of elements |
| BinaryHeaps.BinaryHeap.Push | packages/algorithms/src/binary-heap.ts:47-50 | adds one element and keeps the heap order |
| BinaryHeaps.BinaryHeap.Pop | packages/algorithms/src/binary-heap.ts:53-63 | removes exactly one element, no other being smaller; undefined iff empty |
| BinaryHeaps.BinaryHeap.ReplaceTop | packages/algorithms/src/binary-heap.ts:69-78 | swaps a least element for the given one; on an empty heap it only adds |
| BinaryHeaps.BinaryHeap.DrainSorted | packages/algorithms/src/binary-heap.ts:81-85 | empties the heap into a sorted list of the same elements |
| BinaryHeaps.RootIsLeast | packages/algorithms/src/binary-heap.ts:53-63 | in heap order the root is at most every element |
| PriorityQueues.PriorityQueue.Enqueue | packages/algorithms/src/binary-heap.ts:168-171 | the entry waits behind all others with a new, larger sequence number |
| PriorityQueues.PriorityQueue.Dequeue | packages/algorithms/src/binary-heap.ts:173-175 | serves the first entered of the entries with the least priority and leaves the order of the others alone |
| PriorityQueues.NextIsFirstOfLeast | packages/algorithms/src/binary-heap.ts:143-149 | the entry served has the least priority and among equals was enqueued first |
| PriorityQueues.LeastIsNext | packages/algorithms/src/binary-heap.ts:154-158 | what is least in the heap under the comparator is that entry |
| TopKs.TopK | packages/algorithms/src/top-k.ts:29-63 | min(k, n) of the items in descending score and tie-break order, with no dropped item preferred to a kept one |
| TopKs.Offer | packages/algorithms/src/top-k.ts:46-59 | one more candidate: the heap holds the k best of everything seen so far |
| TopKs.PreferredIsGreater | packages/algorithms/src/top-k.ts:50-58 | the admission test holds iff the candidate ranks strictly above the worst kept entry |
| TopKs.SelectionIsSortThenTake | packages/algorithms/src/top-k.ts:21-28 | a selection agrees with sorting everything and taking k, position by position up to ties, and exactly if there are none |
| MergeTopKs.MergeTopK | packages/algorithms/src/top-k.ts:80-109 | for descending lists, the k largest of their concatenation in descending order |
| MergeTopKs.TakeBest | packages/algorithms/src/top-k.ts:98-107 | the head taken is at least everything left in any list, and the next entry of its list replaces it |
| RollingWindows.RollingOutcomeWindow.constructor | packages/algorithms/src/sliding-window.ts:204-210 | an empty ring with buckets of windowMs / bucketCount milliseconds, at least one |
| RollingWindows.RollingOutcomeWindow.Rotate | packages/algorithms/src/sliding-window.ts:212-228 | advances the ring to the bucket of now for any gap, so that every slot again counts its own bucket |
| RollingWindows.RollingOutcomeWindow.Record | packages/algorithms/src/sliding-window.ts:230-234 | appends one outcome to the full log that the ring summarises |
| RollingWindows.RollingOutcomeWindow.TakeSnapshot | packages/algorithms/src/sliding-window.ts:236-246 | the counts obtained by filtering the full outcome log to the last bucketCount buckets, and their failure rate |
| RollingWindows.RollingOutcomeWindow.Reset | packages/algorithms/src/sliding-window.ts:248-252 | forgets the whole log |
| RollingWindows.RingCountsRecent | packages/algorithms/src/sliding-window.ts:236-246 | adding up the slots of the ring counts exactly the recent part of the log |
| RollingWindows.SnapshotMeans | packages/algorithms/src/sliding-window.ts:236-246 | total and failures are the numbers of recent outcomes and of the failures among them, and the rate times the total is the failures |
| SlidingLogs.TimestampRing.Hit | packages/algorithms/src/sliding-window.ts:141-179 | decides as an unbounded timestamp log would: admitted iff fewer than limit hits lie in the window that ends now |
| SlidingLogs.TimestampRing.Evict | packages/algorithms/src/sliding-window.ts:151-156 | drops the entries at the tail that have left the window and no others |
| SlidingLogs.NoWindowIsOverfull | packages/algorithms/src/sliding-window.ts:124-127 | in every run any limit+1 consecutive admitted hits span at least windowMs |
| SlidingLogs.RetryAfterIsExact | packages/algorithms/src/sliding-window.ts:158-166 | a rejected caller fits from oldest + windowMs on and not before |
| SlidingCounters.WindowIsBounded | packages/algorithms/src/sliding-window.ts:32-41 | in every run the cost admitted within one window length ending at elapsed fraction f is at most limit * (1 + f), less than twice the limit |
| SlidingCounters.CountsAfter | packages/algorithms/src/sliding-window.ts:56-100 | the two counters are always the admitted costs of the two latest fixed windows |
| SlidingCounters.AdmittedByUsage | packages/algorithms/src/sliding-window.ts:69-100 | after any run a request is admitted iff what was admitted in the current fixed window, the still covered part of what was admitted in the one before, and its cost fit the limit; the answer tells the usage |
| SlidingCounters.RemainingIsExact | packages/algorithms/src/sliding-window.ts:84-97 | what remains is the largest whole cost that a further request at the same moment could have |
| SlidingCounters.StaleExactly | packages/algorithms/src/sliding-window.ts:107-117 | counters are pruned from two window lengths after the start of their window on |
| SlidingCounters.PruneChangesNoDecision | packages/algorithms/src/sliding-window.ts:106-117 | every decision of a run with prune calls is the decision of the run without them |
| SlidingCounters.AdviceIsRightExactly | packages/algorithms/src/sliding-window.ts:77-91 | a rejected request is admitted at the advised moment iff the previous window counts and the current count leaves room for it by itself or decays enough in the next window; the current window never admits it sooner |
| SlidingCounters.WaitIsTooShortWithoutHistory | packages/algorithms/src/sliding-window.ts:81-83 | with nothing in the previous window the advised moment is always too early: the request is rejected again there |
| SlidingCounters.AdviceIsTooEarlyWithHistory | packages/algorithms/src/sliding-window.ts:77-91 | a run in which it is too early although the previous window counts |
| SlidingCounters.SlidingWindowCounter.HitKey | packages/algorithms/src/sliding-window.ts:56-100 | answers from the rolled counters of the key and stores them, whatever other keys do |
| SlidingCounters.SlidingWindowCounter.PruneStale | packages/algorithms/src/sliding-window.ts:107-117 | deletes exactly the subjects whose window lies more than one behind, and counts them |
| BreakerSpec.TrialsAreBounded | packages/runtime/src/resilience/circuit-breaker.ts:119-148 | in every interleaving openedAt is null iff closed, and while half-open the trial counter exceeds neither the limit nor the running trials; it is exact if no call was running on entry |
| BreakerSpec.HalfOpenCannotWedge | packages/runtime/src/resilience/circuit-breaker.ts:126-133 | half-open, the next call is admitted whenever fewer trials run than are allowed, whatever older calls are still running; with no trials allowed none ever is |
| BreakerSpec.NothingStartsBeforeReset | packages/runtime/src/resilience/circuit-breaker.ts:119-133 | after the circuit opened, nothing is let in before openedAt + resetTimeoutMs, whatever happens meanwhile |
| BreakerSpec.ClosingNeedsSuccesses | packages/runtime/src/resilience/circuit-breaker.ts:163-170 | a step closes the circuit iff it completes exactly max(1, successesToClose) recorded successes in a row since half-opening |
| BreakerSpec.OpensExactly | packages/runtime/src/resilience/circuit-breaker.ts:172-187 | the circuit opens iff a failure ends while half-open, or, closed, is the one with which the calls that ended lately number at least the volume and the failed ones among them at least the threshold times that |
| BreakerSpec.RetryAfterIsExact | packages/runtime/src/resilience/circuit-breaker.ts:239-242 | an undisturbed open circuit admits a call iff the advised time has passed, which is openedAt + resetTimeoutMs; no other circuit advises a wait |
| BreakerSpec.StepKeeps | packages/runtime/src/resilience/circuit-breaker.ts:119-237 | every start, end and look keeps the meaning of the counters |
| BreakerSpec.TrialsNeverExceed | packages/runtime/src/resilience/circuit-breaker.ts:126-148 | in every half-open moment of every run at most halfOpenMaxCalls + successesToClose - 1 trials run, and none if no trial is allowed |
| BreakerSpec.OlderCallsFreeSlots | packages/runtime/src/resilience/circuit-breaker.ts:143-147 | under every setting with which the circuit can trip and tries at all that many do run: calls begun while closed end while half-open, count as successes, and free a slot each |
| BreakerSpec.LimitHoldsExactly | packages/runtime/src/resilience/circuit-breaker.ts:126-148 | no run exceeds halfOpenMaxCalls iff one success closes, no trial is allowed, or the failure threshold cannot be reached |
| CircuitBreakers.CircuitBreaker.constructor | packages/runtime/src/resilience/circuit-breaker.ts:93-102 | starts closed over an empty window of ten buckets |
| CircuitBreakers.CircuitBreaker.BeginCall | packages/runtime/src/resilience/circuit-breaker.ts:119-133 | lets the call in or rejects it with the waiting time, exactly as the transition function says |
| CircuitBreakers.CircuitBreaker.EndCall | packages/runtime/src/resilience/circuit-breaker.ts:135-148 | records the outcome and gives back the trial slot; opens iff a failure ends a half-open period, or makes the recent outcomes of the full log reach the volume and the failures among them the threshold |
| CircuitBreakers.CircuitBreaker.NoteSuccess | packages/runtime/src/resilience/circuit-breaker.ts:163-170 | records a success in the ring and closes after enough of them |
| CircuitBreakers.CircuitBreaker.NoteFailure | packages/runtime/src/resilience/circuit-breaker.ts:172-187 | records a failure in the ring and opens when half-open or when the ring's counts reach both thresholds |
| CircuitBreakers.CircuitBreaker.GetState | packages/runtime/src/resilience/circuit-breaker.ts:109-112 | reads the state after the pending transition to half-open |
| CircuitBreakers.CircuitBreaker.TakeReport | packages/runtime/src/resilience/circuit-breaker.ts:189-200 | reports the counts of the recent outcomes together with the state |
| CircuitBreakers.CircuitBreaker.Reset | packages/runtime/src/resilience/circuit-breaker.ts:202-208 | back to a fresh breaker |
| QueueRuns.JobsAreConserved | packages/runtime/src/queue/memory-queue.ts:60-242 | in every run each accepted job is in exactly one of ready, delayed, running, failed and completed, so the five counts add up to the accepted jobs |
| QueueRuns.EveryRun | packages/runtime/src/queue/memory-queue.ts:60-242 | in every run no job starts before runAt or more than max(1, maxAttempts) times per acceptance or retry, dead-lettered jobs used every attempt, running jobs stay within the largest concurrency asked for, and no ready job waits while a slot is free |
| QueueRuns.PeakOfOneProcess | packages/runtime/src/queue/memory-queue.ts:93-97 | with one process call that bound is its own concurrency |
| QueueOrders.StartsAsOrdered | packages/runtime/src/queue/memory-queue.ts:60-241 | in every run the job with serial n carries the id, attempts and priority of the n-th accepted call, and is ready or started only from the time of that call plus its delay, of its last failure plus the backoff, or of its revival |
| QueueOrders.AddedWaitsForItsDelay | packages/runtime/src/queue/memory-queue.ts:66-82 | an accepted job is delayed iff its delay is positive |
| QueueOrders.DueJobsAreReady | packages/runtime/src/queue/memory-queue.ts:177-207 | after each event of a working queue no job whose time has come is delayed |
| QueueOrders.ControlsFollowTheCalls | packages/runtime/src/queue/memory-queue.ts:93-160 | a queue works iff a handler was given, it was not closed and not paused last, at the concurrency of the latest process call |
| QueueRuns.StartsAreTheLeast | packages/runtime/src/queue/memory-queue.ts:188-197 | what a step starts is the front of the waiting entries sorted by priority and order of enqueueing; a paused or closed queue starts nothing |
| QueueRuns.TakenAreFirst | packages/runtime/src/queue/memory-queue.ts:193-197 | the entries served come in order and before all that are left |
| QueueRuns.WakesInTime | packages/runtime/src/queue/memory-queue.ts:199-206 | after a tick of a working queue no due job is left delayed, and the timer is armed iff a job waits: for the earliest delayed one, but at least 25 and at most 250 ms ahead |
| QueueRuns.IdsAreNotLiveTwice | packages/runtime/src/queue/memory-queue.ts:63-65 | without retryFailed the known ids are exactly those of waiting and running jobs, each live once |
| QueueRuns.LiveTwiceExactly | packages/runtime/src/queue/memory-queue.ts:60-83 | an event makes a live id live twice iff it adds that id while unknown, or retries a failed job with it |
| QueueRuns.LiveTwice | packages/runtime/src/queue/memory-queue.ts:133-145 | a concrete run in which a retried job's id is live twice, because retryFailed does not put it back among the known ids |
| QueueRuns.RetryAllowsADuplicate | packages/runtime/src/queue/memory-queue.ts:133-145 | from any state with such a failed job, retrying and adding again gives two live jobs with one id |
| QueueRuns.AfterCounts | packages/runtime/src/queue/memory-queue.ts:60-242 | how every event changes the number of live jobs and of all jobs with a given identity or id |
| QueueRuns.DueIsBackwards | packages/runtime/src/queue/memory-queue.ts:177-186 | jobs that come due together are promoted in the reverse of the order in which they were delayed |
| MemoryQueues.MemoryQueue.Add | packages/runtime/src/queue/memory-queue.ts:60-83 | an explicit id already known is dropped; otherwise the job is scheduled and the queue ticks |
| MemoryQueues.MemoryQueue.Process | packages/runtime/src/queue/memory-queue.ts:93-97 | installs the handler with concurrency at least 1 and ticks |
| MemoryQueues.MemoryQueue.Tick | packages/runtime/src/queue/memory-queue.ts:188-207 | promotes, starts jobs while slots are free, and re-arms the timer |
| MemoryQueues.MemoryQueue.PromoteDelayed | packages/runtime/src/queue/memory-queue.ts:177-186 | the backward loop moves exactly the due jobs |
| MemoryQueues.MemoryQueue.StartReady | packages/runtime/src/queue/memory-queue.ts:193-197 | serves as many entries as slots and jobs allow, through the priority queue |
| MemoryQueues.MemoryQueue.HandlerReturned | packages/runtime/src/queue/memory-queue.ts:213-216 | the job is completed, its id forgotten, and the queue ticks |
| MemoryQueues.MemoryQueue.HandlerFailed | packages/runtime/src/queue/memory-queue.ts:217-241 | the job waits for its next attempt or, having none left, is dead-lettered |
| MemoryQueues.MemoryQueue.RetryFailed | packages/runtime/src/queue/memory-queue.ts:133-145 | revives the first failed job with the id, and reports whether there was one |
| MemoryQueues.MemoryQueue.TakeStats | packages/runtime/src/queue/memory-queue.ts:118-127 | the five sizes of the abstract state |
| MemoryQueues.MemoryQueue.Close | packages/runtime/src/queue/memory-queue.ts:156-160 | drains: no timer and no further starts |
| MemoryQueues.MemoryQueue.Resume | packages/runtime/src/queue/memory-queue.ts:151-154 | unpauses and ticks |
| SplitStatements.Split | packages/database/src/client.ts:217-289 | the flag-driven loop returns exactly the trimmed non-empty segments of the script |
| SplitStatements.SplittingIsLossless | packages/database/src/client.ts:217-289 | the raw segments joined by semicolons give back the script |
| SplitStatements.SplitsAtTopLevel | packages/database/src/client.ts:274-279 | a segment ends at a position iff the scanner reaches it outside quotes, comments and dollar bodies and a semicolon stands there |
| SplitStatements.ResultsAreStatements | packages/database/src/client.ts:217-289 | splitting any of the results again gives that result alone |
| SplitStatements.SplitPrintSplit | packages/database/src/client.ts:217-289 | splitting, printing the results separated by lone semicolons and splitting again gives the same statements |
| SplitStatements.PassFindsStatements | packages/database/src/client.ts:226-288 | the left-to-right pass finds the trimmed segments |
| SplitStatements.TrimParts | packages/database/src/client.ts:275 | trimming removes spaces only, at the ends only, and all of them |
| SqlScanner.StepLocal | packages/database/src/client.ts:230-280 | one step of the scanner sees nothing beyond a following space or semicolon |
| SqlScanner.FirstCutLocal | packages/database/src/client.ts:230-280 | so appending such text moves no earlier cut |
| SqlScanner.UpToFirstCut | packages/database/src/client.ts:274-279 | up to its first cut a text is whole and the scanner is outside quotes, comments and dollar bodies |
| SqlScanner.TopLevelFromCut | packages/database/src/client.ts:274-279 | no top-level semicolon lies before the first cut, and behind it the scan starts afresh |
| SqlScanner.SpacesByCodePoint | packages/database/src/client.ts:275 | trimming removes exactly the white space and line terminators of ECMAScript |
| SqlQuoting.TagLengthExactly | packages/database/src/client.ts:265 | a dollar quote is recognised with length n iff the first n characters are two dollars around letters and underscores only |
| SqlQuoting.QuotedTextIsSkipped | packages/database/src/client.ts:230-272 | each of the five kinds of quotation, opener, body without the closer, closer, is passed over as a whole: what follows is cut as if it stood alone |
| SqlQuoting.QuotedTextIsOneStatement | packages/database/src/client.ts:230-279 | by itself it has no top-level position, ends outside quotes, and splits as one statement |
| SqlQuoting.UnclosedTakesTheRest | packages/database/src/client.ts:230-272 | an opener whose closer does not follow quotes everything behind it |
| SqlQuoting.PlainCharacter | packages/database/src/client.ts:274-288 | a character that opens nothing is top level iff it is a semicolon, and scanning goes on behind it |
| SqlQuoting.UnquotedIsCutEverywhere | packages/database/src/client.ts:274-288 | a text in which nothing opens is cut at every semicolon and nowhere else |
| TokenBuckets.RateIsBounded | packages/algorithms/src/token-bucket.ts:66-103 | over any interval of any run the cost admitted for a key is at most capacity plus rate times its length |
| TokenBuckets.TokensStayWithin | packages/algorithms/src/token-bucket.ts:47-103 | tokens stay in [0, capacity] |
| TokenBuckets.RefillTwice | packages/algorithms/src/token-bucket.ts:47-60 | refilling in two steps is refilling in one |
| TokenBuckets.RetryAfterIsExact | packages/algorithms/src/token-bucket.ts:89-102 | a rejected request is admitted undisturbed iff it costs at most the capacity and retryAfterMs has passed; a dearer one never is |
| TokenBuckets.RemainingIsExact | packages/algorithms/src/token-bucket.ts:76-100 | what remains is the largest whole cost that a further request at the same moment could have |
| TokenBuckets.ResetIsExactWithoutTheRequest | packages/algorithms/src/token-bucket.ts:72-74 | a bucket left alone is full from the reset time on and not before |
| TokenBuckets.ResetIsTooEarly | packages/algorithms/src/token-bucket.ts:76-86 | after an admitted request it is full only later than told, by the time its cost takes to come back |
| TokenBuckets.PruneChangesNoDecision | packages/algorithms/src/token-bucket.ts:142-158 | every decision of a run with prune calls is the decision of the run without them |
| TokenBuckets.FullWhenIdle | packages/algorithms/src/token-bucket.ts:146-156 | a bucket that prune drops would have refilled to exactly what a fresh one holds |
| TokenBuckets.IdleExactly | packages/algorithms/src/token-bucket.ts:146-156 | a bucket is dropped iff even an empty one would have regained more than the capacity |
| TokenBuckets.TokenBucketLimiter.TryConsume | packages/algorithms/src/token-bucket.ts:122-129 | consumes from the key's bucket, full if there is none, and stores the result |
| TokenBuckets.TokenBucketLimiter.PruneIdle | packages/algorithms/src/token-bucket.ts:146-158 | the sweep deletes exactly the idle buckets and counts them |
| TokenBuckets.TokenBucketLimiter.Peek | packages/algorithms/src/token-bucket.ts:132-136 | a request of a whole cost would be admitted now iff the cost is at most the answer; nothing is spent |
| RedisBuckets.RedisHash.RunScript | packages/runtime/src/resilience/rate-limiter.ts:119-158 | the script computes admission, tokens left, wait and reset from the refilled bucket and stores it with its expiry |
| RedisBuckets.RedisHash.Check | packages/runtime/src/resilience/rate-limiter.ts:168-193 | the same admission, remaining tokens and wait as consume; the reset time is that after the request, rounded down |
| RedisBuckets.ThousandthsFloor | packages/runtime/src/resilience/rate-limiter.ts:156-191 | scaling tokens to whole thousandths and back does not change the whole tokens |
| RedisBuckets.ResetShifts | packages/runtime/src/resilience/rate-limiter.ts:154 | the script's reset lies later than that of consume by the refill time of an admitted cost |
| RedisBuckets.ExpiryIsHiddenExactly | packages/runtime/src/resilience/rate-limiter.ts:172-173 | expiry of the hash goes unnoticed iff a bucket fills up within the time it is kept |
| RedisBuckets.TwiceTheLimitIsHidden | packages/runtime/src/resilience/rate-limiter.ts:169-173 | a burst of at most twice the limit is enough for that |
| RedisBuckets.ScriptIsTheBucket | packages/runtime/src/resilience/rate-limiter.ts:119-199 | then in every run of requests the script answers as a bucket held in memory, however often the hash expires |
| RedisBuckets.AgreementExactly | packages/runtime/src/resilience/rate-limiter.ts:119-199 | script and memory answer alike in every run from the start iff the burst, or else the limit, is regained within the whole seconds that cover two windows; otherwise emptying the bucket twice tells them apart |
| SlugCollisions.ResolveSlugCollisions | packages/jobs/src/ingestion/normalizer.ts:239-278 | gives every API the slug chosen by the claims so far and the reservations, in order |
| SlugCollisions.ChooseSlug | packages/jobs/src/ingestion/normalizer.ts:253-277 | the own slug, the provider suffix, then -2 to -50: the first that is not taken, else the fingerprint fallback |
| SlugCollisions.SlugByPreference | packages/jobs/src/ingestion/normalizer.ts:253-277 | an API keeps its slug if free when its turn comes; else it gets the one with its provider label, if free; else the one with the least free number from 2 to 50; else that with the first six characters of its fingerprint; nothing else of it changes |
| SlugCollisions.DecimalReadsBack | packages/jobs/src/ingestion/normalizer.ts:264 | the numbers are written in decimal, without leading zeros |
| SlugCollisions.UniqueExactly | packages/jobs/src/ingestion/normalizer.ts:224-238 | the slugs are pairwise distinct and none is reserved by another fingerprint iff no record with all its candidates taken finds its fallback taken too |
| SlugCollisions.SlugsAreUnique | packages/jobs/src/ingestion/normalizer.ts:239-278 | which holds if for each API the APIs before it and its options reserved by others are fewer than fifty: then no record exhausts its candidates |
| SlugCollisions.TakenExactlyOnCollision | packages/jobs/src/ingestion/normalizer.ts:266-276 | a taken slug is given out iff all candidates of the record are taken and so is its fallback |
| SlugCollisions.NumberedAreDistinct | packages/jobs/src/ingestion/normalizer.ts:264 | the numbered candidates are all different |
| SlugCollisions.ReimportIsStable | packages/jobs/src/jobs/ingestion.ts:212-221 | re-resolving any of the records in any order, with the first result added to the reservations, gives each its slug again, if none collided the first time |
| SlugCollisions.ReimportKeepsSlugs | packages/jobs/src/jobs/ingestion.ts:205-221 | the same for whole APIs, with fewer than fifty slugs in the way of each |
| SlugCollisions.ExhaustedRecordsCollide | packages/jobs/src/ingestion/normalizer.ts:273-276 | two exhausted records whose fingerprints share six characters get the same slug |
| SingleFlights.StepOneFlight | packages/runtime/src/cache/cache-service.ts:110-155 | one step keeps the flight of a key single iff it neither deletes the key under a running load nor calls a loader that throws at once |
| SingleFlights.OneLoadAtATime | packages/runtime/src/cache/cache-service.ts:110-155 | throughout an interleaving the map has an entry for the key iff a task for it runs, and only one does, iff no step of it is one of those two |
| SingleFlights.JoinersShareTheOutcome | packages/runtime/src/cache/cache-service.ts:123-125 | a caller that finds a load running starts none and gets that load's outcome, as all its callers do |
| SingleFlights.ThrowingSticks | packages/runtime/src/cache/cache-service.ts:127-148 | a loader that throws before returning a promise leaves a failed entry in the map |
| SingleFlights.StuckUntilDeleted | packages/runtime/src/cache/cache-service.ts:123-149 | until the key is deleted every later caller that misses starts no load and gets that failure |
| SingleFlights.DeleteAllowsTwoLoads | packages/runtime/src/cache/cache-service.ts:151-155 | deleting a key under a running load lets a second load run beside it |
| SingleFlights.FirstClearsSecond | packages/runtime/src/cache/cache-service.ts:141-144 | the first of two such loads to end, however it ends, takes away the entry of the other, so that the next caller starts a third |
| SingleFlights.DeleteBreaksIt | packages/runtime/src/cache/cache-service.ts:110-155 | a run from the start in which a delete lets two loads of a key run |
| SingleFlights.ThrowingBreaksIt | packages/runtime/src/cache/cache-service.ts:127-148 | a run from the start in which a second caller gets the failure of a loader that threw at once |
| SingleFlights.CacheService.JoinOrStart | packages/runtime/src/cache/cache-service.ts:123-148 | joins the promise in the map or puts a new one there |
| InvertedIndexes.InvertedIndex.Add | packages/algorithms/src/inverted-index.ts:106-139 | the index becomes that of the documents with this one put in or replaced; adding it again changes nothing |
| InvertedIndexes.InvertedIndex.Remove | packages/algorithms/src/inverted-index.ts:146-159 | the index becomes that of the documents without this one; reports whether it was there |
| InvertedIndexes.InvertedIndex.Clear | packages/algorithms/src/inverted-index.ts:161-165 | the index of no documents |
| InvertedIndexes.CountTerms | packages/algorithms/src/inverted-index.ts:109-118 | each term with the summed weight of its appearances, listed once, and the weighted length |
| InvertedIndexes.PostingsAfterDrop | packages/algorithms/src/inverted-index.ts:150-155 | dropping the stored terms removes exactly the document's postings and leaves no empty list |
| InvertedIndexes.PostingsAfterAdd | packages/algorithms/src/inverted-index.ts:120-127 | afterwards a term lists a document iff the document holds it, with its frequency |
| InvertedIndexes.TotalWithout | packages/algorithms/src/inverted-index.ts:157 | taking a document's length off keeps the total the exact sum of the others |
| InvertedIndexes.SameDocumentsSameIndex | packages/algorithms/src/inverted-index.ts:102-105 | posting lists are determined by the documents alone, so re-adding is idempotent |
| IndexSearch.Search | packages/algorithms/src/inverted-index.ts:183-239 | the hits are the candidates of a scan of all documents with the scan's scores and matched terms, cut to the best limit of them |
| IndexSearch.ScoreTerm | packages/algorithms/src/inverted-index.ts:195-219 | walking one posting list adds the term's contribution to exactly the documents that hold it |
| IndexSearch.RequireAllExactly | packages/algorithms/src/inverted-index.ts:225 | requireAll selects the documents that hold every term iff no query term is repeated; with a repetition it selects none |
| SearchLaws.RareTermsWeighMore | packages/algorithms/src/inverted-index.ts:167-172 | for an increasing logarithm a term in fewer documents weighs more |
| SearchLaws.TermsWeighMoreAmongMore | packages/algorithms/src/inverted-index.ts:167-172 | more documents raise the weight of a term, which is positive when log 1 is zero |
| SearchLaws.TermInHalfTheDocuments | packages/algorithms/src/inverted-index.ts:167-172 | a term in half of the documents weighs log 2, one in none weighs nothing |
| SearchLaws.LengthDoesNotMatterWithoutB | packages/algorithms/src/inverted-index.ts:204-208 | with b = 0 equal frequencies score equally whatever the lengths |
| SearchLaws.OnlyDensityCountsWithFullB | packages/algorithms/src/inverted-index.ts:204-208 | with b = 1 equal frequency-to-length ratios score equally |
| SearchLaws.AverageLengthIsNeutral | packages/algorithms/src/inverted-index.ts:204-208 | a document of average length scores the same for every b |
| SearchLaws.NormalisationInterpolates | packages/algorithms/src/inverted-index.ts:204-208 | the reciprocal of the score lies the share b of the way from that for b = 0 to that for b = 1 |
| SearchLaws.MoreFrequentScoresMore | packages/algorithms/src/inverted-index.ts:206-208 | at equal lengths the higher frequency scores more |
| SearchLaws.LongerScoresLess | packages/algorithms/src/inverted-index.ts:204-208 | at equal frequencies the longer document scores less |
| SearchLaws.JustTheWeight | packages/algorithms/src/inverted-index.ts:206-208 | without saturation, or once in a document of average length, a term adds its weight |
| SearchLaws.ScoresAreSaturated | packages/algorithms/src/inverted-index.ts:206-208 | a term always adds something, less than k1 + 1 times its weight, and half of that at frequency k1 in a document of average length |
| SearchLaws.QueriesAdd | packages/algorithms/src/inverted-index.ts:195-210 | the terms of a query contribute independently |
| SearchLaws.BoostMultiplies | packages/algorithms/src/inverted-index.ts:226-239 | the boost of a document multiplies its score and changes nothing else |
| SearchLaws.AverageIsMean | packages/algorithms/src/inverted-index.ts:98-100 | the average length is the mean over the documents |
| BestLists.MergeParts | packages/algorithms/src/trie.ts:136-148 | the merged entry replaces its namesake, takes a free place or that of the last, or is left out; the list stays sorted, free of repetitions and within its cap |
| BestLists.MergeIsExact | packages/algorithms/src/trie.ts:136-148 | the list stays the true best of the terms below iff the entry does not replace a listed one while something left out scores more |
| BestLists.RisingScoreIsSafe | packages/algorithms/src/trie.ts:136-148 | in particular whenever the score does not fall |
| BestLists.FallingScoreHidesABetterTerm | packages/algorithms/src/trie.ts:136-148 | a concrete list where lowering a score hides a better term |
| Tries.Trie.Insert | packages/algorithms/src/trie.ts:49-70 | merges the entry into exactly the prefixes of its key, keeps every list sorted and capped, and keeps all of them true if spelling stays and the score does not fall |
| Tries.Trie.Suggest | packages/algorithms/src/trie.ts:89-95 | the head of the cached list: the best terms below the prefix, as sorting the subtree would give |
| Tries.Trie.Lookup | packages/algorithms/src/trie.ts:77-79 | the entry under exactly this key |
| BestLists.MergeSuperseding | packages/algorithms/src/trie.ts:136-148 | when the entry takes the place of one with another term, the list stays the true best iff the former one was not listed, or was last in a full list and scored less |
| Tries.InsertIsExact | packages/algorithms/src/trie.ts:49-70 | after any insertion, with the same or another spelling, the list of each prefix is true iff that prefix is not disturbed |
| Tries.HeadOfTop | packages/algorithms/src/trie.ts:89-95 | a shorter list of the best is the head of a longer one |
| BoundedMaps.EveryIndexOnce | packages/runtime/src/resilience/retry.ts:177-201 | in every interleaving each index is handed out at most once and never lost, at most `concurrency` workers run, and no started runner is idle while an index is left |
| BoundedMaps.AllResultsAtTheEnd | packages/runtime/src/resilience/retry.ts:185-200 | when the runners have stopped every item has its result iff concurrency is at least 1 or there are no items |
| BoundedMaps.SharedState.NextIndex | packages/runtime/src/resilience/retry.ts:186-189 | takes the index at the cursor, or stops behind the last one |
| BoundedMaps.SharedState.StoreResult | packages/runtime/src/resilience/retry.ts:191-195 | the outcome goes to the place of its own item, and the runner goes on |
| Locks.MutualExclusion | packages/runtime/src/resilience/lock.ts:120-154 | in every run no two holders believe at the same time that they have the lock of a key, and nobody else is granted it then |
| Locks.GrantedExactly | packages/runtime/src/resilience/lock.ts:130-138 | in every run a lock is granted iff no holder has been told to hold it any longer, with the expiry asked for; a refusal changes nothing |
| Locks.HoldersCanExtendAndRelease | packages/runtime/src/resilience/lock.ts:143-152 | in every run a holder that still has the lock can extend it, and releasing frees it for the next |
| Locks.AGrantEndsOlderHandles | packages/runtime/src/resilience/lock.ts:143-148 | once a lock is granted again no older handle ever owns it, so a successful extend proves nobody else was granted it since |
| Locks.LostForGood | packages/runtime/src/resilience/lock.ts:143-152 | a lock once lost is never owned by the same token again |
| Locks.StaleTokensAreHarmless | packages/runtime/src/resilience/lock.ts:143-152 | whatever happens after a lock is lost, extending or releasing with that token changes no lock |
| Locks.MemoryLockProvider.AcquireLock | packages/runtime/src/resilience/lock.ts:130-138 | grants a fresh lease iff none is live |
| Locks.MemoryLockProvider.ExtendLock | packages/runtime/src/resilience/lock.ts:143-148 | renews the lease iff the lock still carries the token |
| Locks.MemoryLockProvider.ReleaseLock | packages/runtime/src/resilience/lock.ts:149-152 | deletes the lock iff it still carries the token |
| Histograms.Histogram.Observe | packages/runtime/src/metrics.ts:43-59 | counts the sample in the first bucket whose bound it does not exceed, and keeps the smallest and the largest sample |
| Histograms.Histogram.FirstReaching | packages/runtime/src/metrics.ts:71-80 | the upper end of the very bucket that holds the true quantile sample; for the bucket behind all bounds that is the largest sample |
| Histograms.Histogram.TakeQuantiles | packages/runtime/src/metrics.ts:96-98 | each of the three estimates is the upper end of the bucket of the true quantile |
| Histograms.FirstBoundEstimates | packages/runtime/src/metrics.ts:71-77 | the first bound that enough samples reach ends the bucket of the quantile |
| Histograms.BucketsCountAtMost | packages/runtime/src/metrics.ts:61-67 | cumulative bucket counts are the numbers of samples up to each bound |
| HealthStates.StatusOfRun | packages/domain/src/health-scoring.ts:97-154 | after any run of probes the public status is determined by the latest two and by whether there was an earlier one |
| HealthStates.IncidentsAlternate | packages/domain/src/health-scoring.ts:72-75 | in every run incidents are opened and resolved in turn, one being open iff the status is down |
| HealthStates.ArrowsOfTheDiagram | packages/domain/src/health-scoring.ts:89-96 | changed iff the public status differs, and an incident opened or resolved iff it changes to or from down; a change follows the documented diagram iff it is not a degraded probe that comes first or while down; up never leads directly to down |

## Left out

- Routes, repositories, SQL schemas, migrations, the web application and network code: input and output around services that are not visible.
- Hashing, URL and Unicode normalisation, text analysis and stemming: fingerprints, keys and terms are given values.
- Constructor arguments the code rejects with a RangeError are preconditions of the constructors.
- NaN, undefined elements and infinities other than the missing limits and waits that are modelled as options.
- Uint32 overflow of the outcome buckets, and clocks that go back.
- Functions passed in by a caller (comparators, scores, handlers, loaders) are total, do not throw unless the model says so, and do not call back into the structure synchronously.
- DirectedGraph: edge labels, weights and node data, the reading accessors and dfs, which would only add easy members.
- LruCaches.LruCache.Keys: the stats accessor, which copies the counters, is not modelled.
- EditDistance.EditDistance: a fractional maxDistance is not modelled.
- topKScored and reciprocalRankFusion: the first only unwraps topK, the second is a sum followed by a sort.
- PriorityQueue: peek and dequeueBatch, which repeat what dequeue does.
- SlidingLogs.TimestampRing.Hit: one subject at a time; the map from subjects to rings is not modelled.
- CircuitBreakers.CircuitBreaker.EndCall: the registry of breakers and its eviction, logging, and reset during a run are not part of the run theorems.
- MemoryQueues.MemoryQueue.HandlerFailed: the backoff delay is any value, so its half-jitter range is not stated; repeat timers and the waiting loop of close are not modelled.
- MemoryQueues.MemoryQueue.Add: payloads and time stamps, and the empty string as an explicit id, which the original does not deduplicate; generated ids are assumed to be new.
- SplitStatements.Split: characters are Unicode scalar values rather than UTF-16 code units; no unit the scanner distinguishes is affected.
- RedisBuckets.RedisHash.Check: the fallback to the local limiter when Redis fails, and number formatting inside Redis.
- SlugCollisions.ReimportIsStable, and SlugCollisions.ReimportKeepsSlugs: the records must not contain the same fingerprint twice, which the ingestion job guarantees before it calls.
- SingleFlights.CacheService.JoinOrStart: the cached stores themselves, the second tier, negative caching and time-to-live jitter; a miss is an event that may happen at any time.
- InvertedIndexes.InvertedIndex.Add: payloads; IndexSearch.Search assumes positive field weights and treats the logarithm as any function.
- Tries.Trie.Insert: nodes are found through their prefix in one map instead of being linked through child maps, so creation and sharing of node objects is not modelled; payloads and collect are left out.
- Locks.MemoryLockProvider.AcquireLock: the Redis provider, whose scripts take the same decisions, and prune as a loop; the transition of prune is part of the run theorems.
- BoundedMaps.SharedState.StoreResult: a worker that throws before returning a promise is the interleaving in which it ends at once.
- Histograms.Histogram.TakeQuantiles: the mean and the bucket list of a snapshot; bounds are given sorted.
- HealthStates.StatusOfRun: reliability scores, percentiles and the delay until the next check.
- Bloom filter, chunking, ranking weights, pagination, backoff arithmetic and address classification: not part of this model.
