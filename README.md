# SixDegrees in Dafny

A model of the `SixDegrees` class: an undirected actor co-occurrence
multigraph built from movie cast lists, and the algorithms that read it.

- **Graph store** (`graph.dfy`, module `Graphs`; the class in
  `six_degrees.dfy`). `people` maps an actor's name to an ordered list of
  `(person, movie)` entries.
  - `createNode` installs an empty list.
  - `addEdge` creates the missing endpoints and appends a mirrored entry
    to both lists.
  - The pair loop of `populateGraph` adds one edge for every pair `i < j`
    of a cast list, in loop order.
  - These are methods of the class `SixDegrees.SixDegrees`, which
    reassigns its `people` field. Each is proved equal to a value-level
    function: `AddEdgeTo`, and `AddCastTo` (built from `LinkAll`).
  - The lemmas about those functions cover three things:
    - A symmetry invariant: the number of `(y, m)` entries in `x`'s list
      equals the number of `(x, m)` entries in `y`'s list.
    - Closure: every named actor is a node.
    - Exact changes to degrees and to the sum of all list lengths.
- **Random walk** (`walks.dfy`, module `Walks`).
  - `randomWalk` takes `steps` steps. Each step picks an entry of the
    current actor's list and records the actor it names.
  - The random index of each step is supplied by the caller as a draw.
  - The loop is proved to compute `WalkOf`. Every recorded name is in
    the list of the actor before it.
- **Degree extremes**: `maxDegree`, `minDegree` and `smallDegree`.
  - `maxDegree` and `minDegree` are two key scans each and return the
    extreme and the set of actors at it; `smallDegree` is one scan and
    returns the set. None of them prints.
  - They keep the source's seeds: 0 for the maximum and 100 for the
    minimum.
- **Popularity** (`popularity.dfy`, module `Popularity`).
  - `mostPopular` tallies visits over one walk per trial.
  - It then runs five selection rounds. Each round finds the maximum
    count, reports every actor at that count, and removes the last one
    found.
  - The tally is proved to equal the number of occurrences across the
    walks.
  - The rounds are proved to report exactly the tied actors, with
    non-increasing counts.
- **Shortest path** (`paths.dfy`, module `Paths`).
  - `findShortestPath` is a breadth-first search with a FIFO queue and a
    `camefrom` predecessor map, rebuilt from the predecessors when the
    target turns up.
  - The loop invariants are stated as ghost predicates: predecessor
    records linked back one hop at a time, a layered queue without
    repeats, and finished actors. A ghost hop count `dist` and a ghost
    set `done` of finished actors support them.
  - The result is proved to be a walk from the source to the target, and
    no walk of one hop or more is shorter.
  - "No path" is proved to mean that no walk of one hop or more reaches
    the target.
  - Termination is by the number of unfinished nodes.
  - The reconstruction as the source writes it is modelled separately;
    see "## Findings".

Behaviour kept from the code where a natural reading of the program differs:

- **`minDegree` seed.** `minDegree` seeds its scan at 100, not at
  infinity. When every degree exceeds 100, it reports 100 and an empty set.
- **Isolated actors in `maxDegree`.** `maxDegree` seeds its scan at 0. In
  a graph whose degrees are all 0, every actor is reported.
- **`findShortestPath(a, a)`.** There is no zero-length case.
  - The search finds the first polled actor whose list names `a`.
  - The reconstruction only stops when it reaches the source's `null`
    predecessor. Its `!=` compares references, and the graph's strings
    are not the caller's.
  - So the result is a shortest round trip of one hop or more.
  - When `a` has no neighbours, the result is "no path".
- **Tied actors in a round.** Which tied actor a round removes depends on
  `HashMap` iteration order. The model leaves that choice open: the
  removed actor is any actor at the round's maximum, or `""` once the
  tally is empty.
- **Failures.** A missing list, an empty list or an empty actor set makes
  the source throw, not return an error value. The model states those
  situations as preconditions.

## Model

| member | source | states |
|---|---|---|
| SixDegrees.SixDegrees.constructor | src/SixDegrees.java:37-39 | the graph starts empty and symmetric |
| SixDegrees.SixDegrees.CreateNode | src/SixDegrees.java:77-80 | `a` maps to an empty list and every other actor's list is unchanged |
| SixDegrees.SixDegrees.AddEdge | src/SixDegrees.java:84-108 | the new graph is `AddEdgeTo` of the old one, and a closed symmetric graph stays closed and symmetric |
| SixDegrees.SixDegrees.AddCast | src/SixDegrees.java:63-67 | the outer pair loop, one `LinkRow` per row, leaves `AddCastTo` of the old graph (one `addEdge` per pair i < j, in loop order) and keeps the graph closed and symmetric |
| SixDegrees.SixDegrees.LinkRow | src/SixDegrees.java:64-66 | the inner loop of row i calls `addEdge(cast[i], cast[j], movie)` for each j > i in order, leaving `LinkFrom` of the old graph, and keeps the graph closed and symmetric |
| SixDegrees.SixDegrees.RandomWalk | src/SixDegrees.java:116-134 | returns exactly max(steps, 0) names, equal to `WalkOf` the draws; the first name is in the start's list, each later one in its predecessor's list; the graph is not modified |
| SixDegrees.SixDegrees.MaxDegree | src/SixDegrees.java:143-161 | the result bounds every degree and is attained (0 on an empty graph); the set is exactly the actors at that degree |
| SixDegrees.SixDegrees.MinDegree | src/SixDegrees.java:165-183 | the result is at most the seed 100, at most every degree, and attained when below 100; the set is exactly the actors at that degree (empty when all degrees exceed 100) |
| SixDegrees.SixDegrees.SmallDegree | src/SixDegrees.java:185-196 | the set is exactly the actors with at most 3 entries |
| SixDegrees.SixDegrees.MostPopular | src/SixDegrees.java:204-244 | after one walk per trial, the tally holds exactly the visited actors, each with its number of occurrences across all walks; five selection rounds follow, each reporting the tied maximum of what remains |
| SixDegrees.SixDegrees.FindShortestPath | src/SixDegrees.java:249-306 | a found path is a walk of one hop or more from `a` that ends at `b`, and no such walk is shorter; "no path" only when no walk of one hop or more ends at `b` |
| Graphs.AddEdgeTo | src/SixDegrees.java:84-108 | both endpoints become keys; a's list gains (b, movie) and b's list gains (a, movie) at the end (a self-loop gains both entries); existing lists are never reset; every other list is unchanged |
| Graphs.AddEdgeLinks | src/SixDegrees.java:96-106 | one insertion raises the count of (a to b, movie) and of (b to a, movie) by one each and changes no other link count |
| Graphs.AddEdgeSymmetric | src/SixDegrees.java:96-106 | edge insertion preserves symmetry, self-loops included |
| Graphs.AddEdgeClosed | src/SixDegrees.java:86-92 | creating the missing endpoints keeps every named actor a node |
| Graphs.AddEdgeWellFormed | src/SixDegrees.java:84-108 | edge insertion keeps the graph closed and symmetric |
| Graphs.AddEdgeDegreeSum | src/SixDegrees.java:96-106 | edge insertion raises the sum of all list lengths by exactly 2, self-loops included |
| Graphs.LinkAll | src/SixDegrees.java:64-66 | one row of the pair loop, `addEdge(a, others[j], movie)` for each j in order, drops no node and leaves the list of every actor outside the row untouched |
| Graphs.AddCastTo | src/SixDegrees.java:63-67 | the pair loop over a cast, row by row, drops no node and leaves the list of every actor outside the cast untouched |
| Graphs.LinkFromAll | src/SixDegrees.java:64-66 | the inner loop counted by index from j is the row `LinkAll` over `cast[j..]` |
| Graphs.AddCastFromAll | src/SixDegrees.java:63-67 | the outer loop counted by index from row i is `AddCastTo` over `cast[i..]` |
| Graphs.LinkAllWellFormed | src/SixDegrees.java:64-66 | one row of the pair loop keeps the graph closed and symmetric |
| Graphs.AddCastWellFormed | src/SixDegrees.java:63-67 | the whole pair loop keeps the graph closed and symmetric |
| Graphs.LinkAllKeys | src/SixDegrees.java:64-66 | after one row, the keys are the old keys plus the row's actor and partners (none when there are no partners) |
| Graphs.AddCastKeys | src/SixDegrees.java:63-67 | after a cast, the keys are the old keys plus the cast when it has two or more actors |
| Graphs.LinkAllDeg | src/SixDegrees.java:64-66 | linking an actor to distinct partners raises its degree by their number and each partner's degree by one |
| Graphs.AddCastDeg | src/SixDegrees.java:63-67 | a cast of k distinct actors raises each member's degree by k - 1 and leaves every other degree alone |
| Graphs.LinkAllDegreeSum | src/SixDegrees.java:64-66 | one row with n partners raises the degree sum by 2n |
| Graphs.AddCastDegreeSum | src/SixDegrees.java:63-67 | a cast of k actors raises the degree sum by k(k - 1), that is k(k - 1)/2 edges |
| Graphs.AddCastPairEntries | src/SixDegrees.java:63-67 | the degree sum grows by the pair loop's entry count, two per iteration of the inner loop |
| Walks.WalkOf | src/SixDegrees.java:119-131 | the walk driven by n draws records exactly n names, the start not among them |
| Walks.WalkOfSteps | src/SixDegrees.java:119-131 | every name of a drawn walk lies in the list of the actor before it |
| Walks.WalkOfDraws | src/SixDegrees.java:123-131 | step i records the person of entry `draws[i]` of the list of the actor the walk stands on |
| Walks.WalksOf | src/SixDegrees.java:207-211 | the trials give one walk each |
| Walks.WalksOfExtend | src/SixDegrees.java:207-211 | the walks of the first i + 1 trials are those of the first i plus trial i's walk |
| Walks.WalksOfAt | src/SixDegrees.java:207-211 | trial i's walk starts at trial i's start and follows trial i's draws |
| Popularity.VisitsPositive | src/SixDegrees.java:213-222 | an actor's visit count is positive exactly when it occurs in some walk |
| Popularity.CountVisits | src/SixDegrees.java:213-222 | after one walk, an actor has an entry exactly when it had one or occurs in the walk, and its count grows by its occurrences in the walk |
| Popularity.TallyStep | src/SixDegrees.java:207-222 | a tally of some walks plus one walk's visits is the tally of all of them; keys are exactly the visited actors |
| Popularity.SelectRound | src/SixDegrees.java:225-241 | the round's count is the largest remaining count (0 when none remain); its actors are exactly those at that count; the removed actor is one of them, or "" when none remain |
| Popularity.SelectTop | src/SixDegrees.java:224-242 | runs exactly the requested number of rounds, each a round of the tally minus the actors removed before it |
| Popularity.SelectionExtend | src/SixDegrees.java:224-242 | one more round over what remains extends the selection |
| Popularity.Remaining | src/SixDegrees.java:241 | removing the earlier rounds' actors only drops entries: no actor is added and every remaining count is the tallied one |
| Popularity.SelectionAt | src/SixDegrees.java:225-241 | round r is a round over the tally minus the first r removed actors |
| Popularity.RemainingAt | src/SixDegrees.java:241 | after r rounds, an actor remains exactly when it was tallied and not yet removed, with its tallied count |
| Popularity.CountsNonIncreasing | src/SixDegrees.java:225-241 | each round's count is at most the previous round's |
| Popularity.ReportedCounts | src/SixDegrees.java:234-240 | every actor a round reports was tallied with exactly the round's count |
| Popularity.HigherReportedEarlier | src/SixDegrees.java:225-241 | an actor counted above round r's maximum was reported and removed in an earlier round |
| Popularity.RemovesAtMostOne | src/SixDegrees.java:241 | each round shrinks the tally by at most one actor |
| Paths.Reconstruct | src/SixDegrees.java:271-284 | following predecessors back to the source's empty record yields a walk from the source to the entry that named the target, one hop more than the current actor's hop count |
| Paths.VisitFront | src/SixDegrees.java:266-301 | polling the front and scanning its list either returns a shortest walk to the target or finishes the actor and restores the main loop's invariant |
| Paths.SearchStart | src/SixDegrees.java:262-263 | the source queued with an empty record satisfies the main loop's invariant |
| Paths.FinishShrinks | src/SixDegrees.java:265-301 | finishing an actor shrinks the number of unfinished nodes, so the main loop terminates |
| Paths.StartScan | src/SixDegrees.java:266-270 | the polled actor is visited, not queued again, not finished, and at the lowest hop count in the queue |
| Paths.ScanSkip | src/SixDegrees.java:291-292 | an entry naming an already visited actor other than the target leaves the state valid |
| Paths.ScanEnqueue | src/SixDegrees.java:292-299 | recording `current` as an unvisited actor's predecessor and queuing it keeps the records linked back, the queue layered and without repeats |
| Paths.EnqueueChain | src/SixDegrees.java:295-296 | the new predecessor record links back through an entry of `current`'s list naming the new actor |
| Paths.EnqueueBookkeeping | src/SixDegrees.java:292-299 | queuing an unvisited actor keeps the records, the queue's layering and the finished actors |
| Paths.EnqueueFrontier | src/SixDegrees.java:292-299 | queuing an unvisited actor one hop beyond `current` completes the scan of that entry |
| Paths.EnqueueFinished | src/SixDegrees.java:296 | a record for a new actor leaves finished actors finished |
| Paths.EnqueueLayered | src/SixDegrees.java:294 | appending an actor one hop beyond the front keeps queue hop counts non-decreasing and within one of each other |
| Paths.EnqueueScanned | src/SixDegrees.java:292-299 | the scanned entries of `current` still name visited, non-target actors at most one hop further |
| Paths.FinishScan | src/SixDegrees.java:270-301 | a fully scanned actor without the target in its list is finished and the main loop's invariant holds again |
| Paths.FoundSettled | src/SixDegrees.java:271 | when the target turns up, every actor closer than `current` has been finished |
| Paths.FoundShortest | src/SixDegrees.java:271 | when the target turns up in `current`'s list, no walk to it is shorter than one hop beyond `current` |
| Paths.EmptySettled | src/SixDegrees.java:265 | when the queue is empty, every visited actor has been finished |
| Paths.ExhaustedNoWalk | src/SixDegrees.java:265-303 | when the queue runs empty, no walk of one hop or more reaches the target |
| Paths.ShortWalksEndDone | src/SixDegrees.java:262-301 | a walk shorter than the settled bound ends at a finished actor whose hop count is at most the walk's length |
| Paths.NoEarlyArrival | src/SixDegrees.java:262-301 | no walk of one hop up to the settled bound reaches the target |
| Paths.Overwritten | src/SixDegrees.java:275 | overwriting entry k of c's list changes only that entry's person and keeps every key, list length and other entry |
| Paths.ReconstructAsWritten | src/SixDegrees.java:272-284 | the reconstruction as written counts dist + 1 hops and leaves the target's entry naming the source |
| Paths.OverwriteTwice | src/SixDegrees.java:275 | a second overwrite of the same entry replaces the first |
| Paths.OverwriteLinks | src/SixDegrees.java:275 | the overwrite moves one link count of c from the old person to the new one and leaves other actors' lists alone |
| Paths.OverwriteBreaksSymmetry | src/SixDegrees.java:275 | whenever the overwrite changes the entry, the graph is no longer symmetric |
| Paths.ExampleGraphShape | src/SixDegrees.java:84-108 | inserting A-X in M1 then X-B in M2 gives a symmetric graph in which X's list names A, then B |
| Paths.OverwriteExample | src/SixDegrees.java:272-284 | on that graph, a search from A to B leaves X's list naming A twice, and the graph is not symmetric |

## Left out

- File reading and `main` (src/SixDegrees.java:46-60, 312-333): I/O and argument handling. `AddCast` takes the movie and the cast list of one line.
- Console output: every `println` is replaced by the returned values. The order in which names were concatenated is not kept; the degree methods and the selection rounds return sets.
- `Math.random()` and `new Random()`: the random index of each walk step and the random start of each trial are supplied by the caller as `draws` and `starts`.
- The 10000 trials and 100 steps of `mostPopular` are parameters: the number of starts and `steps`.
- `HashMap` iteration order: the scans pick keys in an unspecified order, and which tied actor a selection round removes is left open.
- Exceptions: a walk from an actor whose list is absent or empty, `mostPopular` on an empty graph, and a search from an absent actor or through an actor without a list are preconditions, not modelled failures.
- `FindShortestPath` requires only that every named actor is a node, not symmetry, because the search needs no more.
- The `queue.contains` check (src/SixDegrees.java:292) is not modelled: an actor is queued only when it is first recorded in `camefrom`, so the check never changes the outcome.
- The reconstruction's reference comparison and its catch of a null-pointer exception (src/SixDegrees.java:273, 278-284): both reconstructions stop at the source's empty predecessor record, which is where the source's loop always ends.
- Popularity.CountVisits: does not model 32-bit `int` overflow of the counts, because 10000 walks of 100 steps stay far below 2^31.
- SixDegrees.SixDegrees.CreateNode: does not promise the symmetry invariant, because on an existing key it discards that actor's list; `addEdge` calls it only for absent keys.

## Findings

| source | as written | input that shows it | evidently intended | confidence | as-written member | corrected member |
|---|---|---|---|---|---|---|
| src/SixDegrees.java:273-284 | the reconstruction assigns each actor on the path to `pmovie.person`, where `pmovie` is the graph's own entry that named the target; the entry is left naming the source and the graph loses its symmetry | edges A-X in M1 and X-B in M2, then `findShortestPath("A", "B")`: X's list becomes (A, M1), (A, M2) while B's list still holds (X, M2) | walk the predecessor records into a separate path without touching the graph | not executed | Paths.ReconstructAsWritten, Paths.OverwriteBreaksSymmetry, Paths.OverwriteExample | Paths.Reconstruct, SixDegrees.SixDegrees.FindShortestPath |
