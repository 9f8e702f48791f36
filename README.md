# Witness path search of edge-based Contraction Hierarchies, in Dafny

This project models `WitnessPathSearcher` of GraphHopper's edge-based
Contraction Hierarchies (CH) preparation, and proves properties of the model.
When node x (the *center node*) is about to be contracted, the searcher runs
an edge-based, turn-cost-aware Dijkstra search. It starts from an original
edge entering the neighbour s (the *source edge*). For each target edge
leaving a neighbour t, it decides one of two things:

- the best path is a *bridge path*: s → x, any number of loops at x, then
  x → t. The contraction must then add a shortcut.
- a *witness path* that avoids x is at least as good.

The shortest path tree is not thrown away between target edges. To keep the
search cheap, a limit on settled edges stops expanding entries that cannot
become a bridge path. The limit adapts from batch statistics.

The model is imperative where the source is:

- `WitnessPathSearching.WitnessPathSearcher` is a class.
- The tree is an `array<TreeRow>` indexed by edge key. Each `TreeRow` holds
  what the six parallel arrays `weights`, `edges`, `incEdges`, `parents`,
  `adjNodes` and `isPotentialBridgePaths` hold for that key.
- `changedEdges` is a `seq` and `initialEntryParents` a `map`; the methods
  reassign both.
- The Dijkstra heap is a `MinHeap` object.

Each method is proved against a pure description of the step it performs.
`State()` reads the whole tree as one `TreeState` value, and `Best()` reads
the best path. For example:

- `RelaxEdge` ensures `State() == Relax(…)`.
- `ExpandEntry` ensures `State() == Expand(…)`.
- `SetInitialEntries` ensures `IsSeeded(State(), InitialSeeds(…))`.

Lemmas about those functions carry the properties of the search:

- the tree invariant `TreeInv` is preserved by every step;
- the best path is always one the tree attains (`BestAttained`);
- the result chain of a bridge path runs s → x … x → t.

Modules:

| file | module | what it holds |
|---|---|---|
| weights.dfy | Weights | doubles with +infinity as `Weight = Fin(real) \| Inf`, their order, `+` and `-` |
| graph.dfy | Graphs | the collaborators the search consults (CH graph explorers, levels, turn weighting, edge keys) as total functions, and what the search relies on about them |
| key_log.dfy | KeyLog | the change log with a position index that makes "each key logged once" cheap to state |
| heap.dfy | DijkstraHeap | the interface of the heap (`insert_`, `update_`, `peek_element`, `poll_element`, `clear`) over a map from key to priority |
| search_rules.dfy | SearchRules | `calcTurnWeight`, `isContracted`, the tie-break of `updateBestPath`, and a fold describing the first loop of `setInitialEntries` |
| search_tree.dfy | ShortestPathTree | the tree as a value, its invariant, and poll, discover, improve, relax and expand as functions proved to keep it |
| best_path.dfy | BestPaths | the best path, `updateBestPath` as a function, and the chain of entries runSearch hands out |
| initial_entries.dfy | InitialEntries | the tree setInitialEntries leaves behind, and the proof that it satisfies the invariant |
| witness_path_searcher.dfy | WitnessPathSearching | the `Stats` and `WitnessPathSearcher` classes |

Facts of the source the model keeps:

- `parentKey = -key - 1` marks an initial entry (`RootParent`).
- An initial entry is rewritten only by a strictly lighter candidate with the same key.
- A key is logged only when it is first written.
- `numPotentialBridgePaths` is incremented by `setEntry` and in the second loop of
  `setInitialEntries`. It is adjusted both ways by `updateEntry` and decremented on
  each poll of a flagged key.
- The stop test on the peeked entry is a strict `weights[currKey] > bestPathWeight`.
  The entry is only peeked, so it stays on the heap.
- The limit test is `numSettledEdges > maxSettledEdges && !isPotentialBridgePaths[currKey]`,
  and it runs after the poll.
- `numSettledEdges` grows after the expansion, also when no out edge was relaxed.
- u-turns are skipped by comparing the first original edge with `incEdges[currKey]`.
- An infinite weight is skipped.
- A bridge path must beat the best path strictly. A witness path may undercut it by
  `1e-6` and still take over.
- `initSearch` returns `dijkstraHeap.getSize()`, the number of *distinct* initial keys.
  It returns 0 after a second reset when no initial entry is flagged.
- `Config` defaults are `sigmaFactor = 3.0`, `minimumMaxSettledEdges = 100` and
  `settledEdgeStatsResetInterval = 10000` (`SearchRules.DefaultConfig`).

## Model

| member | source | states |
|---|---|---|
| Weights.Add | core/src/main/java/com/graphhopper/routing/ch/WitnessPathSearcher.java:221-222 | the sum is infinite iff an operand is; the sum of non-negative weights is non-negative and no lighter than either operand |
| Weights.Sub | core/src/main/java/com/graphhopper/routing/ch/WitnessPathSearcher.java:405-406 | subtracting the tolerance keeps infinity infinite and never makes a weight heavier |
| Graphs.KeyDeterminesNode | core/src/main/java/com/graphhopper/routing/ch/WitnessPathSearcher.java:455-457 | equal edge keys come from the same last original edge and arrival node |
| Graphs.GetEdgeKey | core/src/main/java/com/graphhopper/routing/ch/WitnessPathSearcher.java:455-457 | on a graph with injective keys, the key names the last original edge and arrival node it was formed from |
| SearchRules.CalcTurnWeight | core/src/main/java/com/graphhopper/routing/ch/WitnessPathSearcher.java:459-464 | a turn from an original edge onto itself is infinite; any other turn is the turn weighting's cost, non-negative on a well-formed graph |
| SearchRules.IsContracted | core/src/main/java/com/graphhopper/routing/ch/WitnessPathSearcher.java:466-468 | a node counts as contracted iff its level differs from the number of nodes; the search never enters one (`ShortestPathTree.NoEntryAtContractedNode`) |
| SearchRules.Replaces | core/src/main/java/com/graphhopper/routing/ch/WitnessPathSearcher.java:403-410 | a candidate replaces the best path iff its weight minus the tolerance (zero for a bridge path, 1e-6 for a witness) is strictly below the best weight; the tie-break lemmas below state its consequences |
| SearchRules.BridgeReplacesOnlyIfStrictlyBetter | core/src/main/java/com/graphhopper/routing/ch/WitnessPathSearcher.java:403-410 | a bridge path replaces the best path iff it is strictly lighter |
| SearchRules.TieFavoursWitness | core/src/main/java/com/graphhopper/routing/ch/WitnessPathSearcher.java:404-406 | on equal finite weights a witness path replaces the best path and a bridge path does not |
| SearchRules.StrictlyBetterAlwaysReplaces | core/src/main/java/com/graphhopper/routing/ch/WitnessPathSearcher.java:405-410 | a strictly lighter candidate replaces the best path whatever its kind |
| SearchRules.InfiniteNeverReplaces | core/src/main/java/com/graphhopper/routing/ch/WitnessPathSearcher.java:406 | an infinite candidate never becomes the best path |
| SearchRules.SeedStep | core/src/main/java/com/graphhopper/routing/ch/WitnessPathSearcher.java:314-352 | one round of the first loop of setInitialEntries: a written key stays written and only gets lighter, and at most one key joins the log, at its end |
| SearchRules.Seeds | core/src/main/java/com/graphhopper/routing/ch/WitnessPathSearcher.java:312-353 | the first loop over the first n out edges of the source node logs at most n keys |
| SearchRules.InitialSeeds | core/src/main/java/com/graphhopper/routing/ch/WitnessPathSearcher.java:311-353 | the first loop over all out edges of the source node logs at most one key per out edge |
| SearchRules.SeedsAreConsistent | core/src/main/java/com/graphhopper/routing/ch/WitnessPathSearcher.java:313-352 | every initial entry has an in-range key formed from its own last original edge and arrival node, a live arrival node, a non-negative weight, a root entry at the source node, and is flagged iff it arrives at the center node |
| SearchRules.SeedsLogEachKeyOnce | core/src/main/java/com/graphhopper/routing/ch/WitnessPathSearcher.java:334-344 | the keys of the initial entries are logged once each, and exactly these keys are logged |
| SearchRules.SeedsAreMinimal | core/src/main/java/com/graphhopper/routing/ch/WitnessPathSearcher.java:344-352 | for every candidate out edge of the source node, the entry kept under its key is no heavier than that candidate |
| SearchRules.SeedsComeFromCandidates | core/src/main/java/com/graphhopper/routing/ch/WitnessPathSearcher.java:313-352 | every initial entry has the weight and arrival of some candidate out edge of the source node with its key |
| SearchRules.CandidateAtCenterIsFlagged | core/src/main/java/com/graphhopper/routing/ch/WitnessPathSearcher.java:323-352 | a candidate towards the center node leaves a flagged entry behind even when its key is overwritten |
| SearchRules.FlaggedSeedComesFromCenter | core/src/main/java/com/graphhopper/routing/ch/WitnessPathSearcher.java:323-352 | a flagged initial entry comes from a candidate towards the center node |
| SearchRules.SeedsReachCenter | core/src/main/java/com/graphhopper/routing/ch/WitnessPathSearcher.java:142-146 | some initial entry is flagged iff some out edge the search may start with leads to the center node |
| KeyLog.IndexesAppend | core/src/main/java/com/graphhopper/routing/ch/WitnessPathSearcher.java:231 | appending a key not yet logged keeps the position index exact |
| KeyLog.IndexedLogIsDistinct | core/src/main/java/com/graphhopper/routing/ch/WitnessPathSearcher.java:388-390 | an indexed log lists no key twice |
| KeyLog.IndexedLogKeys | core/src/main/java/com/graphhopper/routing/ch/WitnessPathSearcher.java:388-390 | a key is in the log iff it has a position |
| DijkstraHeap.FirstMinUnique | core/src/main/java/com/graphhopper/routing/ch/WitnessPathSearcher.java:191-198 | peek and the following poll name the same element |
| DijkstraHeap.MinHeap.constructor | core/src/main/java/com/graphhopper/routing/ch/WitnessPathSearcher.java:308 | the new heap holds no element |
| DijkstraHeap.MinHeap.GetSize | core/src/main/java/com/graphhopper/routing/ch/WitnessPathSearcher.java:151 | the number of elements on the heap, each counted once; 0 iff the heap is empty |
| DijkstraHeap.MinHeap.IsEmpty | core/src/main/java/com/graphhopper/routing/ch/WitnessPathSearcher.java:185 | true iff no element is on the heap, that is iff its size is 0 |
| DijkstraHeap.MinHeap.Insert | core/src/main/java/com/graphhopper/routing/ch/WitnessPathSearcher.java:232 | for an element not on the heap, the element is on the heap with the given priority; nothing else changes |
| DijkstraHeap.MinHeap.Update | core/src/main/java/com/graphhopper/routing/ch/WitnessPathSearcher.java:236 | an element on the heap gets the new priority; the heap is unchanged otherwise |
| DijkstraHeap.MinHeap.PeekElement | core/src/main/java/com/graphhopper/routing/ch/WitnessPathSearcher.java:191 | returns an element of least priority (the smallest among ties) and leaves the heap unchanged |
| DijkstraHeap.MinHeap.PollElement | core/src/main/java/com/graphhopper/routing/ch/WitnessPathSearcher.java:198 | removes exactly the element peek returns |
| DijkstraHeap.MinHeap.Clear | core/src/main/java/com/graphhopper/routing/ch/WitnessPathSearcher.java:393 | the heap is empty |
| ShortestPathTree.Cleared | core/src/main/java/com/graphhopper/routing/ch/WitnessPathSearcher.java:285-309 | every key holds the sentinel row (weight +infinity, NO_EDGE, NO_NODE, unflagged) |
| ShortestPathTree.ClearedIsValid | core/src/main/java/com/graphhopper/routing/ch/WitnessPathSearcher.java:365-371 | the cleared tree satisfies the invariant of the search |
| ShortestPathTree.NoEntryAtContractedNode | core/src/main/java/com/graphhopper/routing/ch/WitnessPathSearcher.java:207-239 | in a valid tree no discovered entry arrives at a contracted node: out edges towards one are skipped, and so are initial entries |
| ShortestPathTree.Poll | core/src/main/java/com/graphhopper/routing/ch/WitnessPathSearcher.java:198-205 | what poll_element and its counters do to the tree: the key leaves the heap and gets the next poll number, and the flag counter drops iff the key is flagged; its properties are PollKeepsInv and PollExtends |
| ShortestPathTree.PollKeepsParents | core/src/main/java/com/graphhopper/routing/ch/WitnessPathSearcher.java:198-199 | polling a key on the heap keeps every parent polled before its children |
| ShortestPathTree.PollKeepsFrontier | core/src/main/java/com/graphhopper/routing/ch/WitnessPathSearcher.java:198-205 | polling the first minimum keeps the heap exact, raises the settled bound to its weight, and decrements the flag counter iff the key was flagged |
| ShortestPathTree.PollKeepsInv | core/src/main/java/com/graphhopper/routing/ch/WitnessPathSearcher.java:198-205 | the polled key is discovered and not polled before; the tree after the poll satisfies the invariant |
| ShortestPathTree.UnpolledIsChildless | core/src/main/java/com/graphhopper/routing/ch/WitnessPathSearcher.java:228-237 | no entry hangs below a key that has not been polled, so rewriting it orphans nothing |
| ShortestPathTree.WriteKeepsFlags | core/src/main/java/com/graphhopper/routing/ch/WitnessPathSearcher.java:225 | a new row flagged by the rule (at the center node and below a flagged parent) keeps every flag consistent |
| ShortestPathTree.WriteKeepsParents | core/src/main/java/com/graphhopper/routing/ch/WitnessPathSearcher.java:228-237 | a new row below a polled, no heavier parent keeps the tree linked |
| ShortestPathTree.PushKeepsFrontier | core/src/main/java/com/graphhopper/routing/ch/WitnessPathSearcher.java:229-237 | inserting or updating an unpolled key on the heap keeps the heap exact and the flag counter equal to the flagged keys on it |
| ShortestPathTree.PushFlagged | core/src/main/java/com/graphhopper/routing/ch/WitnessPathSearcher.java:420-439 | the number of flagged keys on the heap changes by exactly the counter adjustment of setEntry and updateEntry |
| ShortestPathTree.DiscoverKeepsInv | core/src/main/java/com/graphhopper/routing/ch/WitnessPathSearcher.java:229-233 | discovering a new key below the entry being expanded keeps the invariant |
| ShortestPathTree.ImproveKeepsInv | core/src/main/java/com/graphhopper/routing/ch/WitnessPathSearcher.java:234-237 | a key that receives a strictly lighter entry is still on the heap and not polled, and rewriting it keeps the invariant |
| ShortestPathTree.Discover | core/src/main/java/com/graphhopper/routing/ch/WitnessPathSearcher.java:229-232 | setEntry, changedEdges.add and insert_: the key gets the row, joins the end of the log and the heap, and the counter grows iff the row is flagged; DiscoverKeepsInv is its property |
| ShortestPathTree.Improve | core/src/main/java/com/graphhopper/routing/ch/WitnessPathSearcher.java:234-236 | updateEntry and update_: the key gets the lighter row, the heap priority follows, and the counter follows the flag change; ImproveKeepsInv is its property |
| ShortestPathTree.ExpansionWeight | core/src/main/java/com/graphhopper/routing/ch/WitnessPathSearcher.java:221-222 | the weight of continuing an entry over an out edge: the edge with the turn from the entry's last original edge, plus the entry's weight |
| ShortestPathTree.Expansion | core/src/main/java/com/graphhopper/routing/ch/WitnessPathSearcher.java:213-238 | what the inner loop writes for one out edge, if anything: nothing towards a contracted node, for a u-turn or at infinite weight; a fresh row for a new key; for a discovered key only a strictly lighter row that keeps its last edge and node |
| ShortestPathTree.Relax | core/src/main/java/com/graphhopper/routing/ch/WitnessPathSearcher.java:213-238 | the tree after one out edge was handled; the sizes of the arrays are kept |
| ShortestPathTree.RelaxKeepsInv | core/src/main/java/com/graphhopper/routing/ch/WitnessPathSearcher.java:213-238 | handling one out edge keeps the invariant and the poll numbers, and never writes a polled key |
| ShortestPathTree.UnflaggedRelaxAddsNoCandidate | core/src/main/java/com/graphhopper/routing/ch/WitnessPathSearcher.java:207-210 | expanding an entry that cannot become a bridge path adds no flagged entry to the heap, so skipping such entries past the limit loses no bridge path |
| ShortestPathTree.Expand | core/src/main/java/com/graphhopper/routing/ch/WitnessPathSearcher.java:212-239 | the tree after all out edges were handled in order; the sizes of the arrays are kept |
| ShortestPathTree.ExpandKeepsInv | core/src/main/java/com/graphhopper/routing/ch/WitnessPathSearcher.java:212-239 | expanding a settled entry over its out edges keeps the invariant |
| ShortestPathTree.ExtendsTrans | core/src/main/java/com/graphhopper/routing/ch/WitnessPathSearcher.java:185-243 | growing a tree twice is growing it once: discovered keys stay discovered and no heavier, polled keys keep their number and row, the log keeps its prefix and the root entries stay |
| ShortestPathTree.PollExtends | core/src/main/java/com/graphhopper/routing/ch/WitnessPathSearcher.java:198-205 | polling a key that was not polled yet grows the tree |
| ShortestPathTree.RelaxExtends | core/src/main/java/com/graphhopper/routing/ch/WitnessPathSearcher.java:213-238 | handling one out edge grows the tree: only an unpolled key is written, and a discovered key only with a lighter row |
| ShortestPathTree.ExpandExtends | core/src/main/java/com/graphhopper/routing/ch/WitnessPathSearcher.java:212-239 | expanding a settled entry grows the tree and numbers no key |
| ShortestPathTree.RelaxReaches | core/src/main/java/com/graphhopper/routing/ch/WitnessPathSearcher.java:213-238 | after an out edge that is not skipped is handled, its key is discovered with an entry no heavier than the way over the expanded entry |
| ShortestPathTree.RelaxedStays | core/src/main/java/com/graphhopper/routing/ch/WitnessPathSearcher.java:185-243 | the relaxed out edges of a settled entry stay relaxed while the tree grows |
| ShortestPathTree.ExpandRelaxes | core/src/main/java/com/graphhopper/routing/ch/WitnessPathSearcher.java:212-239 | the inner loop relaxes every out edge it does not skip: each leads to a discovered key no heavier than the way over the expanded entry |
| BestPaths.UpdatedBestAttained | core/src/main/java/com/graphhopper/routing/ch/WitnessPathSearcher.java:396-412 | considering any discovered entry keeps the best path either the initial one or exactly the weight, last edge and bridge flag of a discovered entry at the target |
| BestPaths.InitialBest | core/src/main/java/com/graphhopper/routing/ch/WitnessPathSearcher.java:168-172 | the best path runSearch starts from: the plain turn from source edge to target edge when the source node is the target node, no path otherwise; used by UpdatedBestAttained and ScanKeepsBest |
| BestPaths.UpdatedBest | core/src/main/java/com/graphhopper/routing/ch/WitnessPathSearcher.java:396-412 | updateBestPath: an entry at the target node replaces the best path, with its last edge and bridge flag, when the tie-break rule lets it; UpdatedBestAttained is its property |
| BestPaths.RelaxBest | core/src/main/java/com/graphhopper/routing/ch/WitnessPathSearcher.java:227-238 | the best path after one out edge: updateBestPath for the key written, if any; RelaxKeepsBest is its property |
| BestPaths.ExpandBest | core/src/main/java/com/graphhopper/routing/ch/WitnessPathSearcher.java:212-239 | the best path after the inner loop, edge by edge; ExpandKeepsBest is its property |
| BestPaths.ScanBest | core/src/main/java/com/graphhopper/routing/ch/WitnessPathSearcher.java:174-182 | the best path after checking the original edges into the target node whose keys are discovered; ScanKeepsBest is its property |
| BestPaths.EntryForKey | core/src/main/java/com/graphhopper/routing/ch/WitnessPathSearcher.java:451-453 | getEntryForKey: the CHEntry of a key carries its edge, last original edge, node and weight; ChainFrom's contract uses it |
| BestPaths.WriteKeepsBest | core/src/main/java/com/graphhopper/routing/ch/WitnessPathSearcher.java:229-237 | rewriting an unpolled key that is not the best path's keeps the best path attained |
| BestPaths.ImproveReplacesBest | core/src/main/java/com/graphhopper/routing/ch/WitnessPathSearcher.java:234-237 | when the entry the best path ends in gets a strictly lighter row, considering it again leaves a best path the tree attains |
| BestPaths.RelaxKeepsBest | core/src/main/java/com/graphhopper/routing/ch/WitnessPathSearcher.java:227-238 | handling one out edge keeps the best path attained |
| BestPaths.ExpandKeepsBest | core/src/main/java/com/graphhopper/routing/ch/WitnessPathSearcher.java:212-239 | expanding a settled entry keeps the best path attained |
| BestPaths.ScanKeepsBest | core/src/main/java/com/graphhopper/routing/ch/WitnessPathSearcher.java:174-182 | checking the arrivals at the target already in the tree keeps the best path attained |
| BestPaths.ChainFrom | core/src/main/java/com/graphhopper/routing/ch/WitnessPathSearcher.java:250-261 | the chain starts with the leaf's entry, has at least two entries and ends with a root entry |
| BestPaths.ChainStep | core/src/main/java/com/graphhopper/routing/ch/WitnessPathSearcher.java:255-259 | a non-negative parent is a discovered key polled earlier, and the chain continues from it |
| BestPaths.ChainEnd | core/src/main/java/com/graphhopper/routing/ch/WitnessPathSearcher.java:261 | an initial entry's negative parent names a stored root entry, which ends the chain |
| BestPaths.FlaggedChainStaysAtCenter | core/src/main/java/com/graphhopper/routing/ch/WitnessPathSearcher.java:225 | in the chain of a flagged entry every entry but the final root entry arrives at the center node |
| BestPaths.ChainWeightsShrink | core/src/main/java/com/graphhopper/routing/ch/WitnessPathSearcher.java:250-261 | going towards the root, the weights of a chain never grow, down to the root entry with the turn weight at the source node |
| BestPaths.ChainEndsAtSource | core/src/main/java/com/graphhopper/routing/ch/WitnessPathSearcher.java:328-333 | every chain ends with a root entry at the source node |
| BestPaths.BridgeChainPassesCenter | core/src/main/java/com/graphhopper/routing/ch/WitnessPathSearcher.java:49-50 | the chain of a bridge path has at least three entries, all entries between leaf and root arrive at the center node, and the root is at the source node |
| InitialEntries.ClearedHoldsNoSeeds | core/src/main/java/com/graphhopper/routing/ch/WitnessPathSearcher.java:387-394 | the cleared tree holds no initial entry, no log and no root entry |
| InitialEntries.StoreRootKeepsRoots | core/src/main/java/com/graphhopper/routing/ch/WitnessPathSearcher.java:342 | storing a root entry under -key-1 keeps the root entries exactly those of the initial entries |
| InitialEntries.AddSeedKeepsArena | core/src/main/java/com/graphhopper/routing/ch/WitnessPathSearcher.java:334-343 | writing a new key, logging it and storing its root entry follows the fold of the first loop |
| InitialEntries.ImproveSeedKeepsArena | core/src/main/java/com/graphhopper/routing/ch/WitnessPathSearcher.java:344-352 | overwriting a seeded key with a lighter entry follows the fold of the first loop |
| InitialEntries.PushedHeapHoldsSeeds | core/src/main/java/com/graphhopper/routing/ch/WitnessPathSearcher.java:356-362 | the heap holds exactly the initial keys at their weights |
| InitialEntries.CountFlagged | core/src/main/java/com/graphhopper/routing/ch/WitnessPathSearcher.java:356-360 | the running count never exceeds the number of keys looked at |
| InitialEntries.CountFlaggedIsCard | core/src/main/java/com/graphhopper/routing/ch/WitnessPathSearcher.java:356-360 | over a log listing each key once, the count is the number of flagged logged keys |
| InitialEntries.SeededCount | core/src/main/java/com/graphhopper/routing/ch/WitnessPathSearcher.java:356-360 | after setInitialEntries the counter is the number of flagged keys on the heap, and 0 iff no initial entry is flagged |
| InitialEntries.SeededLogIsValid | core/src/main/java/com/graphhopper/routing/ch/WitnessPathSearcher.java:334-343 | the log is valid, and a key is discovered iff it holds an initial entry |
| InitialEntries.SeededEntriesKeyed | core/src/main/java/com/graphhopper/routing/ch/WitnessPathSearcher.java:323-341 | every initial entry has a non-negative weight and sits under the key of its last original edge and arrival node; it is flagged iff it arrives at the center node |
| InitialEntries.SeededParentsLinked | core/src/main/java/com/graphhopper/routing/ch/WitnessPathSearcher.java:327-342 | every initial entry hangs below its own root entry, and every root entry is at the source node |
| InitialEntries.SeededFrontierValid | core/src/main/java/com/graphhopper/routing/ch/WitnessPathSearcher.java:356-362 | the heap holds each initial key once at its weight and nothing is polled |
| InitialEntries.SeededTreeIsValid | core/src/main/java/com/graphhopper/routing/ch/WitnessPathSearcher.java:311-363 | the tree setInitialEntries leaves satisfies the invariant, with one heap entry per initial key |
| InitialEntries.InitialTreeIsValid | core/src/main/java/com/graphhopper/routing/ch/WitnessPathSearcher.java:136-146 | after setInitialEntries the tree is valid, the heap size is the number of distinct initial keys, and the counter is 0 iff no start edge reaches the center node |
| WitnessPathSearching.PollShrinksUnpolled | core/src/main/java/com/graphhopper/routing/ch/WitnessPathSearcher.java:185-198 | each round of the Dijkstra loop polls a key never polled before, so the loop ends |
| WitnessPathSearching.FirstHeavierMeansAllHeavier | core/src/main/java/com/graphhopper/routing/ch/WitnessPathSearcher.java:191-197 | when the peeked entry is heavier than the best path, every entry on the heap is |
| WitnessPathSearching.CountBoundedByHeap | core/src/main/java/com/graphhopper/routing/ch/WitnessPathSearcher.java:143-151 | the flag counter is between 0 and the heap size |
| WitnessPathSearching.ProgressStarts | core/src/main/java/com/graphhopper/routing/ch/WitnessPathSearcher.java:185-243 | before its first round the Dijkstra loop has expanded nothing, polled nothing, and the tree has grown from itself |
| WitnessPathSearching.SkipKeepsProgress | core/src/main/java/com/graphhopper/routing/ch/WitnessPathSearcher.java:207-210 | polling an unflagged entry without expanding it keeps the progress of the search |
| WitnessPathSearching.ExpandKeepsProgress | core/src/main/java/com/graphhopper/routing/ch/WitnessPathSearcher.java:198-242 | polling an entry and expanding it over all its out edges adds a key not expanded before, with all its out edges relaxed, and keeps the tree growing |
| WitnessPathSearching.SettleKeepsProgress | core/src/main/java/com/graphhopper/routing/ch/WitnessPathSearcher.java:198-242 | one round of the Dijkstra loop keeps the progress of the search, adding the polled key to the expanded keys iff the entry is expanded and always to the keys polled since the search started; a skipped entry must be unflagged |
| WitnessPathSearching.PollAddsPolled | core/src/main/java/com/graphhopper/routing/ch/WitnessPathSearcher.java:197-198 | polling a key that is on the heap adds exactly that key to the keys polled since the loop started |
| WitnessPathSearching.Stats.constructor | core/src/main/java/com/graphhopper/routing/ch/WitnessPathSearcher.java:506-510 | all counters start at 0 |
| WitnessPathSearching.Stats.CountSearch | core/src/main/java/com/graphhopper/routing/ch/WitnessPathSearcher.java:147-150 | one more search, and the limit is added to the sum of limits |
| WitnessPathSearching.Stats.CountPolled | core/src/main/java/com/graphhopper/routing/ch/WitnessPathSearcher.java:200-201 | one more polled edge |
| WitnessPathSearching.Stats.CountSettled | core/src/main/java/com/graphhopper/routing/ch/WitnessPathSearcher.java:241-242 | one more settled edge |
| WitnessPathSearching.Stats.Reset | core/src/main/java/com/graphhopper/routing/ch/WitnessPathSearcher.java:526-531 | all four counters are 0 |
| WitnessPathSearching.WitnessPathSearcher.constructor | core/src/main/java/com/graphhopper/routing/ch/WitnessPathSearcher.java:109-124 | the tree is allocated for two keys per original edge, every key holds the sentinel row, the limit starts at minimumMaxSettledEdges, and the searcher is valid |
| WitnessPathSearching.WitnessPathSearcher.ResetEntry | core/src/main/java/com/graphhopper/routing/ch/WitnessPathSearcher.java:442-449 | the key gets the sentinel row and no other key changes |
| WitnessPathSearching.WitnessPathSearcher.ResetShortestPathTree | core/src/main/java/com/graphhopper/routing/ch/WitnessPathSearcher.java:387-394 | resetting only the logged keys puts every key back to the sentinel row; log, root entries and heap are empty |
| WitnessPathSearching.WitnessPathSearcher.UpdatedLimit | core/src/main/java/com/graphhopper/routing/ch/WitnessPathSearcher.java:373-385 | the limit moves only when the batch closes, and then the batch restarts empty and the limit is at least minimumMaxSettledEdges; otherwise the count joins the batch; a limit at or above the minimum stays there, and a batch below the interval stays below it |
| WitnessPathSearching.WitnessPathSearcher.UpdateMaxSettledEdges | core/src/main/java/com/graphhopper/routing/ch/WitnessPathSearcher.java:373-385 | batch and limit become UpdatedLimit of the old batch, the settled count of the search just finished and the old limit |
| WitnessPathSearching.WitnessPathSearcher.Reset | core/src/main/java/com/graphhopper/routing/ch/WitnessPathSearcher.java:365-371 | batch and limit are updated by UpdatedLimit, the counters are 0 and the tree is the cleared tree |
| WitnessPathSearching.WitnessPathSearcher.SetInitialEntries | core/src/main/java/com/graphhopper/routing/ch/WitnessPathSearcher.java:311-363 | on a cleared tree, the result is exactly the tree of the initial entries: rows, log order, root entries, every initial key on the heap at its weight, and the counter of flagged ones |
| WitnessPathSearching.WitnessPathSearcher.WriteInitialEntries | core/src/main/java/com/graphhopper/routing/ch/WitnessPathSearcher.java:312-353 | rows, log and root entries match the fold of the first loop over all out edges of the source node |
| WitnessPathSearching.WitnessPathSearcher.WriteInitialEntry | core/src/main/java/com/graphhopper/routing/ch/WitnessPathSearcher.java:314-352 | one round of the first loop performs one step of that fold |
| WitnessPathSearching.WitnessPathSearcher.PushChangedEntries | core/src/main/java/com/graphhopper/routing/ch/WitnessPathSearcher.java:356-362 | the heap holds exactly the logged keys at their row weights, and the counter grows by the number of flagged logged keys |
| WitnessPathSearching.WitnessPathSearcher.StartSearch | core/src/main/java/com/graphhopper/routing/ch/WitnessPathSearcher.java:137-141 | one limit update by UpdatedLimit, the counters reset, parameters set, and the tree is the tree of the initial entries; the counter is 0 iff no start edge reaches the center node |
| WitnessPathSearching.WitnessPathSearcher.InitSearch | core/src/main/java/com/graphhopper/routing/ch/WitnessPathSearcher.java:136-152 | returns 0 iff no out edge the search may start with reaches the center node, and then leaves the tree cleared after a second limit update with a settled count of 0, and the statistics unchanged; otherwise returns the number of distinct initial keys, leaves their tree with a positive counter after one limit update, and both statistics count one search more and add the new limit; the searcher stays valid |
| WitnessPathSearching.WitnessPathSearcher.CountStartedSearch | core/src/main/java/com/graphhopper/routing/ch/WitnessPathSearcher.java:147-150 | both statistics count one search more and add the current limit; their other counters are not touched |
| WitnessPathSearching.WitnessPathSearcher.SetEntry | core/src/main/java/com/graphhopper/routing/ch/WitnessPathSearcher.java:414-424 | the key's row holds the edge, weight and parent; the flag is only raised, and the counter grows by one iff it is raised |
| WitnessPathSearching.WitnessPathSearcher.UpdateEntry | core/src/main/java/com/graphhopper/routing/ch/WitnessPathSearcher.java:426-440 | edge, weight, parent and flag are replaced, last edge and node kept, and the counter follows the flag change |
| WitnessPathSearching.WitnessPathSearcher.UpdateBestPath | core/src/main/java/com/graphhopper/routing/ch/WitnessPathSearcher.java:396-412 | the best path becomes what the tie-break rule picks for this entry |
| WitnessPathSearching.WitnessPathSearcher.InitBestPath | core/src/main/java/com/graphhopper/routing/ch/WitnessPathSearcher.java:168-172 | the plain turn when the target is the source node, no path otherwise |
| WitnessPathSearching.WitnessPathSearcher.ScanTree | core/src/main/java/com/graphhopper/routing/ch/WitnessPathSearcher.java:175-182 | the best path is the fold of updateBestPath over the discovered arrivals at the target node |
| WitnessPathSearching.WitnessPathSearcher.PollEntry | core/src/main/java/com/graphhopper/routing/ch/WitnessPathSearcher.java:198-205 | the tree is the polled tree, and both statistics count one polled edge more |
| WitnessPathSearching.WitnessPathSearcher.PollMin | core/src/main/java/com/graphhopper/routing/ch/WitnessPathSearcher.java:198-205 | the polled tree stays valid, the key is the one being expanded, fewer keys are left to poll, and both statistics count one polled edge more |
| WitnessPathSearching.WitnessPathSearcher.RelaxEdge | core/src/main/java/com/graphhopper/routing/ch/WitnessPathSearcher.java:214-238 | tree and best path after one out edge are those of Relax and RelaxBest |
| WitnessPathSearching.WitnessPathSearcher.DiscoverEntry | core/src/main/java/com/graphhopper/routing/ch/WitnessPathSearcher.java:229-232 | setEntry, changedEdges.add and insert_ make the discovered tree |
| WitnessPathSearching.WitnessPathSearcher.ImproveEntry | core/src/main/java/com/graphhopper/routing/ch/WitnessPathSearcher.java:234-236 | updateEntry and update_ make the improved tree |
| WitnessPathSearching.WitnessPathSearcher.ExpandEntry | core/src/main/java/com/graphhopper/routing/ch/WitnessPathSearcher.java:212-239 | tree and best path after the inner loop are those of Expand and ExpandBest; the searcher stays valid |
| WitnessPathSearching.WitnessPathSearcher.RelaxNext | core/src/main/java/com/graphhopper/routing/ch/WitnessPathSearcher.java:213-238 | one round of the inner loop moves the fold over the remaining out edges on by one, keeping the searcher valid |
| WitnessPathSearching.WitnessPathSearcher.CountSettled | core/src/main/java/com/graphhopper/routing/ch/WitnessPathSearcher.java:240-242 | one more settled edge, in the searcher and in both statistics |
| WitnessPathSearching.WitnessPathSearcher.CollectChain | core/src/main/java/com/graphhopper/routing/ch/WitnessPathSearcher.java:250-261 | the walk over the parents returns exactly ChainFrom of the leaf |
| WitnessPathSearching.WitnessPathSearcher.SettleEntry | core/src/main/java/com/graphhopper/routing/ch/WitnessPathSearcher.java:198-242 | the first entry is polled; past the limit an unflagged entry is only polled; otherwise it is expanded and counted as settled; both statistics follow the polled and settled counts; the search keeps its progress, with one more expanded key iff the entry was expanded, and as long as the limit is not passed every key polled since the loop started is expanded; valid, best path attained, fewer keys left |
| WitnessPathSearching.WitnessPathSearcher.ExpandSettled | core/src/main/java/com/graphhopper/routing/ch/WitnessPathSearcher.java:212-242 | the expansion of a polled entry with its settled count, also in both statistics; valid and best path attained |
| WitnessPathSearching.WitnessPathSearcher.BridgePathResult | core/src/main/java/com/graphhopper/routing/ch/WitnessPathSearcher.java:250-265 | a chain iff the best path is a bridge path: from its leaf at the target node via entries at the center node to a root entry at the source node |
| WitnessPathSearching.WitnessPathSearcher.RunSearch | core/src/main/java/com/graphhopper/routing/ch/WitnessPathSearcher.java:165-263 | terminates with a valid searcher; the best path is attained in the tree; the search stopped as the Dijkstra loop says; the tree grew from the old one, with the expanded keys and counters of that loop; the result is the bridge chain iff the best path is a bridge path |
| WitnessPathSearching.WitnessPathSearcher.Dijkstra | core/src/main/java/com/graphhopper/routing/ch/WitnessPathSearcher.java:184-247 | terminates with a valid searcher whose best path is attained in the tree; the loop stopped because the heap is empty, nothing on it can still become a bridge path while none was found, or it is not empty and everything on it is heavier than the best path; the tree grew from the old one (discovered keys no heavier, polled keys untouched, log extended, root entries kept); every key expanded has all its not-skipped out edges relaxed, every flagged key polled was expanded, while the settled edges limit is not passed every polled key was expanded, and each expanded key is one settled edge; both statistics follow the polled and settled counts |
| WitnessPathSearching.WitnessPathSearcher.ResetStats | core/src/main/java/com/graphhopper/routing/ch/WitnessPathSearcher.java:281-283 | the current batch's counters are 0 and the totals are kept |

## Left out

- Graph, turn weighting and edge explorers: `CHGraph`, `TurnWeighting`, `EdgeExplorer` and `GHUtility.getEdgeKey` are total functions in a `Graph` value. This includes the edge key, with an inverse that witnesses injectivity. Their implementations are not part of this model.
- `WellFormed`: what the search relies on from those collaborators is a precondition. Every edge the explorers yield has real ids and an in-range key; weights and turn costs are non-negative or +infinity; the key is injective. The source assumes these without checking them.
- Floating point: doubles are exact reals plus +infinity, so rounding is not modelled. The witness tolerance `1e-6` is exact.
- `getStatisticsString`, and `Stats.toString` with `quotient`, only format text for logs.
- OnFlyStatisticsCalculator: modelled as the batch of observed counts. The value `(int)(mean + sigmaFactor * sqrt(variance))` is a function the constructor receives (`settledEdgesEstimate`), because its floating-point statistics are outside this model.
- IntDoubleBinaryHeap: modelled by its interface over a map from element to priority. Among equal priorities the smallest element comes first; the real heap's tie order is not modelled. Its array internals are left out.
- WitnessPathSearching.WitnessPathSearcher.RunSearch: does not claim the best path is optimal. It states that the best path is attained by a tree entry, why the search stopped, and what it returns. Optimality is not proved: the tolerance lets a witness replace a path that is up to `1e-6` lighter, and past the limit unflagged entries are not expanded.
- WitnessPathSearching.WitnessPathSearcher.GetNumPolledEdges, WitnessPathSearching.WitnessPathSearcher.GetTotalNumSearches: plain getters, modelled without a contract.
- The six parallel arrays are one array of rows, and each write stores a whole row. Where the source writes only some of the arrays for a key, the model copies the old values of the others. `updateEntry` and the improving branch of `setInitialEntries` leave `incEdges` and `adjNodes` alone, and `setEntry` writes the flag only when it is true; a key `setEntry` writes always holds the sentinel flag `false` before.
- `Config`: the three values are fixed when the searcher is built. The source's setters could change them later, and `updateMaxSettledEdges` would then read the new values, but this is not modelled. The bound `maxSettledEdges >= minimumMaxSettledEdges` in `Valid` relies on the values staying fixed.
- `Arrays.fill` in `initStorage` is the array initialiser of the constructor. `changedEdges.elementsCount = 0` and `initialEntryParents.clear()` are reassignments to empty values.
- The commented-out early exit after expanding the target node is not part of the source's behaviour and is not modelled.
- Integer widths: counters are unbounded integers. The source's `int`/`long` counters cannot overflow within the sizes involved, so wrap-around is not modelled.
- The chain of `CHEntry` objects linked by `parent` fields is a sequence of entries, leaf first. The object identity of the nodes and the aliasing of the root `CHEntry`, which stays in `initialEntryParents`, are not modelled.
