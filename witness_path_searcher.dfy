/**
 * The local witness path search of edge-based Contraction Hierarchies
 * (WitnessPathSearcher): an edge-based, turn-cost-aware Dijkstra search from a
 * source edge at s that decides whether the best path to a target edge at t
 * is a bridge path (s -> x, possibly loops at x, x -> t, for the center node
 * x being contracted) or whether a witness path avoiding x is at least as good.
 *
 * The shortest path tree is one array of rows indexed by edge key, a row
 * holding what the six parallel arrays of the searcher hold for that key;
 * changedEdges logs every key written since the last reset so that a reset
 * only touches those keys; the Dijkstra frontier is a MinHeap. State()
 * reads all of it as one TreeState value, and every step of the search is
 * specified as the function of ShortestPathTree or BestPaths it performs.
 *
 * Three ghost fields exist for the proof only: logPos gives the position
 * of every logged key in changedEdges, settleRank gives every polled key
 * its poll number, and settledBound is the weight of the key polled last.
 */
module WitnessPathSearching {
  import opened Weights
  import opened Graphs
  import opened SearchRules
  import opened DijkstraHeap
  import opened KeyLog
  import opened ShortestPathTree
  import opened InitialEntries
  import opened BestPaths

  /** WitnessPathSearcher.Stats: counters for telemetry. */
  class Stats {
    var numSearches: int
    var numPolledEdges: int
    var numSettledEdges: int
    var maxNumSettledEdges: int

    constructor ()
      ensures numSearches == 0 && numPolledEdges == 0 && numSettledEdges == 0 && maxNumSettledEdges == 0
    {
      numSearches := 0;
      numPolledEdges := 0;
      numSettledEdges := 0;
      maxNumSettledEdges := 0;
    }

    /** What initSearch records for every search it does not skip. */
    method CountSearch(maxSettledEdges: int)
      modifies this`numSearches, this`maxNumSettledEdges
      ensures numSearches == old(numSearches) + 1
      ensures maxNumSettledEdges == old(maxNumSettledEdges) + maxSettledEdges
    {
      numSearches, maxNumSettledEdges := numSearches + 1, maxNumSettledEdges + maxSettledEdges;
    }

    method CountPolled()
      modifies this`numPolledEdges
      ensures numPolledEdges == old(numPolledEdges) + 1
    {
      numPolledEdges := numPolledEdges + 1;
    }

    method CountSettled()
      modifies this`numSettledEdges
      ensures numSettledEdges == old(numSettledEdges) + 1
    {
      numSettledEdges := numSettledEdges + 1;
    }

    /** Stats.reset */
    method Reset()
      modifies this
      ensures numSearches == 0 && numPolledEdges == 0 && numSettledEdges == 0 && maxNumSettledEdges == 0
    {
      numSearches := 0;
      numPolledEdges := 0;
      numSettledEdges := 0;
      maxNumSettledEdges := 0;
    }
  }

  function Max(a: int, b: int): int {
    if a >= b then a else b
  }

  /**
   * Why the Dijkstra loop of runSearch ended: the heap ran empty, no entry
   * on it can still become a bridge path while no bridge path was found,
   * or every entry on it is already heavier than the best path.
   */
  ghost predicate SearchStopped(s: TreeState, best: BestPath) {
    || s.frontier == map[]
    || (s.numPotentialBridgePaths < 1 && (!best.isBridgePath || best.weight.Inf?))
    || (s.frontier != map[] && forall k | k in s.frontier :: Less(best.weight, s.frontier[k]))
  }

  /** The keys not polled yet. */
  ghost function Unpolled(settleRank: seq<int>): set<int> {
    set k | 0 <= k < |settleRank| && settleRank[k] < 0
  }

  /** Polling a key that was not polled before leaves fewer keys to poll: the search ends. */
  lemma {:induction false} PollShrinksUnpolled(settleRank: seq<int>, k: int, n: int)
    requires 0 <= k < |settleRank| && settleRank[k] < 0 && n >= 0
    ensures |Unpolled(settleRank[k := n])| < |Unpolled(settleRank)|
  {
    assert Unpolled(settleRank[k := n]) == Unpolled(settleRank) - {k};
  }

  /** When the entry peek returns is heavier than the best path, so is every entry on the heap. */
  lemma {:induction false} FirstHeavierMeansAllHeavier(frontier: map<int, Weight>, k: int, w: Weight)
    requires IsFirstMin(frontier, k) && Less(w, frontier[k])
    ensures forall j | j in frontier :: Less(w, frontier[j])
  {
    forall j | j in frontier
      ensures Less(w, frontier[j])
    {
      LessLessEqTrans(w, frontier[k], frontier[j]);
    }
  }

  /** The counter of potential bridge paths never exceeds the number of entries on the heap. */
  lemma {:induction false} CountBoundedByHeap(g: Graph, sourceNode: int, centerNode: int, s: TreeState)
    requires TreeInv(g, sourceNode, centerNode, s)
    ensures 0 <= s.numPotentialBridgePaths <= |s.frontier|
  {
    hide LogValid, EntriesKeyed, ParentsLinked, RootsAtSource, FlagsConsistent;
    assert FlaggedOnHeap(s) <= s.frontier.Keys;
    SubsetNoLarger(FlaggedOnHeap(s), s.frontier.Keys);
  }

  lemma SubsetNoLarger(a: set<int>, b: set<int>)
    requires a <= b
    ensures |a| <= |b|
  {
    var rest := b - a;
    assert b == a + rest && a * rest == {};
  }

  /**
   * What the Dijkstra loop of runSearch has done since it started from the
   * tree `s0`: the tree grew from s0; every key in `expanded` was polled by
   * the loop and each out edge of its entry that the inner loop does not
   * skip is relaxed; and every key the loop polled whose entry may become a
   * bridge path is in `expanded`, so none of them was skipped.
   */
  ghost predicate SearchProgress(g: Graph, s0: TreeState, s: TreeState, expanded: set<int>) {
    && Extends(s0, s)
    && (forall c | c in expanded ::
          && 0 <= c < |s0.settleRank| && s0.settleRank[c] < 0 && IsSettled(s, c)
          && Relaxed(g, s, c, g.outEdges(s.rows[c].adjNode)))
    && (forall k | 0 <= k < |s0.settleRank| && s0.settleRank[k] < 0 && IsSettled(s, k) && s.rows[k].isPotentialBridgePath ::
          k in expanded)
  }

  /** The keys polled since the tree was `s0`. */
  ghost function PolledSince(s0: TreeState, s: TreeState): set<int> {
    set k | 0 <= k < |s0.settleRank| && s0.settleRank[k] < 0 && k < |s.settleRank| && s.settleRank[k] >= 0
  }

  /** Polling a key that was not yet polled adds it to the keys polled since `s0`. */
  lemma {:induction false} PollAddsPolled(s0: TreeState, s: TreeState, r: TreeState, k: int, n: int)
    requires Extends(s0, s) && 0 <= k < |s.rows| && k < |s.settleRank| && s.settleRank[k] < 0 && n >= 0
    requires r.settleRank == s.settleRank[k := n]
    ensures PolledSince(s0, r) == PolledSince(s0, s) + {k}
  {
    // had k been polled in s0, it would still be polled in s
    assert s0.settleRank[k] < 0;
  }

  lemma ProgressStarts(g: Graph, s: TreeState)
    ensures SearchProgress(g, s, s, {}) && PolledSince(s, s) == {}
  {
    ExtendsItself(s);
  }

  /** Polling an entry without expanding it, as runSearch does past the limit, is allowed for an entry that cannot become a bridge path. */
  lemma {:induction false} SkipKeepsProgress(g: Graph, sourceNode: int, centerNode: int, s0: TreeState, s: TreeState,
                                             expanded: set<int>, k: int)
    requires TreeInv(g, sourceNode, centerNode, s) && IsFirstMin(s.frontier, k) && SearchProgress(g, s0, s, expanded)
    requires !s.rows[k].isPotentialBridgePath
    ensures SearchProgress(g, s0, Poll(s, k), expanded)
  {
    hide TreeInv, Extends, Relaxed;
    PollKeepsInv(g, sourceNode, centerNode, s, k);
    var p := Poll(s, k);
    PollExtends(s, k);
    ExtendsTrans(s0, s, p);
    forall c | c in expanded
      ensures IsSettled(p, c) && Relaxed(g, p, c, g.outEdges(p.rows[c].adjNode))
    {
      RelaxedStays(g, s, p, c, g.outEdges(s.rows[c].adjNode));
    }
  }

  /** One round of the Dijkstra loop, skipping the polled entry or expanding it, keeps the progress of the search. */
  lemma {:induction false} SettleKeepsProgress(g: Graph, sourceNode: int, centerNode: int, s0: TreeState, s: TreeState,
                                               expanded: set<int>, k: int, skip: bool)
      returns (expanded': set<int>)
    requires WellFormed(g) && TreeInv(g, sourceNode, centerNode, s) && IsFirstMin(s.frontier, k)
    requires SearchProgress(g, s0, s, expanded)
    requires skip ==> !s.rows[k].isPotentialBridgePath
    ensures 0 <= k < |s.rows| && 0 <= k < |s.settleRank|
    ensures expanded' == if skip then expanded else expanded + {k}
    ensures |expanded'| == |expanded| + (if skip then 0 else 1)
    ensures var next := if skip then Poll(s, k) else Expand(g, centerNode, Poll(s, k), k, g.outEdges(s.rows[k].adjNode));
            && SearchProgress(g, s0, next, expanded')
            && PolledSince(s0, next) == PolledSince(s0, s) + {k}
  {
    hide Expand, TreeInv, PolledSince, Relaxed;
    PollKeepsInv(g, sourceNode, centerNode, s, k);
    TreeInvFacts(g, sourceNode, centerNode, s);
    var p := Poll(s, k);
    PollAddsPolled(s0, s, p, k, s.numPolledEdges);
    if skip {
      SkipKeepsProgress(g, sourceNode, centerNode, s0, s, expanded, k);
      expanded' := expanded;
    } else {
      ExpandKeepsProgress(g, sourceNode, centerNode, s0, s, expanded, k);
      ExpandExtends(g, sourceNode, centerNode, p, k, g.outEdges(s.rows[k].adjNode));
      PollAddsPolled(s0, s, Expand(g, centerNode, p, k, g.outEdges(s.rows[k].adjNode)), k, s.numPolledEdges);
      expanded' := expanded + {k};
    }
  }

  /** Polling an entry and expanding it over all of its out edges adds it to the expanded keys. */
  lemma {:induction false} ExpandKeepsProgress(g: Graph, sourceNode: int, centerNode: int, s0: TreeState, s: TreeState,
                                               expanded: set<int>, k: int)
    requires WellFormed(g) && TreeInv(g, sourceNode, centerNode, s) && IsFirstMin(s.frontier, k)
    requires SearchProgress(g, s0, s, expanded)
    ensures k !in expanded && 0 <= k < |s.rows| && 0 <= k < |s.settleRank|
    ensures SearchProgress(g, s0, Expand(g, centerNode, Poll(s, k), k, g.outEdges(s.rows[k].adjNode)), expanded + {k})
  {
    hide TreeInv, Expand, Relaxed;
    PollKeepsInv(g, sourceNode, centerNode, s, k);
    TreeInvFacts(g, sourceNode, centerNode, s);
    var p := Poll(s, k);
    var es := g.outEdges(s.rows[k].adjNode);
    var r := Expand(g, centerNode, p, k, es);
    PollExtends(s, k);
    ExpandExtends(g, sourceNode, centerNode, p, k, es);
    ExpandRelaxes(g, sourceNode, centerNode, p, k, es);
    ExtendsTrans(s, p, r);
    ExtendsTrans(s0, s, r);
    assert r.rows[k] == s.rows[k];
    forall c | c in expanded
      ensures IsSettled(r, c) && Relaxed(g, r, c, g.outEdges(r.rows[c].adjNode))
    {
      RelaxedStays(g, s, r, c, g.outEdges(s.rows[c].adjNode));
    }
  }

  class WitnessPathSearcher {
    // the graph and key space the search runs over
    const graph: Graph
    const keySpace: nat

    // fixed configuration and the settled-edge estimate
    const config: Config
    /**
     * What OnFlyStatisticsCalculator yields for a batch of settled-edge
     * counts: (int) (mean + sigmaFactor * sqrt(variance)).
     */
    const settledEdgesEstimate: seq<int> -> int

    // the current search's source, center, best path and tree
    var sourceEdge: int
    var sourceNode: int
    var centerNode: int
    var bestPathWeight: Weight
    var bestPathIncEdge: int
    var bestPathIsBridgePath: bool
    var numPotentialBridgePaths: int
    var numSettledEdges: int
    var numPolledEdges: int

    // the shortest path tree
    const tree: array<TreeRow>
    var initialEntryParents: map<int, CHEntry>
    var changedEdges: seq<int>
    const dijkstraHeap: MinHeap

    // adaptive limit on settled edges, and the counts observed since the last batch closed
    var maxSettledEdges: int
    var settledEdgesStats: seq<int>

    const currentBatchStats: Stats
    const totalStats: Stats

    ghost var settleRank: seq<int>
    ghost var settledBound: Weight
    ghost var logPos: seq<int>

    // -------------------------------------------------------------------
    // The state as a value, and the invariant

    /** The tree is allocated for every edge key. */
    ghost predicate Configured() {
      keySpace == KeySpace(graph) && tree.Length == keySpace && currentBatchStats != totalStats
    }

    ghost function State(): TreeState
      reads this, tree, dijkstraHeap
    {
      TreeState(tree[..], changedEdges, logPos, initialEntryParents, dijkstraHeap.entries,
                settleRank, settledBound, numPolledEdges, numPotentialBridgePaths)
    }

    ghost function Best(): BestPath
      reads this
    {
      BestPath(bestPathWeight, bestPathIncEdge, bestPathIsBridgePath)
    }

    /** What holds between any two public operations. */
    ghost predicate Valid()
      reads this, tree, dijkstraHeap
    {
      && Configured()
      && TreeInv(graph, sourceNode, centerNode, State())
      && maxSettledEdges >= config.minimumMaxSettledEdges
    }

    // -------------------------------------------------------------------
    // Construction

    constructor (graph: Graph, config: Config, settledEdgesEstimate: seq<int> -> int)
      ensures Valid() && State() == Cleared(KeySpace(graph))
      ensures this.graph == graph && this.config == config && this.settledEdgesEstimate == settledEdgesEstimate
      ensures maxSettledEdges == config.minimumMaxSettledEdges && settledEdgesStats == [] && numSettledEdges == 0
    {
      this.graph := graph;
      this.config := config;
      this.settledEdgesEstimate := settledEdgesEstimate;
      maxSettledEdges := config.minimumMaxSettledEdges;
      settledEdgesStats := [];
      var numEntries := KeySpace(graph);
      keySpace := numEntries;
      // initStorage
      tree := new TreeRow[numEntries](_ => UNDISCOVERED);
      // initCollections
      initialEntryParents := map[];
      changedEdges := [];
      dijkstraHeap := new MinHeap();
      currentBatchStats := new Stats();
      totalStats := new Stats();
      sourceEdge, sourceNode, centerNode := 0, 0, 0;
      bestPathWeight, bestPathIncEdge, bestPathIsBridgePath := Inf, NO_EDGE, false;
      numPotentialBridgePaths, numSettledEdges, numPolledEdges := 0, 0, 0;
      settleRank, settledBound, logPos := NoPositions(numEntries), Fin(0.0), NoPositions(numEntries);
      new;
      assert tree[..] == Cleared(numEntries).rows;
      ClearedIsValid(graph, sourceNode, centerNode);
    }

    // -------------------------------------------------------------------
    // Resetting

    method ResetEntry(key: int)
      requires 0 <= key < tree.Length
      modifies tree
      ensures tree[..] == old(tree[..])[key := UNDISCOVERED]
    {
      tree[key] := UNDISCOVERED;
    }

    /** Resets exactly the logged keys, which puts every key back to its sentinel row. */
    method ResetShortestPathTree()
      requires Configured() && LogValid(tree[..], changedEdges, logPos)
      modifies tree, this`changedEdges, this`logPos, this`initialEntryParents, dijkstraHeap
      ensures tree[..] == Cleared(keySpace).rows
      ensures changedEdges == [] && logPos == NoPositions(keySpace) && initialEntryParents == map[]
      ensures dijkstraHeap.entries == map[]
    {
      var i := 0;
      while i < |changedEdges|
        invariant 0 <= i <= |changedEdges|
        invariant forall k | 0 <= k < tree.Length && logPos[k] < i :: tree[k] == UNDISCOVERED
        modifies tree
      {
        ResetEntry(changedEdges[i]);
        i := i + 1;
      }
      changedEdges, logPos, initialEntryParents := [], NoPositions(keySpace), map[];
      dijkstraHeap.Clear();
    }

    /**
     * How updateMaxSettledEdges moves the adaptive limit, as the new batch
     * and the new limit: the settled-edge count of the search just finished
     * joins the batch; once the batch holds settledEdgeStatsResetInterval
     * counts, the limit becomes the estimate of the batch (never below
     * minimumMaxSettledEdges) and a new batch starts. The limit moves only
     * when a batch closes, and a batch below the interval stays below it.
     */
    function UpdatedLimit(batch: seq<int>, settled: int, limit: int): (r: (seq<int>, int))
      ensures r.0 == batch + [settled] || r.0 == []
      ensures r.1 != limit ==> r.0 == [] && r.1 >= config.minimumMaxSettledEdges
      ensures limit >= config.minimumMaxSettledEdges ==> r.1 >= config.minimumMaxSettledEdges
      ensures |batch| < config.settledEdgeStatsResetInterval ==> |r.0| < config.settledEdgeStatsResetInterval
    {
      var observations := batch + [settled];
      if |observations| == config.settledEdgeStatsResetInterval then
        ([], Max(config.minimumMaxSettledEdges, settledEdgesEstimate(observations)))
      else
        (observations, limit)
    }

    method UpdateMaxSettledEdges()
      modifies this`settledEdgesStats, this`maxSettledEdges
      ensures (settledEdgesStats, maxSettledEdges) == UpdatedLimit(old(settledEdgesStats), old(numSettledEdges), old(maxSettledEdges))
    {
      settledEdgesStats := settledEdgesStats + [numSettledEdges];
      if |settledEdgesStats| == config.settledEdgeStatsResetInterval {
        maxSettledEdges := Max(config.minimumMaxSettledEdges, settledEdgesEstimate(settledEdgesStats));
        settledEdgesStats := [];
      }
    }

    /** reset: moves the adaptive limit, clears the counters and empties the tree. */
    method Reset()
      requires Configured() && LogValid(tree[..], changedEdges, logPos)
      modifies this`settledEdgesStats, this`maxSettledEdges, this`numSettledEdges, this`numPolledEdges
      modifies this`numPotentialBridgePaths, this`changedEdges, this`logPos, this`initialEntryParents
      modifies this`settleRank, this`settledBound, tree, dijkstraHeap
      ensures State() == Cleared(keySpace) && numSettledEdges == 0
      ensures (settledEdgesStats, maxSettledEdges) == UpdatedLimit(old(settledEdgesStats), old(numSettledEdges), old(maxSettledEdges))
    {
      UpdateMaxSettledEdges();
      numSettledEdges, numPolledEdges, numPotentialBridgePaths := 0, 0, 0;
      ResetShortestPathTree();
      settleRank, settledBound := NoPositions(keySpace), Fin(0.0);
    }

    // -------------------------------------------------------------------
    // Initial entries

    /** setInitialEntries: writes the initial entries, then puts every one of them on the heap. */
    method SetInitialEntries(sourceNode: int, sourceEdge: int, centerNode: int)
      requires WellFormed(graph) && Configured() && State() == Cleared(keySpace)
      modifies tree, this`initialEntryParents, this`changedEdges, this`logPos, dijkstraHeap, this`numPotentialBridgePaths
      ensures IsSeeded(State(), InitialSeeds(graph, sourceNode, sourceEdge, centerNode))
    {
      hide ArenaMatches, InitialSeeds, CountFlagged;
      ClearedHoldsNoSeeds(keySpace);
      WriteInitialEntries(sourceNode, sourceEdge, centerNode);
      ghost var st := InitialSeeds(graph, sourceNode, sourceEdge, centerNode);
      ArenaIndexesLog(tree[..], changedEdges, logPos, initialEntryParents, st);
      // now that the needed entries are known they go on the heap
      PushChangedEntries();
      PushedHeapHoldsSeeds(tree[..], changedEdges, logPos, initialEntryParents, st, dijkstraHeap.entries);
    }

    /** The first loop of setInitialEntries: the lightest initial entry per key, with its root entry. */
    method WriteInitialEntries(sourceNode: int, sourceEdge: int, centerNode: int)
      requires Configured() && WellFormed(graph)
      requires ArenaMatches(tree[..], changedEdges, logPos, initialEntryParents, SeedState(map[], []))
      modifies tree, this`initialEntryParents, this`changedEdges, this`logPos
      ensures ArenaMatches(tree[..], changedEdges, logPos, initialEntryParents, InitialSeeds(graph, sourceNode, sourceEdge, centerNode))
    {
      var outs := graph.outEdges(sourceNode);
      var i := 0;
      while i < |outs|
        invariant 0 <= i <= |outs|
        invariant ArenaMatches(tree[..], changedEdges, logPos, initialEntryParents, Seeds(graph, sourceNode, sourceEdge, centerNode, i))
      {
        SeedsAreConsistent(graph, sourceNode, sourceEdge, centerNode, i);
        WriteInitialEntry(sourceNode, sourceEdge, centerNode, outs[i], Seeds(graph, sourceNode, sourceEdge, centerNode, i));
        i := i + 1;
      }
    }

    /** One round of the first loop of setInitialEntries, for the out edge `e` of the source node. */
    method WriteInitialEntry(sourceNode: int, sourceEdge: int, centerNode: int, e: EdgeState, ghost st: SeedState)
      requires Configured() && EdgeOk(graph, e) && SeedRowsOk(graph, sourceNode, centerNode, st.table)
      requires ArenaMatches(tree[..], changedEdges, logPos, initialEntryParents, st)
      modifies tree, this`initialEntryParents, this`changedEdges, this`logPos
      ensures ArenaMatches(tree[..], changedEdges, logPos, initialEntryParents, SeedStep(graph, sourceNode, sourceEdge, centerNode, st, e))
    {
      if IsContracted(graph, e.adjNode) {
        return;
      }
      var turnWeight := CalcTurnWeight(graph, sourceEdge, sourceNode, e.firstOrigEdge);
      if turnWeight.Inf? {
        return;
      }
      var edgeWeight := graph.edgeWeight(e, NO_EDGE);
      var weight := Add(turnWeight, edgeWeight);
      var isPotentialBridgePath := e.adjNode == centerNode;
      var incEdge := e.lastOrigEdge;
      var adjNode := e.adjNode;
      var key := GetEdgeKey(graph, incEdge, adjNode);
      var parentKey := RootParent(key);
      // the root entry stores the start turn weight and the edge leaving the source
      var parent := CHEntry(NO_EDGE, e.firstOrigEdge, sourceNode, turnWeight);
      if tree[key].edge == NO_EDGE {
        // a key not yet in the tree
        ghost var seed := Seed(e.edge, incEdge, adjNode, weight, isPotentialBridgePath, parent);
        AddSeedKeepsArena(tree[..], changedEdges, logPos, initialEntryParents, st, key, seed);
        tree[key] := TreeRow(weight, e.edge, incEdge, parentKey, adjNode, isPotentialBridgePath);
        initialEntryParents := initialEntryParents[parentKey := parent];
        logPos := logPos[key := |changedEdges|];
        changedEdges := changedEdges + [key];
      } else if Less(weight, tree[key].weight) {
        // a lighter way into a key already seeded replaces it
        ghost var seed := st.table[key].(edge := e.edge, weight := weight,
                                         isPotentialBridgePath := isPotentialBridgePath, root := parent);
        ImproveSeedKeepsArena(tree[..], changedEdges, logPos, initialEntryParents, st, key, seed);
        tree[key] := tree[key].(edge := e.edge, weight := weight, parent := parentKey,
                                isPotentialBridgePath := isPotentialBridgePath);
        initialEntryParents := initialEntryParents[parentKey := parent];
      }
    }

    /** The second loop of setInitialEntries: every logged key goes on the heap, and the flagged ones are counted. */
    method PushChangedEntries()
      requires Configured() && |logPos| == tree.Length && Indexes(changedEdges, logPos)
      requires dijkstraHeap.entries == map[]
      modifies dijkstraHeap, this`numPotentialBridgePaths
      ensures forall k :: k in dijkstraHeap.entries <==> 0 <= k < tree.Length && logPos[k] >= 0
      ensures forall k | k in dijkstraHeap.entries :: 0 <= k < tree.Length && dijkstraHeap.entries[k] == tree[k].weight
      ensures numPotentialBridgePaths == old(numPotentialBridgePaths) + CountFlagged(tree[..], changedEdges, |changedEdges|)
    {
      var j := 0;
      while j < |changedEdges|
        invariant 0 <= j <= |changedEdges|
        invariant forall k :: k in dijkstraHeap.entries <==> 0 <= k < tree.Length && 0 <= logPos[k] < j
        invariant forall k | k in dijkstraHeap.entries :: 0 <= k < tree.Length && dijkstraHeap.entries[k] == tree[k].weight
        invariant numPotentialBridgePaths == old(numPotentialBridgePaths) + CountFlagged(tree[..], changedEdges, j)
      {
        var key := changedEdges[j];
        if tree[key].isPotentialBridgePath {
          numPotentialBridgePaths := numPotentialBridgePaths + 1;
        }
        dijkstraHeap.Insert(tree[key].weight, key);
        j := j + 1;
      }
    }

    /** The first part of initSearch: a reset, the parameters of the new search and its initial entries. */
    method StartSearch(centerNode: int, sourceNode: int, sourceEdge: int)
      requires WellFormed(graph) && Valid()
      modifies this`settledEdgesStats, this`maxSettledEdges, this`numSettledEdges, this`numPolledEdges
      modifies this`numPotentialBridgePaths, this`changedEdges, this`logPos, this`initialEntryParents
      modifies this`settleRank, this`settledBound, this`sourceEdge, this`sourceNode, this`centerNode
      modifies tree, dijkstraHeap
      ensures Valid() && numSettledEdges == 0
      ensures (settledEdgesStats, maxSettledEdges) == UpdatedLimit(old(settledEdgesStats), old(numSettledEdges), old(maxSettledEdges))
      ensures this.centerNode == centerNode && this.sourceNode == sourceNode && this.sourceEdge == sourceEdge
      ensures IsSeeded(State(), InitialSeeds(graph, sourceNode, sourceEdge, centerNode))
      ensures |dijkstraHeap.entries| == |InitialSeeds(graph, sourceNode, sourceEdge, centerNode).table|
      ensures numPotentialBridgePaths == 0 <==> !SomeCandidateReachesCenter(graph, sourceNode, sourceEdge, centerNode)
    {
      hide TreeInv, IsSeeded, ArenaMatches, InitialSeeds;
      TreeInvFacts(this.graph, this.sourceNode, this.centerNode, State());
      Reset();
      this.sourceEdge, this.sourceNode, this.centerNode := sourceEdge, sourceNode, centerNode;
      SetInitialEntries(sourceNode, sourceEdge, centerNode);
      InitialTreeIsValid(graph, sourceNode, sourceEdge, centerNode, State());
    }

    /**
     * initSearch: starts a new search from sourceEdge at sourceNode around
     * centerNode. The result is the number of initial entries, or 0, with
     * the tree cleared again, when no out edge of the source node that the
     * search may start with leads to the center node.
     */
    method InitSearch(centerNode: int, sourceNode: int, sourceEdge: int) returns (r: int)
      requires WellFormed(graph) && Valid()
      modifies this`settledEdgesStats, this`maxSettledEdges, this`numSettledEdges, this`numPolledEdges
      modifies this`numPotentialBridgePaths, this`changedEdges, this`logPos, this`initialEntryParents
      modifies this`settleRank, this`settledBound, this`sourceEdge, this`sourceNode, this`centerNode
      modifies tree, dijkstraHeap
      modifies currentBatchStats`numSearches, currentBatchStats`maxNumSettledEdges
      modifies totalStats`numSearches, totalStats`maxNumSettledEdges
      ensures Valid()
      ensures this.centerNode == centerNode && this.sourceNode == sourceNode && this.sourceEdge == sourceEdge
      ensures r == 0 <==> !SomeCandidateReachesCenter(graph, sourceNode, sourceEdge, centerNode)
      // a skipped search resets twice, the second time after no edge was settled
      ensures var first := UpdatedLimit(old(settledEdgesStats), old(numSettledEdges), old(maxSettledEdges));
              (settledEdgesStats, maxSettledEdges) == if r == 0 then UpdatedLimit(first.0, 0, first.1) else first
      // only a search that is not skipped is counted, with the limit it runs under
      ensures r != 0 ==> && currentBatchStats.numSearches == old(currentBatchStats.numSearches) + 1
                         && totalStats.numSearches == old(totalStats.numSearches) + 1
                         && currentBatchStats.maxNumSettledEdges == old(currentBatchStats.maxNumSettledEdges) + maxSettledEdges
                         && totalStats.maxNumSettledEdges == old(totalStats.maxNumSettledEdges) + maxSettledEdges
      ensures r == 0 ==> && currentBatchStats.numSearches == old(currentBatchStats.numSearches)
                         && totalStats.numSearches == old(totalStats.numSearches)
                         && currentBatchStats.maxNumSettledEdges == old(currentBatchStats.maxNumSettledEdges)
                         && totalStats.maxNumSettledEdges == old(totalStats.maxNumSettledEdges)
      ensures r == 0 ==> State() == Cleared(keySpace) && numSettledEdges == 0
      ensures r != 0 ==> && r == |InitialSeeds(graph, sourceNode, sourceEdge, centerNode).table|
                         && IsSeeded(State(), InitialSeeds(graph, sourceNode, sourceEdge, centerNode))
                         && numSettledEdges == 0 && numPotentialBridgePaths > 0
    {
      hide TreeInv, IsSeeded, InitialSeeds;
      StartSearch(centerNode, sourceNode, sourceEdge);
      TreeInvFacts(graph, this.sourceNode, this.centerNode, State());
      CountBoundedByHeap(graph, this.sourceNode, this.centerNode, State());
      // if no entry reaches the center node there is no witness to search for
      if numPotentialBridgePaths < 1 {
        Reset();
        ClearedIsValid(graph, sourceNode, centerNode);
        return 0;
      }
      CountStartedSearch();
      r := dijkstraHeap.GetSize();
    }

    /** The statistics initSearch keeps of every search it does not skip. */
    method CountStartedSearch()
      requires Configured()
      modifies currentBatchStats`numSearches, currentBatchStats`maxNumSettledEdges
      modifies totalStats`numSearches, totalStats`maxNumSettledEdges
      ensures currentBatchStats.numSearches == old(currentBatchStats.numSearches) + 1
      ensures currentBatchStats.maxNumSettledEdges == old(currentBatchStats.maxNumSettledEdges) + maxSettledEdges
      ensures totalStats.numSearches == old(totalStats.numSearches) + 1
      ensures totalStats.maxNumSettledEdges == old(totalStats.maxNumSettledEdges) + maxSettledEdges
    {
      currentBatchStats.CountSearch(maxSettledEdges);
      totalStats.CountSearch(maxSettledEdges);
    }

    // -------------------------------------------------------------------
    // Writing entries and the best path

    /** setEntry: fills the row of a new key; the flag is only ever raised, and then counted. */
    method SetEntry(key: int, e: EdgeState, weight: Weight, parent: int, isPotentialBridgePath: bool)
      requires 0 <= key < tree.Length
      modifies tree, this`numPotentialBridgePaths
      ensures tree[..] == old(tree[..])[key := TreeRow(weight, e.edge, e.lastOrigEdge, parent, e.adjNode,
                                                        isPotentialBridgePath || old(tree[key].isPotentialBridgePath))]
      ensures numPotentialBridgePaths == old(numPotentialBridgePaths) + (if isPotentialBridgePath then 1 else 0)
    {
      var flag := tree[key].isPotentialBridgePath;
      if isPotentialBridgePath {
        flag := true;
        numPotentialBridgePaths := numPotentialBridgePaths + 1;
      }
      tree[key] := TreeRow(weight, e.edge, e.lastOrigEdge, parent, e.adjNode, flag);
    }

    /** updateEntry: hangs an existing key below a new parent and keeps the counter in step with its flag. */
    method UpdateEntry(key: int, e: EdgeState, weight: Weight, currKey: int, isPotentialBridgePath: bool)
      requires 0 <= key < tree.Length
      modifies tree, this`numPotentialBridgePaths
      ensures tree[..] == old(tree[..])[key := old(tree[key]).(edge := e.edge, weight := weight, parent := currKey,
                                                                isPotentialBridgePath := isPotentialBridgePath)]
      ensures numPotentialBridgePaths ==
                old(numPotentialBridgePaths) + (if isPotentialBridgePath then 1 else 0)
                                             - (if old(tree[key].isPotentialBridgePath) then 1 else 0)
    {
      if isPotentialBridgePath {
        if !tree[key].isPotentialBridgePath {
          numPotentialBridgePaths := numPotentialBridgePaths + 1;
        }
      } else {
        if tree[key].isPotentialBridgePath {
          numPotentialBridgePaths := numPotentialBridgePaths - 1;
        }
      }
      tree[key] := tree[key].(edge := e.edge, weight := weight, parent := currKey,
                              isPotentialBridgePath := isPotentialBridgePath);
    }

    /** updateBestPath */
    method UpdateBestPath(targetNode: int, targetEdge: int, edgeKey: int)
      requires 0 <= edgeKey < tree.Length
      modifies this`bestPathWeight, this`bestPathIncEdge, this`bestPathIsBridgePath
      ensures Best() == UpdatedBest(graph, tree[..], old(Best()), targetNode, targetEdge, edgeKey)
    {
      // whenever the target node is hit the best path may change
      if tree[edgeKey].adjNode == targetNode {
        var totalWeight := Add(tree[edgeKey].weight, CalcTurnWeight(graph, tree[edgeKey].incEdge, targetNode, targetEdge));
        // a negative parent means the entry hangs directly below its root, so the path skipped the center
        var isBridgePath := 0 <= tree[edgeKey].parent < tree.Length && tree[tree[edgeKey].parent].isPotentialBridgePath;
        // on equal weights a witness path is preferred over a bridge path
        var tolerance := if isBridgePath then 0.0 else WITNESS_TOLERANCE;
        if Less(Sub(totalWeight, tolerance), bestPathWeight) {
          bestPathWeight, bestPathIncEdge, bestPathIsBridgePath := totalWeight, tree[edgeKey].incEdge, isBridgePath;
        }
      }
    }

    // -------------------------------------------------------------------
    // The steps of runSearch

    /** The start of runSearch: the plain turn at the source when the target is the source node, else no path. */
    method InitBestPath(targetNode: int, targetEdge: int)
      modifies this`bestPathWeight, this`bestPathIncEdge, this`bestPathIsBridgePath
      ensures Best() == InitialBest(graph, sourceNode, sourceEdge, targetNode, targetEdge)
    {
      bestPathWeight := if sourceNode == targetNode then CalcTurnWeight(graph, sourceEdge, sourceNode, targetEdge) else Inf;
      bestPathIncEdge := NO_EDGE;
      bestPathIsBridgePath := false;
    }

    /** The first loop of runSearch: each discovered arrival at the target node may already give the best path. */
    method ScanTree(targetNode: int, targetEdge: int)
      requires Configured() && WellFormed(graph)
      modifies this`bestPathWeight, this`bestPathIncEdge, this`bestPathIsBridgePath
      ensures Best() == ScanBest(graph, tree[..], old(Best()), targetNode, targetEdge,
                                 graph.origInEdges(targetNode), |graph.origInEdges(targetNode)|)
    {
      var ins := graph.origInEdges(targetNode);
      var i := 0;
      while i < |ins|
        invariant 0 <= i <= |ins|
        invariant Best() == ScanBest(graph, tree[..], old(Best()), targetNode, targetEdge, ins, i)
      {
        var incEdge := ins[i];
        var edgeKey := GetEdgeKey(graph, incEdge, targetNode);
        if tree[edgeKey].edge != NO_EDGE {
          UpdateBestPath(targetNode, targetEdge, edgeKey);
        }
        i := i + 1;
      }
    }

    /** poll_element() with the counters that go with it. */
    method PollEntry(currKey: int)
      requires Configured() && IsFirstMin(dijkstraHeap.entries, currKey)
      requires 0 <= currKey < tree.Length && |settleRank| == tree.Length
      modifies dijkstraHeap, this`numPolledEdges, this`numPotentialBridgePaths, this`settleRank, this`settledBound
      modifies currentBatchStats`numPolledEdges, totalStats`numPolledEdges
      ensures State() == Poll(old(State()), currKey)
      ensures currentBatchStats.numPolledEdges == old(currentBatchStats.numPolledEdges) + 1
      ensures totalStats.numPolledEdges == old(totalStats.numPolledEdges) + 1
    {
      var polled := dijkstraHeap.PollElement();
      FirstMinUnique(old(dijkstraHeap.entries), polled, currKey);
      settleRank := settleRank[currKey := numPolledEdges];
      settledBound := tree[currKey].weight;
      numPolledEdges := numPolledEdges + 1;
      currentBatchStats.CountPolled();
      totalStats.CountPolled();
      if tree[currKey].isPotentialBridgePath {
        numPotentialBridgePaths := numPotentialBridgePaths - 1;
      }
    }

    /** The body of the inner loop of runSearch for the out edge `e` of the entry `cur`. */
    method RelaxEdge(cur: int, e: EdgeState, targetNode: int, targetEdge: int)
      requires Configured() && LogValid(tree[..], changedEdges, logPos) && 0 <= cur < tree.Length && EdgeOk(graph, e)
      requires forall k | k in dijkstraHeap.entries :: 0 <= k < tree.Length && tree[k].edge != NO_EDGE
      modifies tree, this`changedEdges, this`logPos, dijkstraHeap, this`numPotentialBridgePaths
      modifies this`bestPathWeight, this`bestPathIncEdge, this`bestPathIsBridgePath
      ensures State() == Relax(graph, centerNode, old(State()), cur, e)
      ensures Best() == RelaxBest(graph, centerNode, old(State()), cur, e, old(Best()), targetNode, targetEdge)
    {
      hide Discover, Improve, UpdatedBest;
      if IsContracted(graph, e.adjNode) {
        return;
      }
      // no u-turns
      if e.firstOrigEdge == tree[cur].incEdge {
        return;
      }
      var weight := Add(graph.edgeWeight(e, tree[cur].incEdge), tree[cur].weight);
      if weight.Inf? {
        return;
      }
      var isPotentialBridgePath := tree[cur].isPotentialBridgePath && e.adjNode == centerNode;
      // a new key is discovered, a known, unpolled one may be improved
      var key := GetEdgeKey(graph, e.lastOrigEdge, e.adjNode);
      ghost var s := State();
      if tree[key].edge == NO_EDGE {
        ghost var row := TreeRow(weight, e.edge, e.lastOrigEdge, cur, e.adjNode, isPotentialBridgePath);
        assert Expansion(graph, centerNode, s, cur, e) == Some((key, row));
        assert tree[key] == UNDISCOVERED;
        DiscoverEntry(key, e, weight, cur, isPotentialBridgePath);
        assert State() == Discover(s, key, row);
        UpdateBestPath(targetNode, targetEdge, key);
      } else if Less(weight, tree[key].weight) {
        ghost var row := tree[key].(edge := e.edge, weight := weight, parent := cur, isPotentialBridgePath := isPotentialBridgePath);
        assert Expansion(graph, centerNode, s, cur, e) == Some((key, row));
        ImproveEntry(key, e, weight, cur, isPotentialBridgePath);
        assert State() == Improve(s, key, row);
        UpdateBestPath(targetNode, targetEdge, key);
      }
    }

    /** setEntry, changedEdges.add and insert_ for a key not discovered yet. */
    method DiscoverEntry(key: int, e: EdgeState, weight: Weight, parent: int, isPotentialBridgePath: bool)
      requires Configured() && 0 <= key < tree.Length && key < |logPos| && tree[key] == UNDISCOVERED
      requires key !in dijkstraHeap.entries
      modifies tree, this`changedEdges, this`logPos, dijkstraHeap, this`numPotentialBridgePaths
      ensures State() == Discover(old(State()), key, TreeRow(weight, e.edge, e.lastOrigEdge, parent, e.adjNode, isPotentialBridgePath))
    {
      SetEntry(key, e, weight, parent, isPotentialBridgePath);
      logPos := logPos[key := |changedEdges|];
      changedEdges := changedEdges + [key];
      dijkstraHeap.Insert(weight, key);
    }

    /** updateEntry and update_ for a discovered key. */
    method ImproveEntry(key: int, e: EdgeState, weight: Weight, parent: int, isPotentialBridgePath: bool)
      requires Configured() && 0 <= key < tree.Length
      modifies tree, dijkstraHeap, this`numPotentialBridgePaths
      ensures State() == Improve(old(State()), key, old(tree[key]).(edge := e.edge, weight := weight, parent := parent,
                                                                     isPotentialBridgePath := isPotentialBridgePath))
    {
      UpdateEntry(key, e, weight, parent, isPotentialBridgePath);
      dijkstraHeap.Update(weight, key);
    }

    /** The inner loop of runSearch: relaxes every out edge of the node the entry `cur` arrives at. */
    method ExpandEntry(cur: int, targetNode: int, targetEdge: int)
      requires Valid() && WellFormed(graph) && IsExpanding(State(), cur)
      modifies tree, this`changedEdges, this`logPos, dijkstraHeap, this`numPotentialBridgePaths
      modifies this`bestPathWeight, this`bestPathIncEdge, this`bestPathIsBridgePath
      ensures State() == Expand(graph, centerNode, old(State()), cur, graph.outEdges(old(tree[cur].adjNode)))
      ensures Best() == ExpandBest(graph, centerNode, old(State()), cur, graph.outEdges(old(tree[cur].adjNode)), old(Best()),
                                   targetNode, targetEdge)
      ensures Valid() && IsExpanding(State(), cur)
    {
      hide TreeInv, Relax, RelaxBest;
      TreeInvFacts(graph, sourceNode, centerNode, State());
      var es := graph.outEdges(tree[cur].adjNode);
      ghost var s0, b0 := State(), Best();
      var i := 0;
      while i < |es|
        invariant 0 <= i <= |es|
        invariant Valid() && IsExpanding(State(), cur) && |logPos| == tree.Length
        invariant Expand(graph, centerNode, State(), cur, es[i..]) == Expand(graph, centerNode, s0, cur, es)
        invariant ExpandBest(graph, centerNode, State(), cur, es[i..], Best(), targetNode, targetEdge) ==
                  ExpandBest(graph, centerNode, s0, cur, es, b0, targetNode, targetEdge)
      {
        RelaxNext(cur, es, i, targetNode, targetEdge);
        i := i + 1;
      }
    }

    /** One round of the inner loop of runSearch: the fold over the remaining out edges moves on by one edge. */
    method RelaxNext(cur: int, es: seq<EdgeState>, i: int, targetNode: int, targetEdge: int)
      requires Valid() && WellFormed(graph) && IsExpanding(State(), cur) && |logPos| == tree.Length
      requires 0 <= i < |es| && forall j | 0 <= j < |es| :: EdgeOk(graph, es[j])
      modifies tree, this`changedEdges, this`logPos, dijkstraHeap, this`numPotentialBridgePaths
      modifies this`bestPathWeight, this`bestPathIncEdge, this`bestPathIsBridgePath
      ensures Valid() && IsExpanding(State(), cur) && |logPos| == tree.Length
      ensures Expand(graph, centerNode, State(), cur, es[i + 1..]) == Expand(graph, centerNode, old(State()), cur, es[i..])
      ensures ExpandBest(graph, centerNode, State(), cur, es[i + 1..], Best(), targetNode, targetEdge) ==
              ExpandBest(graph, centerNode, old(State()), cur, es[i..], old(Best()), targetNode, targetEdge)
    {
      hide TreeInv, Relax, RelaxBest;
      ghost var si := State();
      TreeInvFacts(graph, sourceNode, centerNode, si);
      assert es[i..][0] == es[i] && es[i..][1..] == es[i + 1..];
      RelaxEdge(cur, es[i], targetNode, targetEdge);
      RelaxKeepsInv(graph, sourceNode, centerNode, si, cur, es[i]);
    }

    /** numSettledEdges++ with the counters that go with it. */
    method CountSettled()
      requires Configured()
      modifies this`numSettledEdges, currentBatchStats`numSettledEdges, totalStats`numSettledEdges
      ensures numSettledEdges == old(numSettledEdges) + 1
      ensures currentBatchStats.numSettledEdges == old(currentBatchStats.numSettledEdges) + 1
      ensures totalStats.numSettledEdges == old(totalStats.numSettledEdges) + 1
    {
      numSettledEdges := numSettledEdges + 1;
      currentBatchStats.CountSettled();
      totalStats.CountSettled();
    }

    /** The walk over the parents at the end of runSearch: the entry of `leaf`, its ancestors and the root entry. */
    method CollectChain(leaf: int) returns (chain: seq<CHEntry>)
      requires Configured() && Linked(State()) && 0 <= leaf < tree.Length && tree[leaf].edge != NO_EDGE
      ensures chain == ChainFrom(State(), leaf)
    {
      ghost var s := State();
      hide Linked, ChainFrom;
      var edgeKey := leaf;
      chain := [];
      while tree[edgeKey].parent >= 0
        invariant 0 <= edgeKey < tree.Length && tree[edgeKey].edge != NO_EDGE
        invariant chain + ChainFrom(s, edgeKey) == ChainFrom(s, leaf)
        decreases Rank(s, edgeKey)
      {
        ChainStep(s, edgeKey);
        var p := tree[edgeKey].parent;
        ghost var tail := ChainFrom(s, p);
        assert chain + ([EntryForKey(s.rows, edgeKey)] + tail) == (chain + [EntryForKey(s.rows, edgeKey)]) + tail;
        chain := chain + [EntryForKey(tree[..], edgeKey)];
        edgeKey := p;
      }
      ChainEnd(s, edgeKey);
      chain := chain + [EntryForKey(tree[..], edgeKey), initialEntryParents[tree[edgeKey].parent]];
    }

    /**
     * One round of the Dijkstra loop of runSearch after the checks for
     * stopping: polls the first entry and, unless the limit of settled edges
     * is exceeded and the entry cannot become a bridge path, expands it.
     * The search that started from `s0` and has expanded the keys in
     * `expanded` so far has then expanded the keys in `expanded'`.
     */
    method SettleEntry(currKey: int, targetNode: int, targetEdge: int, ghost s0: TreeState, ghost expanded: set<int>)
        returns (ghost expanded': set<int>)
      requires Valid() && WellFormed(graph) && IsFirstMin(dijkstraHeap.entries, currKey)
      requires BestAttained(graph, sourceNode, sourceEdge, tree[..], Best(), targetNode, targetEdge)
      requires SearchProgress(graph, s0, State(), expanded)
      requires numSettledEdges <= maxSettledEdges ==> PolledSince(s0, State()) <= expanded
      modifies tree, this`changedEdges, this`logPos, dijkstraHeap, this`numPotentialBridgePaths
      modifies this`bestPathWeight, this`bestPathIncEdge, this`bestPathIsBridgePath
      modifies this`numPolledEdges, this`numSettledEdges, this`settleRank, this`settledBound
      modifies currentBatchStats`numPolledEdges, currentBatchStats`numSettledEdges
      modifies totalStats`numPolledEdges, totalStats`numSettledEdges
      ensures Valid() && BestAttained(graph, sourceNode, sourceEdge, tree[..], Best(), targetNode, targetEdge)
      ensures currentBatchStats.numPolledEdges == old(currentBatchStats.numPolledEdges) + 1
      ensures totalStats.numPolledEdges == old(totalStats.numPolledEdges) + 1
      ensures currentBatchStats.numSettledEdges == old(currentBatchStats.numSettledEdges) + (numSettledEdges - old(numSettledEdges))
      ensures totalStats.numSettledEdges == old(totalStats.numSettledEdges) + (numSettledEdges - old(numSettledEdges))
      ensures SearchProgress(graph, s0, State(), expanded')
      ensures numSettledEdges <= maxSettledEdges ==> PolledSince(s0, State()) <= expanded'
      ensures numSettledEdges == old(numSettledEdges) + |expanded'| - |expanded|
      ensures numPolledEdges == old(numPolledEdges) + 1
      ensures |Unpolled(settleRank)| < |Unpolled(old(settleRank))|
      ensures 0 <= currKey < tree.Length
      ensures var polled := Poll(old(State()), currKey);
              if old(numSettledEdges) > maxSettledEdges && !old(tree[currKey].isPotentialBridgePath) then
                State() == polled && Best() == old(Best()) && numSettledEdges == old(numSettledEdges)
              else
                && State() == Expand(graph, centerNode, polled, currKey, graph.outEdges(old(tree[currKey].adjNode)))
                && Best() == ExpandBest(graph, centerNode, polled, currKey, graph.outEdges(old(tree[currKey].adjNode)),
                                        old(Best()), targetNode, targetEdge)
                && numSettledEdges == old(numSettledEdges) + 1
    {
      hide TreeInv, Relax, RelaxBest, Expand, ExpandBest, SearchProgress, Poll, Extends, Relaxed, BestAttained, Unpolled, PolledSince;
      ghost var s := State();
      PollKeepsInv(graph, sourceNode, centerNode, s, currKey);
      expanded' := SettleKeepsProgress(graph, sourceNode, centerNode, s0, s, expanded, currKey,
                                       numSettledEdges > maxSettledEdges && !tree[currKey].isPotentialBridgePath);
      PollMin(currKey);
      // once enough edges are settled only entries that may become a bridge path are expanded
      if numSettledEdges > maxSettledEdges && !tree[currKey].isPotentialBridgePath {
        return;
      }
      ExpandSettled(currKey, targetNode, targetEdge);
    }

    /** Takes the lightest entry off the heap; the tree stays valid and the entry is the one to expand. */
    method PollMin(currKey: int)
      requires Valid() && IsFirstMin(dijkstraHeap.entries, currKey)
      modifies dijkstraHeap, this`numPolledEdges, this`numPotentialBridgePaths, this`settleRank, this`settledBound
      modifies currentBatchStats`numPolledEdges, totalStats`numPolledEdges
      ensures State() == Poll(old(State()), currKey) && numPolledEdges == old(numPolledEdges) + 1
      ensures currentBatchStats.numPolledEdges == old(currentBatchStats.numPolledEdges) + 1
      ensures totalStats.numPolledEdges == old(totalStats.numPolledEdges) + 1
      ensures Valid() && IsExpanding(State(), currKey) && 0 <= currKey < tree.Length
      ensures |Unpolled(settleRank)| < |Unpolled(old(settleRank))|
    {
      hide TreeInv;
      ghost var s := State();
      PollKeepsInv(graph, sourceNode, centerNode, s, currKey);
      PollEntry(currKey);
      PollShrinksUnpolled(s.settleRank, currKey, s.numPolledEdges);
    }

    /** Expands the entry just polled and counts it as settled; the best path stays attained. */
    method ExpandSettled(cur: int, targetNode: int, targetEdge: int)
      requires Valid() && WellFormed(graph) && IsExpanding(State(), cur)
      requires BestAttained(graph, sourceNode, sourceEdge, tree[..], Best(), targetNode, targetEdge)
      modifies tree, this`changedEdges, this`logPos, dijkstraHeap, this`numPotentialBridgePaths
      modifies this`bestPathWeight, this`bestPathIncEdge, this`bestPathIsBridgePath
      modifies this`numSettledEdges, currentBatchStats`numSettledEdges, totalStats`numSettledEdges
      ensures Valid() && BestAttained(graph, sourceNode, sourceEdge, tree[..], Best(), targetNode, targetEdge)
      ensures State() == Expand(graph, centerNode, old(State()), cur, graph.outEdges(old(tree[cur].adjNode)))
      ensures Best() == ExpandBest(graph, centerNode, old(State()), cur, graph.outEdges(old(tree[cur].adjNode)),
                                   old(Best()), targetNode, targetEdge)
      ensures numSettledEdges == old(numSettledEdges) + 1
      ensures currentBatchStats.numSettledEdges == old(currentBatchStats.numSettledEdges) + 1
      ensures totalStats.numSettledEdges == old(totalStats.numSettledEdges) + 1
    {
      hide TreeInv, Relax, RelaxBest, Expand, ExpandBest;
      ghost var p, pb := State(), Best();
      ExpandEntry(cur, targetNode, targetEdge);
      ExpandKeepsBest(graph, sourceNode, sourceEdge, centerNode, p, cur, graph.outEdges(p.rows[cur].adjNode),
                      pb, targetNode, targetEdge);
      CountSettled();
    }

    /**
     * What runSearch hands out: nothing unless the best path is a bridge
     * path, and then the chain from the entry the best path ends in: that
     * entry first, arriving at the target node, then its ancestors, all of
     * them at the center node, and last the root entry at the source node.
     */
    ghost predicate IsSearchResult(result: Option<seq<CHEntry>>, targetNode: int)
      reads this, tree, dijkstraHeap
    {
      && (result.Some? <==> bestPathIsBridgePath)
      && (result.Some? ==>
            var leaf := graph.edgeKey(bestPathIncEdge, targetNode);
            && 0 <= leaf < tree.Length && tree[leaf].edge != NO_EDGE && Linked(State())
            && result.value == ChainFrom(State(), leaf)
            && result.value[0].adjNode == targetNode
            && result.value[|result.value| - 1].adjNode == sourceNode
            && |result.value| >= 3
            && (forall i | 1 <= i < |result.value| - 1 :: result.value[i].adjNode == centerNode))
    }

    /** The end of runSearch: the chain of the best path if it is a bridge path, and nothing otherwise. */
    method BridgePathResult(targetNode: int, targetEdge: int) returns (result: Option<seq<CHEntry>>)
      requires Valid() && BestAttained(graph, sourceNode, sourceEdge, tree[..], Best(), targetNode, targetEdge)
      ensures IsSearchResult(result, targetNode)
    {
      if bestPathIsBridgePath {
        hide TreeInv;
        TreeInvFacts(graph, sourceNode, centerNode, State());
        var edgeKey := GetEdgeKey(graph, bestPathIncEdge, targetNode);
        BridgeChainPassesCenter(graph, sourceNode, centerNode, State(), edgeKey);
        var chain := CollectChain(edgeKey);
        result := Some(chain);
      } else {
        result := None;
      }
    }

    /**
     * runSearch: extends the shortest path tree until the best path to the
     * target edge is known well enough to tell a bridge path from a witness
     * path, and hands out the chain of the bridge path if it is one. The
     * tree only grows, from the tree the search continues (an earlier
     * search towards another target may have left entries on the heap);
     * `expanded` holds the keys the loop polled and expanded, which include
     * every polled key that may become a bridge path and, while the settled
     * edges limit is not passed, every polled key; each of them counts as
     * one settled edge.
     */
    method RunSearch(targetNode: int, targetEdge: int) returns (result: Option<seq<CHEntry>>, ghost expanded: set<int>)
      requires Valid() && WellFormed(graph)
      modifies tree, this`changedEdges, this`logPos, dijkstraHeap, this`numPotentialBridgePaths
      modifies this`bestPathWeight, this`bestPathIncEdge, this`bestPathIsBridgePath
      modifies this`numPolledEdges, this`numSettledEdges, this`settleRank, this`settledBound
      modifies currentBatchStats`numPolledEdges, currentBatchStats`numSettledEdges
      modifies totalStats`numPolledEdges, totalStats`numSettledEdges
      ensures Valid()
      ensures BestAttained(graph, sourceNode, sourceEdge, tree[..], Best(), targetNode, targetEdge)
      ensures SearchStopped(State(), Best())
      ensures IsSearchResult(result, targetNode)
      ensures SearchProgress(graph, old(State()), State(), expanded)
      ensures numSettledEdges <= maxSettledEdges ==> PolledSince(old(State()), State()) <= expanded
      ensures numSettledEdges == old(numSettledEdges) + |expanded|
      ensures currentBatchStats.numPolledEdges == old(currentBatchStats.numPolledEdges) + (numPolledEdges - old(numPolledEdges))
      ensures totalStats.numPolledEdges == old(totalStats.numPolledEdges) + (numPolledEdges - old(numPolledEdges))
      ensures currentBatchStats.numSettledEdges == old(currentBatchStats.numSettledEdges) + |expanded|
      ensures totalStats.numSettledEdges == old(totalStats.numSettledEdges) + |expanded|
    {
      hide TreeInv, Poll, Expand, ExpandBest, BestAttained, IsSearchResult, SearchProgress, PolledSince, Extends, Relaxed;
      InitBestPath(targetNode, targetEdge);
      // the tree found so far may already reach the target
      ScanTree(targetNode, targetEdge);
      ScanKeepsBest(graph, sourceNode, sourceEdge, centerNode, State(), InitialBest(graph, sourceNode, sourceEdge, targetNode, targetEdge),
                    targetNode, targetEdge, graph.origInEdges(targetNode), |graph.origInEdges(targetNode)|);
      expanded := Dijkstra(targetNode, targetEdge);
      result := BridgePathResult(targetNode, targetEdge);
    }

    /**
     * The Dijkstra loop of runSearch: settles the lightest entry on the heap
     * until the heap is empty, nothing on it can become a bridge path while
     * no bridge path was found, or the lightest entry is heavier than the
     * best path. `expanded` holds the keys the loop polled and expanded,
     * which include every polled key that may become a bridge path and,
     * while the settled edges limit is not passed, every polled key; each of
     * them counts as one settled edge.
     */
    method Dijkstra(targetNode: int, targetEdge: int) returns (ghost expanded: set<int>)
      requires Valid() && WellFormed(graph)
      requires BestAttained(graph, sourceNode, sourceEdge, tree[..], Best(), targetNode, targetEdge)
      modifies tree, this`changedEdges, this`logPos, dijkstraHeap, this`numPotentialBridgePaths
      modifies this`bestPathWeight, this`bestPathIncEdge, this`bestPathIsBridgePath
      modifies this`numPolledEdges, this`numSettledEdges, this`settleRank, this`settledBound
      modifies currentBatchStats`numPolledEdges, currentBatchStats`numSettledEdges
      modifies totalStats`numPolledEdges, totalStats`numSettledEdges
      ensures Valid()
      ensures BestAttained(graph, sourceNode, sourceEdge, tree[..], Best(), targetNode, targetEdge)
      ensures SearchStopped(State(), Best())
      ensures SearchProgress(graph, old(State()), State(), expanded)
      ensures numSettledEdges <= maxSettledEdges ==> PolledSince(old(State()), State()) <= expanded
      ensures numSettledEdges == old(numSettledEdges) + |expanded|
      ensures currentBatchStats.numPolledEdges == old(currentBatchStats.numPolledEdges) + (numPolledEdges - old(numPolledEdges))
      ensures totalStats.numPolledEdges == old(totalStats.numPolledEdges) + (numPolledEdges - old(numPolledEdges))
      ensures currentBatchStats.numSettledEdges == old(currentBatchStats.numSettledEdges) + |expanded|
      ensures totalStats.numSettledEdges == old(totalStats.numSettledEdges) + |expanded|
    {
      hide TreeInv, Poll, Expand, ExpandBest, BestAttained, SearchProgress, PolledSince, Extends, Relaxed;
      ghost var s0 := State();
      expanded := {};
      ProgressStarts(graph, s0);
      while !dijkstraHeap.IsEmpty()
        invariant Valid()
        invariant BestAttained(graph, sourceNode, sourceEdge, tree[..], Best(), targetNode, targetEdge)
        invariant SearchProgress(graph, s0, State(), expanded)
        invariant numSettledEdges <= maxSettledEdges ==> PolledSince(s0, State()) <= expanded
        invariant numSettledEdges == old(numSettledEdges) + |expanded|
        invariant currentBatchStats.numPolledEdges == old(currentBatchStats.numPolledEdges) + (numPolledEdges - old(numPolledEdges))
        invariant totalStats.numPolledEdges == old(totalStats.numPolledEdges) + (numPolledEdges - old(numPolledEdges))
        invariant currentBatchStats.numSettledEdges == old(currentBatchStats.numSettledEdges) + |expanded|
        invariant totalStats.numSettledEdges == old(totalStats.numSettledEdges) + |expanded|
        decreases |Unpolled(settleRank)|
      {
        if numPotentialBridgePaths < 1 && (!bestPathIsBridgePath || bestPathWeight.Inf?) {
          // without any best path found, and with no flagged entry left on the heap, a bridge path is out of reach
          break;
        }
        var currKey := dijkstraHeap.PeekElement();
        PollKeepsInv(graph, sourceNode, centerNode, State(), currKey);
        if Less(bestPathWeight, tree[currKey].weight) {
          // reaching this entry alone costs more than the best path: stop, keeping the entry on the heap
          FirstHeavierMeansAllHeavier(dijkstraHeap.entries, currKey, bestPathWeight);
          break;
        }
        expanded := SettleEntry(currKey, targetNode, targetEdge, s0, expanded);
      }
    }

    function GetNumPolledEdges(): int
      reads this
    {
      numPolledEdges
    }

    function GetTotalNumSearches(): int
      reads this, totalStats
    {
      totalStats.numSearches
    }

    /** resetStats: clears the statistics of the current batch; the totals are kept. */
    method ResetStats()
      requires Configured()
      modifies currentBatchStats
      ensures currentBatchStats.numSearches == 0 && currentBatchStats.numPolledEdges == 0
      ensures currentBatchStats.numSettledEdges == 0 && currentBatchStats.maxNumSettledEdges == 0
      ensures totalStats.numSearches == old(totalStats.numSearches)
      ensures totalStats.numPolledEdges == old(totalStats.numPolledEdges)
    {
      currentBatchStats.Reset();
    }
  }
}
