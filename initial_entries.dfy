/**
 * The tree setInitialEntries leaves behind, stated over the value of the
 * tree: the rows of the seeded keys, logged in the order they were first
 * written, their root entries, all of them on the heap, and the number of
 * those that may become a bridge path.
 */
module InitialEntries {
  import opened Weights
  import opened Graphs
  import opened SearchRules
  import opened KeyLog
  import opened ShortestPathTree

  /** The row setInitialEntries writes for `key` from `seed`. */
  function SeedRow(key: int, seed: Seed): TreeRow {
    TreeRow(seed.weight, seed.edge, seed.incEdge, RootParent(key), seed.adjNode, seed.isPotentialBridgePath)
  }

  /** Every seeded key has its seeded row; every other key keeps the sentinel row. */
  ghost predicate RowsSeeded(rows: seq<TreeRow>, table: map<int, Seed>) {
    && (forall k | k in table :: 0 <= k < |rows|)
    && (forall k | 0 <= k < |rows| ::
          && (k in table ==> rows[k] == SeedRow(k, table[k]))
          && (k !in table ==> rows[k] == UNDISCOVERED))
  }

  /** changedEdges lists the seeded keys in the order they were first written, and `logPos` indexes it. */
  ghost predicate LogSeeded(changedEdges: seq<int>, logPos: seq<int>, n: int, st: SeedState) {
    && changedEdges == st.order
    && |logPos| == n && Indexes(changedEdges, logPos)
    && (forall k | 0 <= k < n :: logPos[k] >= 0 <==> k in st.table)
  }

  /** The root entries are those of the seeded keys, each under its key's negative parent. */
  ghost predicate RootsSeeded(roots: map<int, CHEntry>, table: map<int, Seed>) {
    && (forall k | k in table :: RootParent(k) in roots && roots[RootParent(k)] == table[k].root)
    && (forall r | r in roots :: RootParent(r) in table)
  }

  /** The rows, the log and the root entries hold exactly what `st` says. */
  ghost predicate ArenaMatches(rows: seq<TreeRow>, changedEdges: seq<int>, logPos: seq<int>, roots: map<int, CHEntry>,
                               st: SeedState) {
    RowsSeeded(rows, st.table) && LogSeeded(changedEdges, logPos, |rows|, st) && RootsSeeded(roots, st.table)
  }

  /** The cleared tree holds no seeds. */
  lemma {:induction false} ClearedHoldsNoSeeds(n: nat)
    ensures ArenaMatches(Cleared(n).rows, [], NoPositions(n), map[], SeedState(map[], []))
  {
    NoPositionsIndexEmptyLog(n);
  }

  /** What the search's log needs from a matching arena. */
  lemma ArenaIndexesLog(rows: seq<TreeRow>, changedEdges: seq<int>, logPos: seq<int>, roots: map<int, CHEntry>, st: SeedState)
    requires ArenaMatches(rows, changedEdges, logPos, roots, st)
    ensures |logPos| == |rows| && Indexes(changedEdges, logPos)
  {
  }

  /** Storing the root entry of a seed keeps the root entries those of the seeds. */
  lemma {:induction false} StoreRootKeepsRoots(roots: map<int, CHEntry>, table: map<int, Seed>, key: int, seed: Seed)
    requires RootsSeeded(roots, table)
    ensures RootsSeeded(roots[RootParent(key) := seed.root], table[key := seed])
  {
    var roots', table' := roots[RootParent(key) := seed.root], table[key := seed];
    forall k | k in table'
      ensures RootParent(k) in roots' && roots'[RootParent(k)] == table'[k].root
    {
      if k != key {
        assert RootParent(k) != RootParent(key);
      }
    }
    forall r | r in roots'
      ensures RootParent(r) in table'
    {
      assert r == RootParent(key) || r in roots;
    }
  }

  /** Writing the seeded row of a key keeps the rows those of the seeds. */
  lemma {:induction false} WriteSeedKeepsRows(rows: seq<TreeRow>, table: map<int, Seed>, key: int, seed: Seed)
    requires RowsSeeded(rows, table) && 0 <= key < |rows|
    ensures RowsSeeded(rows[key := SeedRow(key, seed)], table[key := seed])
  {
  }

  /** Writing the row of a key met for the first time, logging it and storing its root entry follows SeedStep. */
  lemma {:induction false} AddSeedKeepsArena(rows: seq<TreeRow>, changedEdges: seq<int>, logPos: seq<int>,
                                             roots: map<int, CHEntry>, st: SeedState, key: int, seed: Seed)
    requires ArenaMatches(rows, changedEdges, logPos, roots, st) && 0 <= key < |rows| && key !in st.table
    ensures ArenaMatches(rows[key := SeedRow(key, seed)], changedEdges + [key], logPos[key := |changedEdges|],
                         roots[RootParent(key) := seed.root], SeedState(st.table[key := seed], st.order + [key]))
  {
    IndexesAppend(changedEdges, logPos, key);
    WriteSeedKeepsRows(rows, st.table, key, seed);
    StoreRootKeepsRoots(roots, st.table, key, seed);
  }

  /** Overwriting the row of a seeded key with a lighter initial entry of the same arrival follows SeedStep. */
  lemma {:induction false} ImproveSeedKeepsArena(rows: seq<TreeRow>, changedEdges: seq<int>, logPos: seq<int>,
                                                 roots: map<int, CHEntry>, st: SeedState, key: int, seed: Seed)
    requires ArenaMatches(rows, changedEdges, logPos, roots, st) && key in st.table
    ensures 0 <= key < |rows|
    ensures ArenaMatches(rows[key := SeedRow(key, seed)], changedEdges, logPos, roots[RootParent(key) := seed.root],
                         SeedState(st.table[key := seed], st.order))
  {
    WriteSeedKeepsRows(rows, st.table, key, seed);
    StoreRootKeepsRoots(roots, st.table, key, seed);
  }

  /** A heap holding every logged key at its row's weight holds every seeded key at its seeded weight. */
  lemma {:induction false} PushedHeapHoldsSeeds(rows: seq<TreeRow>, changedEdges: seq<int>, logPos: seq<int>,
                                                roots: map<int, CHEntry>, st: SeedState, frontier: map<int, Weight>)
    requires ArenaMatches(rows, changedEdges, logPos, roots, st)
    requires forall k :: k in frontier <==> 0 <= k < |rows| && logPos[k] >= 0
    requires forall k | k in frontier :: 0 <= k < |rows| && frontier[k] == rows[k].weight
    ensures forall k :: k in frontier <==> k in st.table
    ensures forall k | k in frontier :: frontier[k] == st.table[k].weight
  {
    forall k
      ensures k in frontier <==> k in st.table
    {
      if k in st.table {
        assert 0 <= k < |rows|;
      }
    }
  }

  /** The number of keys among the first `n` of `keys` whose row is flagged as a potential bridge path. */
  function CountFlagged(rows: seq<TreeRow>, keys: seq<int>, n: nat): (c: nat)
    requires n <= |keys| && forall i | 0 <= i < |keys| :: 0 <= keys[i] < |rows|
    ensures c <= n
  {
    if n == 0 then 0
    else CountFlagged(rows, keys, n - 1) + (if rows[keys[n - 1]].isPotentialBridgePath then 1 else 0)
  }

  /** The flagged keys among those logged at the first `n` positions. */
  ghost function FlaggedKeys(rows: seq<TreeRow>, pos: seq<int>, n: nat): set<int> {
    set k | 0 <= k < |rows| && k < |pos| && 0 <= pos[k] < n && rows[k].isPotentialBridgePath
  }

  /** Over a log that lists each key once, the running count is the number of flagged logged keys. */
  lemma {:induction false} CountFlaggedIsCard(rows: seq<TreeRow>, keys: seq<int>, pos: seq<int>, n: nat)
    requires Indexes(keys, pos) && |pos| == |rows| && n <= |keys|
    ensures CountFlagged(rows, keys, n) == |FlaggedKeys(rows, pos, n)|
  {
    if n == 0 {
      assert FlaggedKeys(rows, pos, n) == {};
    } else {
      var last := keys[n - 1];
      CountFlaggedIsCard(rows, keys, pos, n - 1);
      assert pos[last] == n - 1;
      if rows[last].isPotentialBridgePath {
        assert FlaggedKeys(rows, pos, n) == FlaggedKeys(rows, pos, n - 1) + {last};
      } else {
        assert FlaggedKeys(rows, pos, n) == FlaggedKeys(rows, pos, n - 1);
      }
    }
  }

  /**
   * The tree right after setInitialEntries with the seeds `st`: the arena
   * matches them, the heap holds exactly the seeded keys at their weights,
   * the counter holds the number of flagged ones, and nothing is polled.
   */
  ghost predicate IsSeeded(s: TreeState, st: SeedState) {
    && ArenaMatches(s.rows, s.changedEdges, s.logPos, s.initialEntryParents, st)
    && (forall k :: k in s.frontier <==> k in st.table)
    && (forall k | k in s.frontier :: s.frontier[k] == st.table[k].weight)
    && s.numPotentialBridgePaths == CountFlagged(s.rows, s.changedEdges, |s.changedEdges|)
    && s.settleRank == NoPositions(|s.rows|) && s.numPolledEdges == 0 && s.settledBound == Fin(0.0)
  }

  /** On the seeded tree the counter is the number of flagged keys on the heap. */
  lemma {:induction false} SeededCount(s: TreeState, st: SeedState)
    requires IsSeeded(s, st)
    ensures s.numPotentialBridgePaths == |FlaggedOnHeap(s)|
    ensures s.numPotentialBridgePaths == 0 <==> !SomeSeedFlagged(st)
  {
    CountFlaggedIsCard(s.rows, s.changedEdges, s.logPos, |s.changedEdges|);
    assert FlaggedOnHeap(s) == FlaggedKeys(s.rows, s.logPos, |s.changedEdges|);
    if s.numPotentialBridgePaths == 0 {
      forall k | k in st.table
        ensures !st.table[k].isPotentialBridgePath
      {
        assert k !in FlaggedOnHeap(s);
      }
    } else {
      DijkstraHeap.HasElement(FlaggedOnHeap(s));
      var k :| k in FlaggedOnHeap(s);
      assert st.table[k].isPotentialBridgePath;
    }
  }

  /** The seeded rows are exactly the logged ones, and the log is valid. */
  lemma {:induction false} SeededLogIsValid(g: Graph, sourceNode: int, centerNode: int, s: TreeState, st: SeedState)
    requires SeedRowsOk(g, sourceNode, centerNode, st.table) && IsSeeded(s, st)
    ensures LogValid(s.rows, s.changedEdges, s.logPos)
    ensures forall k | 0 <= k < |s.rows| :: s.rows[k].edge != NO_EDGE <==> k in st.table
  {
    forall k | 0 <= k < |s.rows|
      ensures s.rows[k].edge != NO_EDGE <==> k in st.table
    {
      if k in st.table {
        assert st.table[k].edge >= 0;
      }
    }
  }

  /** Every seeded entry has a non-negative weight and sits under its own key. */
  lemma {:induction false} SeededEntriesKeyed(g: Graph, sourceNode: int, centerNode: int, rows: seq<TreeRow>, table: map<int, Seed>)
    requires SeedRowsOk(g, sourceNode, centerNode, table) && RowsSeeded(rows, table)
    ensures EntriesKeyed(g, rows) && FlagsConsistent(rows, centerNode)
  {
    forall k | 0 <= k < |rows| && rows[k].edge != NO_EDGE
      ensures k in table
    {
    }
  }

  /** Every seeded entry hangs below its own root entry, and every root entry stands for the turn at the source node. */
  lemma {:induction false} SeededParentsLinked(g: Graph, sourceNode: int, centerNode: int, rows: seq<TreeRow>,
                                               roots: map<int, CHEntry>, table: map<int, Seed>)
    requires SeedRowsOk(g, sourceNode, centerNode, table) && RowsSeeded(rows, table) && RootsSeeded(roots, table)
    ensures ParentsLinked(rows, roots, NoPositions(|rows|), 0)
    ensures RootsAtSource(roots, sourceNode)
  {
    forall k | 0 <= k < |rows| && rows[k].edge != NO_EDGE
      ensures k in table && rows[k].parent == RootParent(k) < 0
    {
    }
    forall r | r in roots
      ensures roots[r].adjNode == sourceNode
    {
      assert RootParent(RootParent(r)) == r;
    }
  }

  /** The seeded heap holds every seeded key at its weight and nothing is polled. */
  lemma {:induction false} SeededFrontierValid(g: Graph, sourceNode: int, centerNode: int, rows: seq<TreeRow>,
                                               frontier: map<int, Weight>, table: map<int, Seed>, count: int)
    requires SeedRowsOk(g, sourceNode, centerNode, table) && RowsSeeded(rows, table)
    requires forall k :: k in frontier <==> k in table
    requires forall k | k in frontier :: frontier[k] == table[k].weight
    requires count == |FlaggedOn(rows, frontier)|
    ensures FrontierValid(rows, frontier, NoPositions(|rows|), Fin(0.0), 0, count)
    ensures frontier.Keys == table.Keys && |frontier| == |table|
  {
    forall k | 0 <= k < |rows| && rows[k].edge != NO_EDGE
      ensures k in frontier
    {
    }
    SameDomain(frontier, table);
  }

  /** Two maps with the same keys have the same size. */
  lemma SameDomain<V, W>(a: map<int, V>, b: map<int, W>)
    requires forall k :: k in a <==> k in b
    ensures a.Keys == b.Keys && |a| == |b|
  {
    forall k
      ensures k in a.Keys <==> k in b.Keys
    {
      assert k in a <==> k in b;
    }
    assert a.Keys == b.Keys;
  }

  /** The seeded tree satisfies the invariant of the search, and its heap holds one entry per seeded key. */
  lemma {:induction false} SeededTreeIsValid(g: Graph, sourceNode: int, centerNode: int, s: TreeState, st: SeedState)
    requires |s.rows| == KeySpace(g) && SeedRowsOk(g, sourceNode, centerNode, st.table) && IsSeeded(s, st)
    ensures TreeInv(g, sourceNode, centerNode, s)
    ensures s.frontier.Keys == st.table.Keys && |s.frontier| == |st.table|
    ensures s.numPotentialBridgePaths == 0 <==> !SomeSeedFlagged(st)
  {
    hide LogValid, EntriesKeyed, ParentsLinked, RootsAtSource, FlagsConsistent, FrontierValid;
    SeededLogIsValid(g, sourceNode, centerNode, s, st);
    SeededEntriesKeyed(g, sourceNode, centerNode, s.rows, st.table);
    SeededParentsLinked(g, sourceNode, centerNode, s.rows, s.initialEntryParents, st.table);
    SeededCount(s, st);
    SeededFrontierValid(g, sourceNode, centerNode, s.rows, s.frontier, st.table, s.numPotentialBridgePaths);
  }

  /**
   * What initSearch learns from the seeded tree: it is valid, its heap holds
   * the distinct initial entries, and the counter is 0 exactly when no out
   * edge the search may start with leads to the center node.
   */
  lemma {:induction false} InitialTreeIsValid(g: Graph, sourceNode: int, sourceEdge: int, centerNode: int, s: TreeState)
    requires WellFormed(g) && |s.rows| == KeySpace(g)
    requires IsSeeded(s, InitialSeeds(g, sourceNode, sourceEdge, centerNode))
    ensures TreeInv(g, sourceNode, centerNode, s)
    ensures |s.frontier| == |InitialSeeds(g, sourceNode, sourceEdge, centerNode).table|
    ensures s.numPotentialBridgePaths == 0 <==> !SomeCandidateReachesCenter(g, sourceNode, sourceEdge, centerNode)
  {
    var st := InitialSeeds(g, sourceNode, sourceEdge, centerNode);
    SeedsAreConsistent(g, sourceNode, sourceEdge, centerNode, |g.outEdges(sourceNode)|);
    SeededTreeIsValid(g, sourceNode, centerNode, s, st);
    SeedsReachCenter(g, sourceNode, sourceEdge, centerNode);
  }
}
