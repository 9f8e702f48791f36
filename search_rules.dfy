/**
 * The pure parts of WitnessPathSearcher: its one-line helpers, the best-path
 * tie-break, and a functional specification of what setInitialEntries writes
 * into the shortest path tree.
 */
module SearchRules {
  import opened Weights
  import opened Graphs

  /** WitnessPathSearcher.NO_NODE */
  const NO_NODE: int := -1

  /** The slack by which a witness candidate may undercut the best path and still replace it. */
  const WITNESS_TOLERANCE: real := 0.000001

  /** A shortest path tree entry as handed to the caller (CHEntry without its parent link). */
  datatype CHEntry = CHEntry(edge: int, incEdge: int, adjNode: int, weight: Weight)

  datatype Option<T> = None | Some(value: T)

  /** WitnessPathSearcher.Config: tuning of the adaptive limit on settled edges. */
  datatype Config = Config(sigmaFactor: real, minimumMaxSettledEdges: int, settledEdgeStatsResetInterval: int)

  const DefaultConfig: Config := Config(3.0, 100, 10000)

  /** calcTurnWeight: a turn from an original edge onto itself is a forbidden u-turn. */
  function CalcTurnWeight(g: Graph, inEdge: int, viaNode: int, outEdge: int): (w: Weight)
    ensures inEdge == outEdge ==> w == Inf
    ensures inEdge != outEdge ==> w == g.turnCost(inEdge, viaNode, outEdge)
    ensures WellFormed(g) ==> NonNeg(w)
  {
    if inEdge == outEdge then Inf else g.turnCost(inEdge, viaNode, outEdge)
  }

  /** isContracted: every node that has not been contracted yet still has the maximum level. */
  predicate IsContracted(g: Graph, node: int) {
    g.level(node) != g.numNodes
  }

  /**
   * The replacement rule of updateBestPath: a candidate of weight `total`
   * becomes the best path when `total - tolerance < best`, where the
   * tolerance is zero for a bridge path and WITNESS_TOLERANCE for a witness.
   */
  predicate Replaces(total: Weight, isBridgePath: bool, best: Weight) {
    Less(Sub(total, if isBridgePath then 0.0 else WITNESS_TOLERANCE), best)
  }

  /** A bridge path has to be strictly better than the best path so far. */
  lemma BridgeReplacesOnlyIfStrictlyBetter(total: Weight, best: Weight)
    ensures Replaces(total, true, best) <==> Less(total, best)
  {
  }

  /** On equal finite weights a witness path takes over and a bridge path does not. */
  lemma {:induction false} TieFavoursWitness(w: Weight)
    requires w.Fin?
    ensures Replaces(w, false, w)
    ensures !Replaces(w, true, w)
  {
  }

  /** Any strictly better candidate replaces the best path, whatever its kind. */
  lemma StrictlyBetterAlwaysReplaces(total: Weight, isBridgePath: bool, best: Weight)
    requires Less(total, best)
    ensures Replaces(total, isBridgePath, best)
  {
  }

  /** An infinite candidate never becomes the best path. */
  lemma InfiniteNeverReplaces(isBridgePath: bool, best: Weight)
    ensures !Replaces(Inf, isBridgePath, best)
  {
  }

  // ---------------------------------------------------------------------
  // The initial entries

  /**
   * A row written by setInitialEntries: the tree fields of the key plus the
   * root entry stored under the key's negative parent -key-1.
   */
  datatype Seed = Seed(edge: int, incEdge: int, adjNode: int, weight: Weight, isPotentialBridgePath: bool, root: CHEntry)

  /** The rows written so far, and the keys in the order they were first written (changedEdges). */
  datatype SeedState = SeedState(table: map<int, Seed>, order: seq<int>)

  /** The negative parent that marks the initial entry of `key`. */
  function RootParent(key: int): int {
    -key - 1
  }

  /** The key under which the search stores the arrival of `e` at its adjacent node. */
  function KeyOf(g: Graph, e: EdgeState): int {
    g.edgeKey(e.lastOrigEdge, e.adjNode)
  }

  /** An out edge of the source node the search starts with: towards a live node and with an allowed turn. */
  predicate IsInitialCandidate(g: Graph, sourceNode: int, sourceEdge: int, e: EdgeState) {
    !IsContracted(g, e.adjNode) && CalcTurnWeight(g, sourceEdge, sourceNode, e.firstOrigEdge).Fin?
  }

  /** The weight of the initial entry for `e`: the turn at the source node plus the edge itself. */
  function InitialWeight(g: Graph, sourceNode: int, sourceEdge: int, e: EdgeState): Weight {
    Add(CalcTurnWeight(g, sourceEdge, sourceNode, e.firstOrigEdge), g.edgeWeight(e, NO_EDGE))
  }

  /**
   * One iteration of the first loop of setInitialEntries: a written key
   * stays written and only gets lighter, and at most one key joins the log,
   * at its end.
   */
  function SeedStep(g: Graph, sourceNode: int, sourceEdge: int, centerNode: int, st: SeedState, e: EdgeState): (r: SeedState)
    ensures st.order <= r.order && |r.order| <= |st.order| + 1
    ensures st.table.Keys <= r.table.Keys
    ensures forall k | k in st.table :: LessEq(r.table[k].weight, st.table[k].weight)
  {
    if !IsInitialCandidate(g, sourceNode, sourceEdge, e) then st
    else
      var turnWeight := CalcTurnWeight(g, sourceEdge, sourceNode, e.firstOrigEdge);
      var weight := InitialWeight(g, sourceNode, sourceEdge, e);
      var key := KeyOf(g, e);
      var root := CHEntry(NO_EDGE, e.firstOrigEdge, sourceNode, turnWeight);
      if key !in st.table then
        SeedState(st.table[key := Seed(e.edge, e.lastOrigEdge, e.adjNode, weight, e.adjNode == centerNode, root)],
                  st.order + [key])
      else if Less(weight, st.table[key].weight) then
        SeedState(st.table[key := st.table[key].(edge := e.edge, weight := weight,
                                                isPotentialBridgePath := e.adjNode == centerNode, root := root)],
                  st.order)
      else st
  }

  /** The rows written after the first `n` out edges of the source node; at most one key per edge is logged. */
  function Seeds(g: Graph, sourceNode: int, sourceEdge: int, centerNode: int, n: nat): (r: SeedState)
    requires n <= |g.outEdges(sourceNode)|
    ensures |r.order| <= n
  {
    if n == 0 then SeedState(map[], [])
    else SeedStep(g, sourceNode, sourceEdge, centerNode, Seeds(g, sourceNode, sourceEdge, centerNode, n - 1),
                  g.outEdges(sourceNode)[n - 1])
  }

  /** The rows setInitialEntries writes for a search from sourceEdge at sourceNode around centerNode: at most one initial entry per out edge. */
  function InitialSeeds(g: Graph, sourceNode: int, sourceEdge: int, centerNode: int): (r: SeedState)
    ensures |r.order| <= |g.outEdges(sourceNode)|
  {
    Seeds(g, sourceNode, sourceEdge, centerNode, |g.outEdges(sourceNode)|)
  }

  /** What the search relies on about each seeded row. */
  ghost predicate SeedRowsOk(g: Graph, sourceNode: int, centerNode: int, table: map<int, Seed>) {
    forall k | k in table ::
      && 0 <= k < KeySpace(g)
      && table[k].edge >= 0 && table[k].incEdge >= 0
      && g.edgeKey(table[k].incEdge, table[k].adjNode) == k
      && !IsContracted(g, table[k].adjNode)
      && NonNeg(table[k].weight)
      && LessEq(table[k].root.weight, table[k].weight)
      && (table[k].isPotentialBridgePath <==> table[k].adjNode == centerNode)
      && table[k].root.adjNode == sourceNode
  }

  /** The log lists every written key exactly once. */
  ghost predicate SeedLogOk(st: SeedState) {
    && (forall i, j | 0 <= i < j < |st.order| :: st.order[i] != st.order[j])
    && (forall k :: k in st.table <==> k in st.order)
  }

  /**
   * Every key lies in the allocated range, keeps the arrival node it was
   * first written with, and is flagged exactly when it arrives at the center
   * node.
   */
  lemma {:induction false} SeedsAreConsistent(g: Graph, sourceNode: int, sourceEdge: int, centerNode: int, n: nat)
    requires WellFormed(g)
    requires n <= |g.outEdges(sourceNode)|
    ensures SeedRowsOk(g, sourceNode, centerNode, Seeds(g, sourceNode, sourceEdge, centerNode, n).table)
  {
    if n > 0 {
      SeedsAreConsistent(g, sourceNode, sourceEdge, centerNode, n - 1);
      var st := Seeds(g, sourceNode, sourceEdge, centerNode, n - 1);
      var e := g.outEdges(sourceNode)[n - 1];
      var key := KeyOf(g, e);
      if IsInitialCandidate(g, sourceNode, sourceEdge, e) && key in st.table {
        KeyDeterminesNode(g, st.table[key].incEdge, st.table[key].adjNode, e.lastOrigEdge, e.adjNode);
      }
    }
  }

  /** A key is logged when it is first written and never again. */
  lemma {:induction false} SeedsLogEachKeyOnce(g: Graph, sourceNode: int, sourceEdge: int, centerNode: int, n: nat)
    requires n <= |g.outEdges(sourceNode)|
    ensures SeedLogOk(Seeds(g, sourceNode, sourceEdge, centerNode, n))
  {
    if n > 0 {
      SeedsLogEachKeyOnce(g, sourceNode, sourceEdge, centerNode, n - 1);
    }
  }

  /** The row for the key of `e` exists and is no heavier than the initial entry `e` would give. */
  predicate IsLightestSoFar(g: Graph, sourceNode: int, sourceEdge: int, st: SeedState, e: EdgeState) {
    KeyOf(g, e) in st.table && LessEq(st.table[KeyOf(g, e)].weight, InitialWeight(g, sourceNode, sourceEdge, e))
  }

  /**
   * Each written row is at most as heavy as every candidate with its key: a
   * duplicate key is overwritten only by a strictly lighter candidate.
   */
  lemma {:induction false} SeedsAreMinimal(g: Graph, sourceNode: int, sourceEdge: int, centerNode: int, n: nat)
    requires n <= |g.outEdges(sourceNode)|
    ensures forall i | 0 <= i < n && IsInitialCandidate(g, sourceNode, sourceEdge, g.outEdges(sourceNode)[i]) ::
              IsLightestSoFar(g, sourceNode, sourceEdge, Seeds(g, sourceNode, sourceEdge, centerNode, n), g.outEdges(sourceNode)[i])
  {
    if n > 0 {
      SeedsAreMinimal(g, sourceNode, sourceEdge, centerNode, n - 1);
    }
  }

  /** `seed` is what candidate number i (below n) of the source node writes for `key`. */
  ghost predicate ComesFromCandidate(g: Graph, sourceNode: int, sourceEdge: int, n: nat, key: int, seed: Seed)
    requires n <= |g.outEdges(sourceNode)|
  {
    exists i | 0 <= i < n ::
      && IsInitialCandidate(g, sourceNode, sourceEdge, g.outEdges(sourceNode)[i])
      && KeyOf(g, g.outEdges(sourceNode)[i]) == key
      && g.outEdges(sourceNode)[i].lastOrigEdge == seed.incEdge
      && g.outEdges(sourceNode)[i].adjNode == seed.adjNode
      && InitialWeight(g, sourceNode, sourceEdge, g.outEdges(sourceNode)[i]) == seed.weight
  }

  /** Every written row comes from a candidate out edge of the source node. */
  lemma {:induction false} SeedsComeFromCandidates(g: Graph, sourceNode: int, sourceEdge: int, centerNode: int, n: nat)
    requires WellFormed(g)
    requires n <= |g.outEdges(sourceNode)|
    ensures forall k | k in Seeds(g, sourceNode, sourceEdge, centerNode, n).table ::
              ComesFromCandidate(g, sourceNode, sourceEdge, n, k, Seeds(g, sourceNode, sourceEdge, centerNode, n).table[k])
  {
    if n > 0 {
      var m: nat := n - 1;
      SeedsComeFromCandidates(g, sourceNode, sourceEdge, centerNode, m);
      var prev := Seeds(g, sourceNode, sourceEdge, centerNode, m);
      var st := Seeds(g, sourceNode, sourceEdge, centerNode, n);
      var e := g.outEdges(sourceNode)[n - 1];
      forall k | k in st.table
        ensures ComesFromCandidate(g, sourceNode, sourceEdge, n, k, st.table[k])
      {
        if k in prev.table && st.table[k] == prev.table[k] {
          assert ComesFromCandidate(g, sourceNode, sourceEdge, n - 1, k, prev.table[k]);
          var i :| 0 <= i < n - 1
              && IsInitialCandidate(g, sourceNode, sourceEdge, g.outEdges(sourceNode)[i])
              && KeyOf(g, g.outEdges(sourceNode)[i]) == k
              && g.outEdges(sourceNode)[i].lastOrigEdge == prev.table[k].incEdge
              && g.outEdges(sourceNode)[i].adjNode == prev.table[k].adjNode
              && InitialWeight(g, sourceNode, sourceEdge, g.outEdges(sourceNode)[i]) == prev.table[k].weight;
          assert 0 <= i < n;
        } else {
          // written by the last candidate; an overwrite keeps the arrival of the first,
          // which is the same because the key is injective
          if k in prev.table {
            SeedsAreConsistent(g, sourceNode, sourceEdge, centerNode, n - 1);
            KeyDeterminesNode(g, prev.table[k].incEdge, prev.table[k].adjNode, e.lastOrigEdge, e.adjNode);
          }
          assert 0 <= n - 1 < n;
        }
      }
    }
  }

  /** A candidate out edge of the source node towards the center node, if there is one. */
  ghost predicate SomeCandidateReachesCenter(g: Graph, sourceNode: int, sourceEdge: int, centerNode: int) {
    exists i | 0 <= i < |g.outEdges(sourceNode)| ::
      IsInitialCandidate(g, sourceNode, sourceEdge, g.outEdges(sourceNode)[i]) &&
      g.outEdges(sourceNode)[i].adjNode == centerNode
  }

  ghost predicate SomeSeedFlagged(st: SeedState) {
    exists k | k in st.table :: st.table[k].isPotentialBridgePath
  }

  /** A candidate towards the center node leaves a flagged row behind, even if its key is overwritten. */
  lemma CandidateAtCenterIsFlagged(g: Graph, sourceNode: int, sourceEdge: int, centerNode: int, i: nat)
    requires WellFormed(g) && i < |g.outEdges(sourceNode)|
    requires IsInitialCandidate(g, sourceNode, sourceEdge, g.outEdges(sourceNode)[i])
    requires g.outEdges(sourceNode)[i].adjNode == centerNode
    ensures SomeSeedFlagged(InitialSeeds(g, sourceNode, sourceEdge, centerNode))
  {
    var outs := g.outEdges(sourceNode);
    var st := InitialSeeds(g, sourceNode, sourceEdge, centerNode);
    SeedsAreConsistent(g, sourceNode, sourceEdge, centerNode, |outs|);
    SeedsAreMinimal(g, sourceNode, sourceEdge, centerNode, |outs|);
    assert IsLightestSoFar(g, sourceNode, sourceEdge, st, outs[i]);
    var k := KeyOf(g, outs[i]);
    KeyDeterminesNode(g, st.table[k].incEdge, st.table[k].adjNode, outs[i].lastOrigEdge, outs[i].adjNode);
    assert st.table[k].isPotentialBridgePath;
  }

  /** A flagged row was written by a candidate towards the center node. */
  lemma FlaggedSeedComesFromCenter(g: Graph, sourceNode: int, sourceEdge: int, centerNode: int, k: int)
    requires WellFormed(g)
    requires k in InitialSeeds(g, sourceNode, sourceEdge, centerNode).table
    requires InitialSeeds(g, sourceNode, sourceEdge, centerNode).table[k].isPotentialBridgePath
    ensures SomeCandidateReachesCenter(g, sourceNode, sourceEdge, centerNode)
  {
    var outs := g.outEdges(sourceNode);
    var st := InitialSeeds(g, sourceNode, sourceEdge, centerNode);
    SeedsAreConsistent(g, sourceNode, sourceEdge, centerNode, |outs|);
    SeedsComeFromCandidates(g, sourceNode, sourceEdge, centerNode, |outs|);
    assert ComesFromCandidate(g, sourceNode, sourceEdge, |outs|, k, st.table[k]);
    var i :| 0 <= i < |outs| && IsInitialCandidate(g, sourceNode, sourceEdge, outs[i]) && outs[i].adjNode == st.table[k].adjNode;
    assert outs[i].adjNode == centerNode;
  }

  /**
   * Some initial entry is flagged as a potential bridge path exactly when some
   * candidate out edge of the source node leads to the center node.
   */
  lemma SeedsReachCenter(g: Graph, sourceNode: int, sourceEdge: int, centerNode: int)
    requires WellFormed(g)
    ensures SomeSeedFlagged(InitialSeeds(g, sourceNode, sourceEdge, centerNode)) <==>
            SomeCandidateReachesCenter(g, sourceNode, sourceEdge, centerNode)
  {
    var outs := g.outEdges(sourceNode);
    var st := InitialSeeds(g, sourceNode, sourceEdge, centerNode);
    if i :| 0 <= i < |outs| && IsInitialCandidate(g, sourceNode, sourceEdge, outs[i]) && outs[i].adjNode == centerNode {
      CandidateAtCenterIsFlagged(g, sourceNode, sourceEdge, centerNode, i);
    }
    if k :| k in st.table && st.table[k].isPotentialBridgePath {
      FlaggedSeedComesFromCenter(g, sourceNode, sourceEdge, centerNode, k);
    }
  }
}
