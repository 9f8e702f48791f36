/**
 * What runSearch tracks and hands out for one target edge: the best path to
 * the target edge found so far (its weight, its last original edge and
 * whether it is a bridge path), how updateBestPath moves it, and the chain of
 * tree entries a bridge path consists of.
 */
module BestPaths {
  import opened Weights
  import opened Graphs
  import opened SearchRules
  import opened ShortestPathTree

  /** bestPathWeight, bestPathIncEdge and bestPathIsBridgePath. */
  datatype BestPath = BestPath(weight: Weight, incEdge: int, isBridgePath: bool)

  /**
   * The best path runSearch starts from: when the search starts at the
   * target node the plain turn from the source edge to the target edge,
   * otherwise no path at all.
   */
  function InitialBest(g: Graph, sourceNode: int, sourceEdge: int, targetNode: int, targetEdge: int): BestPath {
    BestPath(if sourceNode == targetNode then CalcTurnWeight(g, sourceEdge, sourceNode, targetEdge) else Inf, NO_EDGE, false)
  }

  /** The weight of reaching the target edge through the entry of `key`, including the turn at the target node. */
  function PathWeightTo(g: Graph, rows: seq<TreeRow>, key: int, targetNode: int, targetEdge: int): Weight
    requires 0 <= key < |rows|
  {
    Add(rows[key].weight, CalcTurnWeight(g, rows[key].incEdge, targetNode, targetEdge))
  }

  /**
   * A path ending in the entry of `key` is a bridge path iff its parent is a
   * real entry that may be a bridge path: a root parent means the path never
   * went via the center node.
   */
  predicate IsBridgePathEntry(rows: seq<TreeRow>, key: int)
    requires 0 <= key < |rows|
  {
    0 <= rows[key].parent < |rows| && rows[rows[key].parent].isPotentialBridgePath
  }

  /** updateBestPath: an entry at the target node replaces the best path when the tie-break rule lets it. */
  function UpdatedBest(g: Graph, rows: seq<TreeRow>, best: BestPath, targetNode: int, targetEdge: int, key: int): BestPath
    requires 0 <= key < |rows|
  {
    if rows[key].adjNode != targetNode then best
    else
      var totalWeight := PathWeightTo(g, rows, key, targetNode, targetEdge);
      var isBridgePath := IsBridgePathEntry(rows, key);
      if Replaces(totalWeight, isBridgePath, best.weight) then BestPath(totalWeight, rows[key].incEdge, isBridgePath)
      else best
  }

  /**
   * The best path is the one runSearch started from, or it is exactly what
   * the tree now says about the entry it ends in: that entry arrives at the
   * target over the recorded last original edge, the recorded weight is
   * finite and is the entry's weight plus the final turn, and the bridge
   * flag is the entry's.
   */
  ghost predicate BestAttained(g: Graph, sourceNode: int, sourceEdge: int, rows: seq<TreeRow>, best: BestPath,
                               targetNode: int, targetEdge: int) {
    if best.incEdge == NO_EDGE then best == InitialBest(g, sourceNode, sourceEdge, targetNode, targetEdge)
    else
      var k := g.edgeKey(best.incEdge, targetNode);
      && 0 <= k < |rows| && rows[k].edge != NO_EDGE
      && rows[k].adjNode == targetNode && rows[k].incEdge == best.incEdge
      && best.weight.Fin?
      && best == BestPath(PathWeightTo(g, rows, k, targetNode, targetEdge), best.incEdge, IsBridgePathEntry(rows, k))
  }

  /** Considering any discovered, keyed entry keeps the best path attained. */
  lemma {:induction false} UpdatedBestAttained(g: Graph, sourceNode: int, sourceEdge: int, rows: seq<TreeRow>, best: BestPath,
                                               targetNode: int, targetEdge: int, key: int)
    requires BestAttained(g, sourceNode, sourceEdge, rows, best, targetNode, targetEdge)
    requires 0 <= key < |rows| && rows[key].edge != NO_EDGE && rows[key].incEdge >= 0
    requires g.edgeKey(rows[key].incEdge, rows[key].adjNode) == key
    ensures BestAttained(g, sourceNode, sourceEdge, rows, UpdatedBest(g, rows, best, targetNode, targetEdge, key), targetNode, targetEdge)
  {
    var b := UpdatedBest(g, rows, best, targetNode, targetEdge, key);
    if b != best {
      assert b.incEdge == rows[key].incEdge != NO_EDGE && b.weight.Fin?;
    }
  }

  /** The best path after the inner loop of runSearch handled `e`: updateBestPath runs for the key written, if any. */
  function RelaxBest(g: Graph, centerNode: int, s: TreeState, cur: int, e: EdgeState, best: BestPath,
                     targetNode: int, targetEdge: int): BestPath
    requires 0 <= cur < |s.rows| && |s.logPos| == |s.rows| && 0 <= KeyOf(g, e) < |s.rows|
  {
    match Expansion(g, centerNode, s, cur, e)
    case None => best
    case Some((key, _)) => UpdatedBest(g, Relax(g, centerNode, s, cur, e).rows, best, targetNode, targetEdge, key)
  }

  /** Rewriting an unpolled key other than the best path's keeps the best path attained. */
  lemma {:induction false} WriteKeepsBest(g: Graph, sourceNode: int, sourceEdge: int, s: TreeState, best: BestPath,
                                          targetNode: int, targetEdge: int, key: int, row: TreeRow)
    requires Linked(s) && BestAttained(g, sourceNode, sourceEdge, s.rows, best, targetNode, targetEdge)
    requires 0 <= key < |s.rows| && s.settleRank[key] < 0
    requires best.incEdge != NO_EDGE ==> g.edgeKey(best.incEdge, targetNode) != key
    ensures BestAttained(g, sourceNode, sourceEdge, s.rows[key := row], best, targetNode, targetEdge)
  {
    if best.incEdge != NO_EDGE {
      var kb := g.edgeKey(best.incEdge, targetNode);
      var p := s.rows[kb].parent;
      if 0 <= p < |s.rows| {
        assert s.rows[kb] == s.rows[kb] && s.rows[p] == s.rows[p];
        assert p != key;
      }
    }
  }

  /** A lighter entry for the best path's own key makes a strictly lighter path, which takes over whatever its kind. */
  lemma {:induction false} ImproveReplacesBest(g: Graph, sourceNode: int, sourceEdge: int, rows: seq<TreeRow>, best: BestPath,
                                               targetNode: int, targetEdge: int, key: int, row: TreeRow)
    requires BestAttained(g, sourceNode, sourceEdge, rows, best, targetNode, targetEdge)
    requires best.incEdge != NO_EDGE && g.edgeKey(best.incEdge, targetNode) == key
    requires row.edge != NO_EDGE && row.incEdge == rows[key].incEdge && row.adjNode == rows[key].adjNode
    requires Less(row.weight, rows[key].weight)
    ensures BestAttained(g, sourceNode, sourceEdge, rows[key := row],
                         UpdatedBest(g, rows[key := row], best, targetNode, targetEdge, key), targetNode, targetEdge)
  {
    var rows' := rows[key := row];
    var turn := CalcTurnWeight(g, rows[key].incEdge, targetNode, targetEdge);
    AddKeepsLess(row.weight, rows[key].weight, turn);
    StrictlyBetterAlwaysReplaces(PathWeightTo(g, rows', key, targetNode, targetEdge), IsBridgePathEntry(rows', key), best.weight);
  }

  /**
   * Relaxing an edge keeps the best path attained. The point is an entry
   * that was the best path and is now improved: its path to the target gets
   * strictly lighter, so it replaces the best path whatever its kind.
   */
  lemma {:induction false} RelaxKeepsBest(g: Graph, sourceNode: int, sourceEdge: int, centerNode: int, s: TreeState, cur: int,
                                          e: EdgeState, best: BestPath, targetNode: int, targetEdge: int)
    requires EdgeWeightsNonNeg(g) && EdgeKeysInjective(g) && TreeInv(g, sourceNode, centerNode, s) && IsExpanding(s, cur) && EdgeOk(g, e)
    requires BestAttained(g, sourceNode, sourceEdge, s.rows, best, targetNode, targetEdge)
    ensures BestAttained(g, sourceNode, sourceEdge, Relax(g, centerNode, s, cur, e).rows,
                         RelaxBest(g, centerNode, s, cur, e, best, targetNode, targetEdge), targetNode, targetEdge)
  {
    match Expansion(g, centerNode, s, cur, e)
    case None =>
    case Some((key, row)) =>
      var rows' := Relax(g, centerNode, s, cur, e).rows;
      RelaxKeepsInv(g, sourceNode, centerNode, s, cur, e);
      assert rows' == s.rows[key := row];
      if best.incEdge != NO_EDGE && g.edgeKey(best.incEdge, targetNode) == key {
        ImproveReplacesBest(g, sourceNode, sourceEdge, s.rows, best, targetNode, targetEdge, key, row);
      } else {
        WriteKeepsBest(g, sourceNode, sourceEdge, s, best, targetNode, targetEdge, key, row);
        UpdatedBestAttained(g, sourceNode, sourceEdge, rows', best, targetNode, targetEdge, key);
      }
  }

  /** The best path after the out edges `es` of the entry `cur` were relaxed in order. */
  function ExpandBest(g: Graph, centerNode: int, s: TreeState, cur: int, es: seq<EdgeState>, best: BestPath,
                      targetNode: int, targetEdge: int): BestPath
    requires 0 <= cur < |s.rows| && |s.rows| == KeySpace(g) && |s.logPos| == |s.rows|
    requires forall i | 0 <= i < |es| :: EdgeOk(g, es[i])
    decreases |es|
  {
    if es == [] then best
    else
      assert EdgeOk(g, es[0]) && forall i | 0 <= i < |es[1..]| :: es[1..][i] == es[i + 1];
      ExpandBest(g, centerNode, Relax(g, centerNode, s, cur, es[0]), cur, es[1..],
                    RelaxBest(g, centerNode, s, cur, es[0], best, targetNode, targetEdge), targetNode, targetEdge)
  }

  lemma {:induction false} ExpandKeepsBest(g: Graph, sourceNode: int, sourceEdge: int, centerNode: int, s: TreeState, cur: int,
                                           es: seq<EdgeState>, best: BestPath, targetNode: int, targetEdge: int)
    requires EdgeWeightsNonNeg(g) && EdgeKeysInjective(g) && TreeInv(g, sourceNode, centerNode, s) && IsExpanding(s, cur)
    requires forall i | 0 <= i < |es| :: EdgeOk(g, es[i])
    requires BestAttained(g, sourceNode, sourceEdge, s.rows, best, targetNode, targetEdge)
    ensures BestAttained(g, sourceNode, sourceEdge, Expand(g, centerNode, s, cur, es).rows,
                         ExpandBest(g, centerNode, s, cur, es, best, targetNode, targetEdge), targetNode, targetEdge)
    decreases |es|
  {
    hide Relax;
    if es != [] {
      RelaxKeepsInv(g, sourceNode, centerNode, s, cur, es[0]);
      RelaxKeepsBest(g, sourceNode, sourceEdge, centerNode, s, cur, es[0], best, targetNode, targetEdge);
      ExpandKeepsBest(g, sourceNode, sourceEdge, centerNode, Relax(g, centerNode, s, cur, es[0]), cur, es[1..],
                      RelaxBest(g, centerNode, s, cur, es[0], best, targetNode, targetEdge), targetNode, targetEdge);
    }
  }

  /**
   * The best path after the first `n` original edges `ins` into the target
   * node were checked against the tree found so far: updateBestPath runs for
   * each of them whose key is discovered.
   */
  function ScanBest(g: Graph, rows: seq<TreeRow>, best: BestPath, targetNode: int, targetEdge: int, ins: seq<int>, n: nat): BestPath
    requires n <= |ins| && forall i | 0 <= i < |ins| :: 0 <= g.edgeKey(ins[i], targetNode) < |rows|
  {
    if n == 0 then best
    else
      var b := ScanBest(g, rows, best, targetNode, targetEdge, ins, n - 1);
      var key := g.edgeKey(ins[n - 1], targetNode);
      if rows[key].edge != NO_EDGE then UpdatedBest(g, rows, b, targetNode, targetEdge, key) else b
  }

  lemma {:induction false} ScanKeepsBest(g: Graph, sourceNode: int, sourceEdge: int, centerNode: int, s: TreeState, best: BestPath,
                                         targetNode: int, targetEdge: int, ins: seq<int>, n: nat)
    requires TreeInv(g, sourceNode, centerNode, s) && BestAttained(g, sourceNode, sourceEdge, s.rows, best, targetNode, targetEdge)
    requires n <= |ins| && forall i | 0 <= i < |ins| :: 0 <= g.edgeKey(ins[i], targetNode) < |s.rows|
    ensures BestAttained(g, sourceNode, sourceEdge, s.rows, ScanBest(g, s.rows, best, targetNode, targetEdge, ins, n), targetNode, targetEdge)
  {
    if n > 0 {
      ScanKeepsBest(g, sourceNode, sourceEdge, centerNode, s, best, targetNode, targetEdge, ins, n - 1);
      var key := g.edgeKey(ins[n - 1], targetNode);
      if s.rows[key].edge != NO_EDGE {
        UpdatedBestAttained(g, sourceNode, sourceEdge, s.rows, ScanBest(g, s.rows, best, targetNode, targetEdge, ins, n - 1),
                            targetNode, targetEdge, key);
      }
    }
  }

  // ---------------------------------------------------------------------
  // The chain of a bridge path

  /** The poll number of a polled key; a key not yet polled ranks after all polled ones. */
  ghost function Rank(s: TreeState, k: int): nat {
    if 0 <= k < |s.settleRank| && s.settleRank[k] >= 0 then s.settleRank[k]
    else if s.numPolledEdges >= 0 then s.numPolledEdges else 0
  }

  /** getEntryForKey */
  function EntryForKey(rows: seq<TreeRow>, key: int): CHEntry
    requires 0 <= key < |rows|
  {
    CHEntry(rows[key].edge, rows[key].incEdge, rows[key].adjNode, rows[key].weight)
  }

  ghost predicate Linked(s: TreeState) {
    ParentsLinked(s.rows, s.initialEntryParents, s.settleRank, s.numPolledEdges)
  }

  /**
   * The entry of `leaf` followed by its ancestors, ending with the root
   * entry of the initial entry the chain starts from: the CHEntry chain
   * runSearch hands out, leaf first.
   */
  ghost function ChainFrom(s: TreeState, leaf: int): (chain: seq<CHEntry>)
    requires Linked(s) && 0 <= leaf < |s.rows| && s.rows[leaf].edge != NO_EDGE
    ensures |chain| >= 2 && chain[0] == EntryForKey(s.rows, leaf)
    ensures chain[|chain| - 1] in s.initialEntryParents.Values
    decreases Rank(s, leaf)
  {
    var p := s.rows[leaf].parent;
    if p < 0 then [EntryForKey(s.rows, leaf), s.initialEntryParents[p]]
    else
      assert s.rows[leaf] == s.rows[leaf] && s.rows[p] == s.rows[p];
      [EntryForKey(s.rows, leaf)] + ChainFrom(s, p)
  }

  /** One step of the walk over the parents: a real parent is a discovered key of lower rank, and the chain continues from it. */
  lemma {:induction false} ChainStep(s: TreeState, k: int)
    requires Linked(s) && 0 <= k < |s.rows| && s.rows[k].edge != NO_EDGE && s.rows[k].parent >= 0
    ensures 0 <= s.rows[k].parent < |s.rows| && s.rows[s.rows[k].parent].edge != NO_EDGE
    ensures Rank(s, s.rows[k].parent) < Rank(s, k)
    ensures ChainFrom(s, k) == [EntryForKey(s.rows, k)] + ChainFrom(s, s.rows[k].parent)
  {
    var p := s.rows[k].parent;
    assert s.rows[k] == s.rows[k] && s.rows[p] == s.rows[p];
  }

  /** The last step of the walk: an initial entry is followed by its root entry. */
  lemma {:induction false} ChainEnd(s: TreeState, k: int)
    requires Linked(s) && 0 <= k < |s.rows| && s.rows[k].edge != NO_EDGE && s.rows[k].parent < 0
    ensures s.rows[k].parent in s.initialEntryParents
    ensures ChainFrom(s, k) == [EntryForKey(s.rows, k), s.initialEntryParents[s.rows[k].parent]]
  {
  }

  /**
   * Below an entry that may still become a bridge path the chain runs
   * through the center node only: every entry but the root arrives at it,
   * and the weights do not grow towards the root.
   */
  lemma {:induction false} FlaggedChainStaysAtCenter(s: TreeState, centerNode: int, k: int)
    requires Linked(s) && FlagsConsistent(s.rows, centerNode)
    requires 0 <= k < |s.rows| && s.rows[k].edge != NO_EDGE && s.rows[k].isPotentialBridgePath
    ensures forall i | 0 <= i < |ChainFrom(s, k)| - 1 :: ChainFrom(s, k)[i].adjNode == centerNode
    decreases Rank(s, k)
  {
    var p := s.rows[k].parent;
    if p >= 0 {
      assert s.rows[k] == s.rows[k] && s.rows[p] == s.rows[p];
      FlaggedChainStaysAtCenter(s, centerNode, p);
      assert ChainFrom(s, k) == [EntryForKey(s.rows, k)] + ChainFrom(s, p);
    }
  }

  /** Towards the root the entries of a chain get no heavier, down to the root entry's turn weight. */
  lemma {:induction false} ChainWeightsShrink(s: TreeState, k: int)
    requires Linked(s) && 0 <= k < |s.rows| && s.rows[k].edge != NO_EDGE
    ensures forall i | 0 < i < |ChainFrom(s, k)| :: LessEq(ChainFrom(s, k)[i].weight, ChainFrom(s, k)[i - 1].weight)
    decreases Rank(s, k)
  {
    var p := s.rows[k].parent;
    if p >= 0 {
      assert s.rows[k] == s.rows[k] && s.rows[p] == s.rows[p];
      ChainWeightsShrink(s, p);
      assert ChainFrom(s, k) == [EntryForKey(s.rows, k)] + ChainFrom(s, p);
    }
  }

  /** Every chain ends with a root entry, and every root entry arrives at the source node. */
  lemma {:induction false} ChainEndsAtSource(s: TreeState, sourceNode: int, k: int)
    requires Linked(s) && RootsAtSource(s.initialEntryParents, sourceNode)
    requires 0 <= k < |s.rows| && s.rows[k].edge != NO_EDGE
    ensures ChainFrom(s, k)[|ChainFrom(s, k)| - 1].adjNode == sourceNode
    decreases Rank(s, k)
  {
    var p := s.rows[k].parent;
    if p >= 0 {
      assert s.rows[k] == s.rows[k] && s.rows[p] == s.rows[p];
      ChainEndsAtSource(s, sourceNode, p);
      assert ChainFrom(s, k) == [EntryForKey(s.rows, k)] + ChainFrom(s, p);
    }
  }

  /**
   * The chain of a bridge path: the leaf arrives at the target, every entry
   * between the leaf and the root arrives at the center node, and the root
   * stands for the turn at the source node.
   */
  lemma {:induction false} BridgeChainPassesCenter(g: Graph, sourceNode: int, centerNode: int, s: TreeState, leaf: int)
    requires TreeInv(g, sourceNode, centerNode, s)
    requires 0 <= leaf < |s.rows| && s.rows[leaf].edge != NO_EDGE && IsBridgePathEntry(s.rows, leaf)
    ensures forall i | 1 <= i < |ChainFrom(s, leaf)| - 1 :: ChainFrom(s, leaf)[i].adjNode == centerNode
    ensures ChainFrom(s, leaf)[|ChainFrom(s, leaf)| - 1].adjNode == sourceNode
    ensures |ChainFrom(s, leaf)| >= 3
  {
    var p := s.rows[leaf].parent;
    assert s.rows[leaf] == s.rows[leaf] && s.rows[p] == s.rows[p];
    FlaggedChainStaysAtCenter(s, centerNode, p);
    assert ChainFrom(s, leaf) == [EntryForKey(s.rows, leaf)] + ChainFrom(s, p);
    ChainEndsAtSource(s, sourceNode, leaf);
  }
}
