/**
 * The shortest path tree of the witness search as a value: the row of every
 * edge key, the change log, the root entries, the Dijkstra frontier and the
 * bookkeeping of polled keys. This module states the invariant the searcher
 * keeps between its operations and describes every step of the search as a
 * function from one such value to the next, each proved to keep the
 * invariant.
 */
module ShortestPathTree {
  import opened Weights
  import opened Graphs
  import opened SearchRules
  import opened KeyLog
  import opened DijkstraHeap

  /**
   * One row of the shortest path tree: weights[key], edges[key],
   * incEdges[key], parents[key], adjNodes[key] and
   * isPotentialBridgePaths[key]. A parent >= 0 is the key of the parent
   * entry; a parent < 0 names the root entry kept in initialEntryParents.
   */
  datatype TreeRow = TreeRow(weight: Weight, edge: int, incEdge: int, parent: int, adjNode: int, isPotentialBridgePath: bool)

  /** The row of an undiscovered key: what initStorage and resetEntry write. */
  const UNDISCOVERED: TreeRow := TreeRow(Inf, NO_EDGE, NO_EDGE, NO_NODE, NO_NODE, false)

  /**
   * The searcher's tree. `logPos` gives the position of every key in
   * changedEdges (-1 if not logged), `settleRank` the poll number of every
   * key (-1 if not polled), and `settledBound` the weight of the key polled
   * last; these three exist for the proof only.
   */
  datatype TreeState = TreeState(
    rows: seq<TreeRow>,
    changedEdges: seq<int>,
    logPos: seq<int>,
    initialEntryParents: map<int, CHEntry>,
    frontier: map<int, Weight>,
    settleRank: seq<int>,
    settledBound: Weight,
    numPolledEdges: int,
    numPotentialBridgePaths: int)

  // ---------------------------------------------------------------------
  // The invariant, one predicate per concern over just the fields it reads

  /** changedEdges lists, once each, exactly the discovered keys; every other key holds the sentinel row. */
  ghost predicate LogValid(rows: seq<TreeRow>, changedEdges: seq<int>, logPos: seq<int>) {
    && |logPos| == |rows|
    && Indexes(changedEdges, logPos)
    && (forall k | 0 <= k < |rows| :: rows[k].edge != NO_EDGE <==> logPos[k] >= 0)
    && (forall k | 0 <= k < |rows| && rows[k].edge == NO_EDGE :: rows[k] == UNDISCOVERED)
  }

  /**
   * Every discovered entry has a non-negative weight and a real last
   * original edge, sits under the key of that edge and its arrival node,
   * and arrives at a node that is not contracted yet.
   */
  ghost predicate EntriesKeyed(g: Graph, rows: seq<TreeRow>) {
    forall k | 0 <= k < |rows| && rows[k].edge != NO_EDGE ::
      && NonNeg(rows[k].weight) && rows[k].incEdge >= 0 && g.edgeKey(rows[k].incEdge, rows[k].adjNode) == k
      && !IsContracted(g, rows[k].adjNode)
  }

  /**
   * An initial entry hangs below its own root entry, which is no heavier;
   * any other entry hangs below a discovered entry that was polled before it
   * and is no heavier.
   */
  ghost predicate ParentsLinked(rows: seq<TreeRow>, roots: map<int, CHEntry>, settleRank: seq<int>, numPolledEdges: int) {
    && |settleRank| == |rows|
    && (forall k | 0 <= k < |rows| && rows[k].edge != NO_EDGE && rows[k].parent < 0 ::
          rows[k].parent == RootParent(k) && RootParent(k) in roots && LessEq(roots[RootParent(k)].weight, rows[k].weight))
    && (forall k | 0 <= k < |rows| && rows[k].edge != NO_EDGE :: rows[k].parent < |rows|)
    && (forall k, p {:trigger rows[k], rows[p]}
          | 0 <= k < |rows| && 0 <= p < |rows| && rows[k].edge != NO_EDGE && rows[k].parent == p ::
          && rows[p].edge != NO_EDGE
          && 0 <= settleRank[p] < numPolledEdges
          && (settleRank[k] >= 0 ==> settleRank[p] < settleRank[k])
          && LessEq(rows[p].weight, rows[k].weight))
  }

  /** Every root entry stands for the turn at the source node. */
  ghost predicate RootsAtSource(roots: map<int, CHEntry>, sourceNode: int) {
    forall r | r in roots :: roots[r].adjNode == sourceNode
  }

  /** An entry may still become a bridge path iff it arrives at the center node and so did its parent, if any. */
  ghost predicate FlagsConsistent(rows: seq<TreeRow>, centerNode: int) {
    && (forall k | 0 <= k < |rows| && rows[k].edge != NO_EDGE && rows[k].parent < 0 ::
          rows[k].isPotentialBridgePath <==> rows[k].adjNode == centerNode)
    && (forall k, p {:trigger rows[k], rows[p]}
          | 0 <= k < |rows| && 0 <= p < |rows| && rows[k].edge != NO_EDGE && rows[k].parent == p ::
          rows[k].isPotentialBridgePath <==> rows[k].adjNode == centerNode && rows[p].isPotentialBridgePath)
  }

  /** The keys on the heap whose entry may still become a bridge path. */
  ghost function FlaggedOn(rows: seq<TreeRow>, frontier: map<int, Weight>): set<int> {
    set k | k in frontier && 0 <= k < |rows| && rows[k].isPotentialBridgePath
  }

  /**
   * The heap holds the discovered keys not polled yet, at their tree weight
   * and no lighter than the weight polled last; polled keys are no heavier
   * than it; numPotentialBridgePaths counts the flagged keys on the heap.
   */
  ghost predicate FrontierValid(rows: seq<TreeRow>, frontier: map<int, Weight>, settleRank: seq<int>, settledBound: Weight,
                                numPolledEdges: int, numPotentialBridgePaths: int) {
    && |settleRank| == |rows|
    && (forall k | k in frontier ::
          0 <= k < |rows| && rows[k].edge != NO_EDGE && frontier[k] == rows[k].weight &&
          LessEq(settledBound, rows[k].weight))
    && (forall k | 0 <= k < |rows| && settleRank[k] >= 0 ::
          rows[k].edge != NO_EDGE && k !in frontier &&
          settleRank[k] < numPolledEdges && LessEq(rows[k].weight, settledBound))
    && (forall k | 0 <= k < |rows| && rows[k].edge != NO_EDGE && k !in frontier :: settleRank[k] >= 0)
    && numPolledEdges >= 0
    && numPotentialBridgePaths == |FlaggedOn(rows, frontier)|
  }

  ghost function FlaggedOnHeap(s: TreeState): set<int> {
    FlaggedOn(s.rows, s.frontier)
  }

  /** What holds of the tree of a search from sourceNode around centerNode between any two operations. */
  ghost predicate TreeInv(g: Graph, sourceNode: int, centerNode: int, s: TreeState) {
    && |s.rows| == KeySpace(g)
    && LogValid(s.rows, s.changedEdges, s.logPos)
    && EntriesKeyed(g, s.rows)
    && ParentsLinked(s.rows, s.initialEntryParents, s.settleRank, s.numPolledEdges)
    && RootsAtSource(s.initialEntryParents, sourceNode)
    && FlagsConsistent(s.rows, centerNode)
    && FrontierValid(s.rows, s.frontier, s.settleRank, s.settledBound, s.numPolledEdges, s.numPotentialBridgePaths)
  }

  /** The search never enters a contracted node: no discovered entry of a valid tree arrives at one. */
  lemma NoEntryAtContractedNode(g: Graph, sourceNode: int, centerNode: int, s: TreeState)
    requires TreeInv(g, sourceNode, centerNode, s)
    ensures forall k | 0 <= k < |s.rows| && s.rows[k].edge != NO_EDGE :: !IsContracted(g, s.rows[k].adjNode)
  {
  }

  /** The sizes and the log validity the invariant carries. */
  lemma TreeInvFacts(g: Graph, sourceNode: int, centerNode: int, s: TreeState)
    requires TreeInv(g, sourceNode, centerNode, s)
    ensures |s.rows| == KeySpace(g) && |s.logPos| == |s.rows| && |s.settleRank| == |s.rows|
    ensures LogValid(s.rows, s.changedEdges, s.logPos)
    ensures ParentsLinked(s.rows, s.initialEntryParents, s.settleRank, s.numPolledEdges)
    ensures forall k | k in s.frontier :: 0 <= k < |s.rows| && s.rows[k].edge != NO_EDGE
  {
  }

  // ---------------------------------------------------------------------
  // The empty tree

  /** The tree after initStorage or reset: every key undiscovered, nothing logged, an empty heap. */
  function Cleared(n: nat): (s: TreeState)
    ensures |s.rows| == n && forall k | 0 <= k < n :: s.rows[k] == UNDISCOVERED
  {
    TreeState(seq(n, _ => UNDISCOVERED), [], NoPositions(n), map[], map[], NoPositions(n), Fin(0.0), 0, 0)
  }

  lemma {:induction false} ClearedIsValid(g: Graph, sourceNode: int, centerNode: int)
    ensures TreeInv(g, sourceNode, centerNode, Cleared(KeySpace(g)))
  {
    var s := Cleared(KeySpace(g));
    assert FlaggedOnHeap(s) == {};
  }

  // ---------------------------------------------------------------------
  // Polling

  /** The tree after poll_element() returned `k`: k leaves the heap, gets the next poll number and sets the bound. */
  ghost function Poll(s: TreeState, k: int): TreeState
    requires 0 <= k < |s.rows| && k < |s.settleRank|
  {
    s.(frontier := s.frontier - {k},
       settleRank := s.settleRank[k := s.numPolledEdges],
       settledBound := s.rows[k].weight,
       numPolledEdges := s.numPolledEdges + 1,
       numPotentialBridgePaths := s.numPotentialBridgePaths - (if s.rows[k].isPotentialBridgePath then 1 else 0))
  }

  lemma {:induction false} PollKeepsParents(rows: seq<TreeRow>, roots: map<int, CHEntry>, frontier: map<int, Weight>,
                                            settleRank: seq<int>, bound: Weight, n: int, c: int, k: int)
    requires ParentsLinked(rows, roots, settleRank, n) && FrontierValid(rows, frontier, settleRank, bound, n, c)
    requires k in frontier
    ensures ParentsLinked(rows, roots, settleRank[k := n], n + 1)
  {
    var rank := settleRank[k := n];
    forall q, p | 0 <= q < |rows| && 0 <= p < |rows| && rows[q].edge != NO_EDGE && rows[q].parent == p
      ensures 0 <= rank[p] < n + 1 && (rank[q] >= 0 ==> rank[p] < rank[q])
    {
      assert rows[q] == rows[q] && rows[p] == rows[p];
      assert p != k;
    }
  }

  lemma {:induction false} PollKeepsFrontier(rows: seq<TreeRow>, frontier: map<int, Weight>,
                                             settleRank: seq<int>, bound: Weight, n: int, c: int, k: int)
    requires FrontierValid(rows, frontier, settleRank, bound, n, c) && IsFirstMin(frontier, k)
    ensures FrontierValid(rows, frontier - {k}, settleRank[k := n], rows[k].weight, n + 1,
                          c - (if rows[k].isPotentialBridgePath then 1 else 0))
  {
    var frontier', rank := frontier - {k}, settleRank[k := n];
    forall j | j in frontier'
      ensures LessEq(rows[k].weight, rows[j].weight)
    {
      assert frontier[k] == rows[k].weight && frontier[j] == rows[j].weight;
    }
    forall j | 0 <= j < |rows| && rank[j] >= 0
      ensures LessEq(rows[j].weight, rows[k].weight)
    {
      if j != k {
        LessEqTrans(rows[j].weight, bound, rows[k].weight);
      }
    }
    if rows[k].isPotentialBridgePath {
      assert FlaggedOn(rows, frontier') == FlaggedOn(rows, frontier) - {k};
    } else {
      assert FlaggedOn(rows, frontier') == FlaggedOn(rows, frontier);
    }
  }

  /** Polling the first minimum of the heap keeps the invariant. */
  lemma {:induction false} PollKeepsInv(g: Graph, sourceNode: int, centerNode: int, s: TreeState, k: int)
    requires TreeInv(g, sourceNode, centerNode, s) && IsFirstMin(s.frontier, k)
    ensures 0 <= k < |s.rows| && s.rows[k].edge != NO_EDGE && s.frontier[k] == s.rows[k].weight
    ensures |s.settleRank| == |s.rows| && s.settleRank[k] < 0 && s.numPolledEdges >= 0
    ensures TreeInv(g, sourceNode, centerNode, Poll(s, k)) && IsExpanding(Poll(s, k), k)
  {
    PollKeepsParents(s.rows, s.initialEntryParents, s.frontier, s.settleRank, s.settledBound, s.numPolledEdges, s.numPotentialBridgePaths, k);
    PollKeepsFrontier(s.rows, s.frontier, s.settleRank, s.settledBound, s.numPolledEdges, s.numPotentialBridgePaths, k);
  }

  // ---------------------------------------------------------------------
  // Writing one row

  /** No discovered entry hangs below `key`. */
  ghost predicate Childless(rows: seq<TreeRow>, key: int) {
    forall q | 0 <= q < |rows| && rows[q].edge != NO_EDGE :: rows[q].parent != key
  }

  /** A key the search has not polled has no children. */
  lemma {:induction false} UnpolledIsChildless(rows: seq<TreeRow>, roots: map<int, CHEntry>, settleRank: seq<int>, n: int, key: int)
    requires ParentsLinked(rows, roots, settleRank, n) && 0 <= key < |rows| && settleRank[key] < 0
    ensures Childless(rows, key)
  {
    forall q | 0 <= q < |rows| && rows[q].edge != NO_EDGE
      ensures rows[q].parent != key
    {
      var p := rows[q].parent;
      if 0 <= p {
        assert 0 <= settleRank[p] by {
          assert rows[q] == rows[q] && rows[p] == rows[p];
        }
      }
    }
  }

  /** A new row for a childless key keeps the flags consistent when it is flagged by the rule. */
  lemma {:induction false} WriteKeepsFlags(rows: seq<TreeRow>, centerNode: int, key: int, row: TreeRow)
    requires FlagsConsistent(rows, centerNode) && 0 <= key < |rows| && Childless(rows, key)
    requires row.parent < 0 ==> (row.isPotentialBridgePath <==> row.adjNode == centerNode)
    requires 0 <= row.parent ==>
               row.parent != key && row.parent < |rows| &&
               (row.isPotentialBridgePath <==> row.adjNode == centerNode && rows[row.parent].isPotentialBridgePath)
    ensures FlagsConsistent(rows[key := row], centerNode)
  {
    var rows' := rows[key := row];
    forall q | 0 <= q < |rows'| && rows'[q].edge != NO_EDGE && rows'[q].parent < 0
      ensures rows'[q].isPotentialBridgePath <==> rows'[q].adjNode == centerNode
    {
      if q != key {
        assert rows[q] == rows'[q];
      }
    }
    forall q, p | 0 <= q < |rows'| && 0 <= p < |rows'| && rows'[q].edge != NO_EDGE && rows'[q].parent == p
      ensures rows'[q].isPotentialBridgePath <==> rows'[q].adjNode == centerNode && rows'[p].isPotentialBridgePath
    {
      if q != key {
        assert rows[q] == rows'[q] && rows[p] == rows'[p];
      }
    }
  }

  /** A new row for a childless key keeps the tree linked when its parent is a polled, no heavier entry. */
  lemma {:induction false} WriteKeepsParents(rows: seq<TreeRow>, roots: map<int, CHEntry>, settleRank: seq<int>, n: int,
                                             key: int, row: TreeRow)
    requires ParentsLinked(rows, roots, settleRank, n) && 0 <= key < |rows| && Childless(rows, key)
    requires row.parent < |rows|
    requires row.parent < 0 ==> row.parent == RootParent(key) && RootParent(key) in roots && LessEq(roots[RootParent(key)].weight, row.weight)
    requires 0 <= row.parent ==>
               row.parent != key && rows[row.parent].edge != NO_EDGE &&
               0 <= settleRank[row.parent] < n && settleRank[key] < 0 &&
               LessEq(rows[row.parent].weight, row.weight)
    ensures ParentsLinked(rows[key := row], roots, settleRank, n)
  {
    var rows' := rows[key := row];
    forall q, p | 0 <= q < |rows'| && 0 <= p < |rows'| && rows'[q].edge != NO_EDGE && rows'[q].parent == p
      ensures rows'[p].edge != NO_EDGE && 0 <= settleRank[p] < n
      ensures (settleRank[q] >= 0 ==> settleRank[p] < settleRank[q])
      ensures LessEq(rows'[p].weight, rows'[q].weight)
    {
      if q != key {
        assert rows[q] == rows'[q] && rows[p] == rows'[p];
      }
    }
  }

  /** Pushing a new row of an unpolled key, no lighter than the bound, onto the heap keeps the frontier exact. */
  lemma {:induction false} PushKeepsFrontier(rows: seq<TreeRow>, frontier: map<int, Weight>, settleRank: seq<int>, bound: Weight,
                                             n: int, c: int, key: int, row: TreeRow)
    requires FrontierValid(rows, frontier, settleRank, bound, n, c) && 0 <= key < |rows| && settleRank[key] < 0
    requires row.edge != NO_EDGE && LessEq(bound, row.weight)
    ensures FrontierValid(rows[key := row], frontier[key := row.weight], settleRank, bound, n,
                          c + (if row.isPotentialBridgePath then 1 else 0)
                            - (if key in frontier && rows[key].isPotentialBridgePath then 1 else 0))
  {
    var rows', frontier' := rows[key := row], frontier[key := row.weight];
    forall k | k in frontier'
      ensures 0 <= k < |rows'| && rows'[k].edge != NO_EDGE && frontier'[k] == rows'[k].weight && LessEq(bound, rows'[k].weight)
    {
      if k != key {
        assert k in frontier && rows'[k] == rows[k];
      }
    }
    forall k | 0 <= k < |rows'| && settleRank[k] >= 0
      ensures rows'[k].edge != NO_EDGE && k !in frontier' && settleRank[k] < n && LessEq(rows'[k].weight, bound)
    {
      assert k != key && rows'[k] == rows[k];
    }
    forall k | 0 <= k < |rows'| && rows'[k].edge != NO_EDGE && k !in frontier'
      ensures settleRank[k] >= 0
    {
      assert k != key && rows'[k] == rows[k];
    }
    PushFlagged(rows, frontier, key, row);
  }

  /** How pushing one row changes the flagged keys on the heap. */
  lemma {:induction false} PushFlagged(rows: seq<TreeRow>, frontier: map<int, Weight>, key: int, row: TreeRow)
    requires 0 <= key < |rows|
    ensures |FlaggedOn(rows[key := row], frontier[key := row.weight])| ==
            |FlaggedOn(rows, frontier)| + (if row.isPotentialBridgePath then 1 else 0)
                                        - (if key in frontier && rows[key].isPotentialBridgePath then 1 else 0)
  {
    var before, after := FlaggedOn(rows, frontier), FlaggedOn(rows[key := row], frontier[key := row.weight]);
    forall x
      ensures x in after - {key} <==> x in before - {key}
    {
      if x != key && 0 <= x < |rows| {
        assert rows[key := row][x] == rows[x];
      }
    }
    assert after - {key} == before - {key};
    assert key in after <==> row.isPotentialBridgePath;
    assert key in before <==> key in frontier && rows[key].isPotentialBridgePath;
    OneKeyMore(after, key);
    OneKeyMore(before, key);
  }

  lemma OneKeyMore(a: set<int>, key: int)
    ensures |a| == |a - {key}| + (if key in a then 1 else 0)
  {
    if key in a {
      assert a == (a - {key}) + {key};
    } else {
      assert a == a - {key};
    }
  }

  // ---------------------------------------------------------------------
  // Expansion

  /** setEntry, changedEdges.add and insert_: a new key joins the tree, the log and the heap. */
  function Discover(s: TreeState, key: int, row: TreeRow): TreeState
    requires 0 <= key < |s.rows| && key < |s.logPos|
  {
    s.(rows := s.rows[key := row],
       changedEdges := s.changedEdges + [key],
       logPos := s.logPos[key := |s.changedEdges|],
       frontier := s.frontier[key := row.weight],
       numPotentialBridgePaths := s.numPotentialBridgePaths + (if row.isPotentialBridgePath then 1 else 0))
  }

  /** updateEntry and update_: a discovered key gets a lighter entry, on the heap as well if it is there. */
  function Improve(s: TreeState, key: int, row: TreeRow): TreeState
    requires 0 <= key < |s.rows|
  {
    s.(rows := s.rows[key := row],
       frontier := if key in s.frontier then s.frontier[key := row.weight] else s.frontier,
       numPotentialBridgePaths := s.numPotentialBridgePaths + (if row.isPotentialBridgePath then 1 else 0)
                                                             - (if s.rows[key].isPotentialBridgePath then 1 else 0))
  }

  /** `key` may take `row` below the polled entry `cur`: the row is keyed, heavier than the last settled weight, and flagged by the rule. */
  ghost predicate FitsBelow(g: Graph, centerNode: int, s: TreeState, cur: int, key: int, row: TreeRow)
    requires 0 <= cur < |s.rows|
  {
    && row.edge != NO_EDGE && row.parent == cur
    && NonNeg(row.weight) && row.incEdge >= 0 && g.edgeKey(row.incEdge, row.adjNode) == key
    && !IsContracted(g, row.adjNode)
    && LessEq(s.rows[cur].weight, row.weight) && LessEq(s.settledBound, row.weight)
    && (row.isPotentialBridgePath <==> row.adjNode == centerNode && s.rows[cur].isPotentialBridgePath)
  }

  /** A polled, discovered key. */
  ghost predicate IsSettled(s: TreeState, cur: int) {
    0 <= cur < |s.rows| && cur < |s.settleRank| && s.rows[cur].edge != NO_EDGE && s.settleRank[cur] >= 0
  }

  /** What the heap part of the invariant says about one key. */
  lemma FrontierAt(rows: seq<TreeRow>, frontier: map<int, Weight>, settleRank: seq<int>, bound: Weight, n: int, c: int, key: int)
    requires FrontierValid(rows, frontier, settleRank, bound, n, c) && 0 <= key < |rows|
    ensures |settleRank| == |rows|
    ensures key in frontier ==> rows[key].edge != NO_EDGE && LessEq(bound, rows[key].weight)
    ensures settleRank[key] >= 0 ==> rows[key].edge != NO_EDGE && key !in frontier && settleRank[key] < n && LessEq(rows[key].weight, bound)
    ensures rows[key].edge != NO_EDGE && key !in frontier ==> settleRank[key] >= 0
  {
  }

  /** Discovering a new key below a settled entry keeps the invariant. */
  lemma {:induction false} DiscoverKeepsInv(g: Graph, sourceNode: int, centerNode: int, s: TreeState, cur: int, key: int, row: TreeRow)
    requires TreeInv(g, sourceNode, centerNode, s) && IsSettled(s, cur)
    requires 0 <= key < |s.rows| && s.rows[key].edge == NO_EDGE
    requires FitsBelow(g, centerNode, s, cur, key, row)
    ensures TreeInv(g, sourceNode, centerNode, Discover(s, key, row))
  {
    hide ParentsLinked, FlagsConsistent, FrontierValid;
    FrontierAt(s.rows, s.frontier, s.settleRank, s.settledBound, s.numPolledEdges, s.numPotentialBridgePaths, key);
    FrontierAt(s.rows, s.frontier, s.settleRank, s.settledBound, s.numPolledEdges, s.numPotentialBridgePaths, cur);
    IndexesAppend(s.changedEdges, s.logPos, key);
    UnpolledIsChildless(s.rows, s.initialEntryParents, s.settleRank, s.numPolledEdges, key);
    WriteKeepsFlags(s.rows, centerNode, key, row);
    WriteKeepsParents(s.rows, s.initialEntryParents, s.settleRank, s.numPolledEdges, key, row);
    PushKeepsFrontier(s.rows, s.frontier, s.settleRank, s.settledBound, s.numPolledEdges, s.numPotentialBridgePaths, key, row);
  }

  /** Giving a discovered key a lighter entry below a settled entry keeps the invariant; such a key is still on the heap. */
  lemma {:induction false} ImproveKeepsInv(g: Graph, sourceNode: int, centerNode: int, s: TreeState, cur: int, key: int, row: TreeRow)
    requires TreeInv(g, sourceNode, centerNode, s) && IsSettled(s, cur)
    requires 0 <= key < |s.rows| && s.rows[key].edge != NO_EDGE && Less(row.weight, s.rows[key].weight)
    requires FitsBelow(g, centerNode, s, cur, key, row)
    ensures key in s.frontier && s.settleRank[key] < 0
    ensures TreeInv(g, sourceNode, centerNode, Improve(s, key, row))
  {
    hide ParentsLinked, FlagsConsistent, FrontierValid;
    FrontierAt(s.rows, s.frontier, s.settleRank, s.settledBound, s.numPolledEdges, s.numPotentialBridgePaths, key);
    FrontierAt(s.rows, s.frontier, s.settleRank, s.settledBound, s.numPolledEdges, s.numPotentialBridgePaths, cur);
    if s.settleRank[key] >= 0 {
      LessLessEqTrans(row.weight, s.rows[key].weight, s.settledBound);
      assert false;
    }
    assert key in s.frontier && cur != key;
    UnpolledIsChildless(s.rows, s.initialEntryParents, s.settleRank, s.numPolledEdges, key);
    WriteKeepsFlags(s.rows, centerNode, key, row);
    WriteKeepsParents(s.rows, s.initialEntryParents, s.settleRank, s.numPolledEdges, key, row);
    PushKeepsFrontier(s.rows, s.frontier, s.settleRank, s.settledBound, s.numPolledEdges, s.numPotentialBridgePaths, key, row);
  }

  // ---------------------------------------------------------------------
  // Relaxing the out edges of a settled entry

  /** The weight of continuing the entry of `cur` over `e`: the edge with the turn from the entry's last original edge. */
  function ExpansionWeight(g: Graph, s: TreeState, cur: int, e: EdgeState): Weight
    requires 0 <= cur < |s.rows|
  {
    Add(g.edgeWeight(e, s.rows[cur].incEdge), s.rows[cur].weight)
  }

  /**
   * What the inner loop of runSearch writes for the out edge `e` of the
   * settled entry `cur`, if anything: the key and its new row. An edge
   * towards a contracted node, a u-turn and an infinite weight write
   * nothing; a new key gets a fresh row; a discovered key is rewritten only
   * by a strictly lighter entry, keeping its last original edge and node.
   */
  function Expansion(g: Graph, centerNode: int, s: TreeState, cur: int, e: EdgeState): Option<(int, TreeRow)>
    requires 0 <= cur < |s.rows| && 0 <= KeyOf(g, e) < |s.rows|
  {
    if IsContracted(g, e.adjNode) || e.firstOrigEdge == s.rows[cur].incEdge then None
    else
      var weight := ExpansionWeight(g, s, cur, e);
      var isPotentialBridgePath := s.rows[cur].isPotentialBridgePath && e.adjNode == centerNode;
      var key := KeyOf(g, e);
      if weight.Inf? then None
      else if s.rows[key].edge == NO_EDGE then
        Some((key, TreeRow(weight, e.edge, e.lastOrigEdge, cur, e.adjNode, isPotentialBridgePath)))
      else if Less(weight, s.rows[key].weight) then
        Some((key, s.rows[key].(edge := e.edge, weight := weight, parent := cur, isPotentialBridgePath := isPotentialBridgePath)))
      else None
  }

  /** The tree after the inner loop of runSearch handled `e`: setEntry for a new key, updateEntry for a lighter one. */
  function Relax(g: Graph, centerNode: int, s: TreeState, cur: int, e: EdgeState): (r: TreeState)
    requires 0 <= cur < |s.rows| && |s.logPos| == |s.rows| && 0 <= KeyOf(g, e) < |s.rows|
    ensures |r.rows| == |s.rows| && |r.logPos| == |s.logPos|
  {
    match Expansion(g, centerNode, s, cur, e)
    case None => s
    case Some((key, row)) => if s.rows[key].edge == NO_EDGE then Discover(s, key, row) else Improve(s, key, row)
  }

  /** A settled entry whose weight is the last polled one, as during its own expansion. */
  ghost predicate IsExpanding(s: TreeState, cur: int) {
    IsSettled(s, cur) && s.settledBound == s.rows[cur].weight
  }

  /** Relaxing one out edge of the entry being expanded keeps the invariant and the entry; the written key was not settled. */
  lemma {:induction false} RelaxKeepsInv(g: Graph, sourceNode: int, centerNode: int, s: TreeState, cur: int, e: EdgeState)
    requires EdgeWeightsNonNeg(g) && EdgeKeysInjective(g) && TreeInv(g, sourceNode, centerNode, s) && IsExpanding(s, cur) && EdgeOk(g, e)
    ensures TreeInv(g, sourceNode, centerNode, Relax(g, centerNode, s, cur, e))
    ensures IsExpanding(Relax(g, centerNode, s, cur, e), cur)
    ensures Relax(g, centerNode, s, cur, e).settleRank == s.settleRank
    ensures Relax(g, centerNode, s, cur, e).numPolledEdges == s.numPolledEdges
    ensures Expansion(g, centerNode, s, cur, e).Some? ==> s.settleRank[Expansion(g, centerNode, s, cur, e).value.0] < 0
  {
    match Expansion(g, centerNode, s, cur, e)
    case None =>
    case Some((key, row)) =>
      assert NonNeg(g.edgeWeight(e, s.rows[cur].incEdge));
      if s.rows[key].edge == NO_EDGE {
        DiscoverKeepsInv(g, sourceNode, centerNode, s, cur, key, row);
        assert s.settleRank[key] < 0;
      } else {
        KeyDeterminesNode(g, s.rows[key].incEdge, s.rows[key].adjNode, e.lastOrigEdge, e.adjNode);
        ImproveKeepsInv(g, sourceNode, centerNode, s, cur, key, row);
      }
  }

  /**
   * Relaxing an out edge of an entry that cannot become a bridge path puts
   * no key on the heap that could: skipping such entries once the limit of
   * settled edges is reached never loses a candidate bridge path.
   */
  lemma {:induction false} UnflaggedRelaxAddsNoCandidate(g: Graph, sourceNode: int, centerNode: int, s: TreeState, cur: int, e: EdgeState)
    requires EdgeWeightsNonNeg(g) && EdgeKeysInjective(g) && TreeInv(g, sourceNode, centerNode, s) && IsExpanding(s, cur) && EdgeOk(g, e)
    requires !s.rows[cur].isPotentialBridgePath
    ensures FlaggedOnHeap(Relax(g, centerNode, s, cur, e)) <= FlaggedOnHeap(s)
  {
    var r := Relax(g, centerNode, s, cur, e);
    match Expansion(g, centerNode, s, cur, e)
    case None =>
    case Some((key, row)) =>
      assert !row.isPotentialBridgePath;
      forall k | k in FlaggedOnHeap(r)
        ensures k in FlaggedOnHeap(s)
      {
        assert k != key;
        if s.rows[key].edge != NO_EDGE {
          ImproveKeepsInv(g, sourceNode, centerNode, s, cur, key, row);
        }
      }
  }

  /** The tree after the out edges `es` of the entry `cur` were relaxed in order. */
  function Expand(g: Graph, centerNode: int, s: TreeState, cur: int, es: seq<EdgeState>): (r: TreeState)
    requires 0 <= cur < |s.rows| && |s.rows| == KeySpace(g) && |s.logPos| == |s.rows|
    requires forall i | 0 <= i < |es| :: EdgeOk(g, es[i])
    ensures |r.rows| == |s.rows| && |r.logPos| == |s.logPos|
    decreases |es|
  {
    if es == [] then s
    else
      assert EdgeOk(g, es[0]) && forall i | 0 <= i < |es[1..]| :: es[1..][i] == es[i + 1];
      Expand(g, centerNode, Relax(g, centerNode, s, cur, es[0]), cur, es[1..])
  }

  /** Expanding a settled entry over any of its out edges keeps the invariant. */
  lemma {:induction false} ExpandKeepsInv(g: Graph, sourceNode: int, centerNode: int, s: TreeState, cur: int, es: seq<EdgeState>)
    requires EdgeWeightsNonNeg(g) && EdgeKeysInjective(g) && TreeInv(g, sourceNode, centerNode, s) && IsExpanding(s, cur)
    requires forall i | 0 <= i < |es| :: EdgeOk(g, es[i])
    ensures TreeInv(g, sourceNode, centerNode, Expand(g, centerNode, s, cur, es))
    ensures IsExpanding(Expand(g, centerNode, s, cur, es), cur)
    decreases |es|
  {
    hide Relax;
    if es != [] {
      RelaxKeepsInv(g, sourceNode, centerNode, s, cur, es[0]);
      ExpandKeepsInv(g, sourceNode, centerNode, Relax(g, centerNode, s, cur, es[0]), cur, es[1..]);
    }
  }

  // ---------------------------------------------------------------------
  // How the tree grows during one search

  /**
   * `r` grew from `s` by polling and relaxing: every discovered key stays
   * discovered and gets no heavier, a polled key keeps its poll number and
   * its row, the log only grows at its end and the root entries stay.
   */
  ghost predicate Extends(s: TreeState, r: TreeState) {
    && |r.rows| == |s.rows| && |r.settleRank| == |s.settleRank|
    && (forall k | 0 <= k < |s.rows| && s.rows[k].edge != NO_EDGE ::
          r.rows[k].edge != NO_EDGE && LessEq(r.rows[k].weight, s.rows[k].weight))
    && (forall k | 0 <= k < |s.rows| && k < |s.settleRank| && s.settleRank[k] >= 0 ::
          r.settleRank[k] == s.settleRank[k] && r.rows[k] == s.rows[k])
    && s.changedEdges <= r.changedEdges
    && r.initialEntryParents == s.initialEntryParents
  }

  lemma ExtendsItself(s: TreeState)
    ensures Extends(s, s)
  {
  }

  lemma {:induction false} ExtendsTrans(a: TreeState, b: TreeState, c: TreeState)
    requires Extends(a, b) && Extends(b, c)
    ensures Extends(a, c)
  {
    forall k | 0 <= k < |a.rows| && a.rows[k].edge != NO_EDGE
      ensures c.rows[k].edge != NO_EDGE && LessEq(c.rows[k].weight, a.rows[k].weight)
    {
      LessEqTrans(c.rows[k].weight, b.rows[k].weight, a.rows[k].weight);
    }
    assert a.changedEdges == b.changedEdges[..|a.changedEdges|] == c.changedEdges[..|b.changedEdges|][..|a.changedEdges|];
  }

  /** Polling a key not polled before only takes it off the heap and numbers it. */
  lemma {:induction false} PollExtends(s: TreeState, k: int)
    requires 0 <= k < |s.rows| && k < |s.settleRank| && s.settleRank[k] < 0
    ensures Extends(s, Poll(s, k))
  {
  }

  /** Relaxing one out edge of the entry being expanded rewrites at most one unpolled key, and only with a lighter entry. */
  lemma {:induction false} RelaxExtends(g: Graph, sourceNode: int, centerNode: int, s: TreeState, cur: int, e: EdgeState)
    requires EdgeWeightsNonNeg(g) && EdgeKeysInjective(g) && TreeInv(g, sourceNode, centerNode, s) && IsExpanding(s, cur) && EdgeOk(g, e)
    ensures Extends(s, Relax(g, centerNode, s, cur, e))
  {
    hide TreeInv;
    RelaxKeepsInv(g, sourceNode, centerNode, s, cur, e);
    TreeInvFacts(g, sourceNode, centerNode, s);
  }

  /** Expanding a settled entry grows the tree and numbers no key. */
  lemma {:induction false} ExpandExtends(g: Graph, sourceNode: int, centerNode: int, s: TreeState, cur: int, es: seq<EdgeState>)
    requires EdgeWeightsNonNeg(g) && EdgeKeysInjective(g) && TreeInv(g, sourceNode, centerNode, s) && IsExpanding(s, cur)
    requires forall i | 0 <= i < |es| :: EdgeOk(g, es[i])
    ensures Extends(s, Expand(g, centerNode, s, cur, es))
    ensures Expand(g, centerNode, s, cur, es).settleRank == s.settleRank
    decreases |es|
  {
    hide Relax, TreeInv, Extends;
    TreeInvFacts(g, sourceNode, centerNode, s);
    if es == [] {
      ExtendsItself(s);
    } else {
      var r1 := Relax(g, centerNode, s, cur, es[0]);
      RelaxKeepsInv(g, sourceNode, centerNode, s, cur, es[0]);
      RelaxExtends(g, sourceNode, centerNode, s, cur, es[0]);
      ExpandExtends(g, sourceNode, centerNode, r1, cur, es[1..]);
      ExtendsTrans(s, r1, Expand(g, centerNode, s, cur, es));
    }
  }

  /**
   * Every out edge in `es` that the inner loop of runSearch does not skip
   * has been relaxed from the entry `cur`: its key is discovered, with an
   * entry no heavier than continuing the entry of `cur` over the edge.
   */
  ghost predicate Relaxed(g: Graph, s: TreeState, cur: int, es: seq<EdgeState>)
    requires 0 <= cur < |s.rows|
  {
    forall e | e in es && !IsContracted(g, e.adjNode) && e.firstOrigEdge != s.rows[cur].incEdge && ExpansionWeight(g, s, cur, e).Fin? ::
      0 <= KeyOf(g, e) < |s.rows| && s.rows[KeyOf(g, e)].edge != NO_EDGE &&
      LessEq(s.rows[KeyOf(g, e)].weight, ExpansionWeight(g, s, cur, e))
  }

  /** After relaxing `e` its key holds an entry no heavier than the way over the entry of `cur`. */
  lemma {:induction false} RelaxReaches(g: Graph, sourceNode: int, centerNode: int, s: TreeState, cur: int, e: EdgeState)
    requires TreeInv(g, sourceNode, centerNode, s) && IsExpanding(s, cur) && EdgeOk(g, e)
    requires !IsContracted(g, e.adjNode) && e.firstOrigEdge != s.rows[cur].incEdge && ExpansionWeight(g, s, cur, e).Fin?
    ensures Relax(g, centerNode, s, cur, e).rows[KeyOf(g, e)].edge != NO_EDGE
    ensures LessEq(Relax(g, centerNode, s, cur, e).rows[KeyOf(g, e)].weight, ExpansionWeight(g, s, cur, e))
  {
  }

  /** A settled entry that was relaxed stays relaxed while the tree grows. */
  lemma {:induction false} RelaxedStays(g: Graph, s: TreeState, r: TreeState, cur: int, es: seq<EdgeState>)
    requires IsSettled(s, cur) && Relaxed(g, s, cur, es) && Extends(s, r)
    ensures 0 <= cur < |r.rows| && r.rows[cur] == s.rows[cur] && Relaxed(g, r, cur, es)
  {
    forall e | e in es && !IsContracted(g, e.adjNode) && e.firstOrigEdge != r.rows[cur].incEdge && ExpansionWeight(g, r, cur, e).Fin?
      ensures 0 <= KeyOf(g, e) < |r.rows| && r.rows[KeyOf(g, e)].edge != NO_EDGE
      ensures LessEq(r.rows[KeyOf(g, e)].weight, ExpansionWeight(g, r, cur, e))
    {
      var k := KeyOf(g, e);
      LessEqTrans(r.rows[k].weight, s.rows[k].weight, ExpansionWeight(g, s, cur, e));
    }
  }

  /**
   * The inner loop of runSearch relaxes every out edge it does not skip:
   * afterwards each one leads to a discovered key whose entry is no heavier
   * than the way over the expanded entry.
   */
  lemma {:induction false} ExpandRelaxes(g: Graph, sourceNode: int, centerNode: int, s: TreeState, cur: int, es: seq<EdgeState>)
    requires EdgeWeightsNonNeg(g) && EdgeKeysInjective(g) && TreeInv(g, sourceNode, centerNode, s) && IsExpanding(s, cur)
    requires forall i | 0 <= i < |es| :: EdgeOk(g, es[i])
    ensures Relaxed(g, Expand(g, centerNode, s, cur, es), cur, es)
    decreases |es|
  {
    hide Relax, TreeInv;
    TreeInvFacts(g, sourceNode, centerNode, s);
    if es != [] {
      var r1 := Relax(g, centerNode, s, cur, es[0]);
      var r := Expand(g, centerNode, s, cur, es);
      RelaxKeepsInv(g, sourceNode, centerNode, s, cur, es[0]);
      RelaxExtends(g, sourceNode, centerNode, s, cur, es[0]);
      assert r1.rows[cur] == s.rows[cur];
      if !IsContracted(g, es[0].adjNode) && es[0].firstOrigEdge != s.rows[cur].incEdge && ExpansionWeight(g, s, cur, es[0]).Fin? {
        RelaxReaches(g, sourceNode, centerNode, s, cur, es[0]);
      }
      assert Relaxed(g, r1, cur, [es[0]]);
      ExpandExtends(g, sourceNode, centerNode, r1, cur, es[1..]);
      ExpandRelaxes(g, sourceNode, centerNode, r1, cur, es[1..]);
      RelaxedStays(g, r1, r, cur, [es[0]]);
      assert es == [es[0]] + es[1..];
    }
  }
}
