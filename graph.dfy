/**
 * The read-only collaborators of the witness search, reduced to what the
 * search consults: the CH graph's edge explorers, node levels, the turn
 * weighting and the edge-key addressing. Each is a total function; none of
 * their implementations is part of this model.
 */
module Graphs {
  import opened Weights

  /** EdgeIterator.NO_EDGE. */
  const NO_EDGE: int := -1

  /**
   * What an edge iterator positioned on one (possibly shortcut) edge reports:
   * its id, the node it leads to and the first and last original edges it
   * consists of.
   */
  datatype EdgeState = EdgeState(edge: int, adjNode: int, firstOrigEdge: int, lastOrigEdge: int)

  datatype Graph = Graph(
    /** chGraph.getNodes(): the level every not yet contracted node still has */
    numNodes: int,
    /** the number of original edges; edge keys are addressed in [0, 2 * numOriginalEdges) */
    numOriginalEdges: nat,
    /** chGraph.getLevel(node) */
    level: int -> int,
    /** what the out-edge explorer of the CH graph yields at a node, in order */
    outEdges: int -> seq<EdgeState>,
    /** last original edges of the original edges incoming to a node, in order */
    origInEdges: int -> seq<int>,
    /** turnWeighting.calcWeight(edge, false, previous original edge), turn costs included */
    edgeWeight: (EdgeState, int) -> Weight,
    /** turnWeighting.calcTurnWeight(inEdge, viaNode, outEdge) */
    turnCost: (int, int, int) -> Weight,
    /** GHUtility.getEdgeKey(chGraph, edge, adjNode, false) */
    edgeKey: (int, int) -> int,
    /** the (original edge, arrival node) pair a key was formed from: the inverse of edgeKey */
    keyOrigin: int -> (int, int))

  /** The size of the per-key arrays: two keys per original edge, one per direction. */
  function KeySpace(g: Graph): nat {
    2 * g.numOriginalEdges
  }

  /**
   * What the search relies on from its collaborators: every edge it can meet
   * has real edge ids and a key inside the allocated range, weights are
   * non-negative or infinite, and the edge key is injective, which keyOrigin
   * witnesses by undoing it.
   */
  ghost predicate WellFormed(g: Graph) {
    && (forall n, i | 0 <= i < |g.outEdges(n)| :: EdgeOk(g, g.outEdges(n)[i]))
    && (forall n, i | 0 <= i < |g.origInEdges(n)| :: 0 <= g.edgeKey(g.origInEdges(n)[i], n) < KeySpace(g))
    && EdgeWeightsNonNeg(g)
    && (forall a, v, b :: NonNeg(g.turnCost(a, v, b)))
    && EdgeKeysInjective(g)
  }

  /** Every edge weight, turn costs included, is non-negative or infinite. */
  ghost predicate EdgeWeightsNonNeg(g: Graph) {
    forall e, p :: NonNeg(g.edgeWeight(e, p))
  }

  /** The edge key is injective, which keyOrigin witnesses by undoing it. */
  ghost predicate EdgeKeysInjective(g: Graph) {
    forall e, n :: g.keyOrigin(g.edgeKey(e, n)) == (e, n)
  }

  /** An edge the explorer yields: real edge and original edge ids, and a key inside the allocated range. */
  predicate EdgeOk(g: Graph, e: EdgeState) {
    e.edge >= 0 && e.lastOrigEdge >= 0 && 0 <= g.edgeKey(e.lastOrigEdge, e.adjNode) < KeySpace(g)
  }

  /** getEdgeKey: the key of an original edge arriving at a node; it names the pair it was formed from. */
  function GetEdgeKey(g: Graph, edge: int, adjNode: int): (key: int)
    ensures EdgeKeysInjective(g) ==> g.keyOrigin(key) == (edge, adjNode)
  {
    g.edgeKey(edge, adjNode)
  }

  /** One key names one (last original edge, arrival node) pair. */
  lemma KeyDeterminesNode(g: Graph, e1: int, n1: int, e2: int, n2: int)
    requires EdgeKeysInjective(g)
    requires g.edgeKey(e1, n1) == g.edgeKey(e2, n2)
    ensures e1 == e2 && n1 == n2
  {
    assert g.keyOrigin(g.edgeKey(e1, n1)) == (e1, n1);
    assert g.keyOrigin(g.edgeKey(e2, n2)) == (e2, n2);
  }
}
