/**
 * The log of written keys (changedEdges) together with the position of every
 * key in it, -1 for a key that is not logged. Keeping the positions next to
 * the log states "every key is logged once" without comparing every pair of
 * log entries.
 */
module KeyLog {

  /** `pos` gives the position in `log` of every key in [0, |pos|) that `log` holds, and -1 for the others. */
  ghost predicate Indexes(log: seq<int>, pos: seq<int>) {
    && (forall i | 0 <= i < |log| :: 0 <= log[i] < |pos| && pos[log[i]] == i)
    && (forall k | 0 <= k < |pos| :: -1 <= pos[k] < |log| && (pos[k] >= 0 ==> log[pos[k]] == k))
  }

  /** Every key of [0, n) without a position. */
  function NoPositions(n: nat): (pos: seq<int>)
    ensures |pos| == n && forall k | 0 <= k < n :: pos[k] == -1
  {
    seq(n, _ => -1)
  }

  lemma NoPositionsIndexEmptyLog(n: nat)
    ensures Indexes([], NoPositions(n))
  {
  }

  /** Appending a key that is not logged yet keeps the positions exact. */
  lemma IndexesAppend(log: seq<int>, pos: seq<int>, key: int)
    requires Indexes(log, pos) && 0 <= key < |pos| && pos[key] < 0
    ensures Indexes(log + [key], pos[key := |log|])
  {
    var log', pos' := log + [key], pos[key := |log|];
    forall i | 0 <= i < |log'|
      ensures 0 <= log'[i] < |pos'| && pos'[log'[i]] == i
    {
      if i < |log| {
        assert log'[i] == log[i] && pos[log[i]] == i && log[i] != key;
      }
    }
  }

  /** An indexed log lists every key once. */
  lemma {:induction false} IndexedLogIsDistinct(log: seq<int>, pos: seq<int>)
    requires Indexes(log, pos)
    ensures forall i, j | 0 <= i < j < |log| :: log[i] != log[j]
  {
    forall i, j | 0 <= i < j < |log|
      ensures log[i] != log[j]
    {
      assert pos[log[i]] == i && pos[log[j]] == j;
    }
  }

  /** The logged keys are exactly those with a position. */
  lemma {:induction false} IndexedLogKeys(log: seq<int>, pos: seq<int>)
    requires Indexes(log, pos)
    ensures forall k | 0 <= k < |pos| :: pos[k] >= 0 <==> k in log
  {
    forall k | 0 <= k < |pos|
      ensures pos[k] >= 0 <==> k in log
    {
      if k in log {
        var i :| 0 <= i < |log| && log[i] == k;
        assert pos[log[i]] == i;
      }
      if pos[k] >= 0 {
        assert log[pos[k]] == k;
      }
    }
  }
}
