/**
 * The Dijkstra frontier: an addressable min-priority queue of edge keys,
 * standing for IntDoubleBinaryHeap. Its state is the map from element to
 * priority; among elements of equal priority the smallest element comes
 * first, so that a peek and the following poll agree.
 */
module DijkstraHeap {
  import opened Weights

  /** `k` is the element that peek and poll return for `entries`. */
  ghost predicate IsFirstMin(entries: map<int, Weight>, k: int) {
    && k in entries
    && forall j | j in entries :: Less(entries[k], entries[j]) || (entries[k] == entries[j] && k <= j)
  }

  /** There is only ever one element that peek may return. */
  lemma FirstMinUnique(entries: map<int, Weight>, k1: int, k2: int)
    requires IsFirstMin(entries, k1) && IsFirstMin(entries, k2)
    ensures k1 == k2
  {
  }

  lemma HasElement(s: set<int>)
    requires s != {}
    ensures exists k :: k in s
  {
    assert (forall k :: k !in s) ==> s == {};
  }

  class MinHeap {
    var entries: map<int, Weight>

    constructor ()
      ensures entries == map[]
    {
      entries := map[];
    }

    /** getSize: the number of elements on the heap, none of them twice. */
    function GetSize(): (n: nat)
      reads this
      ensures n == |entries.Keys|
      ensures n == 0 <==> entries == map[]
    {
      |entries|
    }

    /** isEmpty: no element is on the heap. */
    function IsEmpty(): (r: bool)
      reads this
      ensures r <==> forall k :: k !in entries
      ensures r <==> GetSize() == 0
    {
      // maps are equal when they have the same keys and values
      assert (forall k :: k !in entries) ==> entries == map[];
      entries == map[]
    }

    /** insert_(weight, element), for an element not on the heap. */
    method Insert(weight: Weight, element: int)
      requires element !in entries
      modifies this
      ensures entries == old(entries)[element := weight]
    {
      entries := entries[element := weight];
    }

    /** update_(weight, element): changes the priority of an element on the heap, and nothing otherwise. */
    method Update(weight: Weight, element: int)
      modifies this
      ensures element in old(entries) ==> entries == old(entries)[element := weight]
      ensures element !in old(entries) ==> entries == old(entries)
    {
      if element in entries {
        entries := entries[element := weight];
      }
    }

    /** peek_element(): an element of least priority, which stays on the heap. */
    method PeekElement() returns (k: int)
      requires !IsEmpty()
      ensures IsFirstMin(entries, k)
    {
      var rest := entries.Keys;
      HasElement(rest);
      k :| k in rest;
      rest := rest - {k};
      while rest != {}
        invariant k in entries && rest <= entries.Keys && k !in rest
        invariant forall j | j in entries && j !in rest ::
                    Less(entries[k], entries[j]) || (entries[k] == entries[j] && k <= j)
        decreases rest
      {
        HasElement(rest);
        var j :| j in rest;
        if Less(entries[j], entries[k]) || (entries[j] == entries[k] && j < k) {
          k := j;
        }
        rest := rest - {j};
      }
    }

    /** poll_element(): removes and returns the element peek would return. */
    method PollElement() returns (k: int)
      requires !IsEmpty()
      modifies this
      ensures IsFirstMin(old(entries), k)
      ensures entries == old(entries) - {k}
    {
      k := PeekElement();
      entries := entries - {k};
    }

    /** clear() */
    method Clear()
      modifies this
      ensures entries == map[]
    {
      entries := map[];
    }
  }
}
