/**
 * The priority queue the traversal explores steps from. Only its
 * interface is known: `insert`, `deleteMin` and `isEmpty`; it is
 * modelled as the multiset of its entries, and `deleteMin` removes one
 * entry of least priority.
 */
module Heap {
  /** An entry: a step id and its priority (a JavaScript number, modelled as a real). */
  datatype HeapEntry = HeapEntry(val: string, priority: real)

  /** Some entry for `id` is still waiting. */
  ghost predicate Pending(entries: seq<HeapEntry>, id: string) {
    exists e :: e in entries && e.val == id
  }

  /** The step ids of the entries, in order. */
  function Vals(entries: seq<HeapEntry>): (r: seq<string>)
    ensures |r| == |entries|
  {
    seq(|entries|, i requires 0 <= i < |entries| => entries[i].val)
  }

  lemma ValsAppend(a: seq<HeapEntry>, b: seq<HeapEntry>)
    ensures Vals(a + b) == Vals(a) + Vals(b)
  {
  }

  /** Removing the entry at `m` removes one occurrence of its id. */
  lemma RemoveAtVals(entries: seq<HeapEntry>, m: nat)
    requires m < |entries|
    ensures multiset(Vals(entries[..m] + entries[m + 1..])) == multiset(Vals(entries)) - multiset{entries[m].val}
  {
    var a, b := entries[..m], entries[m + 1..];
    assert entries == a + ([entries[m]] + b);
    ValsAppend(a, [entries[m]] + b);
    ValsAppend([entries[m]], b);
    ValsAppend(a, b);
  }

  class MinHeap {
    var entries: seq<HeapEntry>
    /** Every entry ever inserted, in insertion order. */
    ghost var log: seq<HeapEntry>

    constructor ()
      ensures entries == [] && log == []
    {
      entries := [];
      log := [];
    }

    function IsEmpty(): (r: bool)
      reads this
      ensures r <==> |entries| == 0
    {
      entries == []
    }

    method Insert(entry: HeapEntry)
      modifies this
      ensures entries == old(entries) + [entry]
      ensures log == old(log) + [entry]
    {
      entries := entries + [entry];
      log := log + [entry];
    }

    /** Removes and returns an entry whose priority is no greater than any other's. */
    method DeleteMin() returns (min: HeapEntry)
      requires entries != []
      modifies this
      ensures min in old(entries)
      ensures forall e :: e in old(entries) ==> min.priority <= e.priority
      ensures multiset(entries) == multiset(old(entries)) - multiset{min}
      ensures |entries| == |old(entries)| - 1
      ensures multiset(Vals(entries)) == multiset(Vals(old(entries))) - multiset{min.val}
      ensures log == old(log)
    {
      var m := LeastIndex(entries);
      min := entries[m];
      assert entries == entries[..m] + [min] + entries[m + 1..];
      RemoveAtVals(entries, m);
      entries := entries[..m] + entries[m + 1..];
    }
  }

  /** The position of an entry of least priority: the first one, scanning from the front. */
  method LeastIndex(entries: seq<HeapEntry>) returns (m: nat)
    requires entries != []
    ensures m < |entries|
    ensures forall k :: 0 <= k < |entries| ==> entries[m].priority <= entries[k].priority
    ensures forall k :: 0 <= k < m ==> entries[m].priority < entries[k].priority
  {
    m := 0;
    var i := 1;
    while i < |entries|
      invariant 0 <= m < i <= |entries|
      invariant forall k :: 0 <= k < i ==> entries[m].priority <= entries[k].priority
      invariant forall k :: 0 <= k < m ==> entries[m].priority < entries[k].priority
    {
      if entries[i].priority < entries[m].priority {
        m := i;
      }
      i := i + 1;
    }
  }

  /** An entry other than the removed one is still there after a removal. */
  lemma StillPending(before: seq<HeapEntry>, after: seq<HeapEntry>, min: HeapEntry, id: string)
    requires multiset(after) == multiset(before) - multiset{min}
    requires Pending(before, id) && id != min.val
    ensures Pending(after, id)
  {
    var e :| e in before && e.val == id;
    assert e != min;
    assert e in multiset(before);
    assert e in multiset(after);
  }
}
