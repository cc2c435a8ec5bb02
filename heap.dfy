/** The record holder heap: the min-priority queue of iterators that the
    merger polls for the iterator whose current row has the smallest key.
    It is kept as a sequence and `Poll` finds the minimum by a scan with
    the comparator (java.util.PriorityQueue keeps a binary heap instead;
    which of several equal keys comes out first is not fixed by either). */
module RecordHeap {
  import opened MdKey
  import opened Streams
  import opened Comparator

  /** Every queued iterator shows a row. */
  ghost predicate AllFetched(xs: seq<RawResultIterator>)
    reads set x | x in xs
  {
    forall a :: 0 <= a < |xs| ==> xs[a].FetchConverted().Fetched?
  }

  /** No queued iterator shows a row whose key cannot be generated. */
  ghost predicate NoKeyFailure(xs: seq<RawResultIterator>)
    reads set x | x in xs
  {
    forall a :: 0 <= a < |xs| ==> !xs[a].FetchConverted().KeyGenFailure?
  }

  /** The rows the queued iterators currently show. */
  ghost function Fetches(xs: seq<RawResultIterator>): (fs: seq<Fetch>)
    reads set x | x in xs
    ensures |fs| == |xs| && forall a :: 0 <= a < |xs| ==> fs[a] == xs[a].FetchConverted()
  {
    if xs == [] then [] else [xs[0].FetchConverted()] + Fetches(xs[1..])
  }

  /** One step of the minimum scan: comparing row k with the smallest row
      so far keeps the smaller of the two as the smallest of rows 0..k. */
  lemma ScanStep(w: seq<int>, fs: seq<Fetch>, p: nat, k: nat)
    requires forall a :: 0 <= a < |fs| ==> fs[a].Fetched? && Conforms(w, fs[a].row.key)
    requires p < k < |fs|
    requires forall a :: 0 <= a < k ==> FetchLe(w, fs[p], fs[a])
    ensures var p' := if KeyCompare(w, fs[k].row.key, fs[p].row.key) < 0 then k else p;
      forall a :: 0 <= a <= k ==> FetchLe(w, fs[p'], fs[a])
  {
    var kk, pk := fs[k].row.key, fs[p].row.key;
    KeyCompareAntisymmetric(w, kk, pk);
    if KeyCompare(w, kk, pk) < 0 {
      forall a | 0 <= a < k
        ensures FetchLe(w, fs[k], fs[a])
      {
        KeyCompareTransitive(w, kk, pk, fs[a].row.key);
      }
      KeyCompareReflexive(w, kk);
    }
  }

  class RecordHolderHeap {
    const comparator: MdkeyComparator
    var items: seq<RawResultIterator>

    ghost predicate Valid()
      reads this
    {
      forall x :: x in items ==> x.ConformsTo(comparator.widths)
    }

    constructor (comparator: MdkeyComparator)
      ensures this.comparator == comparator && items == [] && Valid()
    {
      this.comparator := comparator;
      items := [];
    }

    method Add(s: RawResultIterator)
      requires Valid() && s.ConformsTo(comparator.widths)
      modifies this
      ensures Valid() && items == old(items) + [s]
    {
      items := items + [s];
    }

    /** The scan of poll: the position of an iterator whose current row
        sorts first, or a comparator failure. */
    method FindMin() returns (p: nat, crashed: bool)
      requires Valid() && items != []
      ensures !crashed ==> p < |items|
      ensures (|items| == 1 || NoKeyFailure(items)) ==> !crashed
      ensures !crashed && AllFetched(items) ==>
        forall a :: 0 <= a < |items| ==> FetchLe(comparator.widths, items[p].FetchConverted(), items[a].FetchConverted())
    {
      var w := comparator.widths;
      ghost var fs := Fetches(items);
      ghost var all := AllFetched(items);
      if all {
        forall a | 0 <= a < |fs|
          ensures fs[a].Fetched? && Conforms(w, fs[a].row.key)
        {
          FetchedConforms(items[a], w);
        }
        KeyCompareReflexive(w, fs[0].row.key);
      }
      p, crashed := 0, false;
      var k := 1;
      while k < |items|
        invariant 1 <= k <= |items| && p < k
        invariant all ==> forall a :: 0 <= a < k ==> FetchLe(w, fs[p], fs[a])
      {
        var c := comparator.Compare(items[k], items[p]);
        if c.Crashed? {
          return 0, true;
        }
        if all {
          ScanStep(w, fs, p, k);
        }
        if c.sign < 0 {
          p := k;
        }
        k := k + 1;
      }
    }

    /** Removes and returns an iterator whose current key is smallest; null
        when the queue is empty. `crashed` reports that the comparator
        failed, which happens only when some queued row has no key: never
        when no queued key fails to generate, and never with one queued
        iterator, which is compared with nothing. */
    method Poll() returns (top: RawResultIterator?, ghost pos: nat, crashed: bool)
      requires Valid()
      modifies this
      ensures Valid()
      ensures old(items) == [] ==> top == null && !crashed && items == []
      ensures (|old(items)| == 1 || NoKeyFailure(old(items))) ==> !crashed
      ensures !crashed && old(items) != [] ==>
        pos < |old(items)| && top == old(items)[pos] && items == old(items)[..pos] + old(items)[pos + 1..]
      ensures !crashed && old(items) != [] && AllFetched(old(items)) ==>
        forall a :: 0 <= a < |old(items)| ==>
          FetchLe(comparator.widths, top.FetchConverted(), old(items)[a].FetchConverted())
    {
      pos := 0;
      if items == [] {
        return null, 0, false;
      }
      var p;
      p, crashed := FindMin();
      if crashed {
        return null, 0, true;
      }
      top, pos := items[p], p;
      ghost var before := items;
      items := items[..p] + items[p + 1..];
      forall x | x in items
        ensures x.ConformsTo(comparator.widths)
      {
        var a :| 0 <= a < |items| && items[a] == x;
        assert x == before[if a < p then a else a + 1];
      }
    }
  }
}
