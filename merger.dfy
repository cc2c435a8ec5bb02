/** RowResultMerger: merges the sorted row streams of the segments being
    compacted into one sorted stream and writes it to the fact handler. */
module Merger {
  import opened MdKey
  import opened Streams
  import opened Sink
  import opened Comparator
  import opened RecordHeap
  import opened MergeSpec

  /** The exceptions mergerSlice lets escape: a SliceMergerException, or an
      unchecked exception (a null iterator polled from an empty queue, or a
      comparator that fails on a key it cannot generate). */
  datatype Failure = SliceMergerFailure | UncheckedFailure

  /** How the body of the try block ends. */
  datatype Attempt = Completed | WriterFailed | Raised(failure: Failure)

  /** How mergerSlice ends: it returns a status or throws. */
  datatype MergeOutcome = Returned(status: bool) | Thrown(failure: Failure)

  /** The finally block: closeHandler runs after the try block whatever its
      end, and a close failure replaces the pending result or exception
      with `false`. */
  function Conclude(attempt: Attempt, closed: bool): (outcome: MergeOutcome)
    ensures outcome == Returned(true) <==> attempt == Completed && closed
    ensures !closed ==> outcome == Returned(false)
    ensures closed && attempt.Raised? ==> outcome == Thrown(attempt.failure)
    ensures outcome.Thrown? ==> closed && attempt.Raised?
  {
    if !closed then Returned(false)
    else match attempt
      case Completed => Returned(true)
      case WriterFailed => Returned(false)
      case Raised(f) => Thrown(f)
  }

  ghost predicate Distinct<T>(xs: seq<T>)
  {
    forall a, b :: 0 <= a < b < |xs| ==> xs[a] != xs[b]
  }

  /** Removing one element of a sequence without repetitions leaves one
      without repetitions that holds every other element. */
  lemma RemoveAt<T>(xs: seq<T>, p: nat)
    requires p < |xs| && Distinct(xs)
    ensures Distinct(xs[..p] + xs[p + 1..])
    ensures forall y :: y in xs[..p] + xs[p + 1..] <==> y in xs && y != xs[p]
  {
    var ys := xs[..p] + xs[p + 1..];
    forall a, b | 0 <= a < b < |ys|
      ensures ys[a] != ys[b]
    {
      assert ys[a] == xs[if a < p then a else a + 1];
      assert ys[b] == xs[if b < p then b else b + 1];
    }
    forall y | y in ys
      ensures y in xs && y != xs[p]
    {
      var a :| 0 <= a < |ys| && ys[a] == y;
      assert y == xs[if a < p then a else a + 1];
    }
    forall a | 0 <= a < |xs| && a != p
      ensures xs[a] in ys
    {
      assert ys[if a < p then a else a - 1] == xs[a];
    }
  }

  class RowResultMerger {
    const rawResultIteratorList: seq<RawResultIterator>
    /** segprop.getEachDimColumnValueSize() */
    const widths: seq<int>
    /** TupleConversionAdapter.getObjectArray */
    const tupleConvertor: Row -> Tuple
    const dataHandler: FactHandler
    const recordHolderHeap: RecordHolderHeap

    /** The stored rows of each segment, in list order. */
    ghost const inputs: seq<seq<Entry>>
    /** The rows handed to the sink so far, before conversion. */
    ghost var merged: seq<Row>
    /** The read position of each iterator. */
    ghost var cursors: seq<nat>
    /** What the sink held before the merge. */
    ghost var baseWritten: seq<Tuple>

    ghost function Streams(): set<RawResultIterator>
    {
      set x | x in rawResultIteratorList
    }

    /** Facts fixed at construction: each iterator's rows, their schema,
        no iterator listed twice, and the comparator's schema. */
    ghost predicate Wired()
    {
      && |inputs| == |rawResultIteratorList|
      && (forall i :: 0 <= i < |rawResultIteratorList| ==>
            rawResultIteratorList[i].entries == inputs[i] && rawResultIteratorList[i].ConformsTo(widths))
      && (forall i, j :: 0 <= i < j < |rawResultIteratorList| ==> rawResultIteratorList[i] != rawResultIteratorList[j])
      && recordHolderHeap.comparator.widths == widths
    }

    /** The ghost cursors follow the iterators. */
    ghost predicate Tracked()
      reads this, Streams()
    {
      && Wired()
      && CursorsFit(inputs, cursors)
      && forall i :: 0 <= i < |rawResultIteratorList| ==> rawResultIteratorList[i].cursor == cursors[i]
    }

    /** The queue holds, once each, exactly the iterators still pending. */
    ghost predicate Queued()
      reads this, recordHolderHeap, Streams()
      requires Tracked()
    {
      var items := recordHolderHeap.items;
      && recordHolderHeap.Valid()
      && Distinct(items)
      && (forall a :: 0 <= a < |items| ==> items[a] in rawResultIteratorList)
      && forall i :: 0 <= i < |rawResultIteratorList| ==>
           (rawResultIteratorList[i] in items <==> PendingAt(inputs, cursors, i))
    }

    /** The sink holds the converted merged rows, which are sorted when the
        inputs are; none of their writes was the failing one. */
    ghost predicate Traced()
      reads this, dataHandler
    {
      && dataHandler.written == baseWritten + Converted(tupleConvertor, merged)
      && (GoodInputs(widths, inputs) ==> SortedRows(widths, merged))
      && (dataHandler.failingWrite.Some? ==>
            dataHandler.failingWrite.value < |baseWritten| || dataHandler.failingWrite.value >= |dataHandler.written|)
    }

    /** No row was merged or left unread that is not stored. */
    ghost predicate Kept()
      reads this
    {
      Within(inputs, cursors, merged)
    }

    /** The sink refused the write it was last asked for. */
    ghost predicate WriteRefused()
      reads dataHandler
    {
      dataHandler.failingWrite == Some(|dataHandler.written|)
    }

    /** Every stored row is either merged or unread, and no unread row sorts
        before the last merged one. */
    ghost predicate Progress()
      reads this
    {
      && multiset(Wrap(merged)) + Rest(inputs, cursors) == All(inputs)
      && (GoodInputs(widths, inputs) ==> LastBound(widths, inputs, cursors, merged))
    }

    ghost predicate Ready()
      reads this, recordHolderHeap, Streams()
    {
      && Wired()
      && recordHolderHeap.Valid() && recordHolderHeap.items == []
      && forall i :: 0 <= i < |rawResultIteratorList| ==> rawResultIteratorList[i].cursor == 0
    }

    constructor (iteratorList: seq<RawResultIterator>, widths: seq<int>,
                 convertor: Row -> Tuple, handler: FactHandler)
      requires iteratorList != []
      requires forall i, j :: 0 <= i < j < |iteratorList| ==> iteratorList[i] != iteratorList[j]
      requires forall i :: 0 <= i < |iteratorList| ==>
        iteratorList[i].cursor == 0 && iteratorList[i].ConformsTo(widths)
      ensures rawResultIteratorList == iteratorList && this.widths == widths
      ensures tupleConvertor == convertor && dataHandler == handler
      ensures inputs == seq(|iteratorList|, i requires 0 <= i < |iteratorList| => iteratorList[i].entries)
      ensures fresh(recordHolderHeap) && Ready()
    {
      rawResultIteratorList := iteratorList;
      this.widths := widths;
      tupleConvertor := convertor;
      dataHandler := handler;
      var comparator := new MdkeyComparator(widths);
      recordHolderHeap := new RecordHolderHeap(comparator);
      inputs := seq(|iteratorList|, i requires 0 <= i < |iteratorList| => iteratorList[i].entries);
      merged, cursors, baseWritten := [], [], [];
    }

    /** Converts one merged row and writes it; a write failure is reported
        (mergerSlice turns it into a SliceMergerException). */
    method AddRow(carbonTuple: Row) returns (ok: bool)
      modifies this`merged, dataHandler
      ensures ok == (dataHandler.failingWrite != Some(|old(dataHandler.written)|))
      ensures merged == if ok then old(merged) + [carbonTuple] else old(merged)
      ensures dataHandler.written ==
        if ok then old(dataHandler.written) + [tupleConvertor(carbonTuple)] else old(dataHandler.written)
      ensures dataHandler.initialised == old(dataHandler.initialised)
      ensures dataHandler.finished == old(dataHandler.finished)
      ensures dataHandler.closeCalls == old(dataHandler.closeCalls)
    {
      var rowInWritableFormat := tupleConvertor(carbonTuple);
      ok := dataHandler.AddDataToStore(rowInWritableFormat);
      if ok {
        merged := merged + [carbonTuple];
      }
    }

    /** Queues every iterator, in list order. */
    method LoadHeap() returns (index: nat)
      requires Ready()
      modifies recordHolderHeap
      ensures recordHolderHeap.Valid() && recordHolderHeap.items == rawResultIteratorList
      ensures index == |rawResultIteratorList|
    {
      index := 0;
      while index < |rawResultIteratorList|
        invariant index <= |rawResultIteratorList|
        invariant recordHolderHeap.Valid() && recordHolderHeap.items == rawResultIteratorList[..index]
      {
        recordHolderHeap.Add(rawResultIteratorList[index]);
        index := index + 1;
      }
    }

    /** Every queued iterator shows a row when the inputs are good: each is
        pending and every segment has rows that all convert. */
    lemma HeadsFetched()
      requires Tracked() && Queued() && GoodInputs(widths, inputs)
      ensures AllFetched(recordHolderHeap.items)
    {
      var items := recordHolderHeap.items;
      forall a | 0 <= a < |items|
        ensures items[a].FetchConverted().Fetched?
      {
        var i :| 0 <= i < |rawResultIteratorList| && rawResultIteratorList[i] == items[a];
        assert GoodStream(widths, inputs[i]);
      }
    }

    /** No queued iterator shows a key that cannot be generated when no
        stored row has one, so the comparator cannot fail. */
    lemma HeadsGenerable()
      requires Tracked() && Queued() && KeysGenerable(inputs)
      ensures NoKeyFailure(recordHolderHeap.items)
    {
      var items := recordHolderHeap.items;
      forall a | 0 <= a < |items|
        ensures !items[a].FetchConverted().KeyGenFailure?
      {
        var i :| 0 <= i < |rawResultIteratorList| && rawResultIteratorList[i] == items[a];
      }
    }

    /** The polled iterator's current row sorts no later than the current
        row of any other pending iterator. */
    lemma MinimalHead(items: seq<RawResultIterator>, top: RawResultIterator, j: nat)
      requires Tracked() && GoodInputs(widths, inputs)
      requires j < |rawResultIteratorList| && rawResultIteratorList[j] == top && top in items
      requires forall i :: 0 <= i < |rawResultIteratorList| ==>
        (rawResultIteratorList[i] in items <==> PendingAt(inputs, cursors, i))
      requires forall a :: 0 <= a < |items| ==> FetchLe(widths, top.FetchConverted(), items[a].FetchConverted())
      ensures cursors[j] < |inputs[j]|
      ensures forall i :: 0 <= i < |inputs| && i != j && cursors[i] < |inputs[i]| ==>
        EntryAbove(widths, inputs[j][cursors[j]].row, inputs[i][cursors[i]])
    {
      assert GoodStream(widths, inputs[j]);
      forall i | 0 <= i < |inputs| && i != j && cursors[i] < |inputs[i]|
        ensures EntryAbove(widths, inputs[j][cursors[j]].row, inputs[i][cursors[i]])
      {
        var a :| 0 <= a < |items| && items[a] == rawResultIteratorList[i];
        assert FetchLe(widths, top.FetchConverted(), items[a].FetchConverted());
        assert GoodStream(widths, inputs[i]);
      }
    }

    /** iterator.next() on the polled iterator, with the ghost cursors
        following it. */
    method ReadRow(polled: RawResultIterator, ghost j: nat) returns (row: Option<Row>)
      requires Tracked() && j < |rawResultIteratorList| && rawResultIteratorList[j] == polled
      modifies this`cursors, polled
      ensures Tracked()
      ensures row.Some? <==> old(cursors[j]) < |inputs[j]| && inputs[j][old(cursors[j])].Decoded?
      ensures cursors == old(cursors)[j := if old(cursors[j]) < |inputs[j]| then old(cursors[j]) + 1 else old(cursors[j])]
      ensures row.Some? ==> inputs[j][old(cursors[j])] == Decoded(row.value)
    {
      assert forall i :: 0 <= i < |rawResultIteratorList| && i != j ==> rawResultIteratorList[i] != polled;
      row := polled.Next();
      cursors := cursors[j := polled.cursor];
    }

    /** A read from segment j leaves the merged and unread rows within the
        stored ones. */
    lemma ReadKept(cs: seq<nat>, j: nat)
      requires |cs| == |inputs| && j < |inputs|
      requires multiset(Wrap(merged)) + Rest(inputs, cs) == All(inputs)
      requires cursors == cs[j := if cs[j] < |inputs[j]| then cs[j] + 1 else cs[j]]
      ensures Kept()
    {
      ReadBounded(inputs, cs, merged, j);
    }

    /** Reads the polled iterator's next row and writes it: the step both
        loops of mergerSlice take. A row that does not convert, or a write
        that fails, ends the merge with a SliceMergerException. */
    method Transfer(polled: RawResultIterator, ghost j: nat, ghost cs: seq<nat>) returns (failure: Option<Failure>)
      requires Tracked() && Traced() && Progress() && cursors == cs
      requires j < |rawResultIteratorList| && rawResultIteratorList[j] == polled
      requires PendingAt(inputs, cursors, j)
      requires GoodInputs(widths, inputs) ==>
        && cursors[j] < |inputs[j]|
        && forall i :: 0 <= i < |inputs| && i != j && cursors[i] < |inputs[i]| ==>
             EntryAbove(widths, inputs[j][cursors[j]].row, inputs[i][cursors[i]])
      modifies this`merged, this`cursors, polled, dataHandler
      ensures Tracked() && Traced()
      ensures failure.None? ==>
        && cs[j] < |inputs[j]| && cursors == cs[j := cs[j] + 1]
        && |Rest(inputs, cursors)| < |Rest(inputs, cs)|
        && inputs[j][cs[j]].Decoded?
        && merged == old(merged) + [inputs[j][cs[j]].row]
        && Progress()
      ensures failure.None? <==>
        cs[j] < |inputs[j]| && inputs[j][cs[j]].Decoded? && dataHandler.failingWrite != Some(|old(dataHandler.written)|)
      ensures failure.Some? ==> failure == Some(SliceMergerFailure) && merged == old(merged) && Kept()
      ensures failure.Some? ==> WriteRefused() || !Convertible(inputs)
      ensures GoodInputs(widths, inputs) && dataHandler.failingWrite.None? ==> failure.None?
      ensures dataHandler.initialised == old(dataHandler.initialised)
      ensures dataHandler.finished == old(dataHandler.finished)
      ensures dataHandler.closeCalls == old(dataHandler.closeCalls)
    {
      var convertedRow := ReadRow(polled, j);
      ReadKept(cs, j);
      if convertedRow.None? {
        UnreadableHead(inputs, cs, j);
        return Some(SliceMergerFailure);
      }
      var ok := Emit(convertedRow.value, j, cs);
      if !ok {
        return Some(SliceMergerFailure);
      }
      return None;
    }

    /** addRow on the row just read from segment j, with the ghost record
        of the merge following it. */
    method Emit(row: Row, ghost j: nat, ghost cs: seq<nat>) returns (ok: bool)
      requires Traced() && Kept()
      requires CursorsFit(inputs, cs) && j < |inputs| && cs[j] < |inputs[j]| && inputs[j][cs[j]] == Decoded(row)
      requires cursors == cs[j := cs[j] + 1]
      requires multiset(Wrap(merged)) + Rest(inputs, cs) == All(inputs)
      requires GoodInputs(widths, inputs) ==>
        && LastBound(widths, inputs, cs, merged)
        && forall i :: 0 <= i < |inputs| && i != j && cs[i] < |inputs[i]| ==>
             EntryAbove(widths, row, inputs[i][cs[i]])
      modifies this`merged, dataHandler
      ensures Traced()
      ensures ok == (dataHandler.failingWrite != Some(|old(dataHandler.written)|))
      ensures merged == if ok then old(merged) + [row] else old(merged)
      ensures ok ==> Progress() && |Rest(inputs, cursors)| < |Rest(inputs, cs)|
      ensures !ok ==> Kept()
      ensures dataHandler.initialised == old(dataHandler.initialised)
      ensures dataHandler.finished == old(dataHandler.finished)
      ensures dataHandler.closeCalls == old(dataHandler.closeCalls)
    {
      ghost var before := merged;
      ok := AddRow(row);
      if ok {
        Stepped(before, row, j, cs);
      }
    }

    /** Appending the row read from segment j keeps the sink and the merge
        record in step. */
    lemma Stepped(before: seq<Row>, row: Row, j: nat, cs: seq<nat>)
      requires CursorsFit(inputs, cs) && j < |inputs| && cs[j] < |inputs[j]| && inputs[j][cs[j]] == Decoded(row)
      requires cursors == cs[j := cs[j] + 1] && merged == before + [row]
      requires multiset(Wrap(before)) + Rest(inputs, cs) == All(inputs)
      requires dataHandler.written == baseWritten + Converted(tupleConvertor, before) + [tupleConvertor(row)]
      requires dataHandler.failingWrite.Some? ==>
        dataHandler.failingWrite.value < |baseWritten| || dataHandler.failingWrite.value > |baseWritten| + |before|
      requires GoodInputs(widths, inputs) ==>
        && SortedRows(widths, before) && LastBound(widths, inputs, cs, before)
        && forall i :: 0 <= i < |inputs| && i != j && cs[i] < |inputs[i]| ==>
             EntryAbove(widths, row, inputs[i][cs[i]])
      ensures Traced() && Progress() && |Rest(inputs, cursors)| < |Rest(inputs, cs)|
    {
      ConvertedAppend(tupleConvertor, before, row);
      MergedStep(widths, inputs, cs, before, j);
    }

    /** After a step of the first loop the queue again holds exactly the
        pending iterators: the polled one is back exactly when it still has
        a row. */
    lemma Requeued(items: seq<RawResultIterator>, pos: nat, j: nat, cs: seq<nat>)
      requires Tracked()
      requires CursorsFit(inputs, cs) && j < |inputs| && cs[j] < |inputs[j]| && cursors == cs[j := cs[j] + 1]
      requires pos < |items| && items[pos] == rawResultIteratorList[j] && Distinct(items)
      requires forall a :: 0 <= a < |items| ==> items[a] in rawResultIteratorList
      requires forall i :: 0 <= i < |rawResultIteratorList| ==>
        (rawResultIteratorList[i] in items <==> PendingAt(inputs, cs, i))
      requires recordHolderHeap.Valid()
      requires recordHolderHeap.items == items[..pos] + items[pos + 1..] +
        (if cursors[j] < |inputs[j]| then [rawResultIteratorList[j]] else [])
      ensures Queued()
    {
      RemoveAt(items, pos);
      var rest := items[..pos] + items[pos + 1..];
      var now := recordHolderHeap.items;
      assert forall y :: y in now <==> y in rest || (cursors[j] < |inputs[j]| && y == rawResultIteratorList[j]);
      forall a | 0 <= a < |now|
        ensures now[a] in rawResultIteratorList
      {
        if a < |rest| {
          assert now[a] in rest;
        }
      }
      forall a, b | 0 <= a < b < |now|
        ensures now[a] != now[b]
      {
        if b == |rest| {
          assert now[a] in rest;
        } else {
          assert now[a] == rest[a] && now[b] == rest[b];
        }
      }
    }

    /** recordHolderHeap.poll() in the first loop: with more than one
        iterator queued, it takes out one whose current row sorts first
        among all pending rows when the inputs are good. */
    method PollMinimum() returns (polled: RawResultIterator?, ghost pos: nat, ghost j: nat, crashed: bool)
      requires Tracked() && Queued() && |recordHolderHeap.items| > 0
      modifies recordHolderHeap
      ensures recordHolderHeap.Valid()
      ensures GoodInputs(widths, inputs) ==> !crashed
      ensures KeysGenerable(inputs) ==> !crashed
      ensures !crashed ==>
        && pos < |old(recordHolderHeap.items)| && polled == old(recordHolderHeap.items)[pos]
        && recordHolderHeap.items == old(recordHolderHeap.items)[..pos] + old(recordHolderHeap.items)[pos + 1..]
        && j < |rawResultIteratorList| && rawResultIteratorList[j] == polled
        && PendingAt(inputs, cursors, j)
      ensures !crashed && GoodInputs(widths, inputs) ==>
        && cursors[j] < |inputs[j]|
        && forall i :: 0 <= i < |inputs| && i != j && cursors[i] < |inputs[i]| ==>
             EntryAbove(widths, inputs[j][cursors[j]].row, inputs[i][cursors[i]])
    {
      ghost var items := recordHolderHeap.items;
      GoodConvertible(widths, inputs);
      if KeysGenerable(inputs) {
        HeadsGenerable();
      }
      if GoodInputs(widths, inputs) {
        HeadsFetched();
      }
      pos, j := 0, 0;
      polled, pos, crashed := recordHolderHeap.Poll();
      if crashed {
        return;
      }
      j :| 0 <= j < |rawResultIteratorList| && rawResultIteratorList[j] == polled;
      if GoodInputs(widths, inputs) {
        MinimalHead(items, polled, j);
      }
    }

    /** One round of the first loop of mergerSlice: poll the iterator whose
        current key is smallest, write its row, and queue it again if it has
        another row, else count it out. */
    method LeadingStep(index: nat) returns (next: nat, failure: Option<Failure>, ghost j: nat, ghost cs: seq<nat>)
      requires Tracked() && Queued() && Traced() && Progress()
      requires index == |recordHolderHeap.items| > 1
      modifies this`merged, this`cursors, recordHolderHeap, dataHandler, Streams()
      ensures Traced() && cs == old(cursors)
      ensures failure.None? ==> Took(j, cs, old(merged))
      ensures failure.None? && GoodInputs(widths, inputs) ==> HeadMinimal(widths, inputs, cs, j)
      ensures failure == Some(UncheckedFailure) ==> !KeysGenerable(inputs)
      ensures failure == Some(SliceMergerFailure) ==> WriteRefused() || !Convertible(inputs)
      ensures failure.Some? ==> Kept()
      ensures dataHandler.initialised == old(dataHandler.initialised)
      ensures dataHandler.finished == old(dataHandler.finished)
      ensures dataHandler.closeCalls == old(dataHandler.closeCalls)
      ensures failure.None? ==> Tracked() && Queued() && Progress()
      ensures failure.None? ==> next == |recordHolderHeap.items| >= 1
      ensures failure.None? ==> |Rest(inputs, cursors)| < old(|Rest(inputs, cursors)|)
      ensures GoodInputs(widths, inputs) && dataHandler.failingWrite.None? ==> failure.None?
    {
      ghost var items := recordHolderHeap.items;
      cs := cursors;
      assert Distinct(items) && forall a :: 0 <= a < |items| ==> items[a] in rawResultIteratorList;
      assert forall i :: 0 <= i < |rawResultIteratorList| ==>
        (rawResultIteratorList[i] in items <==> PendingAt(inputs, cs, i));
      var polled;
      ghost var pos;
      polled, failure, pos, j := TakeMinimum();
      if failure.Some? {
        next := index;
        return;
      }
      next := PutBack(polled, index, items, pos, j, cs, old(merged));
    }

    /** The last read took the current row of segment j, at cursor cs[j],
        and merged it after the rows m. */
    ghost predicate Took(j: nat, cs: seq<nat>, m: seq<Row>)
      reads this
    {
      && CursorsFit(inputs, cs) && j < |inputs| && cs[j] < |inputs[j]| && cursors == cs[j := cs[j] + 1]
      && inputs[j][cs[j]].Decoded? && merged == m + [inputs[j][cs[j]].row]
    }

    /** The start of a round of the first loop: poll the iterator whose
        current key is smallest and write its next row. */
    method TakeMinimum() returns (polled: RawResultIterator?, failure: Option<Failure>, ghost pos: nat, ghost j: nat)
      requires Tracked() && Queued() && Traced() && Progress() && |recordHolderHeap.items| > 0
      modifies this`merged, this`cursors, recordHolderHeap, dataHandler, Streams()
      ensures Traced()
      ensures dataHandler.initialised == old(dataHandler.initialised)
      ensures dataHandler.finished == old(dataHandler.finished)
      ensures dataHandler.closeCalls == old(dataHandler.closeCalls)
      ensures failure.None? ==>
        && Tracked() && Progress() && recordHolderHeap.Valid()
        && Took(j, old(cursors), old(merged))
        && |Rest(inputs, cursors)| < old(|Rest(inputs, cursors)|)
        && pos < |old(recordHolderHeap.items)| && old(recordHolderHeap.items)[pos] == polled
        && rawResultIteratorList[j] == polled
        && recordHolderHeap.items == old(recordHolderHeap.items)[..pos] + old(recordHolderHeap.items)[pos + 1..]
      ensures failure.None? && GoodInputs(widths, inputs) ==> HeadMinimal(widths, inputs, old(cursors), j)
      ensures failure == Some(UncheckedFailure) ==> !KeysGenerable(inputs)
      ensures failure == Some(SliceMergerFailure) ==> WriteRefused() || !Convertible(inputs)
      ensures failure.Some? ==> Kept()
      ensures GoodInputs(widths, inputs) && dataHandler.failingWrite.None? ==> failure.None?
    {
      ghost var cs := cursors;
      var crashed;
      polled, pos, j, crashed := PollMinimum();
      if crashed {
        failure := Some(UncheckedFailure);
        return;
      }
      ghost var minimal := GoodInputs(widths, inputs) ==> HeadMinimal(widths, inputs, cs, j);
      if GoodInputs(widths, inputs) {
        assert GoodStream(widths, inputs[j]);
      }
      assert minimal;
      failure := Transfer(polled, j, cs);
    }

    /** The end of a round of the first loop: an iterator with another row
        goes back into the queue, one without is counted out. */
    method PutBack(polled: RawResultIterator, index: nat, ghost items: seq<RawResultIterator>,
                   ghost pos: nat, ghost j: nat, ghost cs: seq<nat>, ghost m: seq<Row>) returns (next: nat)
      requires Tracked() && Took(j, cs, m)
      requires pos < |items| && items[pos] == rawResultIteratorList[j] && rawResultIteratorList[j] == polled
      requires Distinct(items) && forall a :: 0 <= a < |items| ==> items[a] in rawResultIteratorList
      requires forall i :: 0 <= i < |rawResultIteratorList| ==>
        (rawResultIteratorList[i] in items <==> PendingAt(inputs, cs, i))
      requires recordHolderHeap.Valid() && recordHolderHeap.items == items[..pos] + items[pos + 1..]
      requires index == |items| > 1
      modifies recordHolderHeap
      ensures Tracked() && Queued() && next == |recordHolderHeap.items| >= 1
      ensures Traced() == old(Traced()) && Progress() == old(Progress())
    {
      ghost var rest := recordHolderHeap.items;
      next := index;
      if !polled.HasNext() {
        next := index - 1;
      } else {
        recordHolderHeap.Add(polled);
      }
      assert recordHolderHeap.items == rest + (if cursors[j] < |inputs[j]| then [rawResultIteratorList[j]] else []);
      Requeued(items, pos, j, cs);
    }

    /** The first loop of mergerSlice: runs while more than one iterator is
        active, and leaves at most one in the queue. */
    method MergeLeading(start: nat) returns (index: nat, failure: Option<Failure>)
      requires Tracked() && Queued() && Traced() && Progress()
      requires start == |recordHolderHeap.items| && (rawResultIteratorList != [] ==> start >= 1)
      modifies this`merged, this`cursors, recordHolderHeap, dataHandler, Streams()
      ensures Traced()
      ensures dataHandler.initialised == old(dataHandler.initialised)
      ensures dataHandler.finished == old(dataHandler.finished)
      ensures dataHandler.closeCalls == old(dataHandler.closeCalls)
      ensures failure.None? ==> Tracked() && Queued() && Progress()
      ensures failure.None? ==> index == |recordHolderHeap.items| <= 1 && (rawResultIteratorList != [] ==> index == 1)
      ensures GoodInputs(widths, inputs) && dataHandler.failingWrite.None? ==> failure.None?
      ensures start <= 1 ==> failure.None? && index == start && merged == old(merged) && cursors == old(cursors)
      ensures failure == Some(UncheckedFailure) ==> !KeysGenerable(inputs)
      ensures failure == Some(SliceMergerFailure) ==> WriteRefused() || !Convertible(inputs)
      ensures failure.Some? ==> Kept()
    {
      index := start;
      failure := None;
      while index > 1
        invariant Tracked() && Queued() && Traced() && Progress()
        invariant start <= 1 ==> cursors == old(cursors)
        invariant index == |recordHolderHeap.items| && (rawResultIteratorList != [] ==> index >= 1)
        invariant dataHandler.initialised == old(dataHandler.initialised)
        invariant dataHandler.finished == old(dataHandler.finished)
        invariant dataHandler.closeCalls == old(dataHandler.closeCalls)
        invariant start <= 1 ==> index == start && merged == old(merged)
        invariant failure.None?
        decreases |Rest(inputs, cursors)|
      {
        ghost var j, cs;
        index, failure, j, cs := LeadingStep(index);
        if failure.Some? {
          return;
        }
      }
    }
  
    /** recordHolderHeap.poll() after the first loop: null when no iterator
        was ever queued, else the one iterator still pending, every other
        segment being read to its end. */
    method PollLast() returns (polled: RawResultIterator?, ghost j: nat)
      requires Tracked() && Queued() && |recordHolderHeap.items| <= 1
      requires rawResultIteratorList != [] ==> |recordHolderHeap.items| == 1
      modifies recordHolderHeap
      ensures Tracked() && Traced() == old(Traced()) && Progress() == old(Progress())
      ensures polled == null <==> rawResultIteratorList == []
      ensures polled != null ==>
        && j < |rawResultIteratorList| && rawResultIteratorList[j] == polled
        && LastPending(j)
    {
      ghost var items := recordHolderHeap.items;
      j := 0;
      assert forall a :: 0 <= a < |items| ==> items[a] in rawResultIteratorList;
      ghost var pos;
      var crashed;
      polled, pos, crashed := recordHolderHeap.Poll();
      if polled != null {
        j :| 0 <= j < |rawResultIteratorList| && rawResultIteratorList[j] == polled;
        forall i | 0 <= i < |inputs| && i != j
          ensures cursors[i] >= |inputs[i]| && inputs[i] != []
        {
          assert rawResultIteratorList[i] !in items;
        }
        if GoodInputs(widths, inputs) {
          assert GoodStream(widths, inputs[j]);
        }
      }
    }

    /** Only segment j may still hold unread rows, and it is still to be
        polled; with good inputs it has a row left. */
    ghost predicate LastPending(j: nat)
      reads this
      requires CursorsFit(inputs, cursors) && j < |inputs|
    {
      && PendingAt(inputs, cursors, j)
      && (forall i :: 0 <= i < |inputs| && i != j ==> cursors[i] >= |inputs[i]| && inputs[i] != [])
      && (GoodInputs(widths, inputs) ==> cursors[j] < |inputs[j]|)
    }

    /** The rows merged since m0 are those of segment j from position c0 up
        to its cursor, in order. */
    ghost predicate DrainedFrom(j: nat, m0: seq<Row>, c0: nat)
      reads this
      requires CursorsFit(inputs, cursors) && j < |inputs|
    {
      c0 <= cursors[j] && Wrap(merged) == Wrap(m0) + inputs[j][c0..cursors[j]]
    }

    /** One round of the second loop: write the last iterator's next row
        and ask whether it has another. */
    method DrainStep(polled: RawResultIterator, ghost j: nat, ghost m0: seq<Row>, ghost c0: nat)
      returns (failure: Option<Failure>, more: bool)
      requires Tracked() && Traced() && Progress()
      requires j < |rawResultIteratorList| && rawResultIteratorList[j] == polled
      requires LastPending(j) && DrainedFrom(j, m0, c0)
      modifies this`merged, this`cursors, polled, dataHandler
      ensures Tracked() && Traced()
      ensures dataHandler.initialised == old(dataHandler.initialised)
      ensures dataHandler.finished == old(dataHandler.finished)
      ensures dataHandler.closeCalls == old(dataHandler.closeCalls)
      ensures failure.None? ==> Progress() && |Rest(inputs, cursors)| < old(|Rest(inputs, cursors)|)
      ensures failure.None? && more ==> LastPending(j)
      ensures failure.None? && !more ==> forall i :: 0 <= i < |inputs| ==> cursors[i] >= |inputs[i]| && inputs[i] != []
      ensures failure.None? ==> Took(j, old(cursors), old(merged))
      ensures failure.None? ==> DrainedFrom(j, m0, c0)
      ensures failure.Some? ==> failure == Some(SliceMergerFailure) && merged == old(merged)
      ensures failure.Some? ==> WriteRefused() || !Convertible(inputs)
      ensures failure.Some? ==> Kept()
      ensures GoodInputs(widths, inputs) && dataHandler.failingWrite.None? ==> failure.None?
    {
      ghost var cs, before := cursors, merged;
      failure := Transfer(polled, j, cs);
      more := false;
      if failure.None? {
        ReadInOrder(m0, before, inputs[j], c0, cs[j]);
        more := polled.HasNext();
        assert forall i :: 0 <= i < |inputs| && i != j ==> cursors[i] == cs[i];
      }
    }

    /** The second loop of mergerSlice: writes the rows of the last
        iterator until it has none left. Every stored row is then merged.
        With no iterator at all the null poll result is dereferenced. */
    method DrainLast() returns (failure: Option<Failure>)
      requires Tracked() && Queued() && Traced() && Progress() && |recordHolderHeap.items| <= 1
      requires rawResultIteratorList != [] ==> |recordHolderHeap.items| == 1
      modifies this`merged, this`cursors, recordHolderHeap, dataHandler, Streams()
      ensures Traced()
      ensures dataHandler.initialised == old(dataHandler.initialised)
      ensures dataHandler.finished == old(dataHandler.finished)
      ensures dataHandler.closeCalls == old(dataHandler.closeCalls)
      ensures failure.None? ==> multiset(Wrap(merged)) == All(inputs)
      ensures failure.None? ==> forall i :: 0 <= i < |inputs| ==> inputs[i] != []
      ensures failure == Some(UncheckedFailure) <==> rawResultIteratorList == []
      ensures failure == Some(SliceMergerFailure) ==> WriteRefused() || !Convertible(inputs)
      ensures Kept()
      ensures failure.None? && |inputs| == 1 ==> Wrap(merged) == Wrap(old(merged)) + inputs[0][old(cursors[0])..]
      ensures rawResultIteratorList == [] ==> merged == old(merged)
      ensures GoodInputs(widths, inputs) && dataHandler.failingWrite.None? && rawResultIteratorList != [] ==>
        failure.None?
    {
      var polled, j := PollLast();
      if polled == null {
        return Some(UncheckedFailure);
      }
      failure := DrainFrom(polled, j);
    }

    /** The loop of the second phase, from the last pending iterator on. */
    method DrainFrom(polled: RawResultIterator, ghost j: nat) returns (failure: Option<Failure>)
      requires Tracked() && Traced() && Progress()
      requires j < |rawResultIteratorList| && rawResultIteratorList[j] == polled
      requires LastPending(j)
      modifies this`merged, this`cursors, dataHandler, Streams()
      ensures Traced()
      ensures dataHandler.initialised == old(dataHandler.initialised)
      ensures dataHandler.finished == old(dataHandler.finished)
      ensures dataHandler.closeCalls == old(dataHandler.closeCalls)
      ensures failure.None? ==> multiset(Wrap(merged)) == All(inputs)
      ensures failure.None? ==> forall i :: 0 <= i < |inputs| ==> inputs[i] != []
      ensures failure.None? ==> Wrap(merged) == Wrap(old(merged)) + inputs[j][old(cursors[j])..]
      ensures failure.Some? ==> failure == Some(SliceMergerFailure)
      ensures failure.Some? ==> WriteRefused() || !Convertible(inputs)
      ensures Kept()
      ensures GoodInputs(widths, inputs) && dataHandler.failingWrite.None? ==> failure.None?
    {
      failure := None;
      ghost var m0, c0 := merged, cursors[j];
      while true
        invariant Tracked() && Traced() && Progress() && LastPending(j)
        invariant DrainedFrom(j, m0, c0)
        invariant dataHandler.initialised == old(dataHandler.initialised)
        invariant dataHandler.finished == old(dataHandler.finished)
        invariant dataHandler.closeCalls == old(dataHandler.closeCalls)
        decreases |Rest(inputs, cursors)|
      {
        var more;
        failure, more := DrainStep(polled, j, m0, c0);
        if failure.Some? {
          return;
        }
        if !more {
          break;
        }
      }
      Drained(j, m0, c0);
    }

    /** Once every segment is read to its end, every stored row is merged,
        and the drain has added the rest of segment j in order. */
    lemma Drained(j: nat, m0: seq<Row>, c0: nat)
      requires CursorsFit(inputs, cursors) && j < |inputs| && DrainedFrom(j, m0, c0)
      requires multiset(Wrap(merged)) + Rest(inputs, cursors) == All(inputs)
      requires forall i :: 0 <= i < |inputs| ==> cursors[i] >= |inputs[i]|
      ensures multiset(Wrap(merged)) == All(inputs)
      ensures Wrap(merged) == Wrap(m0) + inputs[j][c0..]
    {
      RestDone(inputs, cursors);
      assert inputs[j][c0..cursors[j]] == inputs[j][c0..];
    }

    /** The state right after every iterator is queued: nothing read,
        nothing merged, the sink as before. */
    lemma Started()
      requires Wired() && recordHolderHeap.Valid() && recordHolderHeap.items == rawResultIteratorList
      requires forall i :: 0 <= i < |rawResultIteratorList| ==> rawResultIteratorList[i].cursor == 0
      requires cursors == Zeros(|rawResultIteratorList|) && merged == [] && dataHandler.written == baseWritten
      ensures Tracked() && Queued() && Traced() && Progress()
    {
      RestFromStart(inputs);
      assert Wrap(merged) == [] && Converted(tupleConvertor, merged) == [];
    }

    /** The try block of mergerSlice. */
    method MergeBody() returns (attempt: Attempt)
      requires Ready() && cursors == Zeros(|rawResultIteratorList|) && merged == []
      requires dataHandler.written == baseWritten
      modifies this`merged, this`cursors, recordHolderHeap, dataHandler, Streams()
      ensures Traced()
      ensures dataHandler.closeCalls == old(dataHandler.closeCalls)
      ensures attempt == Completed ==> multiset(Wrap(merged)) == All(inputs) && dataHandler.finished
      ensures attempt == Completed ==> forall i :: 0 <= i < |inputs| ==> inputs[i] != []
      ensures attempt == Completed ==> Convertible(inputs) && |merged| == TotalRows(inputs)
      ensures attempt == Completed ==> !dataHandler.failsOnInitialise && !dataHandler.failsOnFinish
      ensures attempt == Completed && |inputs| == 1 ==> Wrap(merged) == inputs[0]
      ensures attempt == WriterFailed ==>
        || dataHandler.failsOnInitialise
        || (dataHandler.failsOnFinish && Convertible(inputs) && |merged| == TotalRows(inputs))
      ensures attempt == WriterFailed && !dataHandler.failsOnInitialise ==> multiset(Wrap(merged)) == All(inputs)
      ensures rawResultIteratorList == [] ==> merged == []
      ensures attempt == Raised(UncheckedFailure) ==> rawResultIteratorList == [] || !KeysGenerable(inputs)
      ensures attempt == Raised(SliceMergerFailure) ==> WriteRefused() || !Convertible(inputs)
      ensures Kept()
      ensures dataHandler.failsOnInitialise ==> attempt == WriterFailed && merged == []
      ensures !dataHandler.failsOnInitialise && rawResultIteratorList == [] ==> attempt == Raised(UncheckedFailure)
      ensures (&& GoodInputs(widths, inputs) && rawResultIteratorList != [] && !dataHandler.failsOnInitialise
               && dataHandler.failingWrite.None? && !dataHandler.failsOnFinish) ==> attempt == Completed
    {
      var ok := dataHandler.Initialise();
      if !ok {
        assert Converted(tupleConvertor, merged) == [];
        RestFromStart(inputs);
        return WriterFailed;
      }
      var failure := MergeRows();
      if failure.Some? {
        return Raised(failure.value);
      }
      ok := dataHandler.Finish();
      if !ok {
        return WriterFailed;
      }
      return Completed;
    }

    /** The part of the try block between initialise and finish: queue the
        iterators, run the first loop, then drain the last iterator. */
    method MergeRows() returns (failure: Option<Failure>)
      requires Ready() && cursors == Zeros(|rawResultIteratorList|) && merged == []
      requires dataHandler.written == baseWritten
      modifies this`merged, this`cursors, recordHolderHeap, dataHandler, Streams()
      ensures Traced()
      ensures dataHandler.initialised == old(dataHandler.initialised)
      ensures dataHandler.finished == old(dataHandler.finished)
      ensures dataHandler.closeCalls == old(dataHandler.closeCalls)
      ensures failure.None? ==> multiset(Wrap(merged)) == All(inputs)
      ensures failure.None? ==> Convertible(inputs) && |merged| == TotalRows(inputs)
      ensures failure.None? && |inputs| == 1 ==> Wrap(merged) == inputs[0]
      ensures failure == Some(UncheckedFailure) ==> rawResultIteratorList == [] || !KeysGenerable(inputs)
      ensures failure == Some(SliceMergerFailure) ==> WriteRefused() || !Convertible(inputs)
      ensures Kept()
      ensures rawResultIteratorList == [] ==> failure == Some(UncheckedFailure) && merged == []
      ensures GoodInputs(widths, inputs) && rawResultIteratorList != [] && dataHandler.failingWrite.None? ==>
        failure.None?
    {
      var index := LoadHeap();
      Started();
      index, failure := MergeLeading(index);
      if failure.Some? {
        return;
      }
      failure := DrainLast();
      if failure.Some? {
        return;
      }
      MergedAll(inputs, merged);
    }

    /** mergerSlice: merges every segment's rows into the sink in key order
        and reports whether the merge completed. The sink is closed in any
        case; a close failure makes the result false. */
    method MergerSlice() returns (outcome: MergeOutcome)
      requires Ready()
      modifies this`merged, this`cursors, this`baseWritten, recordHolderHeap, dataHandler, Streams()
      ensures dataHandler.closeCalls == old(dataHandler.closeCalls) + 1
      ensures dataHandler.written == old(dataHandler.written) + Converted(tupleConvertor, merged)
      ensures GoodInputs(widths, inputs) ==> SortedRows(widths, merged)
      ensures multiset(Wrap(merged)) <= All(inputs)
      ensures outcome == Returned(true) ==>
        && multiset(Wrap(merged)) == All(inputs) && |merged| == TotalRows(inputs)
        && Convertible(inputs) && dataHandler.finished
      ensures outcome == Returned(true) ==>
        && !dataHandler.failsOnInitialise && !dataHandler.failsOnFinish && !dataHandler.failsOnClose
        && (dataHandler.failingWrite.Some? ==>
              || dataHandler.failingWrite.value < |old(dataHandler.written)|
              || dataHandler.failingWrite.value >= |old(dataHandler.written)| + TotalRows(inputs))
      ensures |inputs| == 1 && outcome == Returned(true) ==> Wrap(merged) == inputs[0]
      ensures outcome == Returned(false) ==>
        dataHandler.failsOnInitialise || dataHandler.failsOnFinish || dataHandler.failsOnClose
      ensures (&& outcome == Returned(false) && !dataHandler.failsOnInitialise
               && Convertible(inputs) && dataHandler.failingWrite.None?) ==>
        multiset(Wrap(merged)) == All(inputs) && |merged| == TotalRows(inputs)
      ensures outcome == Thrown(UncheckedFailure) ==> rawResultIteratorList == [] || !KeysGenerable(inputs)
      ensures outcome == Thrown(SliceMergerFailure) ==>
        dataHandler.failingWrite == Some(|dataHandler.written|) || !Convertible(inputs)
      ensures dataHandler.failsOnClose ==> outcome == Returned(false)
      ensures dataHandler.failsOnInitialise ==> outcome == Returned(false) && merged == []
      ensures rawResultIteratorList == [] && !dataHandler.failsOnInitialise && !dataHandler.failsOnClose ==>
        outcome == Thrown(UncheckedFailure)
      ensures (&& rawResultIteratorList != [] && Convertible(inputs)
               && !dataHandler.failsOnInitialise && !dataHandler.failsOnClose
               && dataHandler.failingWrite.None? && dataHandler.failsOnFinish) ==>
        outcome == Returned(false)
      ensures (&& rawResultIteratorList != [] && Convertible(inputs)
               && !dataHandler.failsOnInitialise && !dataHandler.failsOnClose
               && dataHandler.failingWrite.Some?
               && |old(dataHandler.written)| <= dataHandler.failingWrite.value
               && dataHandler.failingWrite.value < |old(dataHandler.written)| + TotalRows(inputs)) ==>
        && outcome == Thrown(SliceMergerFailure)
        && |old(dataHandler.written)| + |merged| == dataHandler.failingWrite.value
      ensures (&& rawResultIteratorList != [] && KeysGenerable(inputs) && !Convertible(inputs)
               && !dataHandler.failsOnInitialise && !dataHandler.failsOnClose) ==>
        outcome == Thrown(SliceMergerFailure)
      ensures GoodInputs(widths, inputs) && dataHandler.Healthy() && rawResultIteratorList != [] ==>
        outcome == Returned(true)
    {
      merged, cursors, baseWritten := [], Zeros(|rawResultIteratorList|), dataHandler.written;
      var attempt := MergeBody();
      var closed := dataHandler.CloseHandler();
      outcome := Conclude(attempt, closed);
      GoodConvertible(widths, inputs);
      assert |dataHandler.written| == |baseWritten| + |merged|;
      match attempt {
        case Completed =>
        case WriterFailed =>
        case Raised(f) =>
          assert f == SliceMergerFailure || f == UncheckedFailure;
      }
    }
  }
}
