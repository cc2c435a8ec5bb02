/** Value-level specification of the merge: which stored rows are still to
    be read, what the merged output must hold, and the ordering step that
    keeps it sorted. */
module MergeSpec {
  import opened MdKey
  import opened Streams
  import opened Sink

  /** The rows of one segment from position c on. */
  function Tail(s: seq<Entry>, c: nat): seq<Entry>
  {
    if c <= |s| then s[c..] else []
  }

  /** Every stored row not yet read, over the segments from i on. */
  ghost function RestFrom(inputs: seq<seq<Entry>>, cursors: seq<nat>, i: nat): multiset<Entry>
    decreases |inputs| - i
  {
    if i < |inputs| && i < |cursors| then multiset(Tail(inputs[i], cursors[i])) + RestFrom(inputs, cursors, i + 1)
    else multiset{}
  }

  /** Every stored row not yet read, over all segments. */
  ghost function Rest(inputs: seq<seq<Entry>>, cursors: seq<nat>): multiset<Entry>
  {
    RestFrom(inputs, cursors, 0)
  }

  /** Every stored row of the segments from i on. */
  ghost function AllFrom(inputs: seq<seq<Entry>>, i: nat): multiset<Entry>
    decreases |inputs| - i
  {
    if i < |inputs| then multiset(inputs[i]) + AllFrom(inputs, i + 1) else multiset{}
  }

  /** Every stored row of every segment. */
  ghost function All(inputs: seq<seq<Entry>>): multiset<Entry>
  {
    AllFrom(inputs, 0)
  }

  function RowsFrom(inputs: seq<seq<Entry>>, i: nat): nat
    decreases |inputs| - i
  {
    if i < |inputs| then |inputs[i]| + RowsFrom(inputs, i + 1) else 0
  }

  /** The number of stored rows over all segments. */
  function TotalRows(inputs: seq<seq<Entry>>): nat
  {
    RowsFrom(inputs, 0)
  }

  function Zeros(n: nat): (z: seq<nat>)
    ensures |z| == n && forall i :: 0 <= i < n ==> z[i] == 0
  {
    seq(n, _ => 0)
  }

  /** Merged rows seen as stored rows. */
  function Wrap(rows: seq<Row>): (es: seq<Entry>)
    ensures |es| == |rows| && forall a :: 0 <= a < |rows| ==> es[a] == Decoded(rows[a])
  {
    seq(|rows|, a requires 0 <= a < |rows| => Decoded(rows[a]))
  }

  /** Rows passed through the tuple conversion adapter. */
  function Converted(convert: Row -> Tuple, rows: seq<Row>): (ts: seq<Tuple>)
    ensures |ts| == |rows| && forall a :: 0 <= a < |rows| ==> ts[a] == convert(rows[a])
  {
    seq(|rows|, a requires 0 <= a < |rows| => convert(rows[a]))
  }

  lemma ConvertedAppend(convert: Row -> Tuple, rows: seq<Row>, r: Row)
    ensures Converted(convert, rows + [r]) == Converted(convert, rows) + [convert(r)]
  {
    assert Converted(convert, rows + [r])[|rows|] == convert(r);
  }

  ghost predicate CursorsFit(inputs: seq<seq<Entry>>, cursors: seq<nat>)
  {
    |cursors| == |inputs| && forall i :: 0 <= i < |inputs| ==> cursors[i] <= |inputs[i]|
  }

  /** A segment still to be polled: it has an unread row, or it never had
      any (it is queued, and the merge fails when it is polled). */
  ghost predicate PendingAt(inputs: seq<seq<Entry>>, cursors: seq<nat>, i: nat)
    requires CursorsFit(inputs, cursors) && i < |inputs|
  {
    cursors[i] < |inputs[i]| || inputs[i] == []
  }

  lemma {:induction false} RestFromStartAt(inputs: seq<seq<Entry>>, i: nat)
    ensures RestFrom(inputs, Zeros(|inputs|), i) == AllFrom(inputs, i)
    decreases |inputs| - i
  {
    if i < |inputs| {
      assert Tail(inputs[i], 0) == inputs[i];
      RestFromStartAt(inputs, i + 1);
    }
  }

  /** Before anything is read, every stored row is unread. */
  lemma RestFromStart(inputs: seq<seq<Entry>>)
    ensures Rest(inputs, Zeros(|inputs|)) == All(inputs)
  {
    RestFromStartAt(inputs, 0);
  }

  /** Cursors that agree from segment i on leave the same rows unread there. */
  lemma {:induction false} RestAgree(inputs: seq<seq<Entry>>, c: seq<nat>, d: seq<nat>, i: nat)
    requires |c| == |d| && forall k :: i <= k < |c| ==> c[k] == d[k]
    ensures RestFrom(inputs, c, i) == RestFrom(inputs, d, i)
    decreases |inputs| - i
  {
    if i < |inputs| && i < |c| {
      RestAgree(inputs, c, d, i + 1);
    }
  }

  /** Reading row k of a segment moves exactly that row out of its tail. */
  lemma TailStep(s: seq<Entry>, k: nat)
    requires k < |s|
    ensures multiset(Tail(s, k + 1)) + multiset{s[k]} == multiset(Tail(s, k))
  {
    assert s[k..] == [s[k]] + s[k + 1..];
  }

  lemma ShiftUnion<T>(a: multiset<T>, r: multiset<T>, r': multiset<T>, e: multiset<T>)
    requires r + e == r'
    ensures (a + r) + e == a + r'
  {
  }

  lemma SwapUnion<T>(a: multiset<T>, a': multiset<T>, r: multiset<T>, e: multiset<T>)
    requires a + e == a'
    ensures (a + r) + e == a' + r
  {
  }

  lemma RestFromCons(inputs: seq<seq<Entry>>, cursors: seq<nat>, i: nat)
    requires i < |inputs| && i < |cursors|
    ensures RestFrom(inputs, cursors, i) == multiset(Tail(inputs[i], cursors[i])) + RestFrom(inputs, cursors, i + 1)
  {
  }

  lemma {:induction false} RestStepAt(inputs: seq<seq<Entry>>, cursors: seq<nat>, j: nat, i: nat)
    requires |cursors| == |inputs| && i <= j < |inputs| && cursors[j] < |inputs[j]|
    ensures RestFrom(inputs, cursors[j := cursors[j] + 1], i) + multiset{inputs[j][cursors[j]]} == RestFrom(inputs, cursors, i)
    decreases j - i
  {
    if i == j {
      RestStepHere(inputs, cursors, j);
    } else {
      var c := cursors[j := cursors[j] + 1];
      RestFromCons(inputs, c, i);
      RestFromCons(inputs, cursors, i);
      assert c[i] == cursors[i];
      RestStepAt(inputs, cursors, j, i + 1);
      ShiftUnion(multiset(Tail(inputs[i], cursors[i])), RestFrom(inputs, c, i + 1), RestFrom(inputs, cursors, i + 1),
        multiset{inputs[j][cursors[j]]});
    }
  }

  lemma RestStepHere(inputs: seq<seq<Entry>>, cursors: seq<nat>, j: nat)
    requires |cursors| == |inputs| && j < |inputs| && cursors[j] < |inputs[j]|
    ensures RestFrom(inputs, cursors[j := cursors[j] + 1], j) + multiset{inputs[j][cursors[j]]} == RestFrom(inputs, cursors, j)
  {
    var c := cursors[j := cursors[j] + 1];
    RestFromCons(inputs, c, j);
    RestFromCons(inputs, cursors, j);
    RestAgree(inputs, c, cursors, j + 1);
    TailStep(inputs[j], cursors[j]);
    SwapUnion(multiset(Tail(inputs[j], c[j])), multiset(Tail(inputs[j], cursors[j])), RestFrom(inputs, cursors, j + 1),
      multiset{inputs[j][cursors[j]]});
  }

  /** Reading the current row of segment j moves exactly that row out of
      the unread rows. */
  lemma RestStep(inputs: seq<seq<Entry>>, cursors: seq<nat>, j: nat)
    requires |cursors| == |inputs| && j < |inputs| && cursors[j] < |inputs[j]|
    ensures Rest(inputs, cursors[j := cursors[j] + 1]) + multiset{inputs[j][cursors[j]]} == Rest(inputs, cursors)
  {
    RestStepAt(inputs, cursors, j, 0);
  }

  /** The merged rows and the unread rows together are some of the stored
      rows: what a failed step leaves, where the row it read is in neither. */
  ghost predicate Within(inputs: seq<seq<Entry>>, cursors: seq<nat>, rows: seq<Row>)
  {
    multiset(Wrap(rows)) + Rest(inputs, cursors) <= All(inputs)
  }

  /** A read from segment j, which moves its cursor unless it is at the end,
      never adds an unread row, so merged and unread rows stay within the
      stored rows. */
  lemma ReadBounded(inputs: seq<seq<Entry>>, cursors: seq<nat>, rows: seq<Row>, j: nat)
    requires |cursors| == |inputs| && j < |inputs|
    requires multiset(Wrap(rows)) + Rest(inputs, cursors) == All(inputs)
    ensures Within(inputs, cursors[j := if cursors[j] < |inputs[j]| then cursors[j] + 1 else cursors[j]], rows)
  {
    if cursors[j] < |inputs[j]| {
      RestStep(inputs, cursors, j);
    } else {
      assert cursors[j := cursors[j]] == cursors;
    }
  }

  /** Merging the current row of segment j keeps every stored row either
      merged or unread. */
  lemma ConserveStep(inputs: seq<seq<Entry>>, cursors: seq<nat>, rows: seq<Row>, j: nat)
    requires |cursors| == |inputs| && j < |inputs| && cursors[j] < |inputs[j]|
    requires inputs[j][cursors[j]].Decoded?
    requires multiset(Wrap(rows)) + Rest(inputs, cursors) == All(inputs)
    ensures multiset(Wrap(rows + [inputs[j][cursors[j]].row])) + Rest(inputs, cursors[j := cursors[j] + 1]) == All(inputs)
    ensures |Rest(inputs, cursors[j := cursors[j] + 1])| < |Rest(inputs, cursors)|
  {
    var e := inputs[j][cursors[j]];
    RestStep(inputs, cursors, j);
    assert Wrap(rows + [e.row]) == Wrap(rows) + [e];
  }

  lemma {:induction false} RestDoneAt(inputs: seq<seq<Entry>>, cursors: seq<nat>, i: nat)
    requires |cursors| == |inputs| && forall k :: 0 <= k < |inputs| ==> cursors[k] >= |inputs[k]|
    ensures RestFrom(inputs, cursors, i) == multiset{}
    decreases |inputs| - i
  {
    if i < |inputs| {
      assert Tail(inputs[i], cursors[i]) == [];
      RestDoneAt(inputs, cursors, i + 1);
    }
  }

  /** Once every segment is read to its end, no row is unread. */
  lemma RestDone(inputs: seq<seq<Entry>>, cursors: seq<nat>)
    requires |cursors| == |inputs| && forall i :: 0 <= i < |inputs| ==> cursors[i] >= |inputs[i]|
    ensures Rest(inputs, cursors) == multiset{}
  {
    RestDoneAt(inputs, cursors, 0);
  }

  lemma {:induction false} AllCountAt(inputs: seq<seq<Entry>>, i: nat)
    ensures |AllFrom(inputs, i)| == RowsFrom(inputs, i)
    decreases |inputs| - i
  {
    if i < |inputs| {
      AllCountAt(inputs, i + 1);
    }
  }

  /** The stored rows, counted with repetition, number TotalRows. */
  lemma AllCount(inputs: seq<seq<Entry>>)
    ensures |All(inputs)| == TotalRows(inputs)
  {
    AllCountAt(inputs, 0);
  }

  lemma {:induction false} InAllAt(inputs: seq<seq<Entry>>, s: nat, i: nat, k: nat)
    requires s <= i < |inputs| && k < |inputs[i]|
    ensures inputs[i][k] in AllFrom(inputs, s)
    decreases i - s
  {
    if s < i {
      InAllAt(inputs, s + 1, i, k);
    }
  }

  /** Every stored row is in All. */
  lemma InAll(inputs: seq<seq<Entry>>, i: nat, k: nat)
    requires i < |inputs| && k < |inputs[i]|
    ensures inputs[i][k] in All(inputs)
  {
    InAllAt(inputs, 0, i, k);
  }

  /** Output that holds every stored row contains only converted rows: no
      stored row failed to convert. */
  lemma ConservedAllDecoded(inputs: seq<seq<Entry>>, rows: seq<Row>)
    requires multiset(Wrap(rows)) == All(inputs)
    ensures forall i, k :: 0 <= i < |inputs| && 0 <= k < |inputs[i]| ==> inputs[i][k].Decoded?
  {
    forall i, k | 0 <= i < |inputs| && 0 <= k < |inputs[i]|
      ensures inputs[i][k].Decoded?
    {
      InAll(inputs, i, k);
      var e := inputs[i][k];
      assert e in Wrap(rows);
    }
  }

  // Ordering of rows under the composite-key comparator.

  predicate KeyLe(widths: seq<int>, r1: Row, r2: Row)
  {
    Conforms(widths, r1.key) && Conforms(widths, r2.key) && KeyCompare(widths, r1.key, r2.key) <= 0
  }

  /** Each row sorts no later than the next. */
  predicate SortedRows(widths: seq<int>, rows: seq<Row>)
  {
    forall a :: 0 <= a < |rows| - 1 ==> KeyLe(widths, rows[a], rows[a + 1])
  }

  /** Sorted output is nondecreasing between any two distinct positions. */
  lemma {:induction false} SortedPairwise(widths: seq<int>, rows: seq<Row>, a: nat, b: nat)
    requires SortedRows(widths, rows) && a < b < |rows|
    ensures KeyLe(widths, rows[a], rows[b])
  {
    if b > a + 1 {
      SortedPairwise(widths, rows, a, b - 1);
      KeyCompareTransitive(widths, rows[a].key, rows[b - 1].key, rows[b].key);
    }
  }

  /** A segment the merge handles completely: at least one row, every row
      converts with a key of the schema, and the rows are sorted. */
  predicate GoodStream(widths: seq<int>, e: seq<Entry>)
  {
    && |e| > 0
    && (forall a :: 0 <= a < |e| ==> e[a].Decoded? && Conforms(widths, e[a].row.key))
    && (forall a :: 0 <= a < |e| - 1 ==> KeyCompare(widths, e[a].row.key, e[a + 1].row.key) <= 0)
  }

  predicate GoodInputs(widths: seq<int>, inputs: seq<seq<Entry>>)
  {
    forall i :: 0 <= i < |inputs| ==> GoodStream(widths, inputs[i])
  }

  /** Every segment has rows and every stored row converts, so no read of
      the merge yields null. */
  predicate Convertible(inputs: seq<seq<Entry>>)
  {
    forall i :: 0 <= i < |inputs| ==>
      inputs[i] != [] && forall k :: 0 <= k < |inputs[i]| ==> inputs[i][k].Decoded?
  }

  /** No stored row is one whose key cannot be generated, so the comparator
      never fails. */
  predicate KeysGenerable(inputs: seq<seq<Entry>>)
  {
    forall i, k :: 0 <= i < |inputs| && 0 <= k < |inputs[i]| ==> !inputs[i][k].Undecodable?
  }

  /** Good segments are convertible, and convertible segments have keys. */
  lemma GoodConvertible(widths: seq<int>, inputs: seq<seq<Entry>>)
    ensures GoodInputs(widths, inputs) ==> Convertible(inputs)
    ensures Convertible(inputs) ==> KeysGenerable(inputs)
  {
    if GoodInputs(widths, inputs) {
      forall i | 0 <= i < |inputs|
        ensures inputs[i] != [] && forall k :: 0 <= k < |inputs[i]| ==> inputs[i][k].Decoded?
      {
        assert GoodStream(widths, inputs[i]);
      }
    }
  }

  /** A segment still to be polled whose current row does not convert shows
      that the inputs are not convertible. */
  lemma UnreadableHead(inputs: seq<seq<Entry>>, cursors: seq<nat>, j: nat)
    requires CursorsFit(inputs, cursors) && j < |inputs| && PendingAt(inputs, cursors, j)
    requires !(cursors[j] < |inputs[j]| && inputs[j][cursors[j]].Decoded?)
    ensures !Convertible(inputs)
  {
    if inputs[j] != [] {
      assert !inputs[j][cursors[j]].Decoded?;
    }
  }

  /** Merging the next row of a segment read in order from position lo
      extends the merged rows by that row. */
  lemma ReadInOrder(m0: seq<Row>, rows: seq<Row>, s: seq<Entry>, lo: nat, c: nat)
    requires lo <= c < |s| && s[c].Decoded? && Wrap(rows) == Wrap(m0) + s[lo..c]
    ensures Wrap(rows + [s[c].row]) == Wrap(m0) + s[lo..c + 1]
  {
    assert s[lo..c + 1] == s[lo..c] + [s[c]];
    assert Wrap(rows + [s[c].row]) == Wrap(rows) + [s[c]];
  }

  lemma {:induction false} StreamPairwise(widths: seq<int>, e: seq<Entry>, a: nat, b: nat)
    requires GoodStream(widths, e) && a <= b < |e|
    ensures KeyLe(widths, e[a].row, e[b].row)
  {
    if a == b {
      KeyCompareReflexive(widths, e[a].row.key);
    } else {
      StreamPairwise(widths, e, a, b - 1);
      KeyCompareTransitive(widths, e[a].row.key, e[b - 1].row.key, e[b].row.key);
    }
  }

  predicate EntryAbove(widths: seq<int>, r: Row, e: Entry)
  {
    e.Decoded? && KeyLe(widths, r, e.row)
  }

  /** The current row of segment j converts, and no other segment's current
      row sorts before it. */
  ghost predicate HeadMinimal(widths: seq<int>, inputs: seq<seq<Entry>>, cursors: seq<nat>, j: nat)
  {
    && j < |inputs| && j < |cursors| && cursors[j] < |inputs[j]| && inputs[j][cursors[j]].Decoded?
    && forall i :: 0 <= i < |inputs| && i < |cursors| && i != j && cursors[i] < |inputs[i]| ==>
         EntryAbove(widths, inputs[j][cursors[j]].row, inputs[i][cursors[i]])
  }

  /** The last merged row sorts no later than any unread row. */
  ghost predicate LastBound(widths: seq<int>, inputs: seq<seq<Entry>>, cursors: seq<nat>, rows: seq<Row>)
  {
    |rows| > 0 ==>
      forall i, k :: 0 <= i < |inputs| && i < |cursors| && cursors[i] <= k < |inputs[i]| ==>
        EntryAbove(widths, rows[|rows| - 1], inputs[i][k])
  }

  ghost predicate MergedOrder(widths: seq<int>, inputs: seq<seq<Entry>>, cursors: seq<nat>, rows: seq<Row>)
  {
    SortedRows(widths, rows) && LastBound(widths, inputs, cursors, rows)
  }

  /** Appending the current row of segment j, when no other segment's
      current row sorts before it, keeps the output sorted and below every
      unread row. */
  lemma ConsumeMinimum(widths: seq<int>, inputs: seq<seq<Entry>>, cursors: seq<nat>, rows: seq<Row>, j: nat)
    requires GoodInputs(widths, inputs) && CursorsFit(inputs, cursors)
    requires j < |inputs| && cursors[j] < |inputs[j]|
    requires MergedOrder(widths, inputs, cursors, rows)
    requires forall i :: 0 <= i < |inputs| && i != j && cursors[i] < |inputs[i]| ==>
      EntryAbove(widths, inputs[j][cursors[j]].row, inputs[i][cursors[i]])
    ensures MergedOrder(widths, inputs, cursors[j := cursors[j] + 1], rows + [inputs[j][cursors[j]].row])
  {
    var m := inputs[j][cursors[j]].row;
    var rows', cursors' := rows + [m], cursors[j := cursors[j] + 1];
    forall a | 0 <= a < |rows'| - 1
      ensures KeyLe(widths, rows'[a], rows'[a + 1])
    {
      if a == |rows| - 1 {
        assert EntryAbove(widths, rows[|rows| - 1], inputs[j][cursors[j]]);
      } else {
        assert rows'[a] == rows[a] && rows'[a + 1] == rows[a + 1];
      }
    }
    forall i, k | 0 <= i < |inputs| && i < |cursors'| && cursors'[i] <= k < |inputs[i]|
      ensures EntryAbove(widths, m, inputs[i][k])
    {
      if i == j {
        StreamPairwise(widths, inputs[j], cursors[j], k);
      } else {
        var h := inputs[i][cursors[i]].row;
        assert EntryAbove(widths, m, inputs[i][cursors[i]]);
        StreamPairwise(widths, inputs[i], cursors[i], k);
        KeyCompareTransitive(widths, m.key, h.key, inputs[i][k].row.key);
      }
    }
  }

  /** Merging the current row of segment j, when no other segment's current
      row sorts before it, conserves the stored rows, shrinks the unread
      ones and keeps the merge order. */
  lemma MergedStep(widths: seq<int>, inputs: seq<seq<Entry>>, cs: seq<nat>, rows: seq<Row>, j: nat)
    requires CursorsFit(inputs, cs) && j < |inputs| && cs[j] < |inputs[j]| && inputs[j][cs[j]].Decoded?
    requires multiset(Wrap(rows)) + Rest(inputs, cs) == All(inputs)
    requires GoodInputs(widths, inputs) ==>
      && MergedOrder(widths, inputs, cs, rows)
      && forall i :: 0 <= i < |inputs| && i != j && cs[i] < |inputs[i]| ==>
           EntryAbove(widths, inputs[j][cs[j]].row, inputs[i][cs[i]])
    ensures multiset(Wrap(rows + [inputs[j][cs[j]].row])) + Rest(inputs, cs[j := cs[j] + 1]) == All(inputs)
    ensures |Rest(inputs, cs[j := cs[j] + 1])| < |Rest(inputs, cs)|
    ensures GoodInputs(widths, inputs) ==>
      MergedOrder(widths, inputs, cs[j := cs[j] + 1], rows + [inputs[j][cs[j]].row])
  {
    ConserveStep(inputs, cs, rows, j);
    if GoodInputs(widths, inputs) {
      ConsumeMinimum(widths, inputs, cs, rows, j);
    }
  }

  /** Output that holds exactly the stored rows has one row per stored row,
      and no stored row failed to convert. */
  lemma MergedAll(inputs: seq<seq<Entry>>, rows: seq<Row>)
    requires multiset(Wrap(rows)) == All(inputs)
    ensures |rows| == TotalRows(inputs)
    ensures forall i, k :: 0 <= i < |inputs| && 0 <= k < |inputs[i]| ==> inputs[i][k].Decoded?
  {
    AllCount(inputs);
    ConservedAllDecoded(inputs, rows);
  }
}
