# RowResultMerger k-way merge: a Dafny model

This project models the merge step of CarbonData's compaction. `RowResultMerger.mergerSlice`
takes one `RawResultIterator` per segment being compacted. Each iterator yields that
segment's rows, sorted by their composite key. It merges the rows into one sorted stream
and writes it, row by row, to a `CarbonFactHandler`.

A min-priority queue of iterators picks the next row. The queue is ordered by
`CarbonMdkeyComparator`, which compares the current keys column by column:
- a dictionary column of width W is W bytes of a packed blob, at a running offset;
- a no-dictionary column is a separate byte array, at a running index.

The model is imperative where the code is, with one module per concern:

- `Bytes`: `ByteUtil.UnsafeComparer` as unsigned lexicographic byte comparison, in which a
  prefix sorts first.
- `MdKey`: the key as a blob plus no-dictionary arrays, its column values per width list,
  and the reference order `KeyCompare` with its laws.
- `Streams`: `RawResultIterator`, a class with a cursor over stored entries. An entry
  either converts, converts to null, or fails key generation.
- `Sink`: `CarbonFactHandler`, a class that records accepted tuples. Each of its four
  calls can be configured to fail.
- `Comparator`: `CarbonMdkeyComparator.compare`, proved against `CompareFetched`. Its
  column loop is proved against `KeyCompare`.
- `RecordHeap`: the record holder queue, kept as a sequence of iterators. `poll`
  finds the minimum with the comparator.
- `MergeSpec`: a value-level specification:
  - the multiset of unread rows;
  - conservation of rows;
  - the sortedness of the output;
  - the step that keeps it sorted.
- `Merger`: `RowResultMerger` with `addRow` and `mergerSlice`. Its two loops, the try
  block and the finally block are separate methods. Ghost state records the merged
  rows and the iterator cursors.

A segment is "good" when all of these hold:
- it has at least one row;
- every row converts;
- every key fits the schema;
- its rows are sorted.

With a nonempty list of good segments and a sink that never fails, the model proves
that `mergerSlice` returns true. The sink then receives, converted, a permutation of all stored rows, one
write per stored row, sorted by the key order. Whatever the inputs, the sink holds
exactly the converted merged rows, which are some of the stored rows (a sub-multiset,
also after a failure), and is closed exactly once. The error paths are
stated as they are coded, each with its cause:
- a row that does not convert, or an empty segment, throws `SliceMergerException`
  when every key can be generated and neither initialise nor close fails;
- a write refused at row k, with rows that all convert, throws `SliceMergerException`
  after exactly k rows were written;
- a finish failure, with rows that all convert and writes that succeed, returns false;
  an initialise failure returns false before anything is written;
- a close failure returns false in every case, and false is returned only for an
  initialise, finish or close failure; when it is not an initialise failure and the rows
  all convert and every write succeeds, every stored row reached the sink before false;
- an empty iterator list already fails when the merger is built (line 90 asks the
  queue for an initial capacity of 0, which `PriorityQueue` refuses), so the merger is
  only built from a nonempty list; the methods keep the empty-list path of lines 164-165
  (a null poll result is dereferenced) but no merger reaches it, and an unchecked
  exception otherwise means that some key cannot be generated;
- true is returned only when no handler call failed.

With a single segment the first loop is skipped and the drain reads that segment in
order, so the sink receives exactly its rows in stored order.

The code differs from what one might expect when a key cannot be generated. `compare`
catches the `KeyGenException` and logs it, but the row variables keep their initial
empty arrays, which are not null. The following read of position 0 therefore throws an
index-out-of-bounds exception, so the pair is not treated as a tie. When the first
row is null, the null check comes first and the answer is 0. The model follows the code.

## Model

| member | source | states |
|---|---|---|
| Bytes.CompareBytesZeroIff | integration/spark/src/main/java/org/carbondata/integration/spark/merger/RowResultMerger.java:300-309 | the unsigned byte comparison used for every column is 0 exactly when the two arrays are equal |
| Bytes.CompareBytesAntisymmetric | integration/spark/src/main/java/org/carbondata/integration/spark/merger/RowResultMerger.java:300-309 | swapping the two arrays negates the byte comparison |
| Bytes.CompareBytesTransitive | integration/spark/src/main/java/org/carbondata/integration/spark/merger/RowResultMerger.java:300-309 | the byte comparison is transitive on strict order |
| Bytes.CompareBytesPrefix | integration/spark/src/main/java/org/carbondata/integration/spark/merger/RowResultMerger.java:306-309 | a no-dictionary value that is a proper prefix of the other sorts first, so the two arrays may differ in length |
| Bytes.CompareBytesFirstDifference | integration/spark/src/main/java/org/carbondata/integration/spark/merger/RowResultMerger.java:300-309 | when the arrays first differ at position k, the comparison is the difference of the two bytes there taken as unsigned values 0..255 |
| MdKey.ColumnAt | integration/spark/src/main/java/org/carbondata/integration/spark/merger/RowResultMerger.java:291-311 | column j of a key is the widths[j] blob bytes at the running offset (the sum of the earlier dictionary widths) when widths[j] > 0, and the no-dictionary array at the running index (the number of earlier no-dictionary columns) otherwise; both lie inside the key |
| MdKey.CompareFromColumns | integration/spark/src/main/java/org/carbondata/integration/spark/merger/RowResultMerger.java:296-317 | the walk with a running blob offset and no-dictionary index, stopping at the first nonzero column result, equals the lexicographic order on the keys' column lists |
| MdKey.LexCompareDecidedAt | integration/spark/src/main/java/org/carbondata/integration/spark/merger/RowResultMerger.java:313-315 | when the column lists first differ at column j, the comparison is that column's nonzero byte comparison |
| MdKey.KeyCompareReflexive | integration/spark/src/main/java/org/carbondata/integration/spark/merger/RowResultMerger.java:313-317 | a key compared with itself gives 0 |
| MdKey.KeyCompareAntisymmetric | integration/spark/src/main/java/org/carbondata/integration/spark/merger/RowResultMerger.java:313-317 | swapping the keys negates the result |
| MdKey.KeyCompareTransitive | integration/spark/src/main/java/org/carbondata/integration/spark/merger/RowResultMerger.java:313-317 | the key order is transitive, so sorted input segments are pairwise ordered |
| MdKey.KeyCompareZeroIff | integration/spark/src/main/java/org/carbondata/integration/spark/merger/RowResultMerger.java:313-317 | two keys compare 0 exactly when all their column values are equal |
| MdKey.OrderedByNoDictionary | integration/spark/src/main/java/org/carbondata/integration/spark/merger/RowResultMerger.java:304-311 | keys with equal dictionary blobs are ordered lexicographically by their no-dictionary arrays: a no-dictionary column advances the index and leaves the blob offset alone |
| Comparator.MdkeyComparator.CompareKeys | integration/spark/src/main/java/org/carbondata/integration/spark/merger/RowResultMerger.java:290-317 | the for loop with dictionaryKeyOffset and noDicIndex returns exactly the reference key order KeyCompare |
| Comparator.MdkeyComparator.Compare | integration/spark/src/main/java/org/carbondata/integration/spark/merger/RowResultMerger.java:275-318 | the result is CompareFetched of the two current rows: Crashed when the first key cannot be generated, or when the first row is present and the second key cannot be generated; 0 when either row is null; otherwise the key order |
| Comparator.CompareFetchedSelf | integration/spark/src/main/java/org/carbondata/integration/spark/merger/RowResultMerger.java:277-317 | an iterator compared with itself gives 0, unless its key cannot be generated |
| Comparator.CompareFetchedAntisymmetric | integration/spark/src/main/java/org/carbondata/integration/spark/merger/RowResultMerger.java:285-317 | on two present rows, both orders answer and their signs are opposite |
| RecordHeap.RecordHolderHeap.Add | integration/spark/src/main/java/org/carbondata/integration/spark/merger/RowResultMerger.java:141 | add appends the iterator to the queue and keeps every queued iterator on the schema |
| RecordHeap.RecordHolderHeap.FindMin | integration/spark/src/main/java/org/carbondata/integration/spark/merger/RowResultMerger.java:146 | the scan returns a position whose current row is no later than every queued row when all queued iterators show a row; it fails only when some queued key cannot be generated, and never with one queued iterator |
| RecordHeap.RecordHolderHeap.Poll | integration/spark/src/main/java/org/carbondata/integration/spark/merger/RowResultMerger.java:146 | poll on an empty queue gives null; otherwise it removes exactly one queued iterator whose row is minimal, keeping the others in order; it fails only when some queued key cannot be generated |
| Streams.RawResultIterator.Next | integration/spark/src/main/java/org/carbondata/integration/spark/merger/RowResultMerger.java:147-150 | next consumes the current row and yields it, or null for a row that does not convert or past the end |
| Streams.RawResultIterator.HasNext | integration/spark/src/main/java/org/carbondata/integration/spark/merger/RowResultMerger.java:156 | hasNext holds exactly while a stored row is left to consume, and without one there is no current row to fetch |
| Streams.RawResultIterator.FetchConverted | integration/spark/src/main/java/org/carbondata/integration/spark/merger/RowResultMerger.java:280-281 | fetchConverted shows the current row without consuming it: a row exactly when the stored row converts, a KeyGenException exactly when its key cannot be generated, null otherwise |
| Sink.FactHandler.AddDataToStore | integration/spark/src/main/java/org/carbondata/integration/spark/merger/RowResultMerger.java:199-203 | a write either appends the tuple or fails at the configured position, changing nothing else |
| Sink.FactHandler.Initialise | integration/spark/src/main/java/org/carbondata/integration/spark/merger/RowResultMerger.java:137 | initialise succeeds unless the handler was built to fail there, and changes nothing written |
| Sink.FactHandler.Finish | integration/spark/src/main/java/org/carbondata/integration/spark/merger/RowResultMerger.java:177 | finish succeeds unless the handler was built to fail there, and changes nothing written |
| Sink.FactHandler.CloseHandler | integration/spark/src/main/java/org/carbondata/integration/spark/merger/RowResultMerger.java:183 | closeHandler counts one close whatever its result, and fails exactly when the handler was built to fail there |
| Merger.Conclude | integration/spark/src/main/java/org/carbondata/integration/spark/merger/RowResultMerger.java:179-188 | the finally block: true exactly when the body completed and close succeeded; a close failure gives false, replacing any exception; otherwise an exception escapes unchanged |
| Merger.RowResultMerger.constructor | integration/spark/src/main/java/org/carbondata/integration/spark/merger/RowResultMerger.java:82-91 | from a nonempty list (an empty one makes the queue's capacity 0, refused at line 90), the merger keeps the given iterator list and builds an empty record holder queue ordered by a comparator over the same column widths |
| Merger.RowResultMerger.AddRow | integration/spark/src/main/java/org/carbondata/integration/spark/merger/RowResultMerger.java:196-205 | addRow converts the row and writes it; on a write failure nothing is recorded and the failure is reported |
| Merger.RowResultMerger.LoadHeap | integration/spark/src/main/java/org/carbondata/integration/spark/merger/RowResultMerger.java:140-143 | every iterator of the list is queued, in list order, and index is the list length |
| Merger.RowResultMerger.Started | integration/spark/src/main/java/org/carbondata/integration/spark/merger/RowResultMerger.java:140-143 | after loading, the queue holds exactly the pending iterators, and every stored row is unread |
| Merger.RowResultMerger.HeadsFetched | integration/spark/src/main/java/org/carbondata/integration/spark/merger/RowResultMerger.java:146 | with good inputs every queued iterator shows a row, so the comparator cannot fail |
| Merger.RowResultMerger.HeadsGenerable | integration/spark/src/main/java/org/carbondata/integration/spark/merger/RowResultMerger.java:146 | when no stored key fails to generate, no queued iterator shows a KeyGenException, so the comparator cannot fail |
| Merger.RowResultMerger.MinimalHead | integration/spark/src/main/java/org/carbondata/integration/spark/merger/RowResultMerger.java:146 | the polled iterator's row sorts no later than the current row of every other pending segment |
| Merger.RowResultMerger.PollMinimum | integration/spark/src/main/java/org/carbondata/integration/spark/merger/RowResultMerger.java:146 | poll in the first loop cannot fail when every key can be generated, and with good inputs takes out a pending iterator whose row is minimal among all unread heads |
| Merger.RowResultMerger.ReadRow | integration/spark/src/main/java/org/carbondata/integration/spark/merger/RowResultMerger.java:147-151 | next on the polled iterator advances that segment's cursor by one unless it is at the end, moves no other cursor, and yields a row exactly when the stored row converts |
| Merger.RowResultMerger.Transfer | integration/spark/src/main/java/org/carbondata/integration/spark/merger/RowResultMerger.java:147-152 | a step succeeds exactly when the polled row converts and its write is accepted, and then writes exactly that row; otherwise it gives SliceMergerException with nothing recorded, caused by a refused write or by inputs that do not all convert, and the row it read is dropped, so merged and unread rows stay within the stored rows |
| Merger.RowResultMerger.Emit | integration/spark/src/main/java/org/carbondata/integration/spark/merger/RowResultMerger.java:152 | on success the sink and the merged record each gain the row, and every stored row is still merged or unread |
| Merger.RowResultMerger.Stepped | integration/spark/src/main/java/org/carbondata/integration/spark/merger/RowResultMerger.java:152 | merging the minimal head keeps the sink equal to the converted merged rows, the output sorted, and shrinks the unread rows |
| Merger.RowResultMerger.Requeued | integration/spark/src/main/java/org/carbondata/integration/spark/merger/RowResultMerger.java:155-161 | after a round, the queue holds exactly the pending iterators: the polled one is back iff it has another row |
| Merger.RowResultMerger.PutBack | integration/spark/src/main/java/org/carbondata/integration/spark/merger/RowResultMerger.java:155-161 | an iterator with another row is queued again; one without is dropped and index decreases; index equals the queue size |
| Merger.RowResultMerger.LeadingStep | integration/spark/src/main/java/org/carbondata/integration/spark/merger/RowResultMerger.java:145-162 | one round of the first loop appends exactly one row, the current row of the polled segment, which with good inputs no other pending head sorts before; index stays equal to the queue size; a comparator failure means some key cannot be generated, and a SliceMergerException means a refused write or inputs that do not all convert |
| Merger.RowResultMerger.TakeMinimum | integration/spark/src/main/java/org/carbondata/integration/spark/merger/RowResultMerger.java:146-152 | poll plus the row transfer: on success the polled iterator's row is merged and it is out of the queue; the failure causes are those of the round |
| Merger.RowResultMerger.MergeLeading | integration/spark/src/main/java/org/carbondata/integration/spark/merger/RowResultMerger.java:145-162 | the first loop ends with at most one queued iterator (exactly one for a nonempty list), the output sorted and every row merged or unread; with one iterator it reads nothing; a failure has the causes of a round |
| Merger.RowResultMerger.PollLast | integration/spark/src/main/java/org/carbondata/integration/spark/merger/RowResultMerger.java:165 | the last poll yields null exactly for an empty list; otherwise every other segment is read to its end |
| Merger.RowResultMerger.DrainStep | integration/spark/src/main/java/org/carbondata/integration/spark/merger/RowResultMerger.java:167-175 | a round of the second loop appends exactly one row, the last segment's current row, in order after the rows already drained, and reports whether another is left; a null row or a refused write gives SliceMergerException with nothing recorded |
| Merger.RowResultMerger.DrainFrom | integration/spark/src/main/java/org/carbondata/integration/spark/merger/RowResultMerger.java:166-176 | the second loop drains the last segment without the heap; on success it has appended the rest of that segment in order, every stored row is merged and no segment was empty |
| Merger.RowResultMerger.Drained | integration/spark/src/main/java/org/carbondata/integration/spark/merger/RowResultMerger.java:171-174 | once every segment is read to its end, every stored row is merged and the drain added the rest of the last segment in order |
| Merger.RowResultMerger.DrainLast | integration/spark/src/main/java/org/carbondata/integration/spark/merger/RowResultMerger.java:164-176 | with an empty list the null poll result fails with an unchecked exception; otherwise a SliceMergerException means a refused write or inputs that do not all convert, and the drain succeeds with good inputs and a healthy sink |
| Merger.RowResultMerger.MergeBody | integration/spark/src/main/java/org/carbondata/integration/spark/merger/RowResultMerger.java:135-178 | the try block: an initialise failure gives false before anything is written; a finish failure gives false after every stored row was merged once (a permutation of all rows); merged and unread rows are always within the stored rows; completion means initialise and finish succeeded, every stored row was merged once and all converted; an unchecked failure means an empty list or a key that cannot be generated; a SliceMergerException means a refused write or inputs that do not all convert; one segment is written in its own order |
| Merger.RowResultMerger.MergeRows | integration/spark/src/main/java/org/carbondata/integration/spark/merger/RowResultMerger.java:140-176 | between initialise and finish: on success every stored row is merged exactly once and all converted; in every case the merged and unread rows are within the stored rows; with one segment its rows are written in order; the failure causes are those of MergeBody |
| Merger.RowResultMerger.MergerSlice | integration/spark/src/main/java/org/carbondata/integration/spark/merger/RowResultMerger.java:132-189 | closed exactly once, the sink holds the converted merged rows, which are a sub-multiset of the stored rows and sorted when the inputs are; true exactly when nothing failed: a permutation of all rows, one write per row, and no handler call failing; false only for an initialise, finish or close failure; false without an initialise failure, with convertible rows and no refused write, comes after every stored row was merged (a permutation of all rows, TotalRows of them); with convertible rows a finish failure gives false and a write refused at row k throws SliceMergerException after k rows; an unchecked exception means an empty list or a key that cannot be generated; when every key can be generated, a null row or an empty segment throws SliceMergerException; one segment is reproduced in order; good inputs and a healthy sink give true |
| MergeSpec.RestFromStart | integration/spark/src/main/java/org/carbondata/integration/spark/merger/RowResultMerger.java:140-143 | before anything is read, the unread rows are all stored rows |
| MergeSpec.RestStep | integration/spark/src/main/java/org/carbondata/integration/spark/merger/RowResultMerger.java:147 | reading segment j's current row removes exactly that row from the unread rows |
| MergeSpec.ReadBounded | integration/spark/src/main/java/org/carbondata/integration/spark/merger/RowResultMerger.java:147-151 | a next on segment j, which moves its cursor unless it is at the end, adds no unread row, so the merged rows and the unread rows stay within the stored rows even when the row read is then dropped |
| Merger.RowResultMerger.ReadKept | integration/spark/src/main/java/org/carbondata/integration/spark/merger/RowResultMerger.java:147-151 | after the next of a step, the merger's merged and unread rows are within the stored rows |
| MergeSpec.ConserveStep | integration/spark/src/main/java/org/carbondata/integration/spark/merger/RowResultMerger.java:147-152 | merging that row keeps merged plus unread equal to all stored rows, and the unread rows shrink |
| MergeSpec.UnreadableHead | integration/spark/src/main/java/org/carbondata/integration/spark/merger/RowResultMerger.java:147-150 | a pending segment whose current row is missing or does not convert shows that not every stored row converts |
| MergeSpec.ReadInOrder | integration/spark/src/main/java/org/carbondata/integration/spark/merger/RowResultMerger.java:166-175 | draining the next row of one segment extends the drained rows by that row, in segment order |
| MergeSpec.ConsumeMinimum | integration/spark/src/main/java/org/carbondata/integration/spark/merger/RowResultMerger.java:145-162 | appending a head that no other head sorts before keeps the output sorted and no later than every unread row |
| MergeSpec.MergedStep | integration/spark/src/main/java/org/carbondata/integration/spark/merger/RowResultMerger.java:145-162 | one merge step conserves the stored rows, shrinks the unread ones and keeps the merge order |
| MergeSpec.RestDone | integration/spark/src/main/java/org/carbondata/integration/spark/merger/RowResultMerger.java:171-174 | once every segment is read to its end, no row is unread |
| MergeSpec.AllCount | integration/spark/src/main/java/org/carbondata/integration/spark/merger/RowResultMerger.java:132-189 | the stored rows number TotalRows |
| MergeSpec.MergedAll | integration/spark/src/main/java/org/carbondata/integration/spark/merger/RowResultMerger.java:132-189 | output that is a permutation of the stored rows has one row per stored row, and every stored row converted |
| MergeSpec.GoodConvertible | integration/spark/src/main/java/org/carbondata/integration/spark/merger/RowResultMerger.java:132-189 | good segments are convertible (nonempty, every row converts), and convertible segments have only keys that can be generated |
| MergeSpec.SortedPairwise | integration/spark/src/main/java/org/carbondata/integration/spark/merger/RowResultMerger.java:140-176 | sorted output is nondecreasing between any two positions, not only neighbours |
| MergeSpec.StreamPairwise | integration/spark/src/main/java/org/carbondata/integration/spark/merger/RowResultMerger.java:140-176 | rows of a sorted segment are ordered between any two positions |

## Left out

- The constructor's setup work (lines 93-124, 213-268) is left out because it is filesystem and metadata plumbing. This covers the temporary directory, the fact handler model, the store path lookup and the mdKeyIndex choice (lines 114-119). `RowResultMerger.constructor` takes the iterators, the width list, the tuple converter and the handler as parameters.
- The aggregation type derivation (lines 234-240) is left out: it feeds only the handler model.
- `TupleConversionAdapter` is an arbitrary total function from rows to tuples. `CarbonFactDataHandlerColumnar` records tuples, and its columnar encoding and file writing are not modelled.
- `RawResultIterator` internals are not modelled. `fetchConverted` and `next` past the end give null, an assumption about code that is not part of this model.
- The queue is a sequence scanned at `poll`; `java.util.PriorityQueue` keeps a binary heap instead.
  - `PriorityQueue` already compares in `add`. A comparator failure raised there surfaces here at the next `poll`, possibly after a different number of rows have been written.
  - The scan compares pairs of iterators that the heap's `siftUp` and `siftDown` never compare, so the exception that escapes can differ. When an iterator whose key cannot be generated sits among iterators that show no row, the heap may only ever compare it with those, which tie at line 285, and the program then throws `SliceMergerException` when that iterator's `next` gives null at line 150. The scan may compare it with an iterator that shows a row and crash in the comparator instead, so the model ends with the unchecked exception. Both outcomes agree with the stated causes: keys that cannot be generated, and rows that do not convert.
  - Which of several equal keys is polled first is left open.
- Merger.RowResultMerger.constructor requires a nonempty iterator list: for an empty list line 90 builds `new PriorityQueue(0, …)`, which throws `IllegalArgumentException`, so no merger and no handler exist and nothing is initialised or closed.
- Merger.RowResultMerger.constructor also requires the listed iterators to be distinct objects, and every convertible row's key to fit the width list. A shorter blob would make `UnsafeComparer` read outside the array, which the model does not give a meaning to.
- Logging (line 283), exception messages and the exception class hierarchy are reduced to the `Failure`, `Attempt` and `MergeOutcome` datatypes.
- Java `int` overflow of the running blob offset is not modelled: the offset is bounded by the blob length.
- Exceptions that the converter, the iterator or the queue might raise for other reasons are not modelled.
