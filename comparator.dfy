/** CarbonMdkeyComparator: orders two iterators by the composite key of the
    row each of them currently shows. */
module Comparator {
  import opened Bytes
  import opened MdKey
  import opened Streams

  /** The comparator either answers (with the sign of the order) or fails
      with an unchecked exception. */
  datatype Comparison = Ordered(sign: int) | Crashed

  predicate FetchConforms(widths: seq<int>, f: Fetch)
  {
    f.Fetched? ==> Conforms(widths, f.row.key)
  }

  /** What compare answers for the two current rows. A null row on either
      side makes the pair a tie. A KeyGenException is caught and logged but
      leaves the row variable at its initial empty array, not null, so the
      following read of the key in position 0 fails: the comparator then
      ends with an unchecked index-out-of-bounds exception. When the first
      row is null the null check comes first and the answer is a tie. */
  function CompareFetched(widths: seq<int>, f1: Fetch, f2: Fetch): Comparison
    requires FetchConforms(widths, f1) && FetchConforms(widths, f2)
  {
    if f1.KeyGenFailure? then Crashed
    else if f1.NullRow? then Ordered(0)
    else if f2.KeyGenFailure? then Crashed
    else if f2.NullRow? then Ordered(0)
    else Ordered(KeyCompare(widths, f1.row.key, f2.row.key))
  }

  /** Both rows are present and the first key sorts no later than the second. */
  predicate FetchLe(widths: seq<int>, f1: Fetch, f2: Fetch)
  {
    f1.Fetched? && f2.Fetched? && Conforms(widths, f1.row.key) && Conforms(widths, f2.row.key)
    && KeyCompare(widths, f1.row.key, f2.row.key) <= 0
  }

  /** An iterator compared with itself is a tie, unless its key cannot be
      generated, in which case the comparator fails. */
  lemma CompareFetchedSelf(widths: seq<int>, f: Fetch)
    requires FetchConforms(widths, f)
    ensures CompareFetched(widths, f, f) == if f.KeyGenFailure? then Crashed else Ordered(0)
  {
    if f.Fetched? {
      KeyCompareReflexive(widths, f.row.key);
    }
  }

  /** On two present rows the comparator is antisymmetric. */
  lemma CompareFetchedAntisymmetric(widths: seq<int>, f1: Fetch, f2: Fetch)
    requires FetchConforms(widths, f1) && FetchConforms(widths, f2)
    requires f1.Fetched? && f2.Fetched?
    ensures CompareFetched(widths, f1, f2).Ordered? && CompareFetched(widths, f2, f1).Ordered?
    ensures CompareFetched(widths, f2, f1).sign == -CompareFetched(widths, f1, f2).sign
  {
    KeyCompareAntisymmetric(widths, f1.row.key, f2.row.key);
  }

  /** Rows of an iterator whose stored rows fit the schema fit the schema. */
  lemma FetchedConforms(s: RawResultIterator, widths: seq<int>)
    requires s.ConformsTo(widths)
    ensures FetchConforms(widths, s.FetchConverted())
  {
  }

  class MdkeyComparator {
    /** segprop.getEachDimColumnValueSize(): per column, its dictionary
        width, or a value <= 0 for a no-dictionary column. */
    const widths: seq<int>

    constructor (widths: seq<int>)
      ensures this.widths == widths
    {
      this.widths := widths;
    }

    /** Fetches the current row of each iterator, settles the null and
        KeyGenException cases, then compares the two keys column by column. */
    method Compare(o1: RawResultIterator, o2: RawResultIterator) returns (c: Comparison)
      requires o1.ConformsTo(widths) && o2.ConformsTo(widths)
      ensures c == CompareFetched(widths, o1.FetchConverted(), o2.FetchConverted())
    {
      var row1 := o1.FetchConverted();
      if row1.KeyGenFailure? {
        return Crashed;
      }
      var row2 := o2.FetchConverted();
      if row1.NullRow? || row2.NullRow? {
        return Ordered(0);
      }
      if row2.KeyGenFailure? {
        return Crashed;
      }
      var compareResult := CompareKeys(row1.row.key, row2.row.key);
      return Ordered(compareResult);
    }

    /** The column walk of compare on two keys of the schema: a running
        blob offset and a running no-dictionary index, and the first
        nonzero column result. */
    method CompareKeys(key1: Key, key2: Key) returns (r: int)
      requires Conforms(widths, key1) && Conforms(widths, key2)
      ensures r == KeyCompare(widths, key1, key2)
    {
      var dictionaryKeyOffset: nat, noDicIndex: nat := 0, 0;
      var i := 0;
      assert widths[0..] == widths;
      CompareFromColumns(widths, 0, 0, key1, key2);
      while i < |widths|
        invariant 0 <= i <= |widths|
        invariant dictionaryKeyOffset + DictWidth(widths[i..]) <= |key1.dictionary|
        invariant dictionaryKeyOffset + DictWidth(widths[i..]) <= |key2.dictionary|
        invariant noDicIndex + NoDictCount(widths[i..]) <= |key1.noDictionary|
        invariant noDicIndex + NoDictCount(widths[i..]) <= |key2.noDictionary|
        invariant KeyCompare(widths, key1, key2) == CompareFrom(widths[i..], dictionaryKeyOffset, noDicIndex, key1, key2)
      {
        var eachColumnValueSize := widths[i];
        ghost var rest, off, nd := widths[i..], dictionaryKeyOffset, noDicIndex;
        assert rest[0] == eachColumnValueSize && rest[1..] == widths[i + 1..];
        CompareFromCons(rest, off, nd, key1, key2);
        var compareResult;
        if eachColumnValueSize > 0 {
          compareResult := CompareBytes(
            key1.dictionary[dictionaryKeyOffset..dictionaryKeyOffset + eachColumnValueSize],
            key2.dictionary[dictionaryKeyOffset..dictionaryKeyOffset + eachColumnValueSize]);
          dictionaryKeyOffset := dictionaryKeyOffset + eachColumnValueSize;
        } else {
          compareResult := CompareBytes(key1.noDictionary[noDicIndex], key2.noDictionary[noDicIndex]);
          noDicIndex := noDicIndex + 1;
        }
        assert compareResult == CompareBytes(Column(eachColumnValueSize, off, nd, key1), Column(eachColumnValueSize, off, nd, key2));
        assert dictionaryKeyOffset == NextOffset(eachColumnValueSize, off) && noDicIndex == NextIndex(eachColumnValueSize, nd);
        if compareResult != 0 {
          return compareResult;
        }
        i := i + 1;
      }
      return 0;
    }
  }
}
