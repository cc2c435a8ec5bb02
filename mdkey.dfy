/** The composite sort key of a row (a ByteArrayWrapper): one packed blob of
    dictionary-encoded columns, each at a fixed width, and one separate byte
    array per no-dictionary column. The per-column width list of the segment
    (SegmentProperties.getEachDimColumnValueSize) says, column by column in
    declaration order, which kind each column is: a width W > 0 is a
    dictionary column of W bytes, a width <= 0 is a no-dictionary column. */
module MdKey {
  import opened Bytes

  datatype Key = Key(dictionary: seq<byte>, noDictionary: seq<seq<byte>>)

  /** Bytes of the dictionary blob that the width list covers. */
  function DictWidth(widths: seq<int>): nat
  {
    if widths == [] then 0
    else (if widths[0] > 0 then widths[0] else 0) + DictWidth(widths[1..])
  }

  /** Number of no-dictionary columns in the width list. */
  function NoDictCount(widths: seq<int>): nat
  {
    if widths == [] then 0
    else (if widths[0] > 0 then 0 else 1) + NoDictCount(widths[1..])
  }

  /** A key belongs to a schema when its blob holds every dictionary column
      and it carries every no-dictionary array. */
  predicate Conforms(widths: seq<int>, k: Key)
  {
    DictWidth(widths) <= |k.dictionary| && NoDictCount(widths) <= |k.noDictionary|
  }

  /** The value of one column of width w: w bytes of the blob at offset
      off when w > 0, the nd-th no-dictionary array otherwise. */
  function Column(w: int, off: nat, nd: nat, k: Key): seq<byte>
    requires w > 0 ==> off + w <= |k.dictionary|
    requires w <= 0 ==> nd < |k.noDictionary|
  {
    if w > 0 then k.dictionary[off..off + w] else k.noDictionary[nd]
  }

  /** The reading position after a column of width w: the blob offset
      moves past a dictionary column, the no-dictionary index past a
      no-dictionary column. */
  function NextOffset(w: int, off: nat): nat
  {
    if w > 0 then off + w else off
  }

  function NextIndex(w: int, nd: nat): nat
  {
    if w > 0 then nd else nd + 1
  }

  /** The column values of a key from dictionary offset `off` and
      no-dictionary position `nd` on: the reference reading of a key,
      column by column. */
  function ColumnsFrom(widths: seq<int>, off: nat, nd: nat, k: Key): (cols: seq<seq<byte>>)
    requires off + DictWidth(widths) <= |k.dictionary|
    requires nd + NoDictCount(widths) <= |k.noDictionary|
    ensures |cols| == |widths|
  {
    if widths == [] then []
    else [Column(widths[0], off, nd, k)] + ColumnsFrom(widths[1..], NextOffset(widths[0], off), NextIndex(widths[0], nd), k)
  }

  function Columns(widths: seq<int>, k: Key): seq<seq<byte>>
    requires Conforms(widths, k)
  {
    ColumnsFrom(widths, 0, 0, k)
  }

  /** Lexicographic order of two column lists: the first column that
      compares nonzero decides; equal lists compare 0. */
  function LexCompare(xs: seq<seq<byte>>, ys: seq<seq<byte>>): int
    requires |xs| == |ys|
  {
    if xs == [] then 0
    else if CompareBytes(xs[0], ys[0]) != 0 then CompareBytes(xs[0], ys[0])
    else LexCompare(xs[1..], ys[1..])
  }

  /** Reference order of two keys of one schema. */
  function KeyCompare(widths: seq<int>, k1: Key, k2: Key): int
    requires Conforms(widths, k1) && Conforms(widths, k2)
  {
    LexCompare(Columns(widths, k1), Columns(widths, k2))
  }

  /** Column j is the W = widths[j] bytes of the blob at the running offset
      (the widths of the dictionary columns before j) when W > 0, and the
      no-dictionary array at the running no-dictionary index otherwise. */
  lemma {:induction false} ColumnAt(widths: seq<int>, off: nat, nd: nat, k: Key, j: nat)
    requires off + DictWidth(widths) <= |k.dictionary|
    requires nd + NoDictCount(widths) <= |k.noDictionary|
    requires j < |widths|
    ensures widths[j] > 0 ==> off + DictWidth(widths[..j]) + widths[j] <= |k.dictionary|
    ensures widths[j] <= 0 ==> nd + NoDictCount(widths[..j]) < |k.noDictionary|
    ensures ColumnsFrom(widths, off, nd, k)[j] ==
      Column(widths[j], off + DictWidth(widths[..j]), nd + NoDictCount(widths[..j]), k)
  {
    ColumnsFromCons(widths, off, nd, k);
    if j == 0 {
      assert widths[..0] == [];
    } else {
      var off', nd' := NextOffset(widths[0], off), NextIndex(widths[0], nd);
      assert ColumnsFrom(widths, off, nd, k)[j] == ColumnsFrom(widths[1..], off', nd', k)[j - 1];
      ColumnAt(widths[1..], off', nd', k, j - 1);
      PrefixCounts(widths, j);
      assert widths[1..][j - 1] == widths[j];
    }
  }

  /** The counts over the first j widths, split after the first width. */
  lemma PrefixCounts(widths: seq<int>, j: nat)
    requires 0 < j <= |widths|
    ensures DictWidth(widths[..j]) == (if widths[0] > 0 then widths[0] else 0) + DictWidth(widths[1..][..j - 1])
    ensures NoDictCount(widths[..j]) == (if widths[0] > 0 then 0 else 1) + NoDictCount(widths[1..][..j - 1])
  {
    var pre := widths[..j];
    assert pre[0] == widths[0];
    assert pre[1..] == widths[1..][..j - 1];
  }

  lemma {:induction false} LexCompareZeroIff(xs: seq<seq<byte>>, ys: seq<seq<byte>>)
    requires |xs| == |ys|
    ensures LexCompare(xs, ys) == 0 <==> xs == ys
  {
    if xs != [] {
      CompareBytesZeroIff(xs[0], ys[0]);
      LexCompareZeroIff(xs[1..], ys[1..]);
      assert xs == [xs[0]] + xs[1..] && ys == [ys[0]] + ys[1..];
    }
  }

  /** The first column where the lists differ decides the comparison. */
  lemma {:induction false} LexCompareDecidedAt(xs: seq<seq<byte>>, ys: seq<seq<byte>>, j: nat)
    requires |xs| == |ys| && j < |xs|
    requires xs[..j] == ys[..j] && xs[j] != ys[j]
    ensures LexCompare(xs, ys) == CompareBytes(xs[j], ys[j]) != 0
  {
    CompareBytesZeroIff(xs[j], ys[j]);
    if j > 0 {
      assert xs[0] == xs[..j][0] == ys[0];
      CompareBytesZeroIff(xs[0], ys[0]);
      assert xs[1..][..j - 1] == xs[..j][1..] == ys[1..][..j - 1];
      LexCompareDecidedAt(xs[1..], ys[1..], j - 1);
    }
  }

  lemma {:induction false} LexCompareAntisymmetric(xs: seq<seq<byte>>, ys: seq<seq<byte>>)
    requires |xs| == |ys|
    ensures LexCompare(ys, xs) == -LexCompare(xs, ys)
  {
    if xs != [] {
      CompareBytesAntisymmetric(xs[0], ys[0]);
      LexCompareAntisymmetric(xs[1..], ys[1..]);
    }
  }

  lemma {:induction false} LexCompareTransitive(xs: seq<seq<byte>>, ys: seq<seq<byte>>, zs: seq<seq<byte>>)
    requires |xs| == |ys| == |zs|
    requires LexCompare(xs, ys) <= 0 && LexCompare(ys, zs) <= 0
    ensures LexCompare(xs, zs) <= 0
  {
    if xs != [] {
      var c0, c1 := CompareBytes(xs[0], ys[0]), CompareBytes(ys[0], zs[0]);
      CompareBytesZeroIff(xs[0], ys[0]);
      CompareBytesZeroIff(ys[0], zs[0]);
      if c0 < 0 && c1 < 0 {
        CompareBytesTransitive(xs[0], ys[0], zs[0]);
      } else if c0 == 0 && c1 == 0 {
        LexCompareTransitive(xs[1..], ys[1..], zs[1..]);
      }
    }
  }

  lemma KeyCompareReflexive(widths: seq<int>, k: Key)
    requires Conforms(widths, k)
    ensures KeyCompare(widths, k, k) == 0
  {
    LexCompareZeroIff(Columns(widths, k), Columns(widths, k));
  }

  lemma KeyCompareAntisymmetric(widths: seq<int>, k1: Key, k2: Key)
    requires Conforms(widths, k1) && Conforms(widths, k2)
    ensures KeyCompare(widths, k2, k1) == -KeyCompare(widths, k1, k2)
  {
    LexCompareAntisymmetric(Columns(widths, k1), Columns(widths, k2));
  }

  lemma KeyCompareTransitive(widths: seq<int>, k1: Key, k2: Key, k3: Key)
    requires Conforms(widths, k1) && Conforms(widths, k2) && Conforms(widths, k3)
    requires KeyCompare(widths, k1, k2) <= 0 && KeyCompare(widths, k2, k3) <= 0
    ensures KeyCompare(widths, k1, k3) <= 0
  {
    LexCompareTransitive(Columns(widths, k1), Columns(widths, k2), Columns(widths, k3));
  }

  /** Two keys compare 0 exactly when every column value is the same. */
  lemma KeyCompareZeroIff(widths: seq<int>, k1: Key, k2: Key)
    requires Conforms(widths, k1) && Conforms(widths, k2)
    ensures KeyCompare(widths, k1, k2) == 0 <==> Columns(widths, k1) == Columns(widths, k2)
  {
    LexCompareZeroIff(Columns(widths, k1), Columns(widths, k2));
  }

  /** One step of the column reading: the first column, then the columns
      of the rest of the width list at the advanced offset and index. */
  lemma ColumnsFromCons(widths: seq<int>, off: nat, nd: nat, k: Key)
    requires widths != []
    requires off + DictWidth(widths) <= |k.dictionary| && nd + NoDictCount(widths) <= |k.noDictionary|
    ensures widths[0] > 0 ==> off + widths[0] <= |k.dictionary|
    ensures widths[0] <= 0 ==> nd < |k.noDictionary|
    ensures NextOffset(widths[0], off) + DictWidth(widths[1..]) <= |k.dictionary|
    ensures NextIndex(widths[0], nd) + NoDictCount(widths[1..]) <= |k.noDictionary|
    ensures ColumnsFrom(widths, off, nd, k) ==
      [Column(widths[0], off, nd, k)] + ColumnsFrom(widths[1..], NextOffset(widths[0], off), NextIndex(widths[0], nd), k)
  {
  }

  /** Lists that start with one more column compare by that column first. */
  lemma LexCompareCons(x: seq<byte>, y: seq<byte>, xs: seq<seq<byte>>, ys: seq<seq<byte>>)
    requires |xs| == |ys|
    ensures LexCompare([x] + xs, [y] + ys) == if CompareBytes(x, y) != 0 then CompareBytes(x, y) else LexCompare(xs, ys)
  {
    assert ([x] + xs)[1..] == xs && ([y] + ys)[1..] == ys;
  }

  /** The column walk as a function of the remaining widths, the running
      blob offset and the running no-dictionary index: the first nonzero
      column comparison, or 0. */
  function CompareFrom(widths: seq<int>, off: nat, nd: nat, k1: Key, k2: Key): int
    requires off + DictWidth(widths) <= |k1.dictionary| && off + DictWidth(widths) <= |k2.dictionary|
    requires nd + NoDictCount(widths) <= |k1.noDictionary| && nd + NoDictCount(widths) <= |k2.noDictionary|
  {
    if widths == [] then 0
    else
      var c := CompareBytes(Column(widths[0], off, nd, k1), Column(widths[0], off, nd, k2));
      if c != 0 then c
      else CompareFrom(widths[1..], NextOffset(widths[0], off), NextIndex(widths[0], nd), k1, k2)
  }

  /** One step of the walk: the first column decides, or the walk goes on
      past it. */
  lemma CompareFromCons(widths: seq<int>, off: nat, nd: nat, k1: Key, k2: Key)
    requires widths != []
    requires off + DictWidth(widths) <= |k1.dictionary| && off + DictWidth(widths) <= |k2.dictionary|
    requires nd + NoDictCount(widths) <= |k1.noDictionary| && nd + NoDictCount(widths) <= |k2.noDictionary|
    ensures widths[0] > 0 ==> off + widths[0] <= |k1.dictionary| && off + widths[0] <= |k2.dictionary|
    ensures widths[0] <= 0 ==> nd < |k1.noDictionary| && nd < |k2.noDictionary|
    ensures var off', nd' := NextOffset(widths[0], off), NextIndex(widths[0], nd);
      && off' + DictWidth(widths[1..]) <= |k1.dictionary| && off' + DictWidth(widths[1..]) <= |k2.dictionary|
      && nd' + NoDictCount(widths[1..]) <= |k1.noDictionary| && nd' + NoDictCount(widths[1..]) <= |k2.noDictionary|
      && var c := CompareBytes(Column(widths[0], off, nd, k1), Column(widths[0], off, nd, k2));
         CompareFrom(widths, off, nd, k1, k2) == if c != 0 then c else CompareFrom(widths[1..], off', nd', k1, k2)
  {
  }

  /** The walk agrees with the column-list order. */
  lemma {:induction false} CompareFromColumns(widths: seq<int>, off: nat, nd: nat, k1: Key, k2: Key)
    requires off + DictWidth(widths) <= |k1.dictionary| && off + DictWidth(widths) <= |k2.dictionary|
    requires nd + NoDictCount(widths) <= |k1.noDictionary| && nd + NoDictCount(widths) <= |k2.noDictionary|
    ensures CompareFrom(widths, off, nd, k1, k2) ==
            LexCompare(ColumnsFrom(widths, off, nd, k1), ColumnsFrom(widths, off, nd, k2))
  {
    if widths != [] {
      ColumnsFromCons(widths, off, nd, k1);
      ColumnsFromCons(widths, off, nd, k2);
      var off', nd' := NextOffset(widths[0], off), NextIndex(widths[0], nd);
      CompareFromColumns(widths[1..], off', nd', k1, k2);
      LexCompareCons(Column(widths[0], off, nd, k1), Column(widths[0], off, nd, k2),
        ColumnsFrom(widths[1..], off', nd', k1), ColumnsFrom(widths[1..], off', nd', k2));
    }
  }

  lemma {:induction false} OrderedByNoDictionaryFrom(widths: seq<int>, off: nat, nd: nat, k1: Key, k2: Key)
    requires off + DictWidth(widths) <= |k1.dictionary| && off + DictWidth(widths) <= |k2.dictionary|
    requires nd + NoDictCount(widths) <= |k1.noDictionary| && nd + NoDictCount(widths) <= |k2.noDictionary|
    requires SameBytes(k1.dictionary, k2.dictionary, off, off + DictWidth(widths))
    ensures LexCompare(ColumnsFrom(widths, off, nd, k1), ColumnsFrom(widths, off, nd, k2)) ==
            LexCompare(k1.noDictionary[nd..nd + NoDictCount(widths)], k2.noDictionary[nd..nd + NoDictCount(widths)])
    decreases widths, 1
  {
    if widths != [] {
      if widths[0] > 0 {
        OrderedPastDictionaryColumn(widths, off, nd, k1, k2);
      } else {
        OrderedPastNoDictionaryColumn(widths, off, nd, k1, k2);
      }
    }
  }

  lemma {:induction false} OrderedPastDictionaryColumn(widths: seq<int>, off: nat, nd: nat, k1: Key, k2: Key)
    requires widths != [] && widths[0] > 0
    requires off + DictWidth(widths) <= |k1.dictionary| && off + DictWidth(widths) <= |k2.dictionary|
    requires nd + NoDictCount(widths) <= |k1.noDictionary| && nd + NoDictCount(widths) <= |k2.noDictionary|
    requires SameBytes(k1.dictionary, k2.dictionary, off, off + DictWidth(widths))
    ensures LexCompare(ColumnsFrom(widths, off, nd, k1), ColumnsFrom(widths, off, nd, k2)) ==
            LexCompare(k1.noDictionary[nd..nd + NoDictCount(widths)], k2.noDictionary[nd..nd + NoDictCount(widths)])
    decreases widths, 0
  {
    var w0, rest := widths[0], widths[1..];
    assert DictWidth(widths) == w0 + DictWidth(rest) && NoDictCount(widths) == NoDictCount(rest);
    OrderedByNoDictionaryFrom(rest, off + w0, nd, k1, k2);
    ColumnsFromCons(widths, off, nd, k1);
    ColumnsFromCons(widths, off, nd, k2);
    var x := Column(w0, off, nd, k1);
    assert x == Column(w0, off, nd, k2);
    EqualColumnFirst(x, ColumnsFrom(rest, off + w0, nd, k1), ColumnsFrom(rest, off + w0, nd, k2));
  }

  lemma {:induction false} OrderedPastNoDictionaryColumn(widths: seq<int>, off: nat, nd: nat, k1: Key, k2: Key)
    requires widths != [] && widths[0] <= 0
    requires off + DictWidth(widths) <= |k1.dictionary| && off + DictWidth(widths) <= |k2.dictionary|
    requires nd + NoDictCount(widths) <= |k1.noDictionary| && nd + NoDictCount(widths) <= |k2.noDictionary|
    requires SameBytes(k1.dictionary, k2.dictionary, off, off + DictWidth(widths))
    ensures LexCompare(ColumnsFrom(widths, off, nd, k1), ColumnsFrom(widths, off, nd, k2)) ==
            LexCompare(k1.noDictionary[nd..nd + NoDictCount(widths)], k2.noDictionary[nd..nd + NoDictCount(widths)])
    decreases widths, 0
  {
    var rest := widths[1..];
    ColumnsFromCons(widths, off, nd, k1);
    ColumnsFromCons(widths, off, nd, k2);
    assert DictWidth(rest) == DictWidth(widths);
    OrderedByNoDictionaryFrom(rest, off, nd + 1, k1, k2);
    NoDictionaryFirst(k1.noDictionary, k2.noDictionary, nd, NoDictCount(widths),
      ColumnsFrom(rest, off, nd + 1, k1), ColumnsFrom(rest, off, nd + 1, k2));
  }

  /** A first column equal on both sides leaves the order to the rest. */
  lemma EqualColumnFirst(x: seq<byte>, xs: seq<seq<byte>>, ys: seq<seq<byte>>)
    requires |xs| == |ys|
    ensures LexCompare([x] + xs, [x] + ys) == LexCompare(xs, ys)
  {
    CompareBytesZeroIff(x, x);
    LexCompareCons(x, x, xs, ys);
  }

  /** A first no-dictionary column in front of rests that compare like the
      following no-dictionary arrays compares like the arrays from nd on. */
  lemma NoDictionaryFirst(a: seq<seq<byte>>, b: seq<seq<byte>>, nd: nat, n: nat, xs: seq<seq<byte>>, ys: seq<seq<byte>>)
    requires 0 < n && nd + n <= |a| && nd + n <= |b| && |xs| == |ys|
    requires LexCompare(xs, ys) == LexCompare(a[nd + 1..nd + n], b[nd + 1..nd + n])
    ensures LexCompare([a[nd]] + xs, [b[nd]] + ys) == LexCompare(a[nd..nd + n], b[nd..nd + n])
  {
    assert a[nd..nd + n] == [a[nd]] + a[nd + 1..nd + n];
    assert b[nd..nd + n] == [b[nd]] + b[nd + 1..nd + n];
    LexCompareCons(a[nd], b[nd], xs, ys);
    LexCompareCons(a[nd], b[nd], a[nd + 1..nd + n], b[nd + 1..nd + n]);
  }

  /** Two blobs hold the same bytes at positions lo up to hi. */
  predicate SameBytes(a: seq<byte>, b: seq<byte>, lo: nat, hi: nat)
  {
    hi <= |a| && hi <= |b| && forall t :: lo <= t < hi ==> a[t] == b[t]
  }

  /** When two keys agree on every dictionary column, their order is the
      lexicographic order of their no-dictionary arrays: the key whose
      (unsigned) smaller no-dictionary value comes first sorts first. */
  lemma OrderedByNoDictionary(widths: seq<int>, k1: Key, k2: Key)
    requires Conforms(widths, k1) && Conforms(widths, k2)
    requires k1.dictionary[..DictWidth(widths)] == k2.dictionary[..DictWidth(widths)]
    ensures KeyCompare(widths, k1, k2) ==
            LexCompare(k1.noDictionary[..NoDictCount(widths)], k2.noDictionary[..NoDictCount(widths)])
  {
    var d := DictWidth(widths);
    forall t | 0 <= t < d
      ensures k1.dictionary[t] == k2.dictionary[t]
    {
      assert k1.dictionary[t] == k1.dictionary[..d][t];
    }
    OrderedByNoDictionaryFrom(widths, 0, 0, k1, k2);
    assert k1.noDictionary[0..NoDictCount(widths)] == k1.noDictionary[..NoDictCount(widths)];
    assert k2.noDictionary[0..NoDictCount(widths)] == k2.noDictionary[..NoDictCount(widths)];
  }
}
