/** The input side of the merge: one RawResultIterator per segment, a
    cursor over the segment's stored rows. `next` consumes the current row,
    `hasNext` asks whether one is left, and `fetchConverted` shows the
    current row without consuming it. */
module Streams {
  import opened MdKey

  datatype Option<T> = None | Some(value: T)

  /** A row as the query layer hands it over (an Object[]): the sort key
      (a ByteArrayWrapper in position 0), then the other column values. */
  datatype Row = Row(key: Key, values: seq<int>)

  /** A stored row as the iterator sees it: one it can convert, one whose
      conversion yields no row (null), or one whose key cannot be generated
      (a KeyGenException). */
  datatype Entry = Decoded(row: Row) | Missing | Undecodable

  /** What fetchConverted gives back for the current row. */
  datatype Fetch = Fetched(row: Row) | NullRow | KeyGenFailure

  class RawResultIterator {
    const entries: seq<Entry>
    var cursor: nat

    ghost predicate Valid()
      reads this
    {
      cursor <= |entries|
    }

    constructor (entries: seq<Entry>)
      ensures this.entries == entries && cursor == 0 && Valid()
    {
      this.entries := entries;
      cursor := 0;
    }

    /** Every row this iterator can convert carries a key of the schema. */
    predicate ConformsTo(widths: seq<int>)
    {
      forall k :: 0 <= k < |entries| && entries[k].Decoded? ==> Conforms(widths, entries[k].row.key)
    }

    /** Whether a row is left to be consumed; with none left there is no
        current row either. */
    predicate HasNext(): (more: bool)
      reads this
      ensures more <==> |entries| - cursor > 0
      ensures !more ==> FetchConverted() == NullRow
    {
      cursor < |entries|
    }

    /** The current row, not consumed; past the end there is none (null). */
    function FetchConverted(): (f: Fetch)
      reads this
      ensures f.Fetched? <==> cursor < |entries| && entries[cursor].Decoded?
      ensures f.Fetched? ==> entries[cursor] == Decoded(f.row)
      ensures f.KeyGenFailure? <==> cursor < |entries| && entries[cursor].Undecodable?
    {
      if cursor < |entries| then
        match entries[cursor]
        case Decoded(r) => Fetched(r)
        case Missing => NullRow
        case Undecodable => KeyGenFailure
      else NullRow
    }

    /** Consumes the current row; a row that cannot be converted, or a call
        past the end, yields no row (null). */
    method Next() returns (row: Option<Row>)
      requires Valid()
      modifies this
      ensures Valid()
      ensures cursor == if old(cursor) < |entries| then old(cursor) + 1 else old(cursor)
      ensures row.Some? <==> old(cursor) < |entries| && entries[old(cursor)].Decoded?
      ensures row.Some? ==> entries[old(cursor)] == Decoded(row.value)
    {
      if cursor < |entries| {
        var e := entries[cursor];
        cursor := cursor + 1;
        row := if e.Decoded? then Some(e.row) else None;
      } else {
        row := None;
      }
    }
  }
}
