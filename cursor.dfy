/** A forward-only result set in the manner of `database/sql`'s `Rows`: the
    rows the server returns are fixed when the query runs, `Next` moves onto
    the next one and reports whether there was one, and `Scan` copies the
    columns of the row it is on. */
module Cursor {

  class Rows<T> {
    /** Every row the query returned, in the order the server sent them. */
    const results: seq<T>
    /** How many rows `Next` has moved onto so far. */
    var pos: nat
    /** Whether the last `Next` moved onto a row that `Scan` may read. */
    var onRow: bool

    ghost predicate Valid()
      reads this
    {
      pos <= |results| && (onRow ==> pos > 0)
    }

    /** The rows not yet moved onto. */
    function Remaining(): seq<T>
      requires Valid()
      reads this
    {
      results[pos..]
    }

    /** A fresh result set, positioned before its first row. */
    constructor (results: seq<T>)
      ensures Valid() && this.results == results && pos == 0 && !onRow
    {
      this.results := results;
      pos := 0;
      onRow := false;
    }

    /** Moves onto the next row; false once the rows are exhausted, and from
        then on `Scan` may not be called. */
    method Next() returns (more: bool)
      requires Valid()
      modifies this
      ensures Valid()
      ensures more <==> old(pos) < |results|
      ensures pos == if more then old(pos) + 1 else old(pos)
      ensures onRow == more
    {
      if pos < |results| {
        pos := pos + 1;
        onRow := true;
        more := true;
      } else {
        onRow := false;
        more := false;
      }
    }

    /** The row the cursor is on: the one the last `Next` moved onto. */
    method Scan() returns (row: T)
      requires Valid() && onRow
      ensures row == results[pos - 1]
    {
      row := results[pos - 1];
    }
  }
}
