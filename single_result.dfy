/** The single-order loop of `BenchmarkSqlxOneResult` as a pure
    specification. It keeps one `order` instead of a list: on a key that is
    not yet in its index it replaces the whole order (header and items) by a
    fresh one with the row's header, and every row then appends its item.
    So the result is the entry of the LAST newly seen key, holding every item
    from that key's first row onward. On the benchmark's query, whose rows
    all carry one key, this is the same as the general grouping. */
module SingleResult {
  import opened Orders
  import opened Grouping

  /** The single-result loop as a left fold over the rows. */
  function OneResult(rows: seq<Row>): OrderWithItems {
    if rows == [] then ZeroOrderWithItems
    else
      var prefix, row := rows[..|rows| - 1], rows[|rows| - 1];
      var order := if row.id in Ids(prefix) then OneResult(prefix) else OrderWithItems(HeaderOf(row), []);
      order.(items := order.items + [ItemOf(row)])
  }

  /** `OneResult` unfolded once at the end of a slice: one turn of the loop
      applied to the order built from the rows before. */
  lemma OneResultSliceSnoc(rows: seq<Row>, lo: nat, hi: nat, order: OrderWithItems)
    requires lo < hi <= |rows| && order == OneResult(rows[lo..hi - 1])
    ensures var row := rows[hi - 1];
      var current := if row.id in Ids(rows[lo..hi - 1]) then order else OrderWithItems(HeaderOf(row), []);
      OneResult(rows[lo..hi]) == current.(items := current.items + [ItemOf(row)])
  {
    assert rows[lo..hi][..hi - 1 - lo] == rows[lo..hi - 1];
  }

  /** The position of the last row whose key occurs in no earlier row. */
  function LastNewKey(rows: seq<Row>): (s: nat)
    requires rows != []
    ensures s < |rows|
  {
    var prefix := rows[..|rows| - 1];
    if rows[|rows| - 1].id in Ids(prefix) then LastNewKey(prefix) else |rows| - 1
  }

  /** `LastNewKey` is the last first occurrence of a key: the row at that
      position is the first with its key, and every later row repeats a key
      seen before it. */
  lemma {:induction false} LastNewKeyIsLastFirstOccurrence(rows: seq<Row>)
    requires rows != []
    ensures FirstIndex(rows, rows[LastNewKey(rows)].id) == LastNewKey(rows)
    ensures forall j :: LastNewKey(rows) < j < |rows| ==> FirstIndex(rows, rows[j].id) < j
  {
    var prefix, row := rows[..|rows| - 1], rows[|rows| - 1];
    assert rows == prefix + [row];
    if row.id in Ids(prefix) {
      LastNewKeyIsLastFirstOccurrence(prefix);
      forall j | 0 <= j < |rows|
        ensures FirstIndex(rows, rows[j].id) == if j < |prefix| then FirstIndex(prefix, prefix[j].id) else FirstIndex(prefix, row.id)
      {
        if j < |prefix| {
          FirstIndexSnoc(prefix, row, prefix[j].id);
        } else {
          FirstIndexSnoc(prefix, row, row.id);
        }
      }
    } else {
      IdsSnoc(prefix, row);
    }
  }

  /** The rows are in ascending key order, as the query's ORDER BY delivers. */
  ghost predicate SortedByKey(rows: seq<Row>) {
    forall i, j :: 0 <= i < j < |rows| ==> rows[i].id <= rows[j].id
  }

  /** The loop's result is the header of the last newly seen key with the
      items of every row from that key's first row to the end, whatever their
      keys. */
  lemma {:induction false} OneResultFromLastNewKey(rows: seq<Row>)
    requires rows != []
    ensures OneResult(rows)
         == OrderWithItems(HeaderOf(rows[LastNewKey(rows)]), ItemsOf(rows[LastNewKey(rows)..]))
  {
    var prefix, row := rows[..|rows| - 1], rows[|rows| - 1];
    var s := LastNewKey(rows);
    if row.id in Ids(prefix) {
      assert s == LastNewKey(prefix);
      OneResultFromLastNewKey(prefix);
      var tail := rows[s..];
      assert tail[..|tail| - 1] == prefix[s..] && tail[|tail| - 1] == row;
      assert ItemsOf(tail) == ItemsOf(prefix[s..]) + [ItemOf(row)];
      assert rows[s] == prefix[s];
    } else {
      assert rows[s..] == [row];
      assert ItemsOf([row]) == ItemsOf([]) + [ItemOf(row)];
    }
  }

  /** On input sorted by key, the single-result loop yields the last entry of
      the general grouping, the one for the last row's key. */
  lemma {:induction false} OneResultIsLastEntry(rows: seq<Row>)
    requires rows != [] && SortedByKey(rows)
    ensures |Group(rows)| > 0
    ensures Group(rows)[|Group(rows)| - 1] == OneResult(rows)
    ensures OneResult(rows).order.id == rows[|rows| - 1].id
  {
    var prefix, row := rows[..|rows| - 1], rows[|rows| - 1];
    assert rows == prefix + [row];
    if row.id !in Ids(prefix) {
      GroupNewKey(prefix, row);
    } else {
      OneResultIsLastEntry(prefix);
      SortedRepeatedKey(rows);
      GroupOntoLastEntry(prefix, row);
    }
  }

  /** In sorted input, a row whose key occurred before carries the key of the
      row just before it. */
  lemma SortedRepeatedKey(rows: seq<Row>)
    requires |rows| >= 2 && SortedByKey(rows)
    requires rows[|rows| - 1].id in Ids(rows[..|rows| - 1])
    ensures rows[|rows| - 1].id == rows[|rows| - 2].id
  {
    var prefix := rows[..|rows| - 1];
    var i := FirstIndex(prefix, rows[|rows| - 1].id);
    assert prefix[i] == rows[i];
  }

  /** The single order the loop is meant to return: the entry of the first
      key seen, with the header of its first row and the items of every row
      carrying that key. With no rows, the zero value. */
  function FirstOrder(rows: seq<Row>): OrderWithItems {
    if rows == [] then ZeroOrderWithItems
    else OrderWithItems(HeaderOf(rows[0]), ItemsFor(rows, rows[0].id))
  }

  /** `FirstOrder` is the first entry of the general grouping. */
  lemma FirstOrderIsFirstEntry(rows: seq<Row>)
    requires rows != []
    ensures |Group(rows)| > 0 && Group(rows)[0] == FirstOrder(rows)
  {
    GroupMaterializes(rows);
    var g, key := Group(rows), rows[0].id;
    assert FirstIndex(rows, key) == 0;
    var j := IndexOf(g, key).value;
    assert FirstIndex(rows, g[j].order.id) == 0;
    assert j == 0;
  }

  /** The loop as written on three rows with keys 1, 2, 1: the second row
      starts a fresh order with key 2, and the third row's item, which belongs
      to order 1, is appended to it. The result is neither the first key's
      order nor any entry of the general grouping. */
  lemma OneResultMixesKeys(a: Row, b: Row, c: Row)
    requires a.id == 1 && b.id == 2 && c.id == 1
    ensures OneResult([a, b, c]) == OrderWithItems(HeaderOf(b), [ItemOf(b), ItemOf(c)])
    ensures OneResult([a, b, c]) != FirstOrder([a, b, c])
    ensures OneResult([a, b, c]) !in Group([a, b, c])
  {
    var rows := [a, b, c];
    assert rows[..2] == [a, b] && [a, b][..1] == [a] && [a][..0] == [];
    assert Ids([a]) == {1};
    assert Ids([a, b]) == Ids([a]) + {2};
    assert OneResult([a, b]) == OrderWithItems(HeaderOf(b), [ItemOf(b)]);
    GroupMaterializes(rows);
    forall i | 0 <= i < |Group(rows)|
      ensures Group(rows)[i] != OneResult(rows)
    {
      var g := Group(rows);
      if g[i].order.id == 2 {
        assert ItemsFor(rows, 2) == [ItemOf(b)] by {
          assert ItemsFor([a], 2) == [];
        }
      }
    }
  }

  /** On the benchmark's query, whose rows all carry one key, the
      single-result loop and the general grouping agree: one entry, with the
      first row's header and every row's item in row order. */
  lemma OneResultSingleKey(rows: seq<Row>)
    requires rows != []
    requires forall i :: 0 <= i < |rows| ==> rows[i].id == rows[0].id
    ensures Group(rows) == [OneResult(rows)]
    ensures OneResult(rows) == OrderWithItems(HeaderOf(rows[0]), ItemsOf(rows))
    ensures OneResult(rows) == FirstOrder(rows)
  {
    GroupOneKey(rows);
    OneResultIsLastEntry(rows);
    FirstOrderIsFirstEntry(rows);
  }

  /** The check after `BenchmarkSqlxOneResult`'s loop: the five rows of order
      1 give an order with five items, and the header of order 1. */
  lemma OneResultFixture(rows: seq<Row>)
    requires |rows| == 5 && forall i :: 0 <= i < |rows| ==> rows[i].id == 1
    ensures |OneResult(rows).items| == 5 && OneResult(rows).order == HeaderOf(rows[0])
  {
    OneResultSingleKey(rows);
  }
}
