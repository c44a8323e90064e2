/** The hand-written loops of the order benchmarks. Each one is proved
    against the pure specification of what it builds: `Group` for the
    one-to-many grouping (batch over a slice, and streaming over a cursor),
    `OneResult` for the single-order loop, and `EntryOf` per row for the
    json_agg loops. */
module Materializers {
  import opened Orders
  import opened Grouping
  import opened SingleResult
  import opened Cursor

  /** `orderIdx` maps every order key among the entries to the position of
      its entry, and to nothing else. (So no two entries share a key.) */
  ghost predicate IndexTracks(orders: seq<OrderWithItems>, orderIdx: map<Int32, nat>) {
    && (forall k :: k in orderIdx ==> orderIdx[k] < |orders| && orders[orderIdx[k]].order.id == k)
    && (forall j :: 0 <= j < |orders| ==> orders[j].order.id in orderIdx && orderIdx[orders[j].order.id] == j)
  }

  /** A hit in `orderIdx` is the position of the entry with that key. */
  lemma LookupHit(orders: seq<OrderWithItems>, orderIdx: map<Int32, nat>, key: Int32)
    requires IndexTracks(orders, orderIdx) && key in orderIdx
    ensures IndexOf(orders, key) == Some(orderIdx[key])
  {
  }

  /** A miss in `orderIdx` means no entry has that key yet. */
  lemma LookupMiss(orders: seq<OrderWithItems>, orderIdx: map<Int32, nat>, key: Int32)
    requires IndexTracks(orders, orderIdx) && key !in orderIdx
    ensures IndexOf(orders, key) == None
  {
  }

  /** Appending an item changes no key, so the index still tracks. */
  lemma AppendItemTracks(orders: seq<OrderWithItems>, orderIdx: map<Int32, nat>, idx: nat, item: OrderItem)
    requires IndexTracks(orders, orderIdx) && idx < |orders|
    ensures IndexTracks(orders[idx := orders[idx].(items := orders[idx].items + [item])], orderIdx)
  {
    var r := orders[idx := orders[idx].(items := orders[idx].items + [item])];
    assert forall j :: 0 <= j < |r| ==> r[j].order == orders[j].order;
  }

  /** Appending an entry for a key not yet in the index, and recording its
      position, keeps the index tracking. */
  lemma AppendEntryTracks(orders: seq<OrderWithItems>, orderIdx: map<Int32, nat>, entry: OrderWithItems)
    requires IndexTracks(orders, orderIdx) && entry.order.id !in orderIdx
    ensures IndexTracks(orders + [entry], orderIdx[entry.order.id := |orders|])
  {
  }

  /** The body of the grouping loop: look the key up in `orderIdx`; on a miss
      append an entry with the row's header and record its position; then
      append the row's item to the entry at that position. */
  method AddRow(orders: seq<OrderWithItems>, orderIdx: map<Int32, nat>, row: Row)
    returns (orders': seq<OrderWithItems>, orderIdx': map<Int32, nat>)
    requires IndexTracks(orders, orderIdx)
    ensures orders' == Step(orders, row)
    ensures IndexTracks(orders', orderIdx')
    ensures orderIdx'.Keys == orderIdx.Keys + {row.id}
  {
    orders', orderIdx' := orders, orderIdx;
    var idx: nat;
    if row.id in orderIdx {
      idx := orderIdx[row.id];
      LookupHit(orders, orderIdx, row.id);
    } else {
      LookupMiss(orders, orderIdx, row.id);
      StepNewEntryThenItem(orders, row);
      AppendEntryTracks(orders, orderIdx, OrderWithItems(HeaderOf(row), []));
      orders' := orders' + [OrderWithItems(HeaderOf(row), [])];
      idx := |orders'| - 1;
      orderIdx' := orderIdx'[row.id := idx];
    }
    AppendItemTracks(orders', orderIdx', idx, ItemOf(row));
    orders' := orders'[idx := orders'[idx].(items := orders'[idx].items + [ItemOf(row)])];
  }

  /** `BenchmarkSqlx`: group the rows the query returned as one slice. */
  method GroupBatch(results: seq<Row>) returns (orders: seq<OrderWithItems>)
    ensures orders == Group(results)
  {
    orders := [];
    var orderIdx: map<Int32, nat> := map[];
    for i := 0 to |results|
      invariant orders == Group(results[0..i])
      invariant IndexTracks(orders, orderIdx)
    {
      GroupSliceSnoc(results, 0, i + 1, orders);
      orders, orderIdx := AddRow(orders, orderIdx, results[i]);
    }
    assert results[0..|results|] == results;
  }

  /** `BenchmarkPq`: the same grouping, reading the rows one by one from the
      cursor until `Next` reports the end. */
  method GroupStreaming(rows: Rows<Row>) returns (orders: seq<OrderWithItems>)
    requires rows.Valid()
    modifies rows
    ensures rows.Valid() && rows.Remaining() == []
    ensures orders == Group(old(rows.Remaining()))
  {
    ghost var start := rows.pos;
    orders := [];
    var orderIdx: map<Int32, nat> := map[];
    var more := true;
    while more
      invariant rows.Valid() && start <= rows.pos
      invariant orders == Group(rows.results[start..rows.pos])
      invariant IndexTracks(orders, orderIdx)
      invariant !more ==> rows.pos == |rows.results|
      decreases |rows.results| - rows.pos, more
    {
      more, orders, orderIdx := GroupNextRow(rows, start, orders, orderIdx);
    }
    assert rows.results[start..rows.pos] == old(rows.Remaining());
  }

  /** One turn of the streaming loop: `rows.Next()`, and when it finds a row,
      `rows.Scan` and the loop body. The rows grouped so far are those from
      `start` up to the cursor. */
  method GroupNextRow(rows: Rows<Row>, ghost start: nat, orders: seq<OrderWithItems>, orderIdx: map<Int32, nat>)
    returns (more: bool, orders': seq<OrderWithItems>, orderIdx': map<Int32, nat>)
    requires rows.Valid() && start <= rows.pos
    requires orders == Group(rows.results[start..rows.pos]) && IndexTracks(orders, orderIdx)
    modifies rows
    ensures rows.Valid() && start <= rows.pos
    ensures orders' == Group(rows.results[start..rows.pos]) && IndexTracks(orders', orderIdx')
    ensures more ==> rows.pos == old(rows.pos) + 1
    ensures !more ==> rows.pos == |rows.results|
  {
    orders', orderIdx' := orders, orderIdx;
    more := rows.Next();
    if more {
      var row := rows.Scan();
      GroupSliceSnoc(rows.results, start, rows.pos, orders);
      orders', orderIdx' := AddRow(orders, orderIdx, row);
    }
  }

  /** `BenchmarkSqlxOneResult`: the single-order loop over the slice. A key
      missing from `orderIdx` replaces the order by a fresh one with the row's
      header and is recorded (with position 0, as the loop never sets the
      position); every row's item is appended to the current order. */
  method OneResultBatch(results: seq<Row>) returns (order: OrderWithItems)
    ensures order == OneResult(results)
  {
    order := ZeroOrderWithItems;
    var orderIdx: map<Int32, int> := map[];
    for i := 0 to |results|
      invariant order == OneResult(results[0..i])
      invariant orderIdx.Keys == Ids(results[0..i])
    {
      var row := results[i];
      OneResultSliceSnoc(results, 0, i + 1, order);
      IdsSliceSnoc(results, 0, i + 1);
      var ok := row.id in orderIdx;
      var idx := if ok then orderIdx[row.id] else 0;
      if !ok {
        order := OrderWithItems(HeaderOf(row), []);
        orderIdx := orderIdx[row.id := idx];
      }
      order := order.(items := order.items + [ItemOf(row)]);
    }
    assert results[0..|results|] == results;
  }

  /** `BenchmarkPqOneResult`: every row's item is appended to an order whose
      header is never set, so it keeps the zero value. */
  method CollectItemsStreaming(rows: Rows<Row>) returns (order: OrderWithItems)
    requires rows.Valid()
    modifies rows
    ensures rows.Valid() && rows.Remaining() == []
    ensures order == OrderWithItems(ZeroOrderWithItems.order, ItemsOf(old(rows.Remaining())))
  {
    ghost var start := rows.pos;
    order := ZeroOrderWithItems;
    var more := true;
    while more
      invariant rows.Valid() && start <= rows.pos
      invariant order == OrderWithItems(ZeroOrderWithItems.order, ItemsOf(rows.results[start..rows.pos]))
      invariant !more ==> rows.pos == |rows.results|
      decreases |rows.results| - rows.pos, more
    {
      more, order := CollectNextItem(rows, start, order);
    }
    assert rows.results[start..rows.pos] == old(rows.Remaining());
  }

  /** One turn of the single-order streaming loop: `rows.Next()`, and when it
      finds a row, `rows.Scan` and the append of its item. */
  method CollectNextItem(rows: Rows<Row>, ghost start: nat, order: OrderWithItems)
    returns (more: bool, order': OrderWithItems)
    requires rows.Valid() && start <= rows.pos
    requires order == OrderWithItems(ZeroOrderWithItems.order, ItemsOf(rows.results[start..rows.pos]))
    modifies rows
    ensures rows.Valid() && start <= rows.pos
    ensures order' == OrderWithItems(ZeroOrderWithItems.order, ItemsOf(rows.results[start..rows.pos]))
    ensures more ==> rows.pos == old(rows.pos) + 1
    ensures !more ==> rows.pos == |rows.results|
  {
    order' := order;
    more := rows.Next();
    if more {
      var row := rows.Scan();
      ItemsOfSliceSnoc(rows.results, start, rows.pos);
      order' := order'.(items := order'.items + [ItemOf(row)]);
    }
  }

  /** `BenchmarkPqJsonAgg`: the server has already grouped the items, so
      each row becomes one entry, in row order. */
  method JsonAggStreaming(rows: Rows<AggRow>) returns (orders: seq<OrderWithItems>)
    requires rows.Valid()
    modifies rows
    ensures rows.Valid() && rows.Remaining() == []
    ensures |orders| == |old(rows.Remaining())|
    ensures forall i :: 0 <= i < |orders| ==> orders[i] == EntryOf(old(rows.Remaining())[i])
  {
    ghost var start := rows.pos;
    orders := [];
    var more := true;
    while more
      invariant rows.Valid() && start <= rows.pos
      invariant |orders| == rows.pos - start
      invariant forall i :: 0 <= i < |orders| ==> orders[i] == EntryOf(rows.results[start + i])
      invariant !more ==> rows.pos == |rows.results|
      decreases |rows.results| - rows.pos, more
    {
      more := rows.Next();
      if more {
        var agg := rows.Scan();
        orders := orders + [EntryOf(agg)];
      }
    }
  }

  /** `BenchmarkPqJsonAggOneResult`: only the first row is read, if there is
      one; with no row the order stays the zero value. */
  method JsonAggFirst(rows: Rows<AggRow>) returns (order: OrderWithItems)
    requires rows.Valid()
    modifies rows
    ensures rows.Valid()
    ensures order == if old(rows.Remaining()) == [] then ZeroOrderWithItems else EntryOf(old(rows.Remaining())[0])
    ensures rows.Remaining() == if old(rows.Remaining()) == [] then [] else old(rows.Remaining())[1..]
    ensures rows.pos == if old(rows.pos) < |rows.results| then old(rows.pos) + 1 else old(rows.pos)
  {
    order := ZeroOrderWithItems;
    var more := rows.Next();
    if more {
      var agg := rows.Scan();
      order := EntryOf(agg);
    }
  }

  /** Grouping the slice `dbx.Select` returns and grouping the same rows
      read through a cursor give the same orders. */
  method BatchAndStreamingAgree(results: seq<Row>) returns (batch: seq<OrderWithItems>, streamed: seq<OrderWithItems>)
    ensures batch == streamed
  {
    batch := GroupBatch(results);
    var rows := new Rows(results);
    streamed := GroupStreaming(rows);
  }
}
