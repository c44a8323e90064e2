/** The one-to-many grouping of `BenchmarkSqlx` and `BenchmarkPq` as a pure
    specification: `Group` folds `Step` over the join rows from left to right,
    and `Materializes` says, independently of the fold, what the resulting list
    of orders must look like. `GroupMaterializes` proves the two agree. */
module Grouping {
  import opened Orders

  /** The position of the first entry whose order key is `key`: what the
      lookup `orderIdx[row.ID]` finds when the index is kept in step with the
      entries. */
  function IndexOf(orders: seq<OrderWithItems>, key: Int32): (r: Option<nat>)
    ensures r.Some? ==> r.value < |orders| && orders[r.value].order.id == key
    ensures r.Some? ==> forall j :: 0 <= j < r.value ==> orders[j].order.id != key
    ensures r.None? ==> forall j :: 0 <= j < |orders| ==> orders[j].order.id != key
  {
    if orders == [] then None
    else if orders[0].order.id == key then Some(0)
    else match IndexOf(orders[1..], key)
      case None => None
      case Some(i) => Some(i + 1)
  }

  /** One iteration of the grouping loop: create the entry on first sight of
      the row's key, then append the row's item to that entry. Headers never
      change, and entries for other keys are left as they were. */
  function Step(orders: seq<OrderWithItems>, row: Row): seq<OrderWithItems>
  {
    match IndexOf(orders, row.id)
    case None => orders + [OrderWithItems(HeaderOf(row), [ItemOf(row)])]
    case Some(i) => orders[i := orders[i].(items := orders[i].items + [ItemOf(row)])]
  }

  /** What one iteration does to the list: it grows by one entry exactly
      when no entry has the row's key yet, headers never change, and entries
      for other keys are left as they were. */
  lemma StepShape(orders: seq<OrderWithItems>, row: Row)
    ensures var r := Step(orders, row);
      && |orders| <= |r| <= |orders| + 1
      && (|r| == |orders| + 1 <==> forall j :: 0 <= j < |orders| ==> orders[j].order.id != row.id)
      && (forall j :: 0 <= j < |orders| ==> r[j].order == orders[j].order)
      && (forall j :: 0 <= j < |orders| && orders[j].order.id != row.id ==> r[j] == orders[j])
  {
  }

  /** The grouping loop over the whole row sequence, as a left fold. */
  function Group(rows: seq<Row>): seq<OrderWithItems> {
    if rows == [] then [] else Step(Group(rows[..|rows| - 1]), rows[|rows| - 1])
  }

  /** `Group` unfolded once at the end: the fold the loops advance row by row. */
  lemma GroupSliceSnoc(rows: seq<Row>, lo: nat, hi: nat, orders: seq<OrderWithItems>)
    requires lo < hi <= |rows| && orders == Group(rows[lo..hi - 1])
    ensures Step(orders, rows[hi - 1]) == Group(rows[lo..hi])
  {
    assert rows[lo..hi][..hi - 1 - lo] == rows[lo..hi - 1];
  }

  /** On a new key, `Step` is the same as appending an entry with the row's
      header and no items, then appending the item to that entry. */
  lemma StepNewEntryThenItem(orders: seq<OrderWithItems>, row: Row)
    requires IndexOf(orders, row.id).None?
    ensures var grown := orders + [OrderWithItems(HeaderOf(row), [])];
      Step(orders, row) == grown[|orders| := grown[|orders|].(items := grown[|orders|].items + [ItemOf(row)])]
  {
    var grown := orders + [OrderWithItems(HeaderOf(row), [])];
    var r := grown[|orders| := grown[|orders|].(items := grown[|orders|].items + [ItemOf(row)])];
    assert r[..|orders|] == orders;
    assert r[|orders|].items == [ItemOf(row)];
    assert r == orders + [OrderWithItems(HeaderOf(row), [ItemOf(row)])];
  }

  /** The index of the first row whose order key is `key`. */
  function FirstIndex(rows: seq<Row>, key: Int32): (i: nat)
    requires key in Ids(rows)
    ensures i < |rows| && rows[i].id == key
    ensures forall j :: 0 <= j < i ==> rows[j].id != key
  {
    var prefix := rows[..|rows| - 1];
    if key in Ids(prefix) then FirstIndex(prefix, key) else |rows| - 1
  }

  /** The items of the rows whose order key is `key`, in row order. */
  function ItemsFor(rows: seq<Row>, key: Int32): seq<OrderItem> {
    if rows == [] then []
    else
      var last := rows[|rows| - 1];
      ItemsFor(rows[..|rows| - 1], key) + (if last.id == key then [ItemOf(last)] else [])
  }

  /** No two entries share an order key. */
  ghost predicate KeysDistinct(orders: seq<OrderWithItems>) {
    forall i, j :: 0 <= i < j < |orders| ==> orders[i].order.id != orders[j].order.id
  }

  /** The entries' keys are exactly the keys occurring in `rows`. */
  ghost predicate KeysExact(rows: seq<Row>, orders: seq<OrderWithItems>) {
    && (forall i :: 0 <= i < |orders| ==> orders[i].order.id in Ids(rows))
    && (forall k :: k in Ids(rows) ==> IndexOf(orders, k).Some?)
  }

  /** Entries are ordered by the first occurrence of their key. */
  ghost predicate FirstSeenOrder(rows: seq<Row>, orders: seq<OrderWithItems>)
    requires KeysExact(rows, orders)
  {
    forall i, j :: 0 <= i < j < |orders| ==>
      FirstIndex(rows, orders[i].order.id) < FirstIndex(rows, orders[j].order.id)
  }

  /** Each header is taken from the first row with that key. */
  ghost predicate HeadersFromFirstRow(rows: seq<Row>, orders: seq<OrderWithItems>)
    requires KeysExact(rows, orders)
  {
    forall i :: 0 <= i < |orders| ==>
      orders[i].order == HeaderOf(rows[FirstIndex(rows, orders[i].order.id)])
  }

  /** Each entry holds the items of all rows with its key, in row order. */
  ghost predicate ItemsInRowOrder(rows: seq<Row>, orders: seq<OrderWithItems>) {
    forall i :: 0 <= i < |orders| ==> orders[i].items == ItemsFor(rows, orders[i].order.id)
  }

  /** What a correct materialization of `rows` into `orders` is:
      one entry per distinct key and no other entries; entries ordered by the
      first occurrence of their key; each header taken from the first row with
      that key; each entry's items exactly the items of the rows with that key,
      in row order. */
  ghost predicate Materializes(rows: seq<Row>, orders: seq<OrderWithItems>) {
    && KeysDistinct(orders)
    && KeysExact(rows, orders)
    && FirstSeenOrder(rows, orders)
    && HeadersFromFirstRow(rows, orders)
    && ItemsInRowOrder(rows, orders)
  }

  lemma {:induction false} ItemsForAbsent(rows: seq<Row>, key: Int32)
    requires key !in Ids(rows)
    ensures ItemsFor(rows, key) == []
  {
    if rows != [] {
      ItemsForAbsent(rows[..|rows| - 1], key);
    }
  }

  lemma IdsSnoc(rows: seq<Row>, row: Row)
    ensures Ids(rows + [row]) == Ids(rows) + {row.id}
  {
    assert (rows + [row])[..|rows|] == rows;
  }

  lemma FirstIndexSnoc(rows: seq<Row>, row: Row, key: Int32)
    requires key in Ids(rows)
    ensures key in Ids(rows + [row]) && FirstIndex(rows + [row], key) == FirstIndex(rows, key)
  {
    IdsSnoc(rows, row);
    assert (rows + [row])[..|rows|] == rows;
  }

  lemma ItemsForSnoc(rows: seq<Row>, row: Row, key: Int32)
    ensures ItemsFor(rows + [row], key)
         == ItemsFor(rows, key) + (if row.id == key then [ItemOf(row)] else [])
  {
    assert (rows + [row])[..|rows|] == rows;
  }

  /** Step on an already-seen key preserves the materialization invariant. */
  lemma StepSeenKey(rows: seq<Row>, orders: seq<OrderWithItems>, row: Row)
    requires Materializes(rows, orders)
    requires row.id in Ids(rows)
    ensures Materializes(rows + [row], Step(orders, row))
  {
    var i := IndexOf(orders, row.id).value;
    var r := orders[i := orders[i].(items := orders[i].items + [ItemOf(row)])];
    assert Step(orders, row) == r;
    IdsSnoc(rows, row);
    SeenKeyKeysExact(rows, orders, row, i);
    SeenKeyOrder(rows, orders, row, i);
    SeenKeyHeaders(rows, orders, row, i);
    SeenKeyItems(rows, orders, row, i);
  }

  lemma SeenKeyKeysExact(rows: seq<Row>, orders: seq<OrderWithItems>, row: Row, i: nat)
    requires KeysExact(rows, orders) && Ids(rows + [row]) == Ids(rows)
    requires i < |orders| && orders[i].order.id == row.id
    ensures KeysExact(rows + [row], orders[i := orders[i].(items := orders[i].items + [ItemOf(row)])])
  {
    var r := orders[i := orders[i].(items := orders[i].items + [ItemOf(row)])];
    var ids := Ids(rows + [row]);
    forall j | 0 <= j < |r|
      ensures r[j].order.id in ids
    {
      assert r[j].order == orders[j].order;
    }
    forall k | k in ids
      ensures IndexOf(r, k).Some?
    {
      IndexOfFound(r, IndexOf(orders, k).value, k);
    }
  }

  lemma IndexOfFound(orders: seq<OrderWithItems>, j: nat, key: Int32)
    requires j < |orders| && orders[j].order.id == key
    ensures IndexOf(orders, key).Some?
  {
  }

  lemma SeenKeyOrder(rows: seq<Row>, orders: seq<OrderWithItems>, row: Row, i: nat)
    requires KeysExact(rows, orders) && FirstSeenOrder(rows, orders)
    requires Ids(rows + [row]) == Ids(rows)
    requires i < |orders| && orders[i].order.id == row.id
    requires KeysExact(rows + [row], orders[i := orders[i].(items := orders[i].items + [ItemOf(row)])])
    ensures FirstSeenOrder(rows + [row], orders[i := orders[i].(items := orders[i].items + [ItemOf(row)])])
  {
    var rows', r := rows + [row], orders[i := orders[i].(items := orders[i].items + [ItemOf(row)])];
    forall j | 0 <= j < |r|
      ensures FirstIndex(rows', r[j].order.id) == FirstIndex(rows, orders[j].order.id)
    {
      FirstIndexSnoc(rows, row, orders[j].order.id);
    }
  }

  lemma SeenKeyHeaders(rows: seq<Row>, orders: seq<OrderWithItems>, row: Row, i: nat)
    requires KeysExact(rows, orders) && HeadersFromFirstRow(rows, orders)
    requires Ids(rows + [row]) == Ids(rows)
    requires i < |orders| && orders[i].order.id == row.id
    requires KeysExact(rows + [row], orders[i := orders[i].(items := orders[i].items + [ItemOf(row)])])
    ensures HeadersFromFirstRow(rows + [row], orders[i := orders[i].(items := orders[i].items + [ItemOf(row)])])
  {
    var rows', r := rows + [row], orders[i := orders[i].(items := orders[i].items + [ItemOf(row)])];
    forall j | 0 <= j < |r|
      ensures r[j].order == HeaderOf(rows'[FirstIndex(rows', r[j].order.id)])
    {
      var f := FirstIndex(rows, orders[j].order.id);
      FirstIndexSnoc(rows, row, orders[j].order.id);
      assert rows'[f] == rows[f];
    }
  }

  lemma SeenKeyItems(rows: seq<Row>, orders: seq<OrderWithItems>, row: Row, i: nat)
    requires KeysDistinct(orders) && ItemsInRowOrder(rows, orders)
    requires i < |orders| && orders[i].order.id == row.id
    ensures ItemsInRowOrder(rows + [row], orders[i := orders[i].(items := orders[i].items + [ItemOf(row)])])
  {
    forall k
      ensures ItemsFor(rows + [row], k) == ItemsFor(rows, k) + (if row.id == k then [ItemOf(row)] else [])
    {
      ItemsForSnoc(rows, row, k);
    }
  }

  /** Step on a key not seen before preserves the materialization invariant. */
  lemma StepNewKey(rows: seq<Row>, orders: seq<OrderWithItems>, row: Row)
    requires Materializes(rows, orders)
    requires row.id !in Ids(rows)
    ensures Materializes(rows + [row], Step(orders, row))
  {
    assert IndexOf(orders, row.id).None?;
    var r := orders + [OrderWithItems(HeaderOf(row), [ItemOf(row)])];
    assert Step(orders, row) == r;
    IdsSnoc(rows, row);
    NewKeyKeysExact(rows, orders, row);
    NewKeyOrder(rows, orders, row);
    NewKeyHeaders(rows, orders, row);
    NewKeyItems(rows, orders, row);
  }

  lemma NewKeyKeysExact(rows: seq<Row>, orders: seq<OrderWithItems>, row: Row)
    requires KeysExact(rows, orders) && Ids(rows + [row]) == Ids(rows) + {row.id}
    ensures KeysExact(rows + [row], orders + [OrderWithItems(HeaderOf(row), [ItemOf(row)])])
  {
    var r := orders + [OrderWithItems(HeaderOf(row), [ItemOf(row)])];
    forall k | k in Ids(rows + [row])
      ensures IndexOf(r, k).Some?
    {
      if k == row.id {
        assert r[|orders|].order.id == k;
      } else {
        var j := IndexOf(orders, k).value;
        assert r[j].order.id == k;
      }
    }
  }

  lemma NewKeyFirstIndices(rows: seq<Row>, orders: seq<OrderWithItems>, row: Row)
    requires KeysExact(rows, orders) && row.id !in Ids(rows)
    ensures row.id in Ids(rows + [row]) && FirstIndex(rows + [row], row.id) == |rows|
    ensures forall i :: 0 <= i < |orders| ==>
      orders[i].order.id in Ids(rows + [row]) &&
      FirstIndex(rows + [row], orders[i].order.id) == FirstIndex(rows, orders[i].order.id)
  {
    IdsSnoc(rows, row);
    forall i | 0 <= i < |orders|
      ensures orders[i].order.id in Ids(rows + [row])
      ensures FirstIndex(rows + [row], orders[i].order.id) == FirstIndex(rows, orders[i].order.id)
    {
      FirstIndexSnoc(rows, row, orders[i].order.id);
    }
  }

  lemma NewKeyOrder(rows: seq<Row>, orders: seq<OrderWithItems>, row: Row)
    requires KeysExact(rows, orders) && FirstSeenOrder(rows, orders)
    requires row.id !in Ids(rows)
    requires KeysExact(rows + [row], orders + [OrderWithItems(HeaderOf(row), [ItemOf(row)])])
    ensures FirstSeenOrder(rows + [row], orders + [OrderWithItems(HeaderOf(row), [ItemOf(row)])])
  {
    var rows', r := rows + [row], orders + [OrderWithItems(HeaderOf(row), [ItemOf(row)])];
    NewKeyFirstIndices(rows, orders, row);
    forall i | 0 <= i < |r|
      ensures FirstIndex(rows', r[i].order.id)
           == if i < |orders| then FirstIndex(rows, orders[i].order.id) else |rows|
    {
    }
  }

  lemma NewKeyHeaders(rows: seq<Row>, orders: seq<OrderWithItems>, row: Row)
    requires KeysExact(rows, orders) && HeadersFromFirstRow(rows, orders)
    requires row.id !in Ids(rows)
    requires KeysExact(rows + [row], orders + [OrderWithItems(HeaderOf(row), [ItemOf(row)])])
    ensures HeadersFromFirstRow(rows + [row], orders + [OrderWithItems(HeaderOf(row), [ItemOf(row)])])
  {
    var rows', r := rows + [row], orders + [OrderWithItems(HeaderOf(row), [ItemOf(row)])];
    NewKeyFirstIndices(rows, orders, row);
    forall i | 0 <= i < |r|
      ensures r[i].order == HeaderOf(rows'[FirstIndex(rows', r[i].order.id)])
    {
      if i < |orders| {
        var f := FirstIndex(rows, orders[i].order.id);
        assert rows'[f] == rows[f];
      }
    }
  }

  lemma NewKeyItems(rows: seq<Row>, orders: seq<OrderWithItems>, row: Row)
    requires KeysExact(rows, orders) && ItemsInRowOrder(rows, orders) && row.id !in Ids(rows)
    ensures ItemsInRowOrder(rows + [row], orders + [OrderWithItems(HeaderOf(row), [ItemOf(row)])])
  {
    ItemsForAbsent(rows, row.id);
    forall k
      ensures ItemsFor(rows + [row], k) == ItemsFor(rows, k) + (if row.id == k then [ItemOf(row)] else [])
    {
      ItemsForSnoc(rows, row, k);
    }
  }

  /** The fold meets the specification: one entry per distinct key, in
      first-seen order, header from the key's first row, items from every row
      with the key in row order. */
  lemma {:induction false} GroupMaterializes(rows: seq<Row>)
    ensures Materializes(rows, Group(rows))
  {
    if rows != [] {
      var prefix, row := rows[..|rows| - 1], rows[|rows| - 1];
      assert rows == prefix + [row];
      GroupMaterializes(prefix);
      if row.id in Ids(prefix) {
        StepSeenKey(prefix, Group(prefix), row);
      } else {
        StepNewKey(prefix, Group(prefix), row);
      }
    }
  }

  /** The key part of the specification on its own: no key twice, and the
      entries' keys are exactly the input's keys. */
  lemma GroupKeys(rows: seq<Row>)
    ensures KeysDistinct(Group(rows)) && KeysExact(rows, Group(rows))
  {
    GroupMaterializes(rows);
  }

  /** The number of items over all entries. */
  function TotalItems(orders: seq<OrderWithItems>): nat {
    if orders == [] then 0 else TotalItems(orders[..|orders| - 1]) + |orders[|orders| - 1].items|
  }

  lemma {:induction false} TotalItemsUpdate(orders: seq<OrderWithItems>, i: nat, entry: OrderWithItems)
    requires i < |orders|
    ensures TotalItems(orders[i := entry]) == TotalItems(orders) - |orders[i].items| + |entry.items|
  {
    var init := orders[..|orders| - 1];
    assert orders[i := entry][..|orders| - 1] == if i == |orders| - 1 then init else init[i := entry];
    if i < |orders| - 1 {
      TotalItemsUpdate(init, i, entry);
    }
  }

  lemma TotalItemsAppend(orders: seq<OrderWithItems>, entry: OrderWithItems)
    ensures TotalItems(orders + [entry]) == TotalItems(orders) + |entry.items|
  {
    assert (orders + [entry])[..|orders|] == orders;
  }

  /** Every row contributes exactly one item: the entries hold as many items
      as there were rows. */
  lemma {:induction false} GroupItemCount(rows: seq<Row>)
    ensures TotalItems(Group(rows)) == |rows|
  {
    if rows != [] {
      var prefix, row := rows[..|rows| - 1], rows[|rows| - 1];
      var g := Group(prefix);
      GroupItemCount(prefix);
      match IndexOf(g, row.id)
      case None =>
        TotalItemsAppend(g, OrderWithItems(HeaderOf(row), [ItemOf(row)]));
      case Some(i) =>
        TotalItemsUpdate(g, i, g[i].(items := g[i].items + [ItemOf(row)]));
    }
  }

  /** There are exactly as many entries as distinct order keys in the input. */
  lemma {:induction false} GroupEntryCount(rows: seq<Row>)
    ensures |Group(rows)| == |Ids(rows)|
  {
    if rows != [] {
      var prefix, row := rows[..|rows| - 1], rows[|rows| - 1];
      var g := Group(prefix);
      assert Group(rows) == Step(g, row);
      assert Ids(rows) == Ids(prefix) + {row.id};
      GroupEntryCount(prefix);
      GroupKeys(prefix);
      if row.id in Ids(prefix) {
        var i := IndexOf(g, row.id).value;
        assert g[i].order.id == row.id;
        assert |Step(g, row)| == |g|;
        assert Ids(rows) == Ids(prefix);
      } else {
        assert forall j :: 0 <= j < |g| ==> g[j].order.id != row.id;
        assert |Step(g, row)| == |g| + 1;
        assert |Ids(rows)| == |Ids(prefix)| + 1;
      }
    }
  }

  /** The first row with an unseen key opens a new entry at the end. */
  lemma GroupNewKey(prefix: seq<Row>, row: Row)
    requires row.id !in Ids(prefix)
    ensures Group(prefix + [row]) == Group(prefix) + [OrderWithItems(HeaderOf(row), [ItemOf(row)])]
  {
    assert (prefix + [row])[..|prefix|] == prefix;
    var g := Group(prefix);
    GroupKeys(prefix);
    assert forall j :: 0 <= j < |g| ==> g[j].order.id != row.id;
  }

  /** A row whose key is that of the last entry, and of no other, appends to
      the last entry. */
  lemma StepOntoLast(orders: seq<OrderWithItems>, entry: OrderWithItems, row: Row)
    requires entry.order.id == row.id
    requires forall j :: 0 <= j < |orders| ==> orders[j].order.id != row.id
    ensures Step(orders + [entry], row) == orders + [entry.(items := entry.items + [ItemOf(row)])]
  {
    assert (orders + [entry])[|orders|].order.id == row.id;
    assert IndexOf(orders + [entry], row.id) == Some(|orders|);
  }

  /** All rows carry one key, as in the single-order queries: the grouping
      is one entry with the first row's header and every row's item. */
  lemma {:induction false} GroupOneKey(rows: seq<Row>)
    requires rows != []
    requires forall i :: 0 <= i < |rows| ==> rows[i].id == rows[0].id
    ensures Group(rows) == [OrderWithItems(HeaderOf(rows[0]), ItemsOf(rows))]
  {
    var prefix, row := rows[..|rows| - 1], rows[|rows| - 1];
    assert ItemsOf(rows) == ItemsOf(prefix) + [ItemOf(row)];
    if prefix == [] {
      assert rows == [row] && ItemsOf(rows) == [ItemOf(row)];
      assert Group(rows) == Step(Group(prefix), row);
    } else {
      GroupOneKey(prefix);
      var entry := OrderWithItems(HeaderOf(prefix[0]), ItemsOf(prefix));
      assert IndexOf([entry], row.id) == Some(0);
    }
  }

  /** A row whose key is that of the last entry appends its item to the last
      entry, leaving every other entry as it was. */
  lemma GroupOntoLastEntry(prefix: seq<Row>, row: Row)
    requires Group(prefix) != [] && Group(prefix)[|Group(prefix)| - 1].order.id == row.id
    ensures var g := Group(prefix); var last := |g| - 1;
      Group(prefix + [row]) == g[..last] + [g[last].(items := g[last].items + [ItemOf(row)])]
  {
    assert (prefix + [row])[..|prefix|] == prefix;
    var g := Group(prefix);
    var last := |g| - 1;
    GroupKeys(prefix);
    var others := g[..last];
    forall j | 0 <= j < |others|
      ensures others[j].order.id != row.id
    {
      assert others[j] == g[j];
    }
    assert g == others + [g[last]];
    StepOntoLast(others, g[last], row);
  }

  /** A contiguous run of rows sharing a key not seen before (what the query's
      ORDER BY on the order key delivers) becomes exactly one new entry at the
      end, holding the run's first header and all of the run's items. */
  lemma {:induction false} GroupBlock(prefix: seq<Row>, block: seq<Row>)
    requires block != []
    requires forall i :: 0 <= i < |block| ==> block[i].id == block[0].id
    requires block[0].id !in Ids(prefix)
    ensures Group(prefix + block) == Group(prefix) + [OrderWithItems(HeaderOf(block[0]), ItemsOf(block))]
  {
    var init, last := block[..|block| - 1], block[|block| - 1];
    assert prefix + block == (prefix + init) + [last];
    assert ItemsOf(block) == ItemsOf(init) + [ItemOf(last)];
    if init == [] {
      assert prefix + init == prefix && block == [last];
      assert ItemsOf(block) == [ItemOf(last)];
      GroupNewKey(prefix, last);
    } else {
      GroupBlock(prefix, init);
      var g := Group(prefix);
      GroupKeys(prefix);
      StepOntoLast(g, OrderWithItems(HeaderOf(block[0]), ItemsOf(init)), last);
    }
  }

  /** The benchmark's data set in general form: `n` orders with keys
      1..n, five consecutive rows each, yields `n` entries, the first holding
      five items. */
  lemma {:induction false} FixtureShape(rows: seq<Row>, n: nat)
    requires n >= 1 && |rows| == 5 * n
    requires forall i :: 0 <= i < |rows| ==> rows[i].id as int == i / 5 + 1
    ensures |Group(rows)| == n && |Group(rows)[0].items| == 5
  {
    var prefix, block := rows[..5 * (n - 1)], rows[5 * (n - 1)..];
    assert rows == prefix + block;
    FixtureLastBlock(rows, n);
    GroupBlock(prefix, block);
    if n > 1 {
      FixtureShape(prefix, n - 1);
    }
  }

  /** In the fixture, the last five rows all carry key `n`, which no earlier
      row carries. */
  lemma FixtureLastBlock(rows: seq<Row>, n: nat)
    requires n >= 1 && |rows| == 5 * n
    requires forall i :: 0 <= i < |rows| ==> rows[i].id as int == i / 5 + 1
    ensures var block := rows[5 * (n - 1)..];
      && block != []
      && (forall i :: 0 <= i < |block| ==> block[i].id == block[0].id)
      && block[0].id !in Ids(rows[..5 * (n - 1)])
  {
    var prefix, block := rows[..5 * (n - 1)], rows[5 * (n - 1)..];
    assert forall i :: 0 <= i < |block| ==> block[i] == rows[5 * (n - 1) + i];
    assert forall i :: 0 <= i < |block| ==> block[i].id as int == n;
    forall k | k in Ids(prefix)
      ensures k as int < n
    {
      var i := FirstIndex(prefix, k);
      assert prefix[i] == rows[i];
    }
  }

  /** The expectation the benchmarks check: 50000 orders of five items each
      group into 50000 entries and the first has five items. */
  lemma BenchmarkFixture(rows: seq<Row>)
    requires |rows| == 250000
    requires forall i :: 0 <= i < |rows| ==> rows[i].id as int == i / 5 + 1
    ensures |Group(rows)| == 50000 && |Group(rows)[0].items| == 5
  {
    FixtureShape(rows, 50000);
  }
}
