/** Value types of the order benchmarks: the row scanned from the
    orders/order_items inner join, the order header, the order item and an
    order together with its items. Identifiers are Go `int32`s; the timestamp
    and the price are payload that is only ever copied. */
module Orders {

  datatype Option<T> = None | Some(value: T)

  /** Go's `int32`: every identifier and the item quantity. */
  newtype Int32 = x: int | -0x8000_0000 <= x < 0x8000_0000

  /** A `time.Time`. The loops never compute with it, they only copy it. */
  datatype Timestamp = Timestamp(unixNanos: int)

  /** A `float64` price, kept as its bit pattern. Only ever copied. */
  datatype Float64 = Float64(bits: bv64)

  /** One row of the join, in the column order of the scan: the order's
      columns followed by one order item's columns. The `*T` columns are
      nullable and become `Option`s. */
  datatype Row = Row(
    id: Int32,
    customerName: string,
    createdAt: Option<Timestamp>,
    orderItemId: Int32,
    orderId: Option<Int32>,
    productName: string,
    price: Float64,
    quantity: Option<Int32>)

  /** The order header (the embedded `model.Orders`). */
  datatype Order = Order(id: Int32, customerName: string, createdAt: Option<Timestamp>)

  /** An order item (`model.OrderItems`). */
  datatype OrderItem = OrderItem(
    id: Int32,
    orderId: Option<Int32>,
    productName: string,
    price: Float64,
    quantity: Option<Int32>)

  /** An order with its nested items (`OrderWithItems`). */
  datatype OrderWithItems = OrderWithItems(order: Order, items: seq<OrderItem>)

  /** One row of the json_agg query: the order's columns and its item array,
      already decoded. */
  datatype AggRow = AggRow(
    id: Int32,
    customerName: string,
    createdAt: Option<Timestamp>,
    items: seq<OrderItem>)

  /** The zero value of `OrderWithItems`: id 0, empty name, nil timestamp,
      nil item slice. */
  const ZeroOrderWithItems := OrderWithItems(Order(0, "", None), [])

  /** The order header built from the first three columns of a row. */
  function HeaderOf(row: Row): Order {
    Order(row.id, row.customerName, row.createdAt)
  }

  /** The item built from the last five columns of a row, copied verbatim,
      nil `OrderID` and nil `Quantity` included. */
  function ItemOf(row: Row): OrderItem {
    OrderItem(row.orderItemId, row.orderId, row.productName, row.price, row.quantity)
  }

  /** The entry built from one json_agg row. */
  function EntryOf(agg: AggRow): OrderWithItems {
    OrderWithItems(Order(agg.id, agg.customerName, agg.createdAt), agg.items)
  }

  /** One item per row, in row order. */
  function ItemsOf(rows: seq<Row>): (items: seq<OrderItem>)
    ensures |items| == |rows|
    ensures forall i :: 0 <= i < |rows| ==> items[i] == ItemOf(rows[i])
  {
    if rows == [] then [] else ItemsOf(rows[..|rows| - 1]) + [ItemOf(rows[|rows| - 1])]
  }

  /** `ItemsOf` unfolded once at the end of a slice. */
  lemma ItemsOfSliceSnoc(rows: seq<Row>, lo: nat, hi: nat)
    requires lo < hi <= |rows|
    ensures ItemsOf(rows[lo..hi]) == ItemsOf(rows[lo..hi - 1]) + [ItemOf(rows[hi - 1])]
  {
    assert rows[lo..hi][..hi - 1 - lo] == rows[lo..hi - 1];
  }

  /** The set of order keys (`row.ID`) that occur in `rows`. */
  function Ids(rows: seq<Row>): (ids: set<Int32>)
    ensures forall i :: 0 <= i < |rows| ==> rows[i].id in ids
  {
    if rows == [] then {} else Ids(rows[..|rows| - 1]) + {rows[|rows| - 1].id}
  }

  /** `Ids` unfolded once at the end of a slice. */
  lemma IdsSliceSnoc(rows: seq<Row>, lo: nat, hi: nat)
    requires lo < hi <= |rows|
    ensures Ids(rows[lo..hi]) == Ids(rows[lo..hi - 1]) + {rows[hi - 1].id}
  {
    assert rows[lo..hi][..hi - 1 - lo] == rows[lo..hi - 1];
  }
}
