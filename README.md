# Order grouping loops of go-select-benchmark

The benchmark suite reads 50000 orders with five items each from PostgreSQL.
It does so in several ways and checks the shape of what it built. Most
variants hand the nesting to a library. Four of them nest the rows
themselves, and two more read rows the server has already nested; those
hand-written loops and reads are what this project models:

- `BenchmarkSqlx` and `BenchmarkPq` get the flat rows of an
  `orders`/`order_items` inner join ordered by order id. The first gets them
  as one slice; the second streams them through a `*sql.Rows` cursor. Both
  group them into a list of orders with their items. A map `orderIdx` sends
  each order id to the position of its entry in the list.
- `BenchmarkSqlxOneResult` and `BenchmarkPqOneResult` run the same join
  restricted to order 1 and build a single order.
- `BenchmarkPqJsonAgg` and `BenchmarkPqJsonAggOneResult` let the server
  group the items with `json_agg`. Each row then becomes one order.

Modules:

- `Orders` (`orders.dfy`): the value types. These are the scanned row, the
  order header, the item, an order with its items, and the json_agg row.
  Go's `int32` becomes a newtype with its bounds, and the nullable `*T` columns
  become `Option`s. `time.Time` and `float64` are payload that is only
  copied.
- `Grouping` (`grouping.dfy`): the grouping loop as a pure left fold,
  `Group`, of one iteration, `Step`. `Materializes` is an independent
  description of a correct result:
  - one entry per distinct key and no other entries;
  - entries in first-seen order;
  - each header taken from the first row with its key;
  - each entry's items exactly those of the rows with its key, in row order.

  `GroupMaterializes` proves the fold meets `Materializes`. The module also
  holds counting lemmas, lemmas for runs of rows that share a key (what
  `ORDER BY orders.id` delivers), and the shape of the benchmark's data set.
- `SingleResult` (`single_result.dfy`): the single-order loop of
  `BenchmarkSqlxOneResult` as a fold, `OneResult`, with what it computes on
  any input, on sorted input and on single-key input.
- `Cursor` (`cursor.dfy`): a class standing for `*sql.Rows`. The rows are
  fixed when the query runs. `Next` advances a position and `Scan` reads the
  row at it.
- `Materializers` (`materializers.dfy`): the four grouping loops, the
  json_agg loop and the single `if rows.Next()` read of
  `BenchmarkPqJsonAggOneResult` as methods over local `seq`/`map` state and
  the cursor, each proved against the specification of what it builds.

On three points the model keeps the loops' behaviour as written:

- A row whose item columns are null still adds an item. The loops copy the
  columns without a test, so nothing is skipped.
- The one-result loop of `BenchmarkSqlxOneResult` does not keep the first key
  it sees. It starts a fresh order at every key it has not seen before (see
  Findings).
- The one-result loop of `BenchmarkPqOneResult` never sets the header, so its
  order keeps the zero header (id 0, empty name, nil time).

## Model

| member | source | states |
|---|---|---|
| Orders.ItemsOf | main_test.go:160-166 | one item per row, in row order, each copying the row's five item columns verbatim (nil values included) |
| Grouping.IndexOf | main_test.go:148 | the lookup finds the first entry whose key is the row's id, or reports that no entry has that id |
| Grouping.StepShape | main_test.go:147-166 | one iteration grows the list by exactly one entry iff no entry has the row's key, never changes a header, and leaves entries of other keys as they were |
| Grouping.StepNewEntryThenItem | main_test.go:149-166 | on an unseen key, appending an entry with the row's header and no items, recording its position as `len(orders) - 1` and then appending the item is one `Step` |
| Grouping.GroupMaterializes | main_test.go:145-167 | the grouped list has pairwise distinct keys; a key has an entry iff some row carries it; entries are in the order their key first occurs; each header comes from the first row with its key; each entry holds the items of exactly the rows with its key, in row order |
| Grouping.GroupItemCount | main_test.go:145-167 | the entries hold as many items in total as there are rows |
| Grouping.GroupEntryCount | main_test.go:145-167 | there are as many entries as distinct order ids among the rows |
| Grouping.GroupNewKey | main_test.go:147-166 | a row with an unseen key appends one entry holding just that row's header and item, and leaves the others alone |
| Grouping.GroupOntoLastEntry | main_test.go:147-166 | a row repeating the key of the last entry only appends its item to that entry |
| Grouping.GroupBlock | main_test.go:133-167 | a run of rows that share a new key, as `ORDER BY orders.id` delivers them, adds exactly one entry: the run's first header with all the run's items |
| Grouping.GroupOneKey | main_test.go:145-167 | rows that all share one key group into a single entry with the first row's header and every item |
| Grouping.FixtureShape | main_test.go:169-175 | n orders with keys 1..n and five consecutive rows each give n entries, and the first has five items |
| Grouping.BenchmarkFixture | main_test.go:169-175 | on the 250000 rows of 50000 orders the checks `len(orders) == 50000` and `len(orders[0].Itens) == 5` hold |
| SingleResult.LastNewKeyIsLastFirstOccurrence | main_test.go:222-233 | the row at which the loop last starts a fresh order is the first row with its key, and every later row repeats an earlier key |
| SingleResult.OneResultFromLastNewKey | main_test.go:220-241 | the loop yields the header of the last newly seen key and the items of every row from that key's first row to the end, whatever their keys |
| SingleResult.OneResultIsLastEntry | main_test.go:209-241 | on rows sorted by order id the loop yields the last entry of the general grouping, the one for the last row's key |
| SingleResult.OneResultSingleKey | main_test.go:209-241 | on the query restricted to one order, the loop yields the grouping's only entry: the first row's header and every row's item, which is also the first key's order |
| SingleResult.OneResultFixture | main_test.go:220-245 | five rows of order 1 give order 1's header with five items, so the check `len(order.Itens) == 5` holds |
| SingleResult.OneResultMixesKeys | main_test.go:222-241 | on keys 1, 2, 1 the loop returns order 2's header holding order 1's third item, which is neither the first key's order nor any grouped entry |
| SingleResult.FirstOrderIsFirstEntry | main_test.go:220-241 | the corrected single-order result (first key, header from its first row, all its items) is the first entry of the general grouping |
| Cursor.Rows.constructor | main_test.go:423 | a fresh result set holds the query's rows and is positioned before the first |
| Cursor.Rows.Next | main_test.go:431 | `Next` reports true iff a row is left, and then moves onto it; at the end it stays put and forbids `Scan` |
| Cursor.Rows.Scan | main_test.go:442 | `Scan` returns the row the last successful `Next` moved onto |
| Materializers.AddRow | main_test.go:148-166 | the loop body, with its `orderIdx` lookup, append and position record, performs exactly one `Step`, keeps the map in step with the list, and adds the row's id to the map's keys |
| Materializers.GroupBatch | main_test.go:145-167 | grouping the slice returned by `dbx.Select` yields `Group` of the rows |
| Materializers.GroupStreaming | main_test.go:429-465 | reading the cursor to its end while grouping yields `Group` of every row the cursor had left |
| Materializers.GroupNextRow | main_test.go:431-465 | one `rows.Next()` turn, with `Scan` and the loop body when a row is found, extends the grouped prefix by that row, or reports the end with the cursor exhausted |
| Materializers.OneResultBatch | main_test.go:220-241 | the single-order loop over the slice, with its `orderIdx` of recorded keys, yields `OneResult` of the rows |
| Materializers.CollectItemsStreaming | main_test.go:505-528 | the single-order streaming loop yields the zero header with one item per row, in row order |
| Materializers.CollectNextItem | main_test.go:506-528 | one `rows.Next()` turn appends the scanned row's item, or reports the end with the cursor exhausted |
| Materializers.JsonAggStreaming | main_test.go:570-597 | one entry per json_agg row, in row order, with that row's header and its decoded items |
| Materializers.JsonAggFirst | main_test.go:643-657 | the first row's entry when there is a row, otherwise the zero value; the cursor moves past exactly that one row, or stays put when none is left |
| Materializers.BatchAndStreamingAgree | main_test.go:139-167 | grouping the same rows as a slice (`BenchmarkSqlx`) and through a cursor (`BenchmarkPq`, lines 423-465) gives the same orders |

## Findings

| source | as written | input that shows it | evidently intended | confidence | as-written member | corrected member |
|---|---|---|---|---|---|---|
| main_test.go:222-233 | on every key missing from `orderIdx` the loop replaces `order` with a fresh order for that key, and later rows of any key still append to it | rows with keys 1, 2, 1: the result is order 2's header with the items of rows 2 and 3, so order 1's item lands under order 2 | the single order of the first key seen, with every item carrying that key | low, not executed: the benchmark's query has `WHERE orders.id = 1`, so the loop only ever sees one key and both readings agree there (`OneResultSingleKey`) | SingleResult.OneResultMixesKeys | SingleResult.FirstOrderIsFirstEntry |

## Left out

- Opening the database, running the query, closing the cursor
  (`defer rows.Close()`) and the library calls `dbx.Select` and
  `db.Query`/`QueryContext` are left out. Their result, the row sequence, is
  a parameter: a `seq` for the slice, or the `results` of a `Cursor.Rows`.
- The error paths that stop the benchmark with `b.Fatalf` are left out. These
  are a failed query, a failed `Scan` conversion, a failed `json.Unmarshal`,
  and a failed shape check. Only the successful path is modelled.
- The shape checks are stated as lemmas on the data set. The data set itself
  is an assumption read off those checks: 50000 orders with ids 1..50000,
  five consecutive rows each.
- JSON decoding of the `json_agg` column is left out; `AggRow` carries the
  items already decoded.
- `time.Time` and `float64` values are only copied by the loops, never
  computed with. They are represented as a nanosecond count and an IEEE-754
  bit pattern, and no operation on them is modelled.
- Cursor.Rows.Next: returns false only once every row has been read. In Go,
  a driver error also ends `for rows.Next()`, and none of the loops at
  main_test.go:431, 506 and 577 checks `rows.Err()` afterwards, so a
  cut-short result would go on to the count checks. Driver errors are
  cursor I/O and are not modelled.
- The timing loop `for range b.N` and the capacity hints `make(..., 0, 50000)`
  are left out; neither affects the result.
- The other benchmarks (Jet, Carta, Gorm) delegate the nesting to their
  libraries and are not part of this model. `gorm.go` only declares types,
  and the generated `.gen` model package is not part of this model.
- In `BenchmarkSqlxOneResult` the loop stores 0 as every `orderIdx` value
  and never reads the values back. Only the map's key set, the ids seen so
  far, matters, and that is what the invariant of `OneResultBatch` tracks.
