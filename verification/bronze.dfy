/** The raw (bronze) customer rows as read from the CSV exports. */
module Bronze {
  import opened Wrappers

  /** The ingestion columns appended to every raw row. */
  datatype IngestMeta = IngestMeta(readTimestamp: int, fileName: string, fileSize: int)

  /** A customer row: `customer_id`, `customer_name`, `city` and ingestion metadata. */
  datatype Customer = Customer(
    customerId: int,
    customerName: Option<string>,
    city: Option<string>,
    meta: IngestMeta)

  /** The distinct `customer_id` values of a table. */
  function IdSet(rows: seq<Customer>): set<int> {
    set c | c in rows :: c.customerId
  }

  /** No `customer_id` occurs twice. */
  predicate UniqueIds(rows: seq<Customer>) {
    forall i, j :: 0 <= i < j < |rows| ==> rows[i].customerId != rows[j].customerId
  }

  lemma IdSetAppend(rows: seq<Customer>, c: Customer)
    ensures IdSet(rows + [c]) == IdSet(rows) + {c.customerId}
  {
    assert forall x :: x in rows + [c] <==> x in rows || x == c;
  }

  /** With unique ids, a table holds exactly one row per distinct id. */
  lemma {:induction false} UniqueIdsCount(rows: seq<Customer>)
    requires UniqueIds(rows)
    ensures |IdSet(rows)| == |rows|
  {
    if rows != [] {
      var init, last := rows[..|rows| - 1], rows[|rows| - 1];
      assert rows == init + [last];
      IdSetAppend(init, last);
      UniqueIdsCount(init);
      assert last.customerId !in IdSet(init);
    }
  }
}
