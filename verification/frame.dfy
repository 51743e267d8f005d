/** Dataframe operations that act row by row. */
module Frame {

  /**
   * A `withColumn`/`select` step: every row is replaced by `f` of itself,
   * in place, with no row added or dropped.
   */
  function MapRows<A, B>(f: A -> B, rows: seq<A>): (r: seq<B>)
    ensures |r| == |rows|
    ensures forall i :: 0 <= i < |rows| ==> r[i] == f(rows[i])
  {
    if rows == [] then [] else [f(rows[0])] + MapRows(f, rows[1..])
  }
}
