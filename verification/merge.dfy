/**
 * The final upsert of the child company's customers into the parent
 * company's customer dimension, matched on `customer_code`.
 */
module Merge {
  import opened Conform

  /** Every parent row is stored under its own `customer_code`. */
  predicate KeyedByCode(table: map<string, DimCustomer>) {
    forall code :: code in table ==> table[code].customerCode == code
  }

  /** The `customer_code` values of a source frame. */
  function Codes(source: seq<DimCustomer>): set<string> {
    set r | r in source :: r.customerCode
  }

  /** No two source rows share a `customer_code`. */
  predicate UniqueCodes(source: seq<DimCustomer>) {
    forall i, j :: 0 <= i < j < |source| ==> source[i].customerCode != source[j].customerCode
  }

  /**
   * `merge(source, "target.customer_code = source.customer_code")
   *  .whenMatchedUpdateAll().whenNotMatchedInsertAll()`:
   * a matched code takes the source row, an unmatched code is inserted,
   * and a code the source does not mention keeps its row.
   */
  function Upsert(target: map<string, DimCustomer>, source: seq<DimCustomer>): (r: map<string, DimCustomer>)
    requires UniqueCodes(source)
    ensures r.Keys == target.Keys + Codes(source)
    ensures forall i :: 0 <= i < |source| ==> r[source[i].customerCode] == source[i]
    ensures forall code :: code in target && code !in Codes(source) ==> r[code] == target[code]
    ensures KeyedByCode(target) ==> KeyedByCode(r)
  {
    if source == [] then target
    else
      var init, last := source[..|source| - 1], source[|source| - 1];
      assert source == init + [last];
      assert Codes(source) == Codes(init) + {last.customerCode};
      var before := Upsert(target, init);
      assert forall i :: 0 <= i < |init| ==> init[i].customerCode != last.customerCode;
      before[last.customerCode := last]
  }

  /** Each matched code is updated in place and each new code adds exactly one row. */
  lemma UpsertSize(target: map<string, DimCustomer>, source: seq<DimCustomer>)
    requires UniqueCodes(source)
    ensures |Upsert(target, source)| == |target| + |Codes(source) - target.Keys|
  {
    var keys: set<string>, added: set<string> := target.Keys, Codes(source) - target.Keys;
    assert Upsert(target, source).Keys == keys + added;
    DisjointUnionSize(keys, added);
  }

  lemma DisjointUnionSize(a: set<string>, b: set<string>)
    requires a !! b
    ensures |a + b| == |a| + |b|
  {
  }

  /** Merging the same source a second time changes nothing. */
  lemma UpsertIdempotent(target: map<string, DimCustomer>, source: seq<DimCustomer>)
    requires UniqueCodes(source)
    ensures Upsert(Upsert(target, source), source) == Upsert(target, source)
  {
    var once := Upsert(target, source);
    var twice := Upsert(once, source);
    forall code | code in twice.Keys
      ensures code in once && twice[code] == once[code]
    {
      if code in Codes(source) {
        var row :| row in source && row.customerCode == code;
        var i :| 0 <= i < |source| && source[i] == row;
        assert twice[source[i].customerCode] == source[i];
      }
    }
  }

  /** The parent company's customer dimension `dim_customers`, updated in place by the merge. */
  class ParentDimension {
    var rows: map<string, DimCustomer>

    ghost predicate Valid()
      reads this
    {
      KeyedByCode(rows)
    }

    constructor (initial: map<string, DimCustomer>)
      requires KeyedByCode(initial)
      ensures Valid() && rows == initial
    {
      rows := initial;
    }

    /**
     * The upsert of the child rows: afterwards every source code maps to its
     * source row, whether it was updated or inserted, and every other parent
     * row is as it was.
     */
    method MergeChild(source: seq<DimCustomer>)
      requires Valid() && UniqueCodes(source)
      modifies this
      ensures Valid()
      ensures rows == Upsert(old(rows), source)
      ensures rows.Keys == old(rows).Keys + Codes(source)
      ensures forall i :: 0 <= i < |source| ==>
        source[i].customerCode in rows && rows[source[i].customerCode] == source[i]
      ensures forall code :: code in old(rows) && code !in Codes(source) ==>
        code in rows && rows[code] == old(rows)[code]
      ensures |rows| == |old(rows)| + |Codes(source) - old(rows).Keys|
    {
      UpsertSize(rows, source);
      rows := Upsert(rows, source);
    }
  }
}
