/**
 * The silver cleansing steps: deduplicate on `customer_id`, trim the name,
 * correct misspelled cities, title-case the name and fill missing cities
 * from a per-customer correction table.
 */
module Cleanse {
  import opened Wrappers
  import opened Text
  import opened Frame
  import opened Bronze

  // ---------------------------------------------------------------------
  // dropDuplicates(['customer_id'])

  /**
   * What `dropDuplicates` on one key promises: ids become unique, every kept
   * row is an input row, and every input id is still present. Which of
   * several rows with the same id survives is left open.
   */
  ghost predicate IsDeduplicationOf(out: seq<Customer>, input: seq<Customer>) {
    && UniqueIds(out)
    && (forall c :: c in out ==> c in input)
    && IdSet(out) == IdSet(input)
  }

  /** One deduplication: the first row of each id is kept, in input order. */
  function DropDuplicates(rows: seq<Customer>): (r: seq<Customer>)
    ensures IsDeduplicationOf(r, rows)
  {
    if rows == [] then []
    else
      var init, last := rows[..|rows| - 1], rows[|rows| - 1];
      assert rows == init + [last];
      IdSetAppend(init, last);
      var kept := DropDuplicates(init);
      if last.customerId in IdSet(kept) then kept
      else
        IdSetAppend(kept, last);
        kept + [last]
  }

  /** Whatever row survives, a deduplicated table has one row per distinct input id. */
  lemma DeduplicationSize(out: seq<Customer>, input: seq<Customer>)
    requires IsDeduplicationOf(out, input)
    ensures |out| == |IdSet(input)|
    ensures |out| <= |input|
  {
    UniqueIdsCount(out);
    IdSetSize(input);
  }

  lemma {:induction false} IdSetSize(rows: seq<Customer>)
    ensures |IdSet(rows)| <= |rows|
  {
    if rows != [] {
      var init, last := rows[..|rows| - 1], rows[|rows| - 1];
      assert rows == init + [last];
      IdSetAppend(init, last);
      IdSetSize(init);
    }
  }

  // ---------------------------------------------------------------------
  // withColumn("customer_name", trim(customer_name))

  /** `trim` on a nullable column: null stays null. */
  function TrimName(name: Option<string>): (r: Option<string>)
    ensures r.None? <==> name.None?
    ensures r.Some? ==> NoEdgeSpaces(r.value) && StripsSpaces(name.value, r.value)
  {
    match name
    case None => None
    case Some(n) => Some(Trim(n))
  }

  function TrimNameRow(c: Customer): Customer
  {
    c.(customerName := TrimName(c.customerName))
  }

  function TrimNames(rows: seq<Customer>): seq<Customer> {
    MapRows(TrimNameRow, rows)
  }

  /**
   * The inspection query `filter(customer_name != trim(customer_name))`:
   * a null name compares as null and is filtered out.
   */
  function UntrimmedNames(rows: seq<Customer>): (r: seq<Customer>)
    ensures forall c :: c in r ==> c in rows && c.customerName.Some?
    ensures forall c :: c in rows && c.customerName.Some? && c.customerName.value != Trim(c.customerName.value) ==> c in r
  {
    if rows == [] then []
    else
      var rest := UntrimmedNames(rows[1..]);
      var c := rows[0];
      assert forall x :: x in rows <==> x == c || x in rows[1..];
      if c.customerName.Some? && c.customerName.value != Trim(c.customerName.value) then [c] + rest else rest
  }

  /** After the trim step, the re-run inspection query finds nothing. */
  lemma TrimNamesLeavesNothingToTrim(rows: seq<Customer>)
    ensures UntrimmedNames(TrimNames(rows)) == []
  {
    var t := TrimNames(rows);
    forall c | c in t && c.customerName.Some?
      ensures c.customerName.value == Trim(c.customerName.value)
    {
      TrimIdempotent(c.customerName.value);
    }
    if UntrimmedNames(t) != [] {
      var c := UntrimmedNames(t)[0];
      assert c in UntrimmedNames(t);
      UntrimmedNamesSelects(t, c);
    }
  }

  lemma {:induction false} UntrimmedNamesSelects(rows: seq<Customer>, c: Customer)
    requires c in UntrimmedNames(rows)
    ensures c.customerName.Some? && c.customerName.value != Trim(c.customerName.value)
  {
    var rest := UntrimmedNames(rows[1..]);
    var h := rows[0];
    if h.customerName.Some? && h.customerName.value != Trim(h.customerName.value) {
      if c != h {
        UntrimmedNamesSelects(rows[1..], c);
      }
    } else {
      UntrimmedNamesSelects(rows[1..], c);
    }
  }

  // ---------------------------------------------------------------------
  // replace(city_mapping, subset=["city"]) and the allowed-set `when`

  /** Known misspellings and their canonical city. */
  const CityMapping: map<string, string> := map[
    "Bengaluruu" := "Bengaluru",
    "Bengalore" := "Bengaluru",
    "Benglore" := "Bengaluru",
    "Hyedarabadd" := "Hyderabad",
    "Hyderabadd" := "Hyderabad",
    "Hyderbad" := "Hyderabad",
    "NewDelhi" := "New Delhi",
    "NewDheli" := "New Delhi",
    "NewDelhee" := "New Delhi"
  ]

  const AllowedCities: seq<string> := ["Bengaluru", "Hyderabad", "New Delhi"]

  /** Every correction lands in the allowed set, and no correction is itself a misspelling. */
  lemma CityMappingTargets()
    ensures forall typo :: typo in CityMapping ==> CityMapping[typo] in AllowedCities
    ensures forall typo :: typo in CityMapping ==> CityMapping[typo] !in CityMapping
  {
  }

  /** `replace` on the city column: whole-value matches only; null is untouched. */
  function ReplaceCityTypo(city: Option<string>): (r: Option<string>)
    ensures city.Some? && city.value in CityMapping ==> r == Some(CityMapping[city.value])
    ensures city.None? || city.value !in CityMapping ==> r == city
    ensures r.Some? ==> r.value !in CityMapping
  {
    match city
    case None => None
    case Some(v) =>
      CityMappingTargets();
      if v in CityMapping then Some(CityMapping[v]) else city
  }

  /**
   * `when(city.isNull(), None).when(city.isin(allowed), city).otherwise(city)`:
   * every branch gives back the column, so no value is altered or dropped.
   */
  function KeepAllowedCity(city: Option<string>): (r: Option<string>)
    ensures r == city
  {
    if city.None? then None
    else if city.value in AllowedCities then city
    else city
  }

  /**
   * The city step: a known misspelling becomes its allowed spelling, any
   * other city and a null pass through, and no known misspelling survives.
   */
  function NormaliseCity(city: Option<string>): (r: Option<string>)
    ensures r.None? <==> city.None?
    ensures city.Some? && city.value in CityMapping ==> r == Some(CityMapping[city.value]) && r.value in AllowedCities
    ensures city.Some? && city.value !in CityMapping ==> r == city
    ensures r.Some? ==> r.value !in CityMapping
  {
    CityMappingTargets();
    KeepAllowedCity(ReplaceCityTypo(city))
  }

  /** Normalising a normalised city changes nothing. */
  lemma NormaliseCityIdempotent(city: Option<string>)
    ensures NormaliseCity(NormaliseCity(city)) == NormaliseCity(city)
  {
  }

  function NormaliseCityRow(c: Customer): Customer
  {
    c.(city := NormaliseCity(c.city))
  }

  function NormaliseCities(rows: seq<Customer>): seq<Customer> {
    MapRows(NormaliseCityRow, rows)
  }

  // ---------------------------------------------------------------------
  // when(customer_name.isNull(), None).otherwise(initcap(customer_name))

  function TitleCaseName(name: Option<string>): (r: Option<string>)
    ensures r.None? <==> name.None?
    ensures r.Some? ==> r.value == InitCap(name.value)
  {
    if name.None? then None else Some(InitCap(name.value))
  }

  function TitleCaseNameRow(c: Customer): Customer
  {
    c.(customerName := TitleCaseName(c.customerName))
  }

  function TitleCaseNames(rows: seq<Customer>): seq<Customer> {
    MapRows(TitleCaseNameRow, rows)
  }

  // ---------------------------------------------------------------------
  // join(df_fix, "customer_id", "left").withColumn("city", coalesce(city, fixed_city))

  /** A row of the correction table `df_fix`: `(customer_id, fixed_city)`. */
  datatype FixRow = FixRow(customerId: int, fixedCity: string)

  /** The corrections confirmed by the business, in dictionary order. */
  const CustomerCityFix: seq<FixRow> := [
    FixRow(789403, "New Delhi"),
    FixRow(789420, "Bengaluru"),
    FixRow(789521, "Hyderabad"),
    FixRow(789603, "Hyderabad")
  ]

  predicate UniqueFixKeys(fix: seq<FixRow>) {
    forall i, j :: 0 <= i < j < |fix| ==> fix[i].customerId != fix[j].customerId
  }

  /** The table was built from a dictionary, so its keys are unique. */
  lemma CustomerCityFixKeysUnique()
    ensures UniqueFixKeys(CustomerCityFix)
  {
  }

  /** Every correction is an allowed city and none is a known misspelling. */
  lemma FixCitiesAreCanonical()
    ensures forall k :: 0 <= k < |CustomerCityFix| ==>
      CustomerCityFix[k].fixedCity in AllowedCities && CustomerCityFix[k].fixedCity !in CityMapping
  {
  }

  /** Dictionary lookup: the correction for `id`, if any. */
  function FixLookup(fix: seq<FixRow>, id: int): (r: Option<string>)
    ensures r.None? <==> forall k :: 0 <= k < |fix| ==> fix[k].customerId != id
    ensures r.Some? ==> exists k :: 0 <= k < |fix| && fix[k] == FixRow(id, r.value)
  {
    if fix == [] then None
    else if fix[0].customerId == id then
      assert fix[0] == FixRow(id, fix[0].fixedCity);
      Some(fix[0].fixedCity)
    else
      var r := FixLookup(fix[1..], id);
      assert forall k :: 1 <= k < |fix| ==> fix[k] == fix[1..][k - 1];
      r
  }

  /** The `fixed_city` of every correction row whose key equals `id`: the join's matches. */
  function JoinMatches(fix: seq<FixRow>, id: int): (r: seq<string>)
    ensures |r| <= |fix|
    ensures r == [] <==> forall k :: 0 <= k < |fix| ==> fix[k].customerId != id
    ensures forall v :: v in r ==> exists k :: 0 <= k < |fix| && fix[k] == FixRow(id, v)
  {
    if fix == [] then []
    else
      var r := (if fix[0].customerId == id then [fix[0].fixedCity] else []) + JoinMatches(fix[1..], id);
      assert forall k :: 1 <= k < |fix| ==> fix[k] == fix[1..][k - 1];
      assert fix[0].customerId == id ==> fix[0] == FixRow(id, fix[0].fixedCity);
      r
  }

  /** With unique keys a row matches at most once, and the match is the lookup. */
  lemma {:induction false} JoinMatchesUnique(fix: seq<FixRow>, id: int)
    requires UniqueFixKeys(fix)
    ensures JoinMatches(fix, id) == if FixLookup(fix, id).Some? then [FixLookup(fix, id).value] else []
  {
    if fix != [] {
      assert UniqueFixKeys(fix[1..]) by {
        forall i, j | 0 <= i < j < |fix| - 1
          ensures fix[1..][i].customerId != fix[1..][j].customerId
        {
          assert fix[1..][i] == fix[i + 1] && fix[1..][j] == fix[j + 1];
        }
      }
      JoinMatchesUnique(fix[1..], id);
      if fix[0].customerId == id {
        assert forall k :: 0 <= k < |fix| - 1 ==> fix[1..][k].customerId != id by {
          forall k | 0 <= k < |fix| - 1
            ensures fix[1..][k].customerId != id
          {
            assert fix[1..][k] == fix[k + 1];
          }
        }
      }
    }
  }

  /** A row of the joined frame: the customer row and the matched `fixed_city`, or null. */
  datatype JoinedRow = JoinedRow(row: Customer, fixedCity: Option<string>)

  /** No correction row has the key `id`. */
  predicate NoFix(fix: seq<FixRow>, id: int) {
    forall k :: 0 <= k < |fix| ==> fix[k].customerId != id
  }

  /** Some correction row maps `id` to `city`. */
  predicate HasFix(fix: seq<FixRow>, id: int, city: string) {
    exists k :: 0 <= k < |fix| && fix[k] == FixRow(id, city)
  }

  /** A joined row carries a matching correction, or null when nothing matches. */
  predicate MatchOf(fix: seq<FixRow>, j: JoinedRow) {
    match j.fixedCity
    case None => NoFix(fix, j.row.customerId)
    case Some(v) => HasFix(fix, j.row.customerId, v)
  }

  /** The left-join rows one customer row produces: one per match, or one with a null. */
  function JoinRow(c: Customer, fix: seq<FixRow>): (r: seq<JoinedRow>)
    ensures |r| >= 1
    ensures forall j :: 0 <= j < |r| ==> r[j].row == c && MatchOf(fix, r[j])
  {
    var matches := JoinMatches(fix, c.customerId);
    if matches == [] then [JoinedRow(c, None)]
    else
      var r := MapRows((v: string) => JoinedRow(c, Some(v)), matches);
      assert forall j :: 0 <= j < |r| ==> r[j].fixedCity == Some(matches[j]) && matches[j] in matches;
      r
  }

  /** The customer rows a joined frame was built from. */
  function JoinedCustomers(joined: seq<JoinedRow>): set<Customer> {
    set j | j in joined :: j.row
  }

  /**
   * `join(df_fix, "customer_id", "left")`: at least one joined row per
   * input row, each carrying a matching correction or a null.
   */
  function LeftJoin(rows: seq<Customer>, fix: seq<FixRow>): (r: seq<JoinedRow>)
    ensures |r| >= |rows|
    ensures forall j :: 0 <= j < |r| ==> MatchOf(fix, r[j])
  {
    if rows == [] then []
    else
      var head := JoinRow(rows[0], fix);
      var tail := LeftJoin(rows[1..], fix);
      var r := head + tail;
      assert forall j :: |head| <= j < |r| ==> r[j] == tail[j - |head|];
      r
  }

  /** The joined rows are built from exactly the input rows: none is lost and none invented. */
  lemma {:induction false} LeftJoinRows(rows: seq<Customer>, fix: seq<FixRow>)
    ensures JoinedCustomers(LeftJoin(rows, fix)) == set c | c in rows
  {
    if rows != [] {
      LeftJoinRows(rows[1..], fix);
      var head := JoinRow(rows[0], fix);
      var tail := LeftJoin(rows[1..], fix);
      var r := LeftJoin(rows, fix);
      assert r == head + tail;
      assert JoinedCustomers(head) == {rows[0]} by {
        assert head[0] in head;
      }
      assert JoinedCustomers(r) == JoinedCustomers(head) + JoinedCustomers(tail) by {
        forall x | x in r ensures x in head || x in tail { }
      }
      assert (set c | c in rows) == {rows[0]} + set c | c in rows[1..] by {
        assert rows == [rows[0]] + rows[1..];
      }
    }
  }

  /** With unique correction keys the left join keeps one joined row per customer row. */
  lemma {:induction false} LeftJoinRowwise(rows: seq<Customer>, fix: seq<FixRow>)
    requires UniqueFixKeys(fix)
    ensures |LeftJoin(rows, fix)| == |rows|
    ensures forall i :: 0 <= i < |rows| ==>
      LeftJoin(rows, fix)[i] == JoinedRow(rows[i], FixLookup(fix, rows[i].customerId))
  {
    if rows != [] {
      JoinMatchesUnique(fix, rows[0].customerId);
      LeftJoinRowwise(rows[1..], fix);
      var head := JoinRow(rows[0], fix);
      assert head == [JoinedRow(rows[0], FixLookup(fix, rows[0].customerId))];
      forall i | 1 <= i < |rows|
        ensures LeftJoin(rows, fix)[i] == JoinedRow(rows[i], FixLookup(fix, rows[i].customerId))
      {
        assert rows[1..][i - 1] == rows[i];
      }
    }
  }

  /** `coalesce(city, fixed_city)` followed by `drop("fixed_city")`. */
  function CoalesceCity(j: JoinedRow): (r: Customer)
    ensures r == j.row.(city := r.city)
    ensures j.row.city.Some? ==> r.city == j.row.city
    ensures j.row.city.None? ==> r.city == j.fixedCity
  {
    j.row.(city := if j.row.city.Some? then j.row.city else j.fixedCity)
  }

  /** `p` is `c` with at most a null city filled in, and left null only when no correction has its id. */
  predicate PatchedFrom(fix: seq<FixRow>, c: Customer, p: Customer) {
    && p == c.(city := p.city)
    && (c.city.Some? ==> p.city == c.city)
    && (p.city.None? ==> NoFix(fix, c.customerId))
  }

  /**
   * `join(df_fix, "customer_id", "left")` then the coalesce: there are at
   * least as many rows as before, and every output row is patched from an
   * input row.
   */
  function PatchNullCities(rows: seq<Customer>, fix: seq<FixRow>): (r: seq<Customer>)
    ensures |r| >= |rows|
    ensures forall j :: 0 <= j < |r| ==> exists c :: c in rows && PatchedFrom(fix, c, r[j])
  {
    var joined := LeftJoin(rows, fix);
    LeftJoinRows(rows, fix);
    var r := MapRows(CoalesceCity, joined);
    assert forall j :: 0 <= j < |r| ==> exists c :: c in rows && PatchedFrom(fix, c, r[j]) by {
      forall j | 0 <= j < |r| ensures exists c :: c in rows && PatchedFrom(fix, c, r[j]) {
        assert joined[j] in joined;
        assert joined[j].row in JoinedCustomers(joined);
        assert PatchedFrom(fix, joined[j].row, r[j]);
      }
    }
    r
  }

  /** Patching loses no row: every input row is patched into some output row. */
  lemma PatchNullCitiesKeepsRows(rows: seq<Customer>, fix: seq<FixRow>)
    ensures forall c :: c in rows ==>
      exists j :: 0 <= j < |PatchNullCities(rows, fix)| && PatchedFrom(fix, c, PatchNullCities(rows, fix)[j])
  {
    var joined := LeftJoin(rows, fix);
    LeftJoinRows(rows, fix);
    var r := PatchNullCities(rows, fix);
    assert r == MapRows(CoalesceCity, joined);
    forall c | c in rows ensures exists j :: 0 <= j < |r| && PatchedFrom(fix, c, r[j]) {
      assert c in JoinedCustomers(joined);
      var x :| x in joined && x.row == c;
      var j :| 0 <= j < |joined| && joined[j] == x;
      assert r[j] == CoalesceCity(joined[j]);
      assert PatchedFrom(fix, c, r[j]);
    }
  }

  /**
   * Patching keeps every row in place: a present city is never changed, a
   * missing city takes the correction for its id when there is one and
   * otherwise stays null, and nothing else in the row changes.
   */
  lemma PatchNullCitiesSpec(rows: seq<Customer>, fix: seq<FixRow>)
    requires UniqueFixKeys(fix)
    ensures var r := PatchNullCities(rows, fix);
      && |r| == |rows|
      && (forall i :: 0 <= i < |rows| ==> r[i] == rows[i].(city := r[i].city))
      && (forall i :: 0 <= i < |rows| && rows[i].city.Some? ==> r[i].city == rows[i].city)
      && (forall i :: 0 <= i < |rows| && rows[i].city.None? ==>
            r[i].city == FixLookup(fix, rows[i].customerId))
      && IdSet(r) == IdSet(rows)
      && (UniqueIds(rows) ==> UniqueIds(r))
  {
    LeftJoinRowwise(rows, fix);
    var joined := LeftJoin(rows, fix);
    var r := PatchNullCities(rows, fix);
    assert r == MapRows(CoalesceCity, joined);
    assert forall i :: 0 <= i < |rows| ==> r[i] == CoalesceCity(joined[i]);
    assert forall i :: 0 <= i < |rows| ==> r[i].customerId == rows[i].customerId;
    SameIdsSameIdSet(r, rows);
  }

  lemma SameIdsSameIdSet(a: seq<Customer>, b: seq<Customer>)
    requires |a| == |b|
    requires forall i :: 0 <= i < |a| ==> a[i].customerId == b[i].customerId
    ensures IdSet(a) == IdSet(b)
  {
    forall id | id in IdSet(a) ensures id in IdSet(b) {
      var c :| c in a && c.customerId == id;
      var i :| 0 <= i < |a| && a[i] == c;
      assert b[i] in b;
    }
    forall id | id in IdSet(b) ensures id in IdSet(a) {
      var c :| c in b && c.customerId == id;
      var i :| 0 <= i < |b| && b[i] == c;
      assert a[i] in a;
    }
  }

  /** Without unique keys the left join would duplicate customer rows. */
  lemma LeftJoinDuplicatesOnRepeatedKey(c: Customer, v: string, w: string)
    ensures |LeftJoin([c], [FixRow(c.customerId, v), FixRow(c.customerId, w)])| == 2
  {
    var fix := [FixRow(c.customerId, v), FixRow(c.customerId, w)];
    assert JoinMatches(fix[1..][1..], c.customerId) == [];
    assert JoinMatches(fix, c.customerId) == [v, w];
    assert [c][1..] == [];
  }
}
