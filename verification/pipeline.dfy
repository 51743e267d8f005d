/**
 * The customer dimension pipeline end to end: the silver cleansing chain,
 * the conform step, the gold projection and the merge into the parent
 * dimension, with the properties every run guarantees.
 */
module Pipeline {
  import opened Wrappers
  import opened Text
  import opened Frame
  import opened Bronze
  import opened Cleanse
  import opened Conform
  import opened Merge

  /** Trim, city correction, title case and the null-city patch, in notebook order. */
  function CleanseRows(deduped: seq<Customer>): seq<Customer> {
    PatchNullCities(TitleCaseNames(NormaliseCities(TrimNames(deduped))), CustomerCityFix)
  }

  /** The key cast, then the label and constant attributes. */
  function ConformRows(cleansed: seq<Customer>): seq<SilverCustomer> {
    MapRows(ConformRow, MapRows(CastIdRow, cleansed))
  }

  /** The silver table written from a raw table. */
  function SilverTable(bronze: seq<Customer>): seq<SilverCustomer> {
    ConformRows(CleanseRows(DropDuplicates(bronze)))
  }

  /** The gold table: every silver row in place, without its ingestion metadata. */
  function GoldTable(silver: seq<SilverCustomer>): (r: seq<GoldCustomer>)
    ensures |r| == |silver|
    ensures forall i :: 0 <= i < |silver| ==>
      r[i] == GoldCustomer(silver[i].customerId, silver[i].customerName, silver[i].city, silver[i].customer,
                           silver[i].market, silver[i].platform, silver[i].channel)
  {
    MapRows(ProjectGold, silver)
  }

  /**
   * The merge source read from the gold table: one row per gold row, keyed
   * by its customer id, so the merge codes are exactly the gold ids.
   */
  function ChildCustomers(gold: seq<GoldCustomer>): (r: seq<DimCustomer>)
    ensures |r| == |gold|
    ensures forall i :: 0 <= i < |gold| ==>
      r[i] == DimCustomer(gold[i].customerId, gold[i].customer, gold[i].market, gold[i].platform, gold[i].channel)
    ensures Codes(r) == set g | g in gold :: g.customerId
  {
    var r := MapRows(ToDimRow, gold);
    assert forall x :: x in Codes(r) ==> x in set g | g in gold :: g.customerId by {
      forall x | x in Codes(r) ensures x in set g | g in gold :: g.customerId {
        var d :| d in r && d.customerCode == x;
        var i :| 0 <= i < |r| && r[i] == d;
        assert gold[i] in gold;
      }
    }
    assert forall x :: x in (set g | g in gold :: g.customerId) ==> x in Codes(r) by {
      forall x | x in (set g | g in gold :: g.customerId) ensures x in Codes(r) {
        var g :| g in gold && g.customerId == x;
        var i :| 0 <= i < |gold| && gold[i] == g;
        assert r[i] in r;
      }
    }
    r
  }

  // A column-by-column statement of what one raw row becomes.

  /** The cleansed name: null stays null, otherwise trimmed and title-cased. */
  function ExpectedName(name: Option<string>): Option<string> {
    match name
    case None => None
    case Some(n) => Some(InitCap(Trim(n)))
  }

  /**
   * The cleansed city: a known misspelling is corrected, any other present
   * value is kept, and a missing city takes the customer's correction if any.
   */
  function ExpectedCity(id: int, city: Option<string>): Option<string> {
    match city
    case Some(v) => Some(if v in CityMapping then CityMapping[v] else v)
    case None => FixLookup(CustomerCityFix, id)
  }

  ghost predicate SilverRowOf(d: Customer, s: SilverCustomer) {
    && s.customerId == CastToString(d.customerId)
    && s.customerName == ExpectedName(d.customerName)
    && s.city == ExpectedCity(d.customerId, d.city)
    && s.meta == d.meta
    && s.customer == CustomerLabel(s.customerName, s.city)
    && s.market == "India" && s.platform == "Sports Bar" && s.channel == "Acquisition"
  }

  /** The silver row one raw row gives once the join has matched it with `fixed`. */
  function SilverRowFrom(d: Customer, fixed: Option<string>): SilverCustomer {
    var staged := TitleCaseNameRow(NormaliseCityRow(TrimNameRow(d)));
    ConformRow(CastIdRow(CoalesceCity(JoinedRow(staged, fixed))))
  }

  lemma SilverRowFromSpec(d: Customer)
    ensures SilverRowOf(d, SilverRowFrom(d, FixLookup(CustomerCityFix, d.customerId)))
  {
  }

  /** The dataframe chain, join included, turns each deduplicated row into its expected silver row. */
  lemma SilverRowwise(deduped: seq<Customer>)
    ensures var s := ConformRows(CleanseRows(deduped));
      && |s| == |deduped|
      && forall i :: 0 <= i < |deduped| ==> SilverRowOf(deduped[i], s[i])
  {
    var trimmed := TrimNames(deduped);
    var normalised := NormaliseCities(trimmed);
    var staged := TitleCaseNames(normalised);
    CustomerCityFixKeysUnique();
    LeftJoinRowwise(staged, CustomerCityFix);
    var joined := LeftJoin(staged, CustomerCityFix);
    var patched := MapRows(CoalesceCity, joined);
    assert patched == CleanseRows(deduped);
    var s := MapRows(ConformRow, MapRows(CastIdRow, patched));
    forall i | 0 <= i < |deduped|
      ensures SilverRowOf(deduped[i], s[i])
    {
      var d := deduped[i];
      assert staged[i] == TitleCaseNameRow(NormaliseCityRow(TrimNameRow(d)));
      assert staged[i].customerId == d.customerId;
      assert s[i] == SilverRowFrom(d, FixLookup(CustomerCityFix, d.customerId));
      SilverRowFromSpec(d);
    }
  }

  /** Cleansing keeps every row in place and never changes a key. */
  lemma CleanseRowsKeepsIds(deduped: seq<Customer>)
    ensures |CleanseRows(deduped)| == |deduped|
    ensures forall i :: 0 <= i < |deduped| ==> CleanseRows(deduped)[i].customerId == deduped[i].customerId
  {
    var staged := TitleCaseNames(NormaliseCities(TrimNames(deduped)));
    CustomerCityFixKeysUnique();
    PatchNullCitiesSpec(staged, CustomerCityFix);
  }

  function SilverIds(silver: seq<SilverCustomer>): set<string> {
    set s | s in silver :: s.customerId
  }

  /** Whatever duplicate survives, the silver table holds one row per raw customer id. */
  lemma SilverKeys(bronze: seq<Customer>, deduped: seq<Customer>)
    requires IsDeduplicationOf(deduped, bronze)
    ensures var s := ConformRows(CleanseRows(deduped));
      && |s| == |IdSet(bronze)|
      && (forall i, j :: 0 <= i < j < |s| ==> s[i].customerId != s[j].customerId)
      && SilverIds(s) == (set id | id in IdSet(bronze) :: CastToString(id))
  {
    CleanseRowsKeepsIds(deduped);
    KeysOfCastRows(bronze, deduped, ConformRows(CleanseRows(deduped)));
  }

  lemma KeysOfCastRows(bronze: seq<Customer>, deduped: seq<Customer>, s: seq<SilverCustomer>)
    requires IsDeduplicationOf(deduped, bronze)
    requires |s| == |deduped|
    requires forall i :: 0 <= i < |s| ==> s[i].customerId == CastToString(deduped[i].customerId)
    ensures |s| == |IdSet(bronze)|
    ensures forall i, j :: 0 <= i < j < |s| ==> s[i].customerId != s[j].customerId
    ensures SilverIds(s) == (set id | id in IdSet(bronze) :: CastToString(id))
  {
    DeduplicationSize(deduped, bronze);
    forall i, j | 0 <= i < j < |s| ensures s[i].customerId != s[j].customerId {
      CastToStringInjective(deduped[i].customerId, deduped[j].customerId);
    }
    forall x | x in SilverIds(s) ensures x in (set id | id in IdSet(bronze) :: CastToString(id)) {
      var r :| r in s && r.customerId == x;
      var i :| 0 <= i < |s| && s[i] == r;
      assert deduped[i] in deduped;
    }
    forall id | id in IdSet(bronze) ensures CastToString(id) in SilverIds(s) {
      var c :| c in deduped && c.customerId == id;
      var i :| 0 <= i < |deduped| && deduped[i] == c;
      assert s[i] in s;
    }
  }

  /**
   * Every silver name passes the trim inspection and is already title-cased,
   * no silver city is a known misspelling, and every label is derived from
   * the row's own name and city.
   */
  lemma SilverValues(deduped: seq<Customer>)
    ensures var s := ConformRows(CleanseRows(deduped));
      && (forall i :: 0 <= i < |s| && s[i].customerName.Some? ==>
            var n := s[i].customerName.value; Trim(n) == n && InitCap(n) == n)
      && (forall i :: 0 <= i < |s| && s[i].city.Some? ==> s[i].city.value !in CityMapping)
      && (forall i :: 0 <= i < |s| ==> s[i].customer == CustomerLabel(s[i].customerName, s[i].city))
  {
    SilverRowwise(deduped);
    ValuesOfSilverRows(deduped, ConformRows(CleanseRows(deduped)));
  }

  lemma ValuesOfSilverRows(deduped: seq<Customer>, s: seq<SilverCustomer>)
    requires |s| == |deduped|
    requires forall i :: 0 <= i < |s| ==> SilverRowOf(deduped[i], s[i])
    ensures forall i :: 0 <= i < |s| && s[i].customerName.Some? ==>
      var n := s[i].customerName.value; Trim(n) == n && InitCap(n) == n
    ensures forall i :: 0 <= i < |s| && s[i].city.Some? ==> s[i].city.value !in CityMapping
    ensures forall i :: 0 <= i < |s| ==> s[i].customer == CustomerLabel(s[i].customerName, s[i].city)
  {
    forall i | 0 <= i < |s|
      ensures s[i].customerName.Some? ==> var n := s[i].customerName.value; Trim(n) == n && InitCap(n) == n
      ensures s[i].city.Some? ==> s[i].city.value !in CityMapping
    {
      SilverRowValues(deduped[i], s[i]);
    }
  }

  /** A silver row's name is trimmed and title-cased and its city is no misspelling. */
  lemma SilverRowValues(d: Customer, r: SilverCustomer)
    requires SilverRowOf(d, r)
    ensures r.customerName.Some? ==> var n := r.customerName.value; Trim(n) == n && InitCap(n) == n
    ensures r.city.Some? ==> r.city.value !in CityMapping
  {
    if r.customerName.Some? {
      var t := Trim(d.customerName.value);
      InitCapKeepsTrim(t);
      TrimIdempotent(InitCap(t));
      InitCapIdempotent(t);
    }
    CityMappingTargets();
    FixCitiesAreCanonical();
  }

  /** The merge source has unique codes, as the merge requires. */
  lemma ChildCodesUnique(bronze: seq<Customer>, deduped: seq<Customer>)
    requires IsDeduplicationOf(deduped, bronze)
    ensures UniqueCodes(ChildCustomers(GoldTable(ConformRows(CleanseRows(deduped)))))
  {
    SilverKeys(bronze, deduped);
  }

  /** The merge source carries each silver key, label and constant attribute. */
  lemma ChildOfSilver(silver: seq<SilverCustomer>)
    ensures var child := ChildCustomers(GoldTable(silver));
      && |child| == |silver|
      && (forall i :: 0 <= i < |silver| ==>
            child[i] == DimCustomer(silver[i].customerId, silver[i].customer, silver[i].market,
                                    silver[i].platform, silver[i].channel))
      && Codes(child) == SilverIds(silver)
  {
    var child := ChildCustomers(GoldTable(silver));
    forall x | x in Codes(child) ensures x in SilverIds(silver) {
      var r :| r in child && r.customerCode == x;
      var i :| 0 <= i < |child| && child[i] == r;
      assert silver[i] in silver;
    }
    forall x | x in SilverIds(silver) ensures x in Codes(child) {
      var r :| r in silver && r.customerId == x;
      var i :| 0 <= i < |silver| && silver[i] == r;
      assert child[i] in child;
    }
  }

  /** Every conformed row carries the three constant attributes. */
  lemma ConformConstants(cleansed: seq<Customer>)
    ensures forall r :: r in ConformRows(cleansed) ==>
      r.market == "India" && r.platform == "Sports Bar" && r.channel == "Acquisition"
  {
  }

  lemma MergedRowsOfSilver(silver: seq<SilverCustomer>, child: seq<DimCustomer>, rows: map<string, DimCustomer>)
    requires |child| == |silver|
    requires forall i :: 0 <= i < |silver| ==>
      child[i] == DimCustomer(silver[i].customerId, silver[i].customer, silver[i].market,
                              silver[i].platform, silver[i].channel)
    requires forall i :: 0 <= i < |child| ==> child[i].customerCode in rows && rows[child[i].customerCode] == child[i]
    ensures forall i :: 0 <= i < |silver| ==>
      silver[i].customerId in rows &&
      rows[silver[i].customerId] == DimCustomer(silver[i].customerId, silver[i].customer, silver[i].market,
                                                silver[i].platform, silver[i].channel)
  {
    forall i | 0 <= i < |silver|
      ensures silver[i].customerId in rows
      ensures rows[silver[i].customerId] == DimCustomer(silver[i].customerId, silver[i].customer,
                                                        silver[i].market, silver[i].platform, silver[i].channel)
    {
      assert child[i].customerCode == silver[i].customerId;
    }
  }

  /** The parent row the merge leaves under a raw customer id. */
  ghost predicate MergedRowOf(bronze: seq<Customer>, id: int, rows: map<string, DimCustomer>) {
    exists c :: c in bronze && c.customerId == id &&
      var code := CastToString(id);
      && code in rows
      && rows[code] == DimCustomer(code, CustomerLabel(ExpectedName(c.customerName), ExpectedCity(id, c.city)),
                                   "India", "Sports Bar", "Acquisition")
  }

  /**
   * After the merge, whichever duplicate survived, the parent row of every
   * raw id is the conformed row of one of that id's raw rows.
   */
  lemma MergedRowsOfIds(bronze: seq<Customer>, deduped: seq<Customer>, silver: seq<SilverCustomer>,
                        rows: map<string, DimCustomer>)
    requires IsDeduplicationOf(deduped, bronze)
    requires |silver| == |deduped|
    requires forall i :: 0 <= i < |silver| ==> SilverRowOf(deduped[i], silver[i])
    requires forall i :: 0 <= i < |silver| ==>
      silver[i].customerId in rows &&
      rows[silver[i].customerId] == DimCustomer(silver[i].customerId, silver[i].customer, silver[i].market,
                                                silver[i].platform, silver[i].channel)
    ensures forall id :: id in IdSet(bronze) ==> MergedRowOf(bronze, id, rows)
  {
    forall id | id in IdSet(bronze) ensures MergedRowOf(bronze, id, rows) {
      assert id in IdSet(deduped);
      var c :| c in deduped && c.customerId == id;
      var i :| 0 <= i < |deduped| && deduped[i] == c;
      assert SilverRowOf(c, silver[i]);
      assert c in bronze;
    }
  }

  /**
   * The merge source read back from the child gold table: one row per raw
   * customer id, under the id cast to string, so no code repeats.
   */
  function MergeSource(bronze: seq<Customer>, deduped: seq<Customer>): (r: seq<DimCustomer>)
    requires IsDeduplicationOf(deduped, bronze)
    ensures UniqueCodes(r)
    ensures Codes(r) == (set id | id in IdSet(bronze) :: CastToString(id))
    ensures |r| == |IdSet(bronze)|
  {
    var silver := ConformRows(CleanseRows(deduped));
    ChildCodesUnique(bronze, deduped);
    SilverKeys(bronze, deduped);
    ChildOfSilver(silver);
    ChildCustomers(GoldTable(silver))
  }

  /**
   * One run of the notebook against the parent dimension, for whichever
   * deduplication the engine chose: afterwards the parent row under the cast
   * of every raw customer id is the conformed row of one of that id's raw
   * rows, and every other parent row is unchanged.
   */
  method Run(bronze: seq<Customer>, deduped: seq<Customer>, parent: ParentDimension)
    requires IsDeduplicationOf(deduped, bronze)
    requires parent.Valid()
    modifies parent
    ensures parent.Valid()
    ensures parent.rows == Upsert(old(parent.rows), MergeSource(bronze, deduped))
    ensures forall id :: id in IdSet(bronze) ==> MergedRowOf(bronze, id, parent.rows)
    ensures forall code :: code in old(parent.rows) && code !in Codes(MergeSource(bronze, deduped)) ==>
      code in parent.rows && parent.rows[code] == old(parent.rows)[code]
  {
    var silver := ConformRows(CleanseRows(deduped));
    var child := MergeSource(bronze, deduped);
    SilverRowwise(deduped);
    ChildOfSilver(silver);
    parent.MergeChild(child);
    MergedRowsOfSilver(silver, child, parent.rows);
    MergedRowsOfIds(bronze, deduped, silver, parent.rows);
  }

  // The worked examples of the cleansing rules.

  lemma Examples()
    ensures ReplaceCityTypo(Some("Bengalore")) == Some("Bengaluru")
    ensures FixLookup(CustomerCityFix, 789403) == Some("New Delhi")
    ensures CustomerLabel(Some("Acme Foods"), None) == "Acme Foods-Unknown"
  {
  }
}
