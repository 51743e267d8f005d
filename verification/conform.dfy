/**
 * Conforming the child company's rows to the parent company's customer
 * dimension: the key cast to string, the composite `customer` label, the
 * constant attributes, and the projections to the gold table and to the
 * merge source.
 */
module Conform {
  import opened Wrappers
  import opened Text
  import opened Bronze

  /** A cleansed row after `customer_id` is cast to string. */
  datatype CastCustomer = CastCustomer(
    customerId: string,
    customerName: Option<string>,
    city: Option<string>,
    meta: IngestMeta)

  /** `withColumn("customer_id", customer_id.cast("string"))`. */
  function CastIdRow(c: Customer): (r: CastCustomer)
    ensures IsIntString(r.customerId) && ReadInt(r.customerId) == c.customerId
    ensures r.customerName == c.customerName && r.city == c.city && r.meta == c.meta
  {
    CastCustomer(CastToString(c.customerId), c.customerName, c.city, c.meta)
  }

  // Static attributes aligned with the parent data model.
  const Market := "India"
  const Platform := "Sports Bar"
  const Channel := "Acquisition"

  /** The substituted city when none is known. */
  const UnknownCity := "Unknown"

  /** The silver row: the cleansed row plus `customer`, `market`, `platform`, `channel`. */
  datatype SilverCustomer = SilverCustomer(
    customerId: string,
    customerName: Option<string>,
    city: Option<string>,
    meta: IngestMeta,
    customer: string,
    market: string,
    platform: string,
    channel: string)

  /** The non-null values among `parts`, in order. */
  function NonNull(parts: seq<Option<string>>): (r: seq<string>)
    decreases |parts|
    ensures |r| <= |parts|
    ensures r == [] <==> forall i :: 0 <= i < |parts| ==> parts[i].None?
  {
    if parts == [] then []
    else (if parts[0].Some? then [parts[0].value] else []) + NonNull(parts[1..])
  }

  /** The strings of `xs` with `sep` between neighbours. */
  function JoinWith(sep: string, xs: seq<string>): (r: string)
    ensures xs == [] ==> r == ""
    ensures xs != [] ==> xs[0] <= r
  {
    if xs == [] then ""
    else if |xs| == 1 then xs[0]
    else xs[0] + sep + JoinWith(sep, xs[1..])
  }

  lemma RestNull(parts: seq<Option<string>>)
    requires parts != []
    ensures NonNull(parts[1..]) == [] <==> forall i :: 1 <= i < |parts| ==> parts[i].None?
  {
    assert forall i :: 1 <= i < |parts| ==> parts[1..][i - 1] == parts[i];
  }

  lemma JoinWithCons(sep: string, x: string, xs: seq<string>)
    ensures JoinWith(sep, [x] + xs) == if xs == [] then x else x + sep + JoinWith(sep, xs)
  {
    assert ([x] + xs)[1..] == xs;
  }

  /**
   * Spark's `concat_ws(sep, parts...)`: null parts are skipped together with
   * their separator; all-null parts give the empty string, and a present
   * first part leads the result.
   */
  function ConcatWs(sep: string, parts: seq<Option<string>>): (r: string)
    ensures (forall i :: 0 <= i < |parts| ==> parts[i].None?) ==> r == ""
    ensures parts != [] && parts[0].Some? ==> parts[0].value <= r
  {
    JoinWith(sep, NonNull(parts))
  }

  /**
   * How `concat_ws` treats its first part: a null contributes neither a
   * value nor a separator, and a value is followed by the separator only
   * when some later part is present.
   */
  lemma ConcatWsSkipsNulls(sep: string, parts: seq<Option<string>>)
    requires parts != []
    ensures parts[0].None? ==> ConcatWs(sep, parts) == ConcatWs(sep, parts[1..])
    ensures parts[0].Some? && (forall i :: 1 <= i < |parts| ==> parts[i].None?) ==>
      ConcatWs(sep, parts) == parts[0].value
    ensures parts[0].Some? && (exists i :: 1 <= i < |parts| && parts[i].Some?) ==>
      ConcatWs(sep, parts) == parts[0].value + sep + ConcatWs(sep, parts[1..])
  {
    RestNull(parts);
    var rest := NonNull(parts[1..]);
    assert ConcatWs(sep, parts[1..]) == JoinWith(sep, rest);
    if parts[0].Some? {
      assert NonNull(parts) == [parts[0].value] + rest;
      JoinWithCons(sep, parts[0].value, rest);
    } else {
      assert NonNull(parts) == rest;
    }
  }

  /**
   * `concat_ws("-", customer_name, coalesce(city, "Unknown"))`: the name, a
   * dash and the city (or "Unknown"); a null name adds nothing, not even
   * the dash.
   */
  function CustomerLabel(name: Option<string>, city: Option<string>): (r: string)
    ensures name.Some? ==> r == name.value + "-" + city.GetOr(UnknownCity)
    ensures name.None? ==> r == city.GetOr(UnknownCity)
  {
    var parts := [name, Some(city.GetOr(UnknownCity))];
    assert parts[1..][1..] == [];
    var c := city.GetOr(UnknownCity);
    assert NonNull(parts) == (if name.Some? then [name.value] else []) + [c];
    assert name.Some? ==> JoinWith("-", [name.value, c]) == name.value + "-" + c by {
      if name.Some? {
        assert [name.value, c][1..] == [c];
      }
    }
    ConcatWs("-", parts)
  }

  /** The label and the constant attributes added to every row. */
  function ConformRow(c: CastCustomer): (r: SilverCustomer)
    ensures r.customerId == c.customerId && r.customerName == c.customerName
    ensures r.city == c.city && r.meta == c.meta
    ensures r.customer == CustomerLabel(c.customerName, c.city)
    ensures r.market == "India" && r.platform == "Sports Bar" && r.channel == "Acquisition"
  {
    SilverCustomer(c.customerId, c.customerName, c.city, c.meta,
      CustomerLabel(c.customerName, c.city), Market, Platform, Channel)
  }

  /** A row of the child company's gold table `sb_dim_customers`. */
  datatype GoldCustomer = GoldCustomer(
    customerId: string,
    customerName: Option<string>,
    city: Option<string>,
    customer: string,
    market: string,
    platform: string,
    channel: string)

  /** The gold projection: every column but the ingestion metadata. */
  function ProjectGold(s: SilverCustomer): (r: GoldCustomer)
    ensures r.customerId == s.customerId && r.customerName == s.customerName && r.city == s.city
    ensures r.customer == s.customer
    ensures r.market == s.market && r.platform == s.platform && r.channel == s.channel
  {
    GoldCustomer(s.customerId, s.customerName, s.city, s.customer, s.market, s.platform, s.channel)
  }

  /** A row of the parent company's customer dimension, and of the merge source. */
  datatype DimCustomer = DimCustomer(
    customerCode: string,
    customer: string,
    market: string,
    platform: string,
    channel: string)

  /** The merge source: `customer_id` renamed to `customer_code`, name and city dropped. */
  function ToDimRow(g: GoldCustomer): (r: DimCustomer)
    ensures r.customerCode == g.customerId && r.customer == g.customer
    ensures r.market == g.market && r.platform == g.platform && r.channel == g.channel
  {
    DimCustomer(g.customerId, g.customer, g.market, g.platform, g.channel)
  }
}
