# Customer dimension pipeline — a Dafny model

This project models the cleansing, conforming and merge rules of the
customer-dimension notebook `dim_processing/1_customer_data.py`. The
notebook reads raw customer CSV exports (the bronze layer). It then
deduplicates on `customer_id`, trims and title-cases `customer_name`,
corrects misspelled cities and fills in missing cities from a correction
table (the silver layer). Next it derives the `customer` label and three
constant attributes, projects a gold table, and finally upserts the
child company's customers into the parent company's `dim_customers`
table, keyed on `customer_code`.

Each Spark step is a function over a sequence of rows (`seq<Customer>`).
A `withColumn` step is a row function lifted with `Frame.MapRows`. The
left join is modelled literally: one joined row per match in the
correction table, or one row with a null `fixed_city`. The merge target
is a class, `Merge.ParentDimension`, whose `rows: map<string, DimCustomer>`
field the merge updates in place.

Modules, in pipeline order:

- `Wrappers`: `Option`, for nullable columns.
- `Text`: Spark's `trim` (ASCII spaces only), `initcap` (lower-case, then
  upper-case the first character and every character after a space) and the
  cast of an integer to its decimal string.
- `Frame`: row-by-row dataframe steps.
- `Bronze`: the raw row, with its ingestion metadata (read timestamp, file
  name, file size), and key sets.
- `Cleanse`: `dropDuplicates`, trim, the city typo map and the allowed-set
  `when`, `initcap`, and the left join and `coalesce` against
  `customer_city_fix`.
- `Conform`: the key cast, `concat_ws` and the label, the constant
  attributes, the gold projection and the merge-source projection.
- `Merge`: the upsert as a function, `Upsert`, and the parent table as a
  class.
- `Pipeline`: the chain end to end, the properties every run has, and one
  run against the parent table.

`dropDuplicates` does not say which of several rows with the same id
survives. `Cleanse.IsDeduplicationOf` states only what is guaranteed:
the ids are unique, every kept row is an input row, and every input id is
kept. `Cleanse.DropDuplicates` (keep the first row) is one such
deduplication. The pipeline lemmas `SilverKeys`, `SilverValues` and
`ChildCodesUnique`, the merge source `Pipeline.MergeSource` and the run
`Pipeline.Run` all take the deduplicated rows as a parameter and hold for
any deduplication.

In the code, both branches of the `when` at lines 129–133
return the column, so every city outside the typo map passes through
unchanged (`Cleanse.KeepAllowedCity`).

## Model

| member | source | states |
|---|---|---|
| `Cleanse.DropDuplicates` | dim_processing/1_customer_data.py:76 | the result is a deduplication of the input: ids are unique, every kept row is an input row, and every input id is kept |
| `Cleanse.DeduplicationSize` | dim_processing/1_customer_data.py:70-77 | any deduplication has exactly one row per distinct input id, so it is never longer than the input |
| `Text.Trim` | dim_processing/1_customer_data.py:90-92 | the result has no leading or trailing space, and it is the input with only spaces removed from its two ends |
| `Text.TrimUnique` | dim_processing/1_customer_data.py:90-92 | the contract of `trim` determines its result: a string with no edge spaces that `s` reduces to by stripping spaces from both ends is `Trim(s)` |
| `Text.TrimIdempotent` | dim_processing/1_customer_data.py:96-98 | a string without edge spaces is left unchanged by trimming, so trimming twice is the same as trimming once |
| `Cleanse.TrimName` | dim_processing/1_customer_data.py:90-92 | a null name stays null, and a present name becomes a trimmed version of itself |
| `Cleanse.UntrimmedNames` | dim_processing/1_customer_data.py:83-85 | the inspection query selects exactly the rows whose name is present and differs from its trim |
| `Cleanse.TrimNamesLeavesNothingToTrim` | dim_processing/1_customer_data.py:90-98 | after the trim step, the re-run inspection query `name != trim(name)` returns no rows |
| `Cleanse.CityMappingTargets` | dim_processing/1_customer_data.py:110-125 | every correction in the typo map is an allowed city, and no correction is itself a typo key |
| `Cleanse.ReplaceCityTypo` | dim_processing/1_customer_data.py:127-128 | a city equal to a typo key becomes that key's correction; any other value, null included, is unchanged; afterwards no city is a typo key |
| `Cleanse.KeepAllowedCity` | dim_processing/1_customer_data.py:129-133 | the allowed-set `when` returns its input for every value: it alters and drops nothing |
| `Cleanse.NormaliseCityIdempotent` | dim_processing/1_customer_data.py:127-133 | normalising a normalised city changes nothing |
| `Cleanse.NormaliseCity` | dim_processing/1_customer_data.py:127-133 | a null city stays null; a typo key becomes its correction, which is an allowed city; any other city is unchanged; no result is a typo key |
| `Text.InitCap` | dim_processing/1_customer_data.py:149-153 | `initcap` keeps the length; the first character and every character after a space are upper-cased, and every other character is lower-cased |
| `Text.InitCapKeepsTrim` | dim_processing/1_customer_data.py:149-153 | `initcap` turns spaces into spaces and nothing else into a space, so a string has edge spaces after `initcap` exactly when it had them before |
| `Text.InitCapIdempotent` | dim_processing/1_customer_data.py:149-153 | title-casing a title-cased name changes nothing |
| `Cleanse.TitleCaseName` | dim_processing/1_customer_data.py:149-153 | a null name stays null, and a present name becomes its `initcap` form |
| `Cleanse.CustomerCityFixKeysUnique` | dim_processing/1_customer_data.py:174-184 | the correction table, built from a dictionary, has unique `customer_id` keys |
| `Cleanse.FixCitiesAreCanonical` | dim_processing/1_customer_data.py:174-179 | every correction is an allowed city and none is a typo key |
| `Cleanse.FixLookup` | dim_processing/1_customer_data.py:174-184 | the lookup is null exactly when no correction row has the id; otherwise it returns the city of a correction row for that id |
| `Cleanse.JoinMatchesUnique` | dim_processing/1_customer_data.py:192-194 | with unique keys, the join matches a customer row at most once, and the match is the dictionary lookup |
| `Cleanse.LeftJoinRowwise` | dim_processing/1_customer_data.py:192-194 | with unique keys, the left join yields exactly one joined row per customer row, in place, carrying that row's correction or null |
| `Cleanse.LeftJoin` | dim_processing/1_customer_data.py:192-194 | the left join yields at least one row per customer row, and each joined row carries the `fixed_city` of a correction row with its id, or null exactly when no correction row has that id |
| `Cleanse.LeftJoinRows` | dim_processing/1_customer_data.py:192-194 | the joined rows are built from exactly the input rows: no customer row is lost and none is invented |
| `Cleanse.LeftJoinDuplicatesOnRepeatedKey` | dim_processing/1_customer_data.py:181-194 | with a repeated key in the correction table, the left join would emit two rows for one customer, which is why the keys must be unique |
| `Cleanse.CoalesceCity` | dim_processing/1_customer_data.py:195-199 | a present city is kept and a null city takes the joined `fixed_city`; no other column changes |
| `Cleanse.PatchNullCities` | dim_processing/1_customer_data.py:192-200 | for any correction table, the patched frame has at least as many rows as the input, and every patched row is an input row with at most a null city filled in, left null only when no correction has its id |
| `Cleanse.PatchNullCitiesKeepsRows` | dim_processing/1_customer_data.py:192-200 | for any correction table, every input row is patched into some output row, so the left join drops no customer |
| `Cleanse.PatchNullCitiesSpec` | dim_processing/1_customer_data.py:192-200 | the patch keeps the row count and the row order; a present city never changes; a null city becomes the correction for its id if there is one and otherwise stays null; the ids, and so their uniqueness, are preserved |
| `Text.CastToString` | dim_processing/1_customer_data.py:206 | the cast renders decimal digits, led by a minus sign exactly for a negative id, with no leading zero except for "0" itself, and reading them back gives the integer |
| `Text.CastToStringInjective` | dim_processing/1_customer_data.py:206 | two ids have the same string form exactly when they are equal, so the cast keeps keys distinct |
| `Conform.CastIdRow` | dim_processing/1_customer_data.py:206 | the cast key reads back as the original id, and the name, city and metadata are carried over |
| `Conform.ConcatWs` | dim_processing/1_customer_data.py:216-218 | `concat_ws` of all-null parts is the empty string, and a present first part leads the result |
| `Conform.ConcatWsSkipsNulls` | dim_processing/1_customer_data.py:216-218 | a null first part adds neither its value nor a separator; a present first part is followed by the separator exactly when a later part is present |
| `Conform.CustomerLabel` | dim_processing/1_customer_data.py:216-219 | for a present name, the label is the name, a dash, and the city or "Unknown"; for a null name, `concat_ws` drops the name and its dash, so the label is the city or "Unknown" |
| `Conform.ConformRow` | dim_processing/1_customer_data.py:214-225 | the conformed row keeps key, name, city and metadata, adds the `customer` label of its own name and city, and sets market "India", platform "Sports Bar" and channel "Acquisition" |
| `Pipeline.ConformConstants` | dim_processing/1_customer_data.py:221-225 | every conformed row has market "India", platform "Sports Bar" and channel "Acquisition" |
| `Conform.ProjectGold` | dim_processing/1_customer_data.py:251 | the gold row keeps key, name, city, label and the three constants, and drops the ingestion metadata |
| `Pipeline.GoldTable` | dim_processing/1_customer_data.py:251 | the gold table has one row per silver row, in place, each the silver row without its ingestion metadata |
| `Conform.ToDimRow` | dim_processing/1_customer_data.py:272-278 | the merge-source row is the gold row with `customer_id` renamed to `customer_code` and name and city dropped; label and constants are kept |
| `Pipeline.ChildCustomers` | dim_processing/1_customer_data.py:272-278 | the merge source has one row per gold row, in place, and its codes are exactly the gold customer ids |
| `Pipeline.SilverRowFromSpec` | dim_processing/1_customer_data.py:90-225 | one raw row, matched with its correction, yields the silver row described column by column by `SilverRowOf` |
| `Pipeline.SilverRowwise` | dim_processing/1_customer_data.py:90-225 | the whole dataframe chain, join included, maps each deduplicated row, in place, to its column-by-column expected silver row |
| `Pipeline.CleanseRowsKeepsIds` | dim_processing/1_customer_data.py:90-200 | cleansing neither adds, drops nor reorders rows, and it never changes a key |
| `Pipeline.SilverKeys` | dim_processing/1_customer_data.py:70-206 | whichever duplicate survives, the silver table has one row per distinct raw id, its string keys are unique, and they are exactly the cast raw ids |
| `Pipeline.SilverValues` | dim_processing/1_customer_data.py:84-219 | every silver name is trimmed and title-cased, no silver city is a typo key, and every label comes from the row's own name and city |
| `Pipeline.SilverRowValues` | dim_processing/1_customer_data.py:90-200 | the expected silver row of any raw row has a trimmed, title-cased name and a city that is not a typo key |
| `Pipeline.ChildOfSilver` | dim_processing/1_customer_data.py:251-278 | the merge source has one row per silver row, carrying its key as `customer_code`, its label and its constants; its codes are the silver keys |
| `Pipeline.ChildCodesUnique` | dim_processing/1_customer_data.py:270-285 | whichever duplicate survives, the merge source has unique `customer_code` values, which the merge needs |
| `Pipeline.MergeSource` | dim_processing/1_customer_data.py:272-278 | for any deduplication of the raw rows, the merge source has unique codes and one row per distinct raw id, and its codes are exactly the cast raw ids |
| `Merge.Upsert` | dim_processing/1_customer_data.py:282-285 | after the upsert, every source code maps to its source row, whether it was updated or inserted; parent codes absent from the source keep their rows; the key set is the union; a table keyed by code stays keyed by code |
| `Merge.UpsertSize` | dim_processing/1_customer_data.py:282-289 | the row count grows by the number of new codes only, so a matched code is updated and not inserted twice |
| `Merge.UpsertIdempotent` | dim_processing/1_customer_data.py:282-285 | merging the same source a second time leaves the parent table unchanged |
| `Merge.ParentDimension.constructor` | dim_processing/1_customer_data.py:270 | the parent dimension handle starts with the given table, which is keyed by code |
| `Merge.ParentDimension.MergeChild` | dim_processing/1_customer_data.py:282-285 | updates the table in place to `Upsert` of the old table; every source code maps to its row, other rows are unchanged, and the count grows by the new codes |
| `Pipeline.MergedRowsOfIds` | dim_processing/1_customer_data.py:76-285 | whichever duplicate survived, after the merge the parent row under every raw id's cast code is the conformed row of one of that id's raw rows: the label of its cleansed name and city, and the three constants |
| `Pipeline.Run` | dim_processing/1_customer_data.py:76-285 | for any deduplication of the raw rows, one run leaves the parent table equal to the upsert of the merge source; the parent row under every raw id's cast code is exactly the row conformed from one of that id's raw rows (cleansed label and the three constants); every other parent row is unchanged |
| `Pipeline.Examples` | dim_processing/1_customer_data.py:110-219 | "Bengalore" becomes "Bengaluru", customer 789403 is corrected to "New Delhi", and name "Acme Foods" with a null city gets the label "Acme Foods-Unknown" |

## Left out

- Ingest: the CSV read with schema inference, `current_timestamp`, and the `_metadata` file name and size (lines 25-36). These are engine and storage behaviour. The ingestion columns appear only as opaque values in `Bronze.IngestMeta`.
- Every `saveAsTable` write and the read-back (lines 48-52, 61, 233-238, 248, 257-261), with change data feed and `mergeSchema`. A write followed by its read-back is treated as the identity.
- The widgets and the `%run` utilities that define the catalog and schema names (lines 7-23). They are ambient notebook state.
- `display`, `show`, `printSchema`, `count` and the inspection queries (lines 40-44, 62-71, 104, 138-168, 188, 202, 229, 253, 289). They only report. The trim inspection is kept (`Cleanse.UntrimmedNames`) because it motivates the trim property.
- Merge atomicity and conflicts between concurrent runs. These belong to the table engine.
- Merge.Upsert: requires unique source codes. On a source with a repeated code, the engine either fails the merge (several source rows match one target row) or inserts duplicate rows; a map cannot hold duplicate rows. `Pipeline.ChildCodesUnique` proves that the notebook always meets this requirement.
- Merge.ParentDimension.MergeChild: requires unique source codes, for the same reason as `Merge.Upsert`.
- Text.InitCap: models ASCII case mapping only. Java's Unicode case mapping for other characters is not modelled.
- Text.Trim: models Spark's `trim`, which strips only the ASCII space, so tabs and other whitespace are kept, as in the engine.
- Null `customer_id` values: the model's ids are integers, so the null-key group of `dropDuplicates` and the 32-bit range of the inferred integer column are not represented.
- Row order: Spark frames are unordered. The model fixes one order and states its properties per row, by key or by set.
- `setup/setup_catalog_schemas.py`: only idempotent catalog and schema DDL, with no data logic.
