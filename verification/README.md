# Star-schema ETL of the sales data, modelled in Dafny

This project models the PySpark job `spark_apps/postgres_to_star_schema.py`. The job reads a flat sales table (`mock_data`) and writes a star schema:

- five slowly-changing (type 1) dimensions: customer, seller, product, store and supplier;
- a date dimension;
- a fact table of sales keyed by the dimensions' surrogate keys.

Tables are plain values: a schema of column names plus rows of cells (`Tables`). Cells are nulls, booleans, integers, reals, text or dates (`Values`). Every step of the job is a pure function over such tables.

The modules are:

- `Dimension` — `process_dimension_table`:
  - select the natural key, the order column and the mapped columns, as a sorted list of distinct names;
  - `row_number() == 1` over a window partitioned by the key and ordered by the order column descending;
  - drop `rn` and the order column;
  - rename through the attribute map.
- `Calendar` — proleptic Gregorian arithmetic:
  - Spark's `dayofweek` (1 = Sunday … 7 = Saturday), checked against Zeller's congruence;
  - `weekofyear`: the ordinal formula is proved equal to the ISO 8601 week-date rule (a week belongs to the year of its Thursday);
  - `quarter` and the `'MMMM'` month name.
- `DateDimension` — `dim_date`: one row per distinct non-null `sale_date`, with its derived attributes.
- `Facts` — the fact step:
  - each reloaded dimension is projected to a (surrogate key, natural key) map;
  - each sale is inner-joined against the six maps with SQL equality (a null equals nothing);
  - the result is projected to the six surrogate keys and three measures.

  A sale yields one fact row for every combination of matching map entries.
- `StarSchema` — `run_etl`:
  - the five configured dimensions, the date dimension, the reloads and the fact table;
  - each step fails on the first missing column;
  - referential integrity of the fact table;
  - against fresh reloads, exactly one fact row per source row whose six join keys are non-null.

The saved and reloaded dimension tables are inputs of the model (`StarSchema.Reloaded`). The database assigns the surrogate keys, and the job only reads them back.

## Model

| member | source | states |
|---|---|---|
| Tables.Select | spark_apps/postgres_to_star_schema.py:78 | selecting columns succeeds exactly when every named column exists; otherwise the error names a missing one; on success row i, column j holds the source cell of row i under the j-th name |
| Tables.Dedup | spark_apps/postgres_to_star_schema.py:200 | `distinct()` keeps every value of its input, no value twice, and nothing else |
| Values.LeTotal | spark_apps/postgres_to_star_schema.py:79 | any two order values are comparable, so the window's ranking is defined on every partition |
| Values.LeTrans | spark_apps/postgres_to_star_schema.py:79 | the ranking order is transitive |
| Values.LeAntisym | spark_apps/postgres_to_star_schema.py:79 | two values that rank each other are equal, so a maximum is unique up to ties |
| Values.DateLeIsDayOrder | spark_apps/postgres_to_star_schema.py:79 | on valid dates the window's order of `sale_date` is the order of time: one date ranks no higher than another exactly when it is no later |
| Dimension.SelectedColumns | spark_apps/postgres_to_star_schema.py:76-77 | the selected column list is in ascending order with no name twice; a name is in it exactly when it is the natural key, the order column or a source column of the attribute map |
| Dimension.KeptColumns | spark_apps/postgres_to_star_schema.py:85 | the columns left after dropping `rn` and the order column are distinct; a column is kept exactly when it is the key or a mapped column and is neither `rn` nor the order column |
| Dimension.RenameUnmapped | spark_apps/postgres_to_star_schema.py:88-89 | a column the attribute map does not mention keeps its name through all the renames |
| Dimension.RenameMapped | spark_apps/postgres_to_star_schema.py:88-89 | in a map where no target is renamed again later, every source column ends under its own target name |
| Dimension.LatestIndices | spark_apps/postgres_to_star_schema.py:79-84 | the window keeps exactly one row per natural-key value and loses no key; the kept row's order value is at least that of every row of its key; no earlier row of the key ties it |
| Dimension.LatestIndicesExact | spark_apps/postgres_to_star_schema.py:79-84 | a row is kept exactly when it is the latest row of its key under the reference predicate `IsLatest` |
| Dimension.LatestCount | spark_apps/postgres_to_star_schema.py:79-84 | the window keeps as many rows as there are distinct key values, and their keys are exactly the source's keys |
| Dimension.ExtractDimension | spark_apps/postgres_to_star_schema.py:69-90 | the extraction succeeds exactly when the key, the order column and every mapped column exist; the error names one of those the source lacks; on success the dimension is the renamed kept-column projection of one latest row per key |
| Dimension.DimensionOneRowPerKey | spark_apps/postgres_to_star_schema.py:79-84 | the dimension has exactly as many rows as the source has distinct natural-key values, null counting as one partition |
| Dimension.DimensionRowsAreLatest | spark_apps/postgres_to_star_schema.py:79-86 | recency both ways: every dimension row is the projection of a source row latest for its key, and every such row appears |
| Dimension.DimensionKeyColumn | spark_apps/postgres_to_star_schema.py:79-89 | the dimension's key column, under the key's renamed name, holds every source key value exactly once |
| Dimension.DimensionColumns | spark_apps/postgres_to_star_schema.py:76-89 | every mapped column other than the order column appears under its target name; every output column is such a target or the unmapped natural key |
| Calendar.DayOfWeek | spark_apps/postgres_to_star_schema.py:206 | the day of week is in 1..7; it is 1 exactly on ISO Sundays, 7 exactly on Saturdays, and 2..6 on Monday to Friday |
| Calendar.DayOfWeekMatchesZeller | spark_apps/postgres_to_star_schema.py:206 | the day of week agrees with Zeller's congruence on every date |
| Calendar.Quarter | spark_apps/postgres_to_star_schema.py:202 | the quarter is in 1..4 and its three months contain the given month |
| Calendar.WeeksInYearIsLastWeek | spark_apps/postgres_to_star_schema.py:207 | a year's week count (52 or 53) is the ISO week number of its December 28th, i.e. the number of its last ISO week |
| Calendar.WeekOfYearIsIsoWeek | spark_apps/postgres_to_star_schema.py:207 | the week-of-year formula equals the ISO 8601 week number: the week of the Thursday, counted in the year holding that Thursday |
| Calendar.WeekBasedYear | spark_apps/postgres_to_star_schema.py:207 | the ISO week-based year of a date holds that date's Thursday and is at most one year away from the date's own year |
| Calendar.MonthNamesDistinct | spark_apps/postgres_to_star_schema.py:204 | different months have different names |
| Calendar.SaturdayExample | spark_apps/postgres_to_star_schema.py:201-208 | 2024-03-09 is a Saturday (day 7) in ISO week 10 of the first quarter, in March |
| DateDimension.DeriveDateRow | spark_apps/postgres_to_star_schema.py:201-208 | a dim_date row carries its date's year, month and day; the quarter is (month+2)/3 in 1..4; the day of week is Zeller's weekday in Spark's numbering; the week is the ISO week in 1..53; the weekend flag holds exactly on days 1 and 7, i.e. ISO Saturday and Sunday |
| DateDimension.NonNullDates | spark_apps/postgres_to_star_schema.py:199 | dropping nulls succeeds exactly when every value is a date or null, and keeps exactly the source's dates |
| DateDimension.GenerateDateDimension | spark_apps/postgres_to_star_schema.py:196-208 | dim_date fails on a missing `sale_date` or a non-date value and otherwise succeeds; it holds each non-null source date exactly once and no other date; every row is derived from its date |
| DateDimension.DateDimensionCount | spark_apps/postgres_to_star_schema.py:198-200 | dim_date has as many rows as there are distinct non-null sale dates |
| Facts.KeyMap | spark_apps/postgres_to_star_schema.py:214-225 | a reload projection succeeds exactly when both columns exist; it pairs each row's surrogate key with its natural key, row by row |
| Facts.MatchesExact | spark_apps/postgres_to_star_schema.py:231-236 | a surrogate key is a match of a join key exactly when some map entry carries it with a non-null natural key equal to the join key |
| Facts.NoMatch | spark_apps/postgres_to_star_schema.py:231-236 | a null join key, or one the map lacks, matches nothing |
| Facts.UniqueMatch | spark_apps/postgres_to_star_schema.py:231-236 | against a map with distinct natural keys, a key matches once when it is non-null and present, and never otherwise |
| Facts.MatchesAppend | spark_apps/postgres_to_star_schema.py:19 | matching against a table written in two append batches yields the matches of each batch |
| Facts.CombosExact | spark_apps/postgres_to_star_schema.py:231-236 | a tuple is a join combination exactly when it picks one value from each match list |
| Facts.CombosCount | spark_apps/postgres_to_star_schema.py:231-236 | there are as many combinations as the product of the match counts |
| Facts.Sales | spark_apps/postgres_to_star_schema.py:231-246 | reading the sale columns succeeds exactly when all nine exist; the error names a missing one; one sale per source row |
| Facts.FactsForExact | spark_apps/postgres_to_star_schema.py:229-247 | inner-join semantics for one sale: a fact row comes from it exactly when each surrogate key matches the corresponding join key and the measures are the sale's quantity, total price and product price |
| Facts.FactsForCount | spark_apps/postgres_to_star_schema.py:231-236 | a sale with k1 … k6 matches in the six maps yields k1·k2·k3·k4·k5·k6 fact rows |
| Facts.UnmatchedSaleDropped | spark_apps/postgres_to_star_schema.py:231-236 | a sale with a null join key, or a key some map lacks, yields no fact row |
| Facts.OneFactPerMatchedSale | spark_apps/postgres_to_star_schema.py:231-236 | with distinct natural keys in every map, a sale yields one fact row when it joins all six maps and none otherwise |
| Facts.Appended | spark_apps/postgres_to_star_schema.py:19 | when a dimension table holds two append-mode batches, a join key matches every entry of the first batch that it equals, followed by every such entry of the second |
| Facts.RerunMultipliesFacts | spark_apps/postgres_to_star_schema.py:212-236 | after a second append-mode run a sale that joined every map once now yields 2^6 = 64 fact rows |
| Facts.JoinAllExact | spark_apps/postgres_to_star_schema.py:229-236 | a fact row is in the joined table exactly when one of the sales yields it |
| Facts.OneFactPerSale | spark_apps/postgres_to_star_schema.py:229-247 | with distinct natural keys in every map, the fact table has one row per sale that joins all six maps |
| Facts.AssembleFacts | spark_apps/postgres_to_star_schema.py:229-247 | the fact step succeeds exactly when the sale columns exist; the error names a missing one; a row is in the result exactly when some source row yields it; for any maps, duplicate natural keys included, the table has as many rows as the source rows' match-count products add up to |
| Facts.JoinAllCount | spark_apps/postgres_to_star_schema.py:229-236 | the joined table has, for any maps, as many rows as the sum over the sales of the products of their six match counts |
| Facts.AssembledFactCount | spark_apps/postgres_to_star_schema.py:229-247 | with distinct natural keys in every map, the fact table has exactly one row per source row that joins every map |
| StarSchema.SpecsFollowJoins | spark_apps/postgres_to_star_schema.py:104-192 | the five dimensions are ranked by `sale_date`, and each is keyed by the source column its fact join uses, in join order |
| StarSchema.AllConsistent | spark_apps/postgres_to_star_schema.py:104-223 | each configured attribute map has distinct keys and renames nothing twice; it renames the natural key to the column its reload reads |
| StarSchema.ExtractAll | spark_apps/postgres_to_star_schema.py:104-192 | the five dimension steps succeed exactly when each finds its columns; a failure is the first failing step's missing column; the k-th result is the k-th dimension |
| StarSchema.LoadDimensionMaps | spark_apps/postgres_to_star_schema.py:214-223 | the dimension reloads succeed exactly when every table has its surrogate-key and key columns; each map reads its table row by row |
| StarSchema.LoadKeyMaps | spark_apps/postgres_to_star_schema.py:214-225 | the six reloads succeed exactly when every table has its two columns; dim_date is read by `date_sk` and `sale_date`, and the dimensions in join order |
| StarSchema.Run | spark_apps/postgres_to_star_schema.py:104-249 | a run succeeds exactly when every dimension resolves, `sale_date` holds dates, the reloads have their key columns and the sale columns exist; otherwise it fails with a missing column or a non-date; the warehouse holds what each stage produced |
| StarSchema.RunEtl | spark_apps/postgres_to_star_schema.py:95-254 | the configured run succeeds and fails under the same conditions, for the five dimensions of the job |
| StarSchema.FactReferencesMaps | spark_apps/postgres_to_star_schema.py:237-247 | every fact row of a sale carries surrogate keys held by the six maps and the sale's own measures |
| StarSchema.AssembledFactsReference | spark_apps/postgres_to_star_schema.py:229-247 | every assembled fact row carries surrogate keys held by the maps and the measures of some source row |
| StarSchema.LoadedSurrogates | spark_apps/postgres_to_star_schema.py:214-225 | the surrogate keys of each map are exactly the surrogate-key column of its reloaded table |
| StarSchema.RunReferencesReloads | spark_apps/postgres_to_star_schema.py:212-249 | referential integrity: every surrogate key of the fact table is held by its join's reloaded table, and every fact row's measures come from a source row |
| StarSchema.FactsReferenceDimensions | spark_apps/postgres_to_star_schema.py:212-249 | the same referential integrity for the configured run |
| StarSchema.ExtractedKeys | spark_apps/postgres_to_star_schema.py:104-192 | at its key position each extracted dimension holds exactly the values of the sale column it is joined on |
| StarSchema.CoveredMatchedRows | spark_apps/postgres_to_star_schema.py:231-236 | when the maps hold every non-null join key, a source row joins all maps exactly when none of its six keys is null |
| StarSchema.FreshMaps | spark_apps/postgres_to_star_schema.py:212-225 | reloads that hold exactly this run's dimensions give maps with distinct natural keys that hold every non-null join key of the source |
| StarSchema.FreshRunOneFactPerCompleteRow | spark_apps/postgres_to_star_schema.py:196-249 | against fresh reloads, the fact table has exactly one row per source row whose six join keys are non-null; rows with a null key are dropped |
| StarSchema.FreshEtlOneFactPerCompleteRow | spark_apps/postgres_to_star_schema.py:95-254 | the same count for the configured run |

## Left out

- Spark session setup, JDBC loads and saves, `count()` and `print` logging: I/O through libraries outside the script. The loaded source table and the reloaded tables are parameters; a save has no model.
- `cache()` and `unpersist()`: engine memory management with no effect on results.
- Connection URL, credentials and driver: hard-coded configuration with no logic. The dimension table names are recorded in the configuration constants only. Reloads are matched to dimensions by position, so no model step reads a table name. The column maps are modelled. The append write mode is modelled only as concatenating the reloads of two runs (`Facts.Appended`).
- Surrogate-key generation: the database assigns `*_sk` on insert. The reloaded tables are arbitrary inputs. Completeness is proved only for reloads that hold exactly this run's dimensions (`StarSchema.FreshReload`). The append-mode rerun is covered by `Facts.RerunMultipliesFacts`.
- Dimension.LatestIndices: `row_number()` leaves the choice among rows tied on the maximal order value to the engine. The model fixes the earliest such source row.
- Values.LeTotal: the model gives all values one total order, ranking nulls below everything, which matches a descending sort with nulls last. Comparisons across types are only there for totality, since a column holds one type.
- Dimension.DimensionColumns: assumes no target name of the attribute map is renamed again by a later pair. Every configured map satisfies this (`StarSchema.AllConsistent`). `RenameName` itself follows the sequential renames for any map.
- Column names are compared case-sensitively. Spark resolves them case-insensitively by default.
- DateDimension.GenerateDateDimension: `sale_date` must hold dates or nulls, and any other value is an error (`NotADate`). Spark would cast a string column implicitly; that cast is not modelled.
- Calendar.MonthName: a fixed English table of the twelve names. The locale handling of `date_format` is not modelled.
- Join equality compares values of the same kind exactly. Spark's implicit casts between differently typed join columns are not modelled.
- Row order of Spark results is unspecified. The model produces a fixed order (first occurrence), and its contracts speak of membership and counts only.
- Dates of any year are accepted. Spark's supported range (years 1 to 9999) is not enforced.
- Parallel execution, partitioning and the physical join order: they do not change the result set.
