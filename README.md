# has_metrics in Dafny

A model of the core of the `has_metrics` gem (`lib/has_metrics/metrics.rb`). The gem gives an
ActiveRecord model cached per-row metrics, stored in a companion `<Model>Metrics` table. The model
covers these parts:

- **Registry** (`registry.dfy`). The class-level `metrics` hash that `has_metric` and
  `has_aggregate_metric` merge into. Its split into single-only and aggregate metrics. The column
  type inferred for a metrics-table column. The host class (`MetricHost`) whose registry and
  per-metric reader methods the declarations update in place.
- **Evaluator** (`evaluator.dfy`). The reader method each metric with a `:single` block gets.
  - A staleness decision over force, `:once`, `:every`, the cached value and its
    `updated__<name>__at` timestamp.
  - When the decision is to recompute: run the block, turn a non-finite Float into nil, write the
    value and the timestamp into the metrics row (a `MetricRecord` object), and save it unless the
    owner has unsaved changes.
- **Schema reconciler** (`schema.dfy`).
  - Required, missing and extra columns, with `id`, `created_at` and `updated_at` reserved.
  - `Migration.down` removes the extra columns one at a time, and `Migration.up` adds the missing
    ones with their inferred types. `migrate!` runs both on a `MetricsTable` object.
  - `remigrate!`, both as written and as intended.
- **Aggregate detector** (`detector.dfy`). `collect_metrics`: each metric without a truthy
  `:aggregate` is run once on a sample row. A metric that issued exactly one query, other than the
  lookup of the metrics row itself, gets a bulk `UPDATE` with the sample id replaced by
  `<table>.id`. The others are singular. This describes the corrected classification
  (`Detector.ClassifyFixed`), which the collection uses. The comparison as written
  (`Detector.Classify`) misses that lookup when the sample id is 1, and then takes it for an
  aggregate (see Findings).
- **Batch run** (`batch.dfy`). `update_all_metrics!`: migrate, then with a first row: collect, run
  the singular metrics row by row, execute the detected statements, run the bad guesses row by row,
  and execute and stamp every declared aggregate.
- **Shared pieces.** `values.dfy` holds Ruby values, truthiness, option hashes and errors.
  `text.dfy` holds Ruby's `Array#-`, `String#gsub` with a string pattern, `Integer#to_s` and the
  timestamp column name `updated__<name>__at`.

The database, the SQL logger and the clock are not modelled; they become parameters:

- `probes` gives the queries a metric's block issues on the sample row, or its exception.
- `executes` says whether a statement executes.
- `rowsSucceed` says whether a per-row pass over some metrics commits.
- `computation` is what a block returns.
- `now` / `nowDb` stand for `Time.current`.

A run of `update_all_metrics!` is described as the ordered list of effects it applies, plus the
error it ended in, if any.

## Model

| member | source | states |
|---|---|---|
| Registry.WithBlock | lib/has_metrics/metrics.rb:40 | A given block becomes `:single`; no other key changes; without a block the options are as given. |
| Registry.Registered | lib/has_metrics/metrics.rb:43-44 | `metrics[name] ||= {}` then `merge!`. The registry stays well formed. A new name is appended at the end. Every other entry is unchanged. Given keys take the given values. Keys not given keep the old entry's values. |
| Registry.MetricHost.constructor | lib/has_metrics/metrics.rb:86-88 | A host starts with an empty registry and no reader methods. |
| Registry.MetricHost.HasMetric | lib/has_metrics/metrics.rb:39-48 | The registry becomes `Registered` of the merged options. A reader is (re)defined exactly when `:single` is truthy, and it keeps the options of this call, not the merged entry. |
| Registry.MetricHost.HasAggregateMetric | lib/has_metrics/metrics.rb:50-52 | A `has_metric` with only `:aggregate => sql`. The name is then an aggregate metric and not a single-only one, and no reader is defined. |
| Registry.SelectNames | lib/has_metrics/metrics.rb:90-96 | The selection keeps exactly the names whose options have (or lack) the `:aggregate` key. It keeps them distinct, and it is a subsequence of the registry's names, so registry order is kept. |
| Registry.Select | lib/has_metrics/metrics.rb:90-96 | `metrics.select`: the entries with (without) `:aggregate`, each with its options unchanged, in registry order. |
| Registry.SingleOnlyMetrics | lib/has_metrics/metrics.rb:90-92 | Exactly the metrics without the `:aggregate` key, options unchanged, in registry order. |
| Registry.AggregateMetrics | lib/has_metrics/metrics.rb:94-96 | Exactly the metrics with the `:aggregate` key (whatever its value), options unchanged, in registry order. |
| Registry.PartitionCounts | lib/has_metrics/metrics.rb:90-96 | The two selections together have as many names as the registry. |
| Registry.Partition | lib/has_metrics/metrics.rb:90-96 | The single-only and aggregate metrics are disjoint, their union is the registry, and their sizes add up. |
| Registry.ColumnType | lib/has_metrics/metrics.rb:98-109 | The `case` tier by tier, each applying only when the earlier ones do not. A truthy `:type` of the metric named like the column gives that type. A `by_<x>` column with `<x>` a segment category gives `:string`. A column ending in `_at` gives `:datetime`. Any other column gives `:integer`. The result is always truthy. |
| Registry.ColumnTypeRange | lib/has_metrics/metrics.rb:98-109 | The type is `:string`, `:datetime`, `:integer` or the metric's own `:type`. |
| Registry.UpdatedAtColumnIsDatetime | lib/has_metrics/metrics.rb:104-105 | Every `updated__<name>__at` column without an explicit type is `:datetime`. |
| Registry.SegmentColumnIsString | lib/has_metrics/metrics.rb:102-103 | A `by_<x>` column with `<x>` a segment category is `:string` unless typed explicitly. |
| Evaluator.Decide | lib/has_metrics/metrics.rb:56-68 | `true` or `:force` recomputes. `every: :always` recomputes. A `once` metric with a non-nil cache reuses it. Otherwise, with numeric frequency F (20 hours by default), the cache is reused exactly when its timestamp is after now − F; with a frequency that is not an Integer (a Float duration, say) it is recomputed. A reused value is the cached one. |
| Evaluator.StaleExactlyAfterFrequency | lib/has_metrics/metrics.rb:65-67 | A metric computed at time t is reused before t + F and recomputed from then on. |
| Evaluator.Normalize | lib/has_metrics/metrics.rb:70 | A non-finite Float becomes nil; every other value is kept; the result is never non-finite. |
| Evaluator.RenameBeforeSave | spec/metrics_spec.rb:71-81 | User "Fuzz" has `name_length` 4. Renamed to "Bib" without saving and forced, it is 3, while a copy loaded from the database still gives 4. |
| Evaluator.RenameAfterSave | spec/metrics_spec.rb:83-85 | After the user is saved, forcing gives 3 and stores it, so a copy loaded from the database also gives 3. |
| Evaluator.MetricRecord.Assign | lib/has_metrics/metrics.rb:72-73 | A writer succeeds exactly when the column exists, and then changes only that attribute. |
| Evaluator.MetricRecord.Save | lib/has_metrics/metrics.rb:79 | The database now holds the attributes in memory. |
| Evaluator.Evaluate | lib/has_metrics/metrics.rb:55-82 | Reuse returns the cached value and changes nothing. A raising block propagates and changes nothing. A missing value column swallows the writer error, returns the value and writes nothing. A missing timestamp column propagates `NoMethodError` after the value is written. Otherwise value and timestamp are written and the row is saved unless the owner changed. The result is the normalized value. |
| Text.MinusMembers | lib/has_metrics/metrics.rb:220 | `a - b` holds exactly the elements of `a` not in `b`. |
| Text.MinusSubsequence | lib/has_metrics/metrics.rb:220 | `a - b` is a subsequence of `a`: it keeps `a`'s order. |
| Text.MinusDistinct | lib/has_metrics/metrics.rb:220 | `a - b` of a list without repeats has no repeats. |
| Text.UpdatedAtColumnsMembers | lib/has_metrics/metrics.rb:210-212 | The timestamp columns are exactly `updated__<n>__at` for the metric names `n`. |
| Text.UpdatedAtColumnInjective | lib/has_metrics/metrics.rb:58 | Different metrics have different timestamp columns. |
| Text.UpdatedAtColumnsDistinct | lib/has_metrics/metrics.rb:210-212 | Distinct metric names give distinct timestamp columns. |
| Text.Decimal | lib/has_metrics/metrics.rb:180 | `Integer#to_s` is a non-empty string of digits; it has one digit exactly below 10. |
| Text.DecimalValue | lib/has_metrics/metrics.rb:180 | The digits of `Integer#to_s` read back in base 10 give the number, and there is no leading zero. |
| Text.DecimalInjective | lib/has_metrics/metrics.rb:180 | Different ids have different texts. |
| Text.DecimalIsOne | lib/has_metrics/metrics.rb:180 | The id's text is `"1"` exactly for the id 1. |
| Text.GsubWithoutOccurrence | lib/has_metrics/metrics.rb:180 | `gsub` of a pattern that does not occur changes nothing. |
| Text.GsubPrefixFree | lib/has_metrics/metrics.rb:180 | A digit pattern passes over a digit-free prefix unchanged. |
| Text.GsubLeading | lib/has_metrics/metrics.rb:180 | A leading occurrence is replaced and the scan goes on after it. |
| Schema.UpdatedAtColumnNotReserved | lib/has_metrics/metrics.rb:211 | No timestamp column is `id`, `created_at` or `updated_at`. |
| Schema.RequiredColumns | lib/has_metrics/metrics.rb:214-216 | Two required columns per metric. |
| Schema.RequiredMembership | lib/has_metrics/metrics.rb:214-216 | A required column is exactly a metric name or the timestamp column of one. |
| Schema.MissingColumns | lib/has_metrics/metrics.rb:218-221 | At most two missing columns per metric. |
| Schema.MissingMembers | lib/has_metrics/metrics.rb:218-221 | A column is missing exactly when it is required and absent or reserved. |
| Schema.ExtraColumns | lib/has_metrics/metrics.rb:223-232 | Raises exactly in self-storing mode. Otherwise no more extras than existing columns. |
| Schema.ExtraMembers | lib/has_metrics/metrics.rb:229 | A column is extra exactly when it exists and is neither reserved nor required. |
| Schema.ExtrasSpareReservedAndRequired | lib/has_metrics/metrics.rb:229 | The extras never include a reserved or a required column. |
| Schema.ColumnNamesAppend | lib/has_metrics/metrics.rb:220 | `columns.map(&:name)` distributes over concatenation. |
| Schema.WithoutNames | lib/has_metrics/metrics.rb:244-248 | Removing the columns named in `names` leaves exactly the names `existing - names`. |
| Schema.WithoutMembers | lib/has_metrics/metrics.rb:244-248 | A column survives removal exactly when its name is not removed; survivors are unchanged. |
| Schema.WithoutStep | lib/has_metrics/metrics.rb:245-246 | Removing one column after another is removing them together. |
| Schema.NewColumn | lib/has_metrics/metrics.rb:240-241 | The added column has the inferred type. A `:string` column is `null: false, default: ''`. Any other column is nullable with no default. |
| Schema.NewColumnsNames | lib/has_metrics/metrics.rb:239-242 | `Migration.up` adds exactly the missing columns, in order. |
| Schema.NewColumnsTyped | lib/has_metrics/metrics.rb:239-242 | Each added column has its inferred type. Each added string column is non-null with default `''`. |
| Schema.KeptNames | lib/has_metrics/metrics.rb:264 | After the drop, the remaining columns are exactly the reserved or required ones the table had. |
| Schema.ReconciledColumns | lib/has_metrics/metrics.rb:259-267 | After `migrate!` the columns are exactly the required ones plus the reserved ones the table had. Every reserved or still-required column the table had is kept unchanged. |
| Schema.ReconcileIdempotent | lib/has_metrics/metrics.rb:259-267 | A second reconciliation with the same registry changes nothing (no metric named like a reserved column). |
| Schema.FreshTable | lib/has_metrics/metrics.rb:238-243 | On a table with only reserved columns, every required column is added in order: two per metric. |
| Schema.RequiredAfterRegistering | lib/has_metrics/metrics.rb:214-216 | A newly registered metric's name and timestamp column join the required columns in their places. |
| Schema.MissingAfterRegistering | lib/has_metrics/metrics.rb:218-221 | On a reconciled table, a newly registered plain metric is missing exactly its two columns. |
| Schema.RegisteringAddsTwoColumns | lib/has_metrics/metrics.rb:259-267 | Registering one more plain metric and migrating a reconciled table appends exactly its name and its timestamp column. |
| Schema.UserRegistry | spec/metrics_spec.rb:32-46 | The test model's four metrics form a well-formed registry with no reserved or timestamp-like name. |
| Schema.PlainNewName | spec/metrics_spec.rb:63 | `name_length_squared` is neither a registered, a reserved nor a timestamp-column name. |
| Schema.FourMetricsOnIdTable | spec/metrics_spec.rb:61-67 | Four metrics on an id-only table give 9 columns; one more plain metric gives 11. |
| Schema.UserMetricsColumnCounts | spec/metrics_spec.rb:61-67 | The test model's metrics give 9 columns, and 11 after `name_length_squared`. |
| Schema.MigrationSucceedsOnPlainNames | lib/has_metrics/metrics.rb:238-243 | `Migration.up` never meets an existing column when no metric is named like a reserved or a timestamp column. |
| Schema.MetricsTable.constructor | lib/has_metrics/metrics.rb:234-237 | A metrics table over a host, with its mode and columns as given. |
| Schema.MetricsTable.MigrationDown | lib/has_metrics/metrics.rb:244-248 | Raises and changes nothing in self-storing mode. Otherwise removes exactly the extra columns, keeping the others in order. |
| Schema.MetricsTable.MigrationUp | lib/has_metrics/metrics.rb:238-243 | Succeeds exactly when the missing columns are distinct and new, and then appends their typed columns in order. Otherwise fails with `ColumnAlreadyExists` of the first missing column already present, and the columns before it have been added, in order (`StoppedAdding`). |
| Schema.MetricsTable.Migrate | lib/has_metrics/metrics.rb:259-267 | No-op in self-storing mode. Otherwise succeeds exactly when `MigrationSucceeds`, and the columns are then `Reconciled`. Any failure is `ColumnAlreadyExists`; the extras are then dropped and the missing columns before the clash added (`StoppedAdding` over the kept columns). |
| Schema.MetricsTable.RemigrateAsWritten | lib/has_metrics/metrics.rb:251-257 | As written: unless self-storing, it fails on `[].keys`, leaves the registry empty and the columns untouched. |
| Schema.MetricsTable.Remigrate | lib/has_metrics/metrics.rb:251-257 | As intended: the registry is restored. On success, the columns are reconciled against no metrics and then against the registry. The first pass cannot fail; a failure of the second is `ColumnAlreadyExists`, with the columns as `StoppedAdding` says over the columns the first pass left. |
| Schema.EmptyMigrationSucceeds | lib/has_metrics/metrics.rb:253-254 | Migrating against no metrics never fails. |
| Detector.UpdateSql | lib/has_metrics/metrics.rb:182-186 | The bulk statement updates the metrics table, sets the metric's column to the parenthesised subquery, and sets its `updated__<name>__at` column to the quoted `nowDb`. |
| Detector.Classify | lib/has_metrics/metrics.rb:177-189 | As written: singular exactly when the query count is not 1. Trivial exactly when the one query, with every occurrence of the id's digits replaced by `<table>.id`, is the lookup by `<table>.id`. A detected statement uses that substituted query. |
| Detector.ClassifyWithoutId | lib/has_metrics/metrics.rb:180-181 | A query without the id's digits is trivial exactly when it already is the lookup by `<table>.id`, and is otherwise used unchanged. |
| Detector.ClassifyFixed | lib/has_metrics/metrics.rb:177-189 | Corrected: singular exactly when the count is not 1. Trivial exactly when the one query is the literal lookup of the sample row, or substitutes to the lookup by `<table>.id`. A detected statement uses the substituted query. |
| Detector.ClassifyFixedAgrees | lib/has_metrics/metrics.rb:177-189 | The corrected classification agrees with the written one everywhere except on the lookup of the sample row. |
| Detector.SubstitutedLookup | lib/has_metrics/metrics.rb:180 | Substituting the lookup of the sample row replaces its id and, for the id 1 only, also the `1` of `LIMIT 1`. |
| Detector.TrivialLookupMissedForIdOne | lib/has_metrics/metrics.rb:180-181 | As written, the lookup of the sample row is recognised as trivial exactly when the sample id is not 1. |
| Detector.TrivialLookupAlwaysTrivial | lib/has_metrics/metrics.rb:180-181 | The corrected classification finds that lookup trivial for every id. |
| Detector.CollectStep | lib/has_metrics/metrics.rb:170-189 | A truthy `:aggregate` is skipped. It fails exactly for a metric without a block or whose block raises. Otherwise the metric is appended to singular, or one guess for it is appended to detected, or nothing changes. |
| Detector.CollectStepLands | lib/has_metrics/metrics.rb:175-188 | A step that grows the singular list appends the metric, which ran other than one query. A step that grows the detected list appends the guess built from the metric's subquery. A trivial query changes neither list. |
| Detector.CollectFrom | lib/has_metrics/metrics.rb:169-190 | No more metrics are listed than were walked (at most once each: `CollectFromMembers`). |
| Detector.CollectFromLists | lib/has_metrics/metrics.rb:169-190 | A metric is singular exactly when it was probed and ran other than one query. A guess is detected exactly when its metric was probed, its one query classified as a subquery, and the statement is the one built from it. A trivial metric is in neither list. |
| Detector.CollectLists | lib/has_metrics/metrics.rb:166-192 | The same for `collect_metrics`, whose singular list also excludes every metric with the `:aggregate` key. |
| Detector.CollectFromMembers | lib/has_metrics/metrics.rb:169-190 | Every listed metric was probed. None is listed twice. None is both detected and singular. |
| Detector.CollectFromFailure | lib/has_metrics/metrics.rb:170-173 | The collection fails exactly when some metric without a truthy `:aggregate` has no block or raises. |
| Detector.DeclaredAggregatesNotProbed | lib/has_metrics/metrics.rb:170 | Metrics with a truthy `:aggregate` are never run: changing their blocks changes nothing. |
| Detector.SingularExcludesAggregates | lib/has_metrics/metrics.rb:191 | The singular list never holds a metric with the `:aggregate` key. |
| Detector.CollectMetrics | lib/has_metrics/metrics.rb:166-192 | The loop computes `Collect`: the per-metric steps in registry order, the first failure stopping it, then `singular - aggregate_metrics.keys`. |
| Batch.BadGuessesMembers | lib/has_metrics/metrics.rb:137-144 | A metric is a bad guess exactly when one of its detected statements fails. |
| Batch.GuessStepsMembers | lib/has_metrics/metrics.rb:138-144 | A statement is executed exactly when it is a detected statement that executes. |
| Batch.GuessSteps | lib/has_metrics/metrics.rb:138-144 | Each detected statement is either executed or becomes a bad guess. |
| Batch.Declared | lib/has_metrics/metrics.rb:159-160 | One declared aggregate completes exactly when its `:aggregate` is SQL text that executes. |
| Batch.DeclaredRun | lib/has_metrics/metrics.rb:158-161 | A completed run has two steps per declared aggregate. |
| Batch.DeclaredRunCompletes | lib/has_metrics/metrics.rb:158-161 | The declared aggregates complete exactly when every one is SQL text that executes. |
| Batch.DeclaredRunInOrder | lib/has_metrics/metrics.rb:158-161 | In a completed run, step 2i executes the i-th declared statement and step 2i+1 stamps its timestamp column with `now`, in registry order. |
| Batch.DeclaredStepsAreStatements | lib/has_metrics/metrics.rb:158-161 | The last loop evaluates no metric row by row. |
| Batch.MaterializedCompletes | lib/has_metrics/metrics.rb:117-161 | The run after collection completes exactly when both row passes commit and every declared aggregate executes. |
| Batch.DetectedAreComputed | lib/has_metrics/metrics.rb:137-156 | Every detected metric has its statement executed or is evaluated in the bad-guess pass. |
| Batch.RowPasses | lib/has_metrics/metrics.rb:117-156 | The only row passes are the singular pass and the bad-guess pass, and both forward the run's own arguments to every metric call. A completed run has both (when non-empty), and the singular pass comes first. |
| Batch.DeclaredNeverEvaluatedPerRow | lib/has_metrics/metrics.rb:115-161 | A metric with a truthy `:aggregate` is never evaluated row by row. |
| Batch.ExecuteGuesses | lib/has_metrics/metrics.rb:137-144 | The loop executes the detected statements in order and collects the bad guesses. |
| Batch.ExecuteDeclared | lib/has_metrics/metrics.rb:158-161 | The loop computes `DeclaredRun`: execute and stamp each declared aggregate, stopping at the first failure. |
| Batch.Materialize | lib/has_metrics/metrics.rb:117-161 | The body after collection computes `Materialized`. |
| Batch.UpdateAllMetrics | lib/has_metrics/metrics.rb:111-164 | In self-storing mode the columns are untouched. Otherwise the table is migrated; a failed migration ends the run with `ColumnAlreadyExists` before any effect, leaving the columns as `StoppedAdding` says. Otherwise the run is `Plan` with the run's arguments: nothing without a first row; else collect (failing with the collection's error) and materialize. |

## Left out

- The `included` hook (`lib/has_metrics/metrics.rb:2-31`): creating `<Model>Metrics`, the associations, `table_exists?` and `find_or_create_by_id`. The metrics row is a `MetricRecord` given to `Evaluate`, and self-storing mode is a boolean of `MetricsTable`.
- `attr_accessible` (`:45-47`) and the `define_method` plumbing: a reader method is the options it captured, kept in `MetricHost.readers`.
- SQL capture by swapping the logger (`:171-174`) is replaced by the `probes` parameter. The logger not being restored after a block raises is not modelled.
- SQL execution, `find_in_batches` and transactions are the `executes` and `rowsSucceed` parameters. A row pass that fails is modelled as ending the run with no partial effect: batches committed before the failing one are not modelled.
- `puts`, `warn` and the `RAILS_ENV` check (`:118-124`, `:146`) are diagnostics only.
- `update_metrics!` (`:196-200`) calls each reader in turn. It is not modelled beyond `Evaluate`.
- `reset_column_information` is implicit: the model always sees the current columns.
- Float values are a finite `real` or the tag `NonFinite`. `Time.current`, `ago` and `to_s(:db)` are the parameters `now` and `nowDb`. Durations are whole seconds.
- `metrics_column_type`'s regular expressions use `^`/`$`, which Ruby anchors at lines. The model anchors at the whole column name, since column names hold no newline.
- Detector.Classify: the substitution is modelled only for a string pattern, as `gsub` is called with `warmup.id.to_s`; regular-expression patterns do not occur.
- Evaluator.Evaluate: errors other than a missing writer (a failing `save`) are not modelled; a block's exception is `ComputeRaised`.
- Detector.CollectStep: the collection (and so `Detector.CollectMetrics`, `Detector.CollectFromLists` and the batch run) uses the corrected classification `Detector.ClassifyFixed`, not the code as written (see Findings). With sample id 1, the code as written also records a bulk statement for a metric whose only query is the metrics-row lookup; the model records none. The as-written classification is `Detector.Classify`, and `Detector.ClassifyFixedAgrees` shows that the two differ only on that lookup.
- Schema.MetricsTable.RemigrateAsWritten: Ruby leaves `@metrics` an Array after the failure, so a later `has_metric` raises `TypeError` at `:43` (an Array indexed by a Symbol). The model leaves the registry empty and does not model that later error.
- Batch.Declared: the `update_all` of the timestamp column (`:160`) is assumed to succeed; only the `:aggregate` statement can fail.
- Text.Decimal: its own contract states the shape of `Integer#to_s`; the value it denotes is stated by `Text.DecimalValue`.

## Findings

| source | as written | input that shows it | evidently intended | confidence | as-written member | corrected member |
|---|---|---|---|---|---|---|
| lib/has_metrics/metrics.rb:180-181 | Every occurrence of `warmup.id.to_s` in the captured query is replaced by `<table>.id`, and only then compared with the lookup by `<table>.id ... LIMIT 1`. | Metrics table `user_metrics`, sample row with id 1. The block's only query is the metrics-row lookup of `find_or_create_by_id` (`:28`), `SELECT "user_metrics".* FROM "user_metrics" WHERE "user_metrics"."id" = 1 LIMIT 1`. The `1` of `LIMIT 1` is replaced as well, so the query is taken for an aggregate. | The lookup of the sample row is trivial whatever its id. | not executed | Detector.TrivialLookupMissedForIdOne | Detector.TrivialLookupAlwaysTrivial |
| lib/has_metrics/metrics.rb:253 | `@metrics = []` replaces the registry by an Array; the following `migrate!` calls `required_columns`, whose `.keys` (`:211`, `:215`) an Array lacks. | Any metrics table that is not self-storing: `remigrate!` raises `NoMethodError` before changing the table and leaves the registry empty. | Empty the registry, migrate (dropping every metric column), restore it and migrate again. | not executed | Schema.MetricsTable.RemigrateAsWritten | Schema.MetricsTable.Remigrate |
