# Feast file offline store, modelled in Dafny

This project models the file-backed offline store of Feast
(`sdk/python/feast/infra/offline_stores/file.py`) and the "not found" exceptions
of `sdk/python/feast/errors.py`, and proves what they guarantee.

A data frame is a list of column labels and a sequence of rows. A row maps
labels to cells, and a cell is null, a boolean, an integer, a string or a
timestamp. Timestamps are integers already normalised to UTC. A cell that holds
no timestamp behaves like pandas' NaT: every comparison with it is false, and a
sort puts it last. The parquet files the store reads are a `Storage` map from
path to frame, passed to whatever evaluates a job.

Modules, following the source:

- `Wrappers`: `Option`, `Result`, and Python truthiness of an optional string.
- `Errors`: the exception classes of errors.py, their hierarchy, and the
  message each constructor builds with and without a project. Also the inverse
  that reads the project back out of a message.
- `Frames`: the table operations the store applies. These are projection,
  rename, drop, constant-column assignment, the window and TTL filters, sorting
  by a timestamp column, and `drop_duplicates(keys, keep="last")`.
- `EntityTimestamps`: choosing the spine's timestamp column
  (`get_historical_features`, lines 123-136) and
  `_get_entity_df_event_timestamp_range`.
- `HistoricalRetrieval`: `evaluate_historical_retrieval`. It has functions
  for each step, and the imperative loops of the source (join keys, feature
  names, and the per-view loop that rebinds `df_to_join`) as methods. Each
  method is proved equal to its function.
- `PointInTimeJoin`: the theorems about a successful retrieval. No row comes
  from outside the TTL window of a matching spine row. There is one row per
  join key, it is the latest valid one, and every matched key appears.
- `Materialization`: `pull_latest_from_table_or_query` and
  `pull_all_from_table_or_query`, as functions and as the step-by-step
  evaluation method, with their window, key and column properties.
- `RetrievalJob`: the `FileRetrievalJob` class (stored evaluation, flags,
  metadata, `to_df`, `persist`) and the store's three entry points that build
  one.

The model follows the code as written, including where it departs from what a
point-in-time join would ideally do:

- The TTL window is inclusive at both ends: `entity_ts - ttl <= event_ts <= entity_ts`.
- Deduplication is keyed by the join keys only, not by (keys, spine
  timestamp). The created-timestamp sort list (lines 331-336) is never used.
- The result is the last view's projected frame, not a left merge onto the
  spine, so unmatched entities are absent rather than null.
- The spine is deleted at the end of the first loop iteration (line 351).
  Once the first view has joined, a second feature view therefore fails with
  `UnboundLocalError` for `entity_df_with_features` (after its own join keys
  and source file are resolved). An empty request list fails with
  `UnboundLocalError` too, because `df_to_join` is never bound.
  `PointInTimeJoin.RetrieveNeedsOneView` states both.
- `columns_map` (line 312) is never filled. With full feature names, the
  projection therefore needs `<view>__<feature>` columns in the parquet source
  itself (`PointInTimeJoin.FullNamesMustBeSourceColumns`).
- The results of `_run_dask_field_mapping` (lines 250 and 255) are discarded,
  so neither the field mapping nor the join-key map renames any column.
- A missing column is a `KeyError` carrying the missing labels.

## Model

| member | source | states |
|---|---|---|
| Errors.Superclass | sdk/python/feast/errors.py:1-52 | every class but `Exception` has a base class one level nearer `Exception` |
| Errors.ClassOf | sdk/python/feast/errors.py:5-48 | each of the five exceptions is a proper subclass of `FeastObjectNotFoundException`, and so of `Exception` |
| Errors.ProviderLoginErrorIsNotNotFound | sdk/python/feast/errors.py:1-52 | `FeastProviderLoginError` derives from `Exception` but is not related to `FeastObjectNotFoundException` either way |
| Errors.Message | sdk/python/feast/errors.py:5-48 | the message each constructor builds, with " in project <p>" appended when `if project:` holds; its properties are `MessageWithoutProject`, `MessageWithProject` and `ProjectRoundTrip` |
| Errors.MessageWithoutProject | sdk/python/feast/errors.py:5-48 | with no project or an empty one, each class's message is its fixed subject, the name and its fixed verb phrase |
| Errors.MessageWithProject | sdk/python/feast/errors.py:5-48 | with a truthy project, every message is the no-project message + " in project " + project, so the no-project message is a strict prefix |
| Errors.ProjectRoundTrip | sdk/python/feast/errors.py:5-48 | reading the text after " in project " back out of a message returns the project exactly when it was truthy |
| Errors.MessageDeterminesProject | sdk/python/feast/errors.py:6-48 | two errors of one class and name have equal messages iff their projects agree up to truthiness (None and "" count as absent) |
| Frames.Missing | sdk/python/feast/infra/offline_stores/file.py:347 | the set of requested labels a frame lacks is empty iff every requested label is present |
| Frames.Filter | sdk/python/feast/infra/offline_stores/file.py:295-305 | a boolean mask keeps a row iff it satisfies the mask, and never adds rows |
| Frames.FilterMultiplicity | sdk/python/feast/infra/offline_stores/file.py:295-305 | the mask keeps each satisfying row as often as it occurs, and no other row |
| Frames.FilterConcat | sdk/python/feast/infra/offline_stores/file.py:295-305 | the mask distributes over concatenation, so the kept rows stay in their order |
| Frames.FilterSingleton | sdk/python/feast/infra/offline_stores/file.py:295-305 | the mask keeps one row exactly when it satisfies it |
| Frames.Project | sdk/python/feast/infra/offline_stores/file.py:347 | `df[cols]` succeeds iff every label is present, keeps row count and order, and restricts every row to `cols`; otherwise it raises KeyError with the missing labels |
| Frames.ProjectedRowsComeFromRows | sdk/python/feast/infra/offline_stores/file.py:471 | every projected row is the projection of some input row |
| Frames.RenameColumn | sdk/python/feast/infra/offline_stores/file.py:353-355 | `rename` relabels `from` to `to` in the labels and every row, leaving other cells as they were |
| Frames.DropColumn | sdk/python/feast/infra/offline_stores/file.py:307 | `drop([c])` succeeds iff `c` is a label, removes it from the labels and every row, and otherwise raises KeyError({c}) |
| Frames.AddConstantColumn | sdk/python/feast/infra/offline_stores/file.py:466 | `df[c] = v` adds `c` to the label set and sets it to `v` in every row, leaving the row count alone |
| Frames.Distinct | sdk/python/feast/infra/offline_stores/file.py:458-471 | `list(set(...))` holds exactly the given labels, each once |
| Frames.SortProperties | sdk/python/feast/infra/offline_stores/file.py:338-339 | sorting by a timestamp column gives a permutation of the rows in ascending order, NaT last |
| Frames.SortByTimestamp | sdk/python/feast/infra/offline_stores/file.py:338-339 | `sort_values(by=event_ts)` as a stable insertion sort; `SortProperties` states it is an ascending permutation |
| Frames.DedupLast | sdk/python/feast/infra/offline_stores/file.py:341-343 | `drop_duplicates(keys, keep="last")`: keeps each row no later row shares a key tuple with; `DedupKeepsLastOccurrences` states this |
| Frames.FilterSorted | sdk/python/feast/infra/offline_stores/file.py:449-454 | filtering sorted rows keeps them sorted |
| Frames.DedupKeepsLastOccurrences | sdk/python/feast/infra/offline_stores/file.py:341-343 | `drop_duplicates(keys, keep="last")` keeps exactly the rows that no later row shares a key tuple with |
| Frames.DedupUniqueKeys | sdk/python/feast/infra/offline_stores/file.py:341-343 | after keep-last deduplication no two rows share a key tuple |
| Frames.DedupCoversKeys | sdk/python/feast/infra/offline_stores/file.py:341-343 | every key tuple of the input survives deduplication |
| Frames.DedupKeepsLatest | sdk/python/feast/infra/offline_stores/file.py:338-343 | on rows sorted by a timestamp, the row kept for a key has the greatest timestamp of that key |
| EntityTimestamps.ResolveTimestampColumn | sdk/python/feast/infra/offline_stores/file.py:123-136 | the default `event_timestamp` column wins if present; otherwise the result is the unique datetime column; with none, ValueError |
| EntityTimestamps.AmbiguousTimestampColumnFails | sdk/python/feast/infra/offline_stores/file.py:124-136 | two datetime columns and no default column raise ValueError |
| EntityTimestamps.SingleDatetimeColumnChosen | sdk/python/feast/infra/offline_stores/file.py:124-132 | with no default column, a single datetime column is the one chosen |
| EntityTimestamps.Range | sdk/python/feast/infra/offline_stores/file.py:516-519 | (min, max) of a list of instants are members bounding every element; NaT for none |
| EntityTimestamps.EventTimestampRange | sdk/python/feast/infra/offline_stores/file.py:502-519 | every spine timestamp lies in [min, max], both bounds come from spine rows, and there is no range iff no cell holds a timestamp |
| HistoricalRetrieval.JoinKeys | sdk/python/feast/infra/offline_stores/file.py:199-206 | one join key per entity in order, each `join_key_map.get(k, k)`; the first unknown entity raises EntityNotFoundException for the project |
| HistoricalRetrieval.ResolveJoinKeys | sdk/python/feast/infra/offline_stores/file.py:199-206 | the appending loop computes exactly those join keys or that failure |
| HistoricalRetrieval.BuildFeatureNames | sdk/python/feast/infra/offline_stores/file.py:310-324 | one name per requested feature, in order: `<name_to_use>__<feature>` with full names, the bare feature otherwise |
| HistoricalRetrieval.FeatureNamesRoundTrip | sdk/python/feast/infra/offline_stores/file.py:317-322 | every full name starts with `<name_to_use>__`, and stripping that qualifier gives the feature back |
| HistoricalRetrieval.FeatureNamesDistinct | sdk/python/feast/infra/offline_stores/file.py:310-324 | distinct features give distinct column names in either naming mode |
| HistoricalRetrieval.MatchesOfMembers | sdk/python/feast/infra/offline_stores/file.py:233-245 | the merges of one source row are exactly its merges with the spine rows that agree on every join key |
| HistoricalRetrieval.InnerJoinMembers | sdk/python/feast/infra/offline_stores/file.py:233-245 | the inner merge on the join keys holds exactly the merges of key-matching (source, spine) pairs |
| HistoricalRetrieval.InnerJoin | sdk/python/feast/infra/offline_stores/file.py:233-245 | the inner merge of source and spine on the join keys; `InnerJoinMembers` states which rows it holds |
| HistoricalRetrieval.FilterTtl | sdk/python/feast/infra/offline_stores/file.py:294-305 | the TTL mask on the merged frame; `WithinTtlOfMerge` states the window it keeps |
| HistoricalRetrieval.JoinSource | sdk/python/feast/infra/offline_stores/file.py:231-348 | one view joined onto the spine: key checks, merge, TTL mask, drop, sort, keep-last and projection; `JoinSourceRows` and the `Kept*` lemmas state its result |
| HistoricalRetrieval.JoinView | sdk/python/feast/infra/offline_stores/file.py:199-348 | one loop iteration: join keys, the empty-keys IndexError, reading the source, then `JoinSource` |
| HistoricalRetrieval.Retrieve | sdk/python/feast/infra/offline_stores/file.py:151-357 | the whole evaluation function; the `Retrieval*` and `RetrieveOneView`/`RetrieveNeedsOneView` lemmas state its result |
| HistoricalRetrieval.EvaluateHistoricalRetrieval | sdk/python/feast/infra/offline_stores/file.py:151-357 | the per-view loop, rebinding `df_to_join` and deleting the spine, computes exactly `Retrieve` |
| PointInTimeJoin.JoinSourceRows | sdk/python/feast/infra/offline_stores/file.py:231-348 | one view's frame has `[event_ts] + join_keys + names` as labels, and its rows are the kept rows projected in order; every selected label is a source column |
| PointInTimeJoin.WithinTtlOfMerge | sdk/python/feast/infra/offline_stores/file.py:294-305 | a merged row passes the TTL mask iff `entity_ts - ttl <= event_ts <= entity_ts` between its source and spine rows |
| PointInTimeJoin.CandidateMember | sdk/python/feast/infra/offline_stores/file.py:233-305 | a row survives merge and TTL mask iff it is the merge of a key-matching (source, spine) pair and passes the mask |
| PointInTimeJoin.StrippedSound | sdk/python/feast/infra/offline_stores/file.py:231-307 | after merge, TTL mask and drop, every row is a valid source row less the carried spine timestamp |
| PointInTimeJoin.StrippedComplete | sdk/python/feast/infra/offline_stores/file.py:231-307 | every source row valid for some spine row survives merge, TTL mask and drop |
| PointInTimeJoin.KeptFromValidPairs | sdk/python/feast/infra/offline_stores/file.py:294-343 | every row kept by the dedup is a valid source row |
| PointInTimeJoin.KeptIsLatest | sdk/python/feast/infra/offline_stores/file.py:338-343 | the kept row of a key is no older than any valid source row of that key |
| PointInTimeJoin.KeptCoversKeys | sdk/python/feast/infra/offline_stores/file.py:338-343 | every key with a valid source row keeps a row |
| PointInTimeJoin.RetrieveNeedsOneView | sdk/python/feast/infra/offline_stores/file.py:191-357 | success needs exactly one feature view; none raises UnboundLocalError for `df_to_join`; after a successful first view, a second raises UnboundLocalError for `entity_df_with_features`, or the failure of resolving its own keys and source |
| PointInTimeJoin.RetrieveOneView | sdk/python/feast/infra/offline_stores/file.py:353-357 | with one view the result is that view's frame with its event timestamp relabelled as the spine's timestamp column |
| PointInTimeJoin.RelabelColumns | sdk/python/feast/infra/offline_stores/file.py:353-355 | the final rename turns the labels `[event_ts] + keys + names` into `[spine_ts] + keys + names` |
| PointInTimeJoin.ShowsRenamedProjection | sdk/python/feast/infra/offline_stores/file.py:347-355 | a projected and relabelled row shows its kept row's keys, features, and event time under the spine's label |
| PointInTimeJoin.OutputShowsKept | sdk/python/feast/infra/offline_stores/file.py:338-357 | the result's labels are `[spine_ts] + join_keys + names`, and its rows show the kept rows one for one |
| PointInTimeJoin.RetrievalRowsAreValid | sdk/python/feast/infra/offline_stores/file.py:231-307 | no leakage: every result row carries the values of a source row matching some spine row on the keys with `entity_ts - ttl <= event_ts <= entity_ts` |
| PointInTimeJoin.RetrievalOneRowPerKey | sdk/python/feast/infra/offline_stores/file.py:338-343 | no two result rows share a join key tuple |
| PointInTimeJoin.RetrievalIsLatest | sdk/python/feast/infra/offline_stores/file.py:338-343 | the result row of a key has the greatest event time among the valid source rows of that key |
| PointInTimeJoin.RetrievalCoversKeys | sdk/python/feast/infra/offline_stores/file.py:231-343 | every key with a valid source row for some spine row appears in the result |
| PointInTimeJoin.FullNamesMustBeSourceColumns | sdk/python/feast/infra/offline_stores/file.py:310-347 | with full feature names, success needs a `<view>__<feature>` column in the source for every requested feature |
| Materialization.Window | sdk/python/feast/infra/offline_stores/file.py:451-454 | the rows with `start <= event_ts < end`; `LatestRows` states it keeps exactly those, in order |
| Materialization.Latest | sdk/python/feast/infra/offline_stores/file.py:449-469 | sort, window, then keep-last per key or the dummy entity; `LatestRows` and the `PullLatest*` lemmas state its result |
| Materialization.Extract | sdk/python/feast/infra/offline_stores/file.py:405-471 | the column checks and the final projection of `evaluate_offline_job`; `ExtractFailures` states when it fails and how |
| Materialization.PullLatest | sdk/python/feast/infra/offline_stores/file.py:389-471 | `evaluate_offline_job`: read the file, then `Extract`; the `PullLatest*` lemmas state its result |
| Materialization.PullAll | sdk/python/feast/infra/offline_stores/file.py:480-499 | `pull_latest` with the event timestamp added to the keys and no created column; `PullAllKeepsEveryEvent` and `PullAllHasNoDummy` state its result |
| Materialization.EvaluateOfflineJob | sdk/python/feast/infra/offline_stores/file.py:389-471 | the step-by-step evaluation of `source_df` computes exactly `PullLatest` |
| Materialization.LatestRows | sdk/python/feast/infra/offline_stores/file.py:449-469 | the window of the sorted source holds exactly the in-window source rows, still sorted; the dummy label is added only without join keys |
| Materialization.ExtractFailures | sdk/python/feast/infra/offline_stores/file.py:405-471 | success iff the timestamp columns, join keys and features are present; FeastJoinKeysDuringMaterialization iff only join keys are missing; KeyError naming a feature when only features are missing |
| Materialization.PullLatestColumns | sdk/python/feast/infra/offline_stores/file.py:443-471 | the labels are the join keys, features and timestamp columns, plus `__dummy_id` without keys, each once |
| Materialization.PullLatestRowsInWindow | sdk/python/feast/infra/offline_stores/file.py:449-471 | every pulled row has `start <= event_ts < end` and shows an in-window source row; without keys its dummy cell is "" |
| Materialization.PullLatestOneRowPerKey | sdk/python/feast/infra/offline_stores/file.py:461-464 | with join keys, no two pulled rows share a key tuple |
| Materialization.PullLatestIsLatest | sdk/python/feast/infra/offline_stores/file.py:449-464 | with join keys, the pulled row of a key is no older than any in-window source row of that key |
| Materialization.PullLatestCoversWindow | sdk/python/feast/infra/offline_stores/file.py:449-471 | every in-window source row is represented: by its key with keys, by itself plus the dummy entity without |
| Materialization.PullAllKeepsEveryEvent | sdk/python/feast/infra/offline_stores/file.py:489-499 | every in-window (key, event time) pair of the source appears in `pull_all`'s result |
| Materialization.PullAllHasNoDummy | sdk/python/feast/infra/offline_stores/file.py:489-499 | `pull_all` returns the keys, features and event timestamp and never the dummy entity |
| RetrievalJob.Evaluate | sdk/python/feast/infra/offline_stores/file.py:66-70 | calling a stored evaluation function: `Retrieve` for a historical job, `PullLatest` for an offline one |
| RetrievalJob.EndsWithIffConcat | sdk/python/feast/infra/offline_stores/file.py:91 | `endswith` holds iff the string is some prefix followed by the suffix |
| RetrievalJob.Persisted | sdk/python/feast/infra/offline_stores/file.py:84-99 | a non-file destination fails the assertion; otherwise the evaluated table is written with `write_table` iff the path ends in ".parquet", and as a dataset otherwise |
| RetrievalJob.FileRetrievalJob.constructor | sdk/python/feast/infra/offline_stores/file.py:41-56 | the job stores the evaluation unevaluated, the flag and the metadata; missing on-demand views become [] |
| RetrievalJob.FileRetrievalJob.ToDf | sdk/python/feast/infra/offline_stores/file.py:66-70 | `_to_df_internal` runs the stored evaluation against the files present when it is called (the spine and registry are the ones captured at planning) |
| RetrievalJob.FileRetrievalJob.Persist | sdk/python/feast/infra/offline_stores/file.py:84-99 | `persist` computes exactly `Persisted` for the job's evaluation |
| RetrievalJob.PlanHistorical | sdk/python/feast/infra/offline_stores/file.py:117-148 | the checks and planning of `get_historical_features` before the job is built; `PlanHistoricalMetadata` states its result |
| RetrievalJob.PlanHistoricalMetadata | sdk/python/feast/infra/offline_stores/file.py:117-148 | SQL spines are refused and only pandas spines succeed; metadata keys are the spine columns minus the timestamp column, and every spine timestamp lies in [min, max] |
| RetrievalJob.GetHistoricalFeatures | sdk/python/feast/infra/offline_stores/file.py:108-372 | the new job holds the historical evaluation, the features and range metadata, the flag and the on-demand views; it fails exactly when planning does |
| RetrievalJob.PlanPullLatest | sdk/python/feast/infra/offline_stores/file.py:387-476 | the evaluation `pull_latest` stores, after `assert isinstance(data_source, FileSource)`; `PlannedPullsEvaluate` states what it evaluates to |
| RetrievalJob.PlanPullAll | sdk/python/feast/infra/offline_stores/file.py:480-499 | the same plan with the event timestamp added to the keys and no created column; `PlannedPullsEvaluate` states what it evaluates to |
| RetrievalJob.PlannedPullsEvaluate | sdk/python/feast/infra/offline_stores/file.py:376-499 | pulls need a file source, and evaluating a planned pull computes the window pull over that source's file |
| RetrievalJob.PullLatestFromTableOrQuery | sdk/python/feast/infra/offline_stores/file.py:376-476 | a non-file source fails the assertion; otherwise the job holds the offline evaluation, no full names, no on-demand views and no metadata |
| RetrievalJob.PullAllFromTableOrQuery | sdk/python/feast/infra/offline_stores/file.py:480-499 | delegates to the latest pull with the event timestamp added to the join keys |

## Left out

- Parquet reading and writing, S3 storage options and `create_filesystem_and_path` are not modelled. Files are the `Storage` map, the destination path is the given URL, and `persist` returns the write it would perform.
- Time-zone coercion (lines 156-183, 259-292, 405-433) is not modelled. Timestamps are UTC integers. Neither is the string-to-datetime parse of the range helper (lines 513-514).
- The message printed when a lone datetime column is taken as the spine timestamp (lines 129-131) is console output and is not modelled.
- Timestamps and TTLs are unbounded integers, so the datetime64[ns] overflow of `entity_ts - ttl` near the edge of its range (line 298) is not modelled.
- Telemetry (`log_exceptions_and_usage`), `.persist()` and `.compute()` are not modelled, and nothing is concurrent.
- On-demand feature views are carried only as names. `OnDemandFeatureView.get_requested_odfvs` and any transformation in `to_df` are not part of this model.
- `_get_requested_feature_views_to_features_dict` and `_run_dask_field_mapping` (feast/infra/provider.py) are not part of this model. Requests arrive already grouped per view. The mapping is a no-op here, because its result is discarded.
- The registry is a map from entity name to entity, and an unknown name raises EntityNotFoundException(name, project).
- `FeastJoinKeysDuringMaterialization` is imported by file.py but is not declared in errors.py. It is a failure value carrying the source path, the key set and the source column set. Its message is not modelled.
- `_to_arrow_internal` and `_to_dask_df_internal` evaluate the same stored function as `to_df`, so only `ToDf` is modelled.
- `reset_index()` before `drop_duplicates` adds an `index` column that the projection then drops. The model skips it.
- Merge suffixes (`"", "__"`) only matter when the source already has a `__<ts>` column. That collision is not modelled: the carried timestamp overwrites such a column.
- Frames.SortByTimestamp: a stable insertion sort is one admissible order. No tie-break between equal timestamps is claimed, just as the source claims none. The Frames lemmas about deduplication and filtering hold for any sorted sequence. The retrieval and pull results are stated about this sort's output, but their proofs use only `Frames.SortProperties` and `Frames.SortedMembers` (a permutation in ascending order), so they carry over to any sort with those two properties.
- Frames.Distinct: keeps the last occurrence of each label, in order. The order of Python's `list(set(...))` is unspecified, so only the label set and the absence of duplicates are stated.
- PointInTimeJoin.RetrievalRowsAreValid: like the other result lemmas, it requires the spine timestamp and event timestamp labels to be distinct from the join keys and feature names. Pandas would otherwise create duplicate column labels, which a row as a map cannot hold.
- Materialization.PullLatestRowsInWindow: requires the event timestamp column not to be `__dummy_id`, since assigning the dummy value would overwrite it.
- The historical evaluation captures the spine and the registry as values when `get_historical_features` plans the job; only `Storage` is supplied when the job is evaluated. The source's closure holds references and reads them when `to_df` runs: `entity_df.copy()` at line 154 and `registry.get_entity` at line 202. Changes a caller makes to its `entity_df` or to the registry between building the job and evaluating it are therefore not modelled.
- The in-place assignments `df[c] = ...` (lines 164, 272, 285, 417, 428, 466) are modelled as rebinding a local frame value, not as mutation of a shared frame object. No other reference to these frames exists in the source.
- A TTL of `None` is not modelled. The code subtracts the TTL unconditionally, so the TTL is an integer here.
- aws_dynamo_provider.py, setup.py, constants.py and the test repo configuration are outside the modelled core.
