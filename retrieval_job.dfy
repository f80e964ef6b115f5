/**
 * `FileRetrievalJob` and the three entry points of `FileOfflineStore` that
 * build one. A job holds its evaluation function unevaluated; the frame is
 * computed only when `to_df` (or `persist`) asks for it, against the parquet
 * files present at that moment.
 */
module RetrievalJob {
  import opened Wrappers
  import opened Frames
  import EntityTimestamps
  import HistoricalRetrieval
  import Materialization

  /** `RetrievalMetadata`: the requested features, the spine's key columns and its timestamp range. */
  datatype RetrievalMetadata = RetrievalMetadata(
    features: seq<string>,
    keys: set<Column>,
    minEventTimestamp: Option<int>,
    maxEventTimestamp: Option<int>)

  /**
   * The closure a job stores, described by what it captured:
   * `evaluate_historical_retrieval` or `evaluate_offline_job`.
   */
  datatype Evaluation =
    | HistoricalEvaluation(spine: Frame, tsCol: Column, requests: seq<HistoricalRetrieval.ViewRequest>,
                           fullFeatureNames: bool, registry: HistoricalRetrieval.Registry, project: string)
    | OfflineEvaluation(path: string, joinKeys: seq<Column>, features: seq<Column>, eventCol: Column,
                        created: Option<Column>, start: int, end: int)

  /** Calling the stored evaluation function against the files in `storage`. */
  function Evaluate(evaluation: Evaluation, storage: Storage): Outcome<Frame>
  {
    match evaluation
    case HistoricalEvaluation(spine, tsCol, requests, full, registry, project) =>
      HistoricalRetrieval.Retrieve(spine, tsCol, requests, full, registry, project, storage)
    case OfflineEvaluation(path, joinKeys, features, eventCol, created, start, end) =>
      Materialization.PullLatest(storage, path, joinKeys, features, eventCol, created, start, end)
  }

  /** `SavedDatasetStorage`: only the file variant can be persisted by this store. */
  datatype SavedDatasetStorage = SavedDatasetFileStorage(fileUrl: string) | OtherSavedDatasetStorage(kind: string)

  /** What `persist` writes: one parquet file, or a dataset directory. */
  datatype Written = WriteTable(where: string, table: Frame) | WriteToDataset(rootPath: string, table: Frame)

  const ParquetSuffix: string := ".parquet"

  /** `str.endswith`. */
  predicate EndsWith(s: string, suffix: string)
  {
    |suffix| <= |s| && s[|s| - |suffix|..] == suffix
  }

  /** `endswith` holds exactly when the string is something followed by the suffix. */
  lemma EndsWithIffConcat(s: string, suffix: string)
    ensures EndsWith(s, suffix) <==> exists p :: s == p + suffix
  {
    if EndsWith(s, suffix) {
      var p := s[..|s| - |suffix|];
      assert s == p + suffix;
    }
    if exists p :: s == p + suffix {
      var p :| s == p + suffix;
      assert s[|s| - |suffix|..] == suffix;
    }
  }

  /** `persist`: AssertionError for a non-file destination, otherwise the write chosen by the suffix. */
  function Persisted(evaluation: Evaluation, destination: SavedDatasetStorage, storage: Storage): (r: Outcome<Written>)
    ensures destination.OtherSavedDatasetStorage? ==> r == Fail(AssertionError)
    ensures r.Ok? <==> destination.SavedDatasetFileStorage? && Evaluate(evaluation, storage).Ok?
    ensures r.Ok? ==> r.value.table == Evaluate(evaluation, storage).value
    ensures r.Ok? ==> (r.value.WriteTable? <==> exists p :: destination.fileUrl == p + ParquetSuffix)
    ensures r.Ok? && r.value.WriteTable? ==> r.value.where == destination.fileUrl
    ensures r.Ok? && r.value.WriteToDataset? ==> r.value.rootPath == destination.fileUrl
    ensures destination.SavedDatasetFileStorage? && r.Fail? ==> r.failure == Evaluate(evaluation, storage).failure
  {
    match destination
    case OtherSavedDatasetStorage(_) => Fail(AssertionError)
    case SavedDatasetFileStorage(path) =>
      EndsWithIffConcat(path, ParquetSuffix);
      match Evaluate(evaluation, storage)
      case Fail(f) => Fail(f)
      case Ok(table) =>
        if EndsWith(path, ParquetSuffix) then Ok(WriteTable(path, table)) else Ok(WriteToDataset(path, table))
  }

  class FileRetrievalJob {
    var evaluationFunction: Evaluation
    var fullFeatureNames: bool
    var onDemandFeatureViews: seq<string>
    var metadata: Option<RetrievalMetadata>

    /** Stores the evaluation unevaluated; no on-demand views (None or empty) become the empty list. */
    constructor (evaluationFunction: Evaluation, fullFeatureNames: bool,
                 onDemandFeatureViews: Option<seq<string>>, metadata: Option<RetrievalMetadata>)
      ensures this.evaluationFunction == evaluationFunction
      ensures this.fullFeatureNames == fullFeatureNames
      ensures this.onDemandFeatureViews == if onDemandFeatureViews.Some? then onDemandFeatureViews.value else []
      ensures this.metadata == metadata
    {
      this.evaluationFunction := evaluationFunction;
      this.fullFeatureNames := fullFeatureNames;
      this.onDemandFeatureViews := if onDemandFeatureViews.Some? && onDemandFeatureViews.value != []
        then onDemandFeatureViews.value else [];
      this.metadata := metadata;
    }

    /** `_to_df_internal`: runs the stored evaluation now, against the files present now. */
    method ToDf(storage: Storage) returns (r: Outcome<Frame>)
      ensures r == Evaluate(evaluationFunction, storage)
    {
      match evaluationFunction
      case HistoricalEvaluation(spine, tsCol, requests, full, registry, project) =>
        r := HistoricalRetrieval.EvaluateHistoricalRetrieval(spine, tsCol, requests, full, registry, project, storage);
      case OfflineEvaluation(path, joinKeys, features, eventCol, created, start, end) =>
        r := Materialization.EvaluateOfflineJob(storage, path, joinKeys, features, eventCol, created, start, end);
    }

    /** `persist`: checks the destination, then writes the evaluated table as a file or a dataset. */
    method Persist(destination: SavedDatasetStorage, storage: Storage) returns (r: Outcome<Written>)
      ensures r == Persisted(evaluationFunction, destination, storage)
      ensures r.Ok? ==> (r.value.WriteTable? <==> EndsWith(destination.fileUrl, ParquetSuffix))
    {
      if !destination.SavedDatasetFileStorage? {
        return Fail(AssertionError);
      }
      var path := destination.fileUrl;
      var table := ToDf(storage);
      if table.Fail? {
        return Fail(table.failure);
      }
      if EndsWith(path, ParquetSuffix) {
        r := Ok(WriteTable(path, table.value));
      } else {
        r := Ok(WriteToDataset(path, table.value));
      }
    }
  }

  // ---- the store's entry points ----

  /** The entity dataframe handed to `get_historical_features`. */
  datatype EntityDf =
    | PandasFrame(frame: Frame, dtypes: map<Column, EntityTimestamps.DType>)
    | DaskFrame(frame: Frame, dtypes: map<Column, EntityTimestamps.DType>)
    | SqlQuery(sql: string)

  /**
   * What `get_historical_features` decides before it builds the job: a SQL
   * spine is refused, the timestamp column is resolved, and the timestamp
   * range is taken, which only a pandas spine supports.
   */
  function PlanHistorical(featureRefs: seq<string>, requests: seq<HistoricalRetrieval.ViewRequest>, entityDf: EntityDf,
                          registry: HistoricalRetrieval.Registry, project: string, fullFeatureNames: bool)
    : Outcome<(Evaluation, RetrievalMetadata)>
  {
    match entityDf
    case SqlQuery(_) => Fail(EntityDfTypeError)
    case DaskFrame(frame, dtypes) =>
      (match EntityTimestamps.ResolveTimestampColumn(frame.columns, dtypes)
       case Fail(f) => Fail(f)
       case Ok(_) => Fail(EntityDfTypeError))
    case PandasFrame(frame, dtypes) =>
      match EntityTimestamps.ResolveTimestampColumn(frame.columns, dtypes)
      case Fail(f) => Fail(f)
      case Ok(tsCol) =>
        var range := EntityTimestamps.EventTimestampRange(frame, tsCol);
        var (lo, hi) := if range.Some? then (Some(range.value.0), Some(range.value.1)) else (None, None);
        Ok((HistoricalEvaluation(frame, tsCol, requests, fullFeatureNames, registry, project),
            RetrievalMetadata(featureRefs, ColumnSet(frame.columns) - {tsCol}, lo, hi)))
  }

  /**
   * A planned historical retrieval: only pandas spines get one; the metadata
   * keys are the spine's columns but the timestamp column, and every spine
   * timestamp lies within the recorded [min, max].
   */
  lemma PlanHistoricalMetadata(featureRefs: seq<string>, requests: seq<HistoricalRetrieval.ViewRequest>, entityDf: EntityDf,
                               registry: HistoricalRetrieval.Registry, project: string, fullFeatureNames: bool)
    ensures var p := PlanHistorical(featureRefs, requests, entityDf, registry, project, fullFeatureNames);
      && (entityDf.SqlQuery? ==> p == Fail(EntityDfTypeError))
      && (p.Ok? ==> entityDf.PandasFrame?)
      && (p.Ok? ==> var (evaluation, md) := p.value;
          && evaluation.HistoricalEvaluation? && evaluation.spine == entityDf.frame
          && evaluation.tsCol in entityDf.frame.columns
          && md.features == featureRefs
          && md.keys == ColumnSet(entityDf.frame.columns) - {evaluation.tsCol}
          && (md.minEventTimestamp.None? <==> md.maxEventTimestamp.None?)
          && forall row :: row in entityDf.frame.rows && Get(row, evaluation.tsCol).Timestamp? ==>
               md.minEventTimestamp.Some? &&
               md.minEventTimestamp.value <= Get(row, evaluation.tsCol).instant <= md.maxEventTimestamp.value)
  {
  }

  /** `get_historical_features`: a job holding the historical evaluation and its metadata. */
  method GetHistoricalFeatures(featureRefs: seq<string>, requests: seq<HistoricalRetrieval.ViewRequest>, entityDf: EntityDf,
                               registry: HistoricalRetrieval.Registry, project: string, fullFeatureNames: bool,
                               onDemandFeatureViews: seq<string>)
    returns (r: Outcome<FileRetrievalJob>)
    ensures var p := PlanHistorical(featureRefs, requests, entityDf, registry, project, fullFeatureNames);
      && (r.Fail? <==> p.Fail?)
      && (r.Fail? ==> r.failure == p.failure)
      && (r.Ok? ==> && fresh(r.value)
                    && r.value.evaluationFunction == p.value.0
                    && r.value.metadata == Some(p.value.1)
                    && r.value.fullFeatureNames == fullFeatureNames
                    && r.value.onDemandFeatureViews == onDemandFeatureViews)
  {
    var plan := PlanHistorical(featureRefs, requests, entityDf, registry, project, fullFeatureNames);
    if plan.Fail? {
      return Fail(plan.failure);
    }
    var job := new FileRetrievalJob(plan.value.0, fullFeatureNames, Some(onDemandFeatureViews), Some(plan.value.1));
    r := Ok(job);
  }

  /** The evaluation `pull_latest_from_table_or_query` stores; anything but a file source fails its assertion. */
  function PlanPullLatest(dataSource: DataSource, joinKeys: seq<Column>, features: seq<Column>, eventCol: Column,
                          created: Option<Column>, start: int, end: int): Outcome<Evaluation>
  {
    match dataSource
    case OtherSource(_) => Fail(AssertionError)
    case File(source) => Ok(OfflineEvaluation(source.path, joinKeys, features, eventCol, created, start, end))
  }

  /** `pull_all_from_table_or_query` is `pull_latest` with the event timestamp as an extra key and no created column. */
  function PlanPullAll(dataSource: DataSource, joinKeys: seq<Column>, features: seq<Column>, eventCol: Column,
                       start: int, end: int): Outcome<Evaluation>
  {
    PlanPullLatest(dataSource, joinKeys + [eventCol], features, eventCol, None, start, end)
  }

  /** Evaluating a planned pull computes the window pull over the source's file. */
  lemma PlannedPullsEvaluate(dataSource: DataSource, joinKeys: seq<Column>, features: seq<Column>, eventCol: Column,
                             created: Option<Column>, start: int, end: int, storage: Storage)
    ensures PlanPullLatest(dataSource, joinKeys, features, eventCol, created, start, end).Ok? <==> dataSource.File?
    ensures PlanPullAll(dataSource, joinKeys, features, eventCol, start, end).Ok? <==> dataSource.File?
    ensures dataSource.File? ==>
      Evaluate(PlanPullLatest(dataSource, joinKeys, features, eventCol, created, start, end).value, storage)
        == Materialization.PullLatest(storage, dataSource.file.path, joinKeys, features, eventCol, created, start, end)
    ensures dataSource.File? ==>
      Evaluate(PlanPullAll(dataSource, joinKeys, features, eventCol, start, end).value, storage)
        == Materialization.PullAll(storage, dataSource.file.path, joinKeys, features, eventCol, start, end)
  {
  }

  /** `pull_latest_from_table_or_query`: a job without full feature names, on-demand views or metadata. */
  method PullLatestFromTableOrQuery(dataSource: DataSource, joinKeys: seq<Column>, features: seq<Column>, eventCol: Column,
                                    created: Option<Column>, start: int, end: int)
    returns (r: Outcome<FileRetrievalJob>)
    ensures var p := PlanPullLatest(dataSource, joinKeys, features, eventCol, created, start, end);
      && (r.Fail? <==> p.Fail?)
      && (r.Fail? ==> r.failure == AssertionError)
      && (r.Ok? ==> && fresh(r.value)
                    && r.value.evaluationFunction == p.value
                    && !r.value.fullFeatureNames
                    && r.value.onDemandFeatureViews == []
                    && r.value.metadata.None?)
  {
    if !dataSource.File? {
      return Fail(AssertionError);
    }
    var evaluation := OfflineEvaluation(dataSource.file.path, joinKeys, features, eventCol, created, start, end);
    var job := new FileRetrievalJob(evaluation, false, None, None);
    r := Ok(job);
  }

  /** `pull_all_from_table_or_query`: delegates with the event timestamp added to the keys. */
  method PullAllFromTableOrQuery(dataSource: DataSource, joinKeys: seq<Column>, features: seq<Column>, eventCol: Column,
                                 start: int, end: int)
    returns (r: Outcome<FileRetrievalJob>)
    ensures var p := PlanPullAll(dataSource, joinKeys, features, eventCol, start, end);
      && (r.Fail? <==> p.Fail?)
      && (r.Ok? ==> fresh(r.value) && r.value.evaluationFunction == p.value && r.value.metadata.None?)
  {
    r := PullLatestFromTableOrQuery(dataSource, joinKeys + [eventCol], features, eventCol, None, start, end);
  }
}
