/**
 * `FileOfflineStore.get_historical_features`: the evaluation function that
 * joins a feature view's parquet source to the entity dataframe (the spine)
 * under the point-in-time rule and keeps the latest row per join key.
 */
module HistoricalRetrieval {
  import opened Wrappers
  import opened Frames
  import Errors

  /** A registry entity: its name and the join key column it declares. */
  datatype Entity = Entity(name: string, joinKey: Column)

  /** The registry's entities by name, as `registry.get_entity` looks them up. */
  type Registry = map<string, Entity>

  datatype FeatureView = FeatureView(
    name: string,
    nameToUse: string,                // projection.name_to_use()
    entities: seq<string>,
    joinKeyMap: map<Column, Column>,  // projection.join_key_map
    ttl: int,
    batchSource: FileSource)

  /** One feature view with the features requested from it. */
  datatype ViewRequest = ViewRequest(view: FeatureView, features: seq<string>)

  // ---- join keys (file.py:199-206) ----

  /** `join_key_map.get(entity.join_key, entity.join_key)`. */
  function JoinKeyOf(entity: Entity, joinKeyMap: map<Column, Column>): Column
  {
    if entity.joinKey in joinKeyMap then joinKeyMap[entity.joinKey] else entity.joinKey
  }

  /** The join keys, one per entity in order; the first unknown entity raises EntityNotFoundException. */
  function JoinKeys(entities: seq<string>, registry: Registry, joinKeyMap: map<Column, Column>, project: string)
    : (r: Outcome<seq<Column>>)
    ensures r.Ok? <==> forall i :: 0 <= i < |entities| ==> entities[i] in registry
    ensures r.Ok? ==> |r.value| == |entities|
    ensures r.Ok? ==> forall i :: 0 <= i < |entities| ==> r.value[i] == JoinKeyOf(registry[entities[i]], joinKeyMap)
    ensures r.Fail? ==> exists i ::
      && 0 <= i < |entities| && entities[i] !in registry
      && (forall j :: 0 <= j < i ==> entities[j] in registry)
      && r.failure == NotFound(Errors.EntityNotFound(entities[i], Some(project)))
  {
    if entities == [] then Ok([])
    else if entities[0] !in registry then Fail(NotFound(Errors.EntityNotFound(entities[0], Some(project))))
    else match JoinKeys(entities[1..], registry, joinKeyMap, project)
      case Fail(f) =>
        var i :| 0 <= i < |entities[1..]| && entities[1..][i] !in registry
          && (forall j :: 0 <= j < i ==> entities[1..][j] in registry)
          && f == NotFound(Errors.EntityNotFound(entities[1..][i], Some(project)));
        assert entities[i + 1] !in registry;
        Fail(f)
      case Ok(rest) => Ok([JoinKeyOf(registry[entities[0]], joinKeyMap)] + rest)
  }

  /** The loop of file.py:200-206, appending one join key per entity. */
  method ResolveJoinKeys(entities: seq<string>, registry: Registry, joinKeyMap: map<Column, Column>, project: string)
    returns (r: Outcome<seq<Column>>)
    ensures r == JoinKeys(entities, registry, joinKeyMap, project)
  {
    var joinKeys: seq<Column> := [];
    var i := 0;
    while i < |entities|
      invariant 0 <= i <= |entities|
      invariant forall j :: 0 <= j < i ==> entities[j] in registry
      invariant |joinKeys| == i
      invariant forall j :: 0 <= j < i ==> joinKeys[j] == JoinKeyOf(registry[entities[j]], joinKeyMap)
    {
      var entityName := entities[i];
      if entityName !in registry {
        r := Fail(NotFound(Errors.EntityNotFound(entityName, Some(project))));
        var expected := JoinKeys(entities, registry, joinKeyMap, project);
        assert expected.Fail?;
        var k :| && 0 <= k < |entities| && entities[k] !in registry
                 && (forall j :: 0 <= j < k ==> entities[j] in registry)
                 && expected.failure == NotFound(Errors.EntityNotFound(entities[k], Some(project)));
        assert k == i;
        return;
      }
      joinKeys := joinKeys + [JoinKeyOf(registry[entityName], joinKeyMap)];
      i := i + 1;
    }
    var expected := JoinKeys(entities, registry, joinKeyMap, project);
    assert expected.Ok? && joinKeys == expected.value;
    r := Ok(joinKeys);
  }

  // ---- feature column names (file.py:310-324) ----

  const Separator: string := "__"

  /** `<name_to_use>__<feature>` with full feature names, the bare feature otherwise. */
  function FeatureColumnName(nameToUse: string, feature: string, fullFeatureNames: bool): string
  {
    if fullFeatureNames then nameToUse + Separator + feature else feature
  }

  function FeatureColumnNames(nameToUse: string, features: seq<string>, fullFeatureNames: bool): seq<string>
  {
    seq(|features|, i requires 0 <= i < |features| => FeatureColumnName(nameToUse, features[i], fullFeatureNames))
  }

  /** The loop of file.py:311-324, appending one formatted name per requested feature. */
  method BuildFeatureNames(nameToUse: string, features: seq<string>, fullFeatureNames: bool)
    returns (featureNames: seq<string>)
    ensures |featureNames| == |features|
    ensures forall i :: 0 <= i < |features| ==>
      featureNames[i] == if fullFeatureNames then nameToUse + "__" + features[i] else features[i]
    ensures featureNames == FeatureColumnNames(nameToUse, features, fullFeatureNames)
  {
    featureNames := [];
    var i := 0;
    while i < |features|
      invariant 0 <= i <= |features|
      invariant |featureNames| == i
      invariant forall j :: 0 <= j < i ==> featureNames[j] == FeatureColumnName(nameToUse, features[j], fullFeatureNames)
    {
      var formattedFeatureName := if fullFeatureNames then nameToUse + Separator + features[i] else features[i];
      featureNames := featureNames + [formattedFeatureName];
      i := i + 1;
    }
  }

  /** Removes the `<name_to_use>__` qualifier from a full feature name. */
  function StripQualifier(nameToUse: string, name: string): string
  {
    var prefix := nameToUse + Separator;
    if |prefix| <= |name| && name[..|prefix|] == prefix then name[|prefix|..] else name
  }

  /** Every full name starts with the view's qualifier, and stripping it gives the feature back. */
  lemma {:induction false} FeatureNamesRoundTrip(nameToUse: string, features: seq<string>)
    ensures forall i :: 0 <= i < |features| ==>
      var name := FeatureColumnNames(nameToUse, features, true)[i];
      && name[..|nameToUse| + 2] == nameToUse + Separator
      && StripQualifier(nameToUse, name) == features[i]
  {
    forall i | 0 <= i < |features|
      ensures var name := FeatureColumnNames(nameToUse, features, true)[i];
        name[..|nameToUse| + 2] == nameToUse + Separator && StripQualifier(nameToUse, name) == features[i]
    {
      var prefix := nameToUse + Separator;
      var name := FeatureColumnNames(nameToUse, features, true)[i];
      assert name == prefix + features[i];
      assert name[..|prefix|] == prefix;
      assert name[|prefix|..] == features[i];
    }
  }

  /** Distinct requested features give distinct column names, in either naming mode. */
  lemma FeatureNamesDistinct(nameToUse: string, features: seq<string>, fullFeatureNames: bool)
    requires forall i, j :: 0 <= i < j < |features| ==> features[i] != features[j]
    ensures var names := FeatureColumnNames(nameToUse, features, fullFeatureNames);
      forall i, j :: 0 <= i < j < |names| ==> names[i] != names[j]
  {
    if fullFeatureNames {
      FeatureNamesRoundTrip(nameToUse, features);
    }
  }

  // ---- joining the source to the spine (file.py:231-245) ----

  /** `__<timestamp column>`: the spine's timestamp as carried into the joined frame. */
  function Tag(tsCol: Column): Column
  {
    "__" + tsCol
  }

  /** A source row merged with a spine row: the source columns plus the spine's timestamp. */
  function Merge(s: Row, e: Row, tsCol: Column): Row
  {
    s[Tag(tsCol) := Get(e, tsCol)]
  }

  function MatchesOf(s: Row, spine: seq<Row>, keys: seq<Column>, tsCol: Column): seq<Row>
  {
    if spine == [] then []
    else
      var here := if KeyTuple(s, keys) == KeyTuple(spine[0], keys) then [Merge(s, spine[0], tsCol)] else [];
      here + MatchesOf(s, spine[1..], keys, tsCol)
  }

  /** The inner join of `dd.merge(source, spine, left_on=keys, right_on=keys)`. */
  function InnerJoin(source: seq<Row>, spine: seq<Row>, keys: seq<Column>, tsCol: Column): seq<Row>
  {
    if source == [] then [] else MatchesOf(source[0], spine, keys, tsCol) + InnerJoin(source[1..], spine, keys, tsCol)
  }

  /** m is the merge of a source row and a spine row that agree on every join key. */
  ghost predicate Joined(m: Row, source: seq<Row>, spine: seq<Row>, keys: seq<Column>, tsCol: Column)
  {
    exists s, e :: s in source && e in spine && KeyTuple(s, keys) == KeyTuple(e, keys) && m == Merge(s, e, tsCol)
  }

  lemma {:induction false} MatchesOfMembers(s: Row, spine: seq<Row>, keys: seq<Column>, tsCol: Column)
    ensures forall m :: m in MatchesOf(s, spine, keys, tsCol) <==>
      exists e :: e in spine && KeyTuple(s, keys) == KeyTuple(e, keys) && m == Merge(s, e, tsCol)
  {
    if spine != [] {
      MatchesOfMembers(s, spine[1..], keys, tsCol);
      assert forall e :: e in spine <==> e == spine[0] || e in spine[1..];
    }
  }

  /** The joined rows are exactly the merges of key-matching pairs. */
  lemma {:induction false} InnerJoinMembers(source: seq<Row>, spine: seq<Row>, keys: seq<Column>, tsCol: Column)
    ensures forall m :: m in InnerJoin(source, spine, keys, tsCol) <==> Joined(m, source, spine, keys, tsCol)
  {
    if source != [] {
      InnerJoinMembers(source[1..], spine, keys, tsCol);
      MatchesOfMembers(source[0], spine, keys, tsCol);
      assert forall s :: s in source <==> s == source[0] || s in source[1..];
    }
  }

  /** Key selection and renaming of the spine, then the merge; the result's labels. */
  function MergeOnKeys(source: Frame, spine: Frame, keys: seq<Column>, tsCol: Column): Frame
  {
    Frame(source.columns + [Tag(tsCol)], InnerJoin(source.rows, spine.rows, keys, tsCol))
  }

  // ---- the point-in-time filter (file.py:294-307) ----

  /** `entity_ts - ttl <= event_ts <= entity_ts` on a merged row; NaT on either side fails. */
  predicate WithinTtl(m: Row, eventCol: Column, tsCol: Column, ttl: int)
  {
    match (Get(m, eventCol), Get(m, Tag(tsCol)))
    case (Timestamp(t), Timestamp(u)) => u - ttl <= t <= u
    case _ => false
  }

  function FilterTtl(f: Frame, eventCol: Column, tsCol: Column, ttl: int): Frame
  {
    Frame(f.columns, Filter(f.rows, (m: Row) => WithinTtl(m, eventCol, tsCol, ttl)))
  }

  /** The source row s is valid for spine row e: both timestamps present, s no newer than e and at most ttl older. */
  predicate PointInTime(s: Row, e: Row, eventCol: Column, tsCol: Column, ttl: int)
  {
    match (Get(s, eventCol), Get(e, tsCol))
    case (Timestamp(t), Timestamp(u)) => u - ttl <= t <= u
    case _ => false
  }

  /** The merged rows that pass the point-in-time filter. */
  function Candidates(source: Frame, spine: Frame, keys: seq<Column>, tsCol: Column, eventCol: Column, ttl: int): seq<Row>
  {
    FilterTtl(MergeOnKeys(source, spine, keys, tsCol), eventCol, tsCol, ttl).rows
  }

  // ---- sort, keep-last and projection (file.py:338-348) ----

  function SortFrame(f: Frame, col: Column): Frame
  {
    Frame(f.columns, SortByTimestamp(f.rows, col))
  }

  function DedupFrame(f: Frame, keys: seq<Column>): Frame
  {
    Frame(f.columns, DedupLast(f.rows, keys))
  }

  /** The columns selected at file.py:347: event timestamp, join keys, feature names. */
  function OutputColumns(eventCol: Column, keys: seq<Column>, names: seq<string>): seq<Column>
  {
    [eventCol] + keys + names
  }

  /** Lines 199-229 of one loop iteration: join keys, `join_keys[0]`, and reading the source. */
  function Prelude(view: FeatureView, registry: Registry, project: string, storage: Storage)
    : Outcome<(seq<Column>, Frame)>
  {
    match JoinKeys(view.entities, registry, view.joinKeyMap, project)
    case Fail(f) => Fail(f)
    case Ok(keys) =>
      if |keys| == 0 then Fail(IndexError)
      else match ReadParquet(storage, view.batchSource.path)
        case Fail(f) => Fail(f)
        case Ok(source) => Ok((keys, source))
  }

  /** Lines 231-348 for one feature view: the frame the loop leaves in `df_to_join`. */
  function JoinSource(spine: Frame, tsCol: Column, req: ViewRequest, fullFeatureNames: bool, keys: seq<Column>, source: Frame)
    : Outcome<Frame>
  {
    var view := req.view;
    var eventCol := view.batchSource.eventTimestampColumn;
    var created := view.batchSource.createdTimestampColumn;
    var spineMissing := Missing(keys + [tsCol], spine.columns);
    var sourceMissing := Missing(keys, source.columns);
    if spineMissing != {} then Fail(KeyError(spineMissing))
    else if sourceMissing != {} then Fail(KeyError(sourceMissing))
    else
      var merged := MergeOnKeys(source, spine, keys, tsCol);
      if eventCol !in merged.columns then Fail(KeyError({eventCol}))
      else if IsTruthy(created) && created.value !in merged.columns then Fail(KeyError({created.value}))
      else
        var filtered := FilterTtl(merged, eventCol, tsCol, view.ttl);
        assert Tag(tsCol) in filtered.columns;
        var stripped := DropColumn(filtered, Tag(tsCol)).value;
        var names := FeatureColumnNames(view.nameToUse, req.features, fullFeatureNames);
        Project(DedupFrame(SortFrame(stripped, eventCol), keys), OutputColumns(eventCol, keys, names))
  }

  function JoinView(spine: Frame, tsCol: Column, req: ViewRequest, fullFeatureNames: bool,
                    registry: Registry, project: string, storage: Storage): Outcome<Frame>
  {
    match Prelude(req.view, registry, project, storage)
    case Fail(f) => Fail(f)
    case Ok((keys, source)) => JoinSource(spine, tsCol, req, fullFeatureNames, keys, source)
  }

  /**
   * `evaluate_historical_retrieval` (file.py:151-357). The spine is deleted at
   * the end of the first iteration, so a second feature view fails once it
   * reaches line 235; with no feature view `df_to_join` is never bound.
   */
  function Retrieve(spine: Frame, tsCol: Column, requests: seq<ViewRequest>, fullFeatureNames: bool,
                    registry: Registry, project: string, storage: Storage): Outcome<Frame>
  {
    if tsCol !in spine.columns then Fail(KeyError({tsCol}))
    else if |requests| == 0 then Fail(UnboundLocalError("df_to_join"))
    else match JoinView(SortFrame(spine, tsCol), tsCol, requests[0], fullFeatureNames, registry, project, storage)
      case Fail(f) => Fail(f)
      case Ok(joined) =>
        if |requests| == 1 then Ok(RenameColumn(joined, requests[0].view.batchSource.eventTimestampColumn, tsCol))
        else match Prelude(requests[1].view, registry, project, storage)
          case Fail(f) => Fail(f)
          case Ok(_) => Fail(UnboundLocalError("entity_df_with_features"))
  }

  /** The evaluation function itself: the loop over feature views, rebinding `df_to_join` step by step. */
  method EvaluateHistoricalRetrieval(spine: Frame, tsCol: Column, requests: seq<ViewRequest>, fullFeatureNames: bool,
                                     registry: Registry, project: string, storage: Storage)
    returns (r: Outcome<Frame>)
    ensures r == Retrieve(spine, tsCol, requests, fullFeatureNames, registry, project, storage)
  {
    if tsCol !in spine.columns {
      return Fail(KeyError({tsCol}));
    }
    var entityDfWithFeatures := SortFrame(spine, tsCol);
    var deleted := false;
    var dfToJoin: Option<Frame> := None;
    var eventCol: Column := "";
    var i := 0;
    while i < |requests|
      invariant 0 <= i <= |requests| && i <= 1
      invariant deleted <==> i == 1
      invariant i == 0 <==> dfToJoin.None?
      invariant i == 1 ==> eventCol == requests[0].view.batchSource.eventTimestampColumn
      invariant i == 1 ==> JoinView(SortFrame(spine, tsCol), tsCol, requests[0], fullFeatureNames, registry, project, storage)
                           == Ok(dfToJoin.value)
    {
      var view := requests[i].view;
      eventCol := view.batchSource.eventTimestampColumn;
      var created := view.batchSource.createdTimestampColumn;
      var resolved := ResolveJoinKeys(view.entities, registry, view.joinKeyMap, project);
      if resolved.Fail? {
        return Fail(resolved.failure);
      }
      var joinKeys := resolved.value;
      if |joinKeys| == 0 {
        return Fail(IndexError);
      }
      var read := ReadParquet(storage, view.batchSource.path);
      if read.Fail? {
        return Fail(read.failure);
      }
      var df := read.value;
      if deleted {
        return Fail(UnboundLocalError("entity_df_with_features"));
      }
      var spineMissing := Missing(joinKeys + [tsCol], entityDfWithFeatures.columns);
      if spineMissing != {} {
        return Fail(KeyError(spineMissing));
      }
      var sourceMissing := Missing(joinKeys, df.columns);
      if sourceMissing != {} {
        return Fail(KeyError(sourceMissing));
      }
      df := MergeOnKeys(df, entityDfWithFeatures, joinKeys, tsCol);
      if eventCol !in df.columns {
        return Fail(KeyError({eventCol}));
      }
      if IsTruthy(created) && created.value !in df.columns {
        return Fail(KeyError({created.value}));
      }
      df := FilterTtl(df, eventCol, tsCol, view.ttl);
      assert Tag(tsCol) in df.columns;
      df := DropColumn(df, Tag(tsCol)).value;
      var featureNames := BuildFeatureNames(view.nameToUse, requests[i].features, fullFeatureNames);
      df := SortFrame(df, eventCol);
      df := DedupFrame(df, joinKeys);
      var projected := Project(df, OutputColumns(eventCol, joinKeys, featureNames));
      if projected.Fail? {
        return Fail(projected.failure);
      }
      dfToJoin := Some(projected.value);
      deleted := true;
      i := i + 1;
    }
    if dfToJoin.None? {
      return Fail(UnboundLocalError("df_to_join"));
    }
    r := Ok(RenameColumn(dfToJoin.value, eventCol, tsCol));
  }
}
