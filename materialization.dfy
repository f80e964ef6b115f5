/**
 * The window pulls used by materialisation: `pull_latest_from_table_or_query`
 * keeps, per join key tuple, the latest source row whose event time lies in
 * [start, end); `pull_all_from_table_or_query` adds the event timestamp to the
 * key so that every row of the window is kept.
 */
module Materialization {
  import opened Wrappers
  import opened Frames

  /** DUMMY_ENTITY_ID and DUMMY_ENTITY_VAL of feast/feature_view.py. */
  const DummyEntityId: Column := "__dummy_id"
  const DummyEntityVal: Value := Str("")

  /** `start_date <= event_ts < end_date`; NaT fails both comparisons. */
  predicate InWindow(row: Row, eventCol: Column, start: int, end: int)
  {
    match Get(row, eventCol)
    case Timestamp(t) => start <= t < end
    case _ => false
  }

  function Window(rows: seq<Row>, eventCol: Column, start: int, end: int): seq<Row>
  {
    Filter(rows, (r: Row) => InWindow(r, eventCol, start, end))
  }

  /** `ts_columns`: the event timestamp, then the created timestamp when one is given. */
  function TimestampColumns(eventCol: Column, created: Option<Column>): seq<Column>
  {
    if IsTruthy(created) then [eventCol, created.value] else [eventCol]
  }

  /** `list(columns_to_extract)`: keys, features, timestamps and, without keys, the dummy entity. */
  function ColumnsToExtract(joinKeys: seq<Column>, features: seq<Column>, eventCol: Column, created: Option<Column>)
    : seq<Column>
  {
    Distinct(joinKeys + features + TimestampColumns(eventCol, created) + (if joinKeys == [] then [DummyEntityId] else []))
  }

  /** Lines 449-469: sort, keep the window, then keep-last per key or add the dummy entity column. */
  function Latest(source: Frame, joinKeys: seq<Column>, eventCol: Column, start: int, end: int): Frame
  {
    var windowed := Frame(source.columns, Window(SortByTimestamp(source.rows, eventCol), eventCol, start, end));
    if joinKeys != [] then Frame(windowed.columns, DedupLast(windowed.rows, joinKeys))
    else AddConstantColumn(windowed, DummyEntityId, DummyEntityVal)
  }

  /** `evaluate_offline_job` on a source frame already read (lines 405-471). */
  function Extract(source: Frame, path: string, joinKeys: seq<Column>, features: seq<Column>, eventCol: Column,
                   created: Option<Column>, start: int, end: int): Outcome<Frame>
  {
    if eventCol !in source.columns then Fail(KeyError({eventCol}))
    else if IsTruthy(created) && created.value !in source.columns then Fail(KeyError({created.value}))
    else if !(ColumnSet(joinKeys) <= ColumnSet(source.columns)) then
      Fail(JoinKeysDuringMaterialization(path, ColumnSet(joinKeys), ColumnSet(source.columns)))
    else Project(Latest(source, joinKeys, eventCol, start, end), ColumnsToExtract(joinKeys, features, eventCol, created))
  }

  /** `pull_latest_from_table_or_query`'s evaluation: read the parquet file, then extract. */
  function PullLatest(storage: Storage, path: string, joinKeys: seq<Column>, features: seq<Column>, eventCol: Column,
                      created: Option<Column>, start: int, end: int): Outcome<Frame>
  {
    match ReadParquet(storage, path)
    case Fail(f) => Fail(f)
    case Ok(source) => Extract(source, path, joinKeys, features, eventCol, created, start, end)
  }

  /** `pull_all_from_table_or_query`: the event timestamp joins the keys and no created timestamp is used. */
  function PullAll(storage: Storage, path: string, joinKeys: seq<Column>, features: seq<Column>, eventCol: Column,
                   start: int, end: int): Outcome<Frame>
  {
    PullLatest(storage, path, joinKeys + [eventCol], features, eventCol, None, start, end)
  }

  /** The evaluation function, rebinding `source_df` step by step as the source does. */
  method EvaluateOfflineJob(storage: Storage, path: string, joinKeys: seq<Column>, features: seq<Column>, eventCol: Column,
                            created: Option<Column>, start: int, end: int)
    returns (r: Outcome<Frame>)
    ensures r == PullLatest(storage, path, joinKeys, features, eventCol, created, start, end)
  {
    var read := ReadParquet(storage, path);
    if read.Fail? {
      return Fail(read.failure);
    }
    var sourceDf := read.value;
    if eventCol !in sourceDf.columns {
      return Fail(KeyError({eventCol}));
    }
    if IsTruthy(created) && created.value !in sourceDf.columns {
      return Fail(KeyError({created.value}));
    }
    var sourceColumns := ColumnSet(sourceDf.columns);
    if !(ColumnSet(joinKeys) <= sourceColumns) {
      return Fail(JoinKeysDuringMaterialization(path, ColumnSet(joinKeys), sourceColumns));
    }
    var original := sourceDf;
    sourceDf := Frame(sourceDf.columns, SortByTimestamp(sourceDf.rows, eventCol));
    sourceDf := Frame(sourceDf.columns, Window(sourceDf.rows, eventCol, start, end));
    if joinKeys != [] {
      sourceDf := Frame(sourceDf.columns, DedupLast(sourceDf.rows, joinKeys));
    } else {
      sourceDf := AddConstantColumn(sourceDf, DummyEntityId, DummyEntityVal);
    }
    assert sourceDf == Latest(original, joinKeys, eventCol, start, end);
    r := Project(sourceDf, ColumnsToExtract(joinKeys, features, eventCol, created));
  }

  // ---- properties ----

  /** The pulled rows before projection: the window of the source, deduplicated or tagged with the dummy entity. */
  lemma LatestRows(source: Frame, joinKeys: seq<Column>, eventCol: Column, start: int, end: int)
    ensures var windowed := Window(SortByTimestamp(source.rows, eventCol), eventCol, start, end);
      && (forall x :: x in windowed <==> x in source.rows && InWindow(x, eventCol, start, end))
      && SortedBy(windowed, eventCol)
      && ColumnSet(Latest(source, joinKeys, eventCol, start, end).columns) ==
         ColumnSet(source.columns) + (if joinKeys == [] then {DummyEntityId} else {})
  {
    var sorted := SortByTimestamp(source.rows, eventCol);
    SortedMembers(source.rows, eventCol);
    SortProperties(source.rows, eventCol);
    FilterSorted(sorted, (r: Row) => InWindow(r, eventCol, start, end), eventCol);
  }

  /**
   * The failures of a pull, in the order the source raises them: a missing
   * event or created timestamp column, join keys the source lacks, then a
   * missing feature column.
   */
  lemma ExtractFailures(source: Frame, path: string, joinKeys: seq<Column>, features: seq<Column>, eventCol: Column,
                        created: Option<Column>, start: int, end: int)
    ensures var r := Extract(source, path, joinKeys, features, eventCol, created, start, end);
      var tsPresent := eventCol in source.columns && (IsTruthy(created) ==> created.value in source.columns);
      var keysPresent := forall k :: k in joinKeys ==> k in source.columns;
      var featuresPresent := forall c :: c in features ==> c in source.columns || (joinKeys == [] && c == DummyEntityId);
      && (r.Ok? <==> tsPresent && keysPresent && featuresPresent)
      && (r == Fail(JoinKeysDuringMaterialization(path, ColumnSet(joinKeys), ColumnSet(source.columns))) <==>
            tsPresent && !keysPresent)
      && (tsPresent && keysPresent && !featuresPresent ==>
            r.Fail? && r.failure.KeyError? && exists c :: c in features && c in r.failure.missing)
  {
    var r := Extract(source, path, joinKeys, features, eventCol, created, start, end);
    var tsPresent := eventCol in source.columns && (IsTruthy(created) ==> created.value in source.columns);
    var keysPresent := forall k :: k in joinKeys ==> k in source.columns;
    var cols := ColumnsToExtract(joinKeys, features, eventCol, created);
    assert keysPresent <==> ColumnSet(joinKeys) <= ColumnSet(source.columns) by {
      if !keysPresent {
        var k :| k in joinKeys && k !in source.columns;
        assert k in ColumnSet(joinKeys) && k !in ColumnSet(source.columns);
      }
    }
    if tsPresent && keysPresent {
      LatestRows(source, joinKeys, eventCol, start, end);
      var latest := Latest(source, joinKeys, eventCol, start, end);
      assert forall c :: c in latest.columns <==> c in source.columns || (joinKeys == [] && c == DummyEntityId);
      assert forall c :: c in cols ==> c in joinKeys + features + TimestampColumns(eventCol, created) || c == DummyEntityId;
      if !(forall c :: c in features ==> c in source.columns || (joinKeys == [] && c == DummyEntityId)) {
        var c :| c in features && c !in source.columns && !(joinKeys == [] && c == DummyEntityId);
        assert c in cols;
        assert c !in latest.columns;
      }
    }
  }

  /** The pulled columns are each key, feature and timestamp column once, plus the dummy entity without keys. */
  lemma PullLatestColumns(source: Frame, path: string, joinKeys: seq<Column>, features: seq<Column>, eventCol: Column,
                          created: Option<Column>, start: int, end: int)
    requires Extract(source, path, joinKeys, features, eventCol, created, start, end).Ok?
    ensures var out := Extract(source, path, joinKeys, features, eventCol, created, start, end).value;
      && ColumnSet(out.columns) ==
         ColumnSet(joinKeys) + ColumnSet(features) + ColumnSet(TimestampColumns(eventCol, created))
         + (if joinKeys == [] then {DummyEntityId} else {})
      && (forall i, j :: 0 <= i < j < |out.columns| ==> out.columns[i] != out.columns[j])
  {
  }

  /** Every row of a pull shows, on its non-dummy columns, a source row inside the window. */
  lemma PullLatestRowsInWindow(source: Frame, path: string, joinKeys: seq<Column>, features: seq<Column>, eventCol: Column,
                               created: Option<Column>, start: int, end: int)
    requires eventCol != DummyEntityId
    requires Extract(source, path, joinKeys, features, eventCol, created, start, end).Ok?
    ensures var out := Extract(source, path, joinKeys, features, eventCol, created, start, end).value;
      forall y :: y in out.rows ==>
        && InWindow(y, eventCol, start, end)
        && (joinKeys == [] ==> Get(y, DummyEntityId) == DummyEntityVal)
        && exists x :: x in source.rows && InWindow(x, eventCol, start, end)
             && forall c :: c in out.columns && c != DummyEntityId ==> Get(y, c) == Get(x, c)
  {
    var out := Extract(source, path, joinKeys, features, eventCol, created, start, end).value;
    var cols := ColumnsToExtract(joinKeys, features, eventCol, created);
    var sorted := SortByTimestamp(source.rows, eventCol);
    var windowed := Window(sorted, eventCol, start, end);
    var latest := Latest(source, joinKeys, eventCol, start, end);
    LatestRows(source, joinKeys, eventCol, start, end);
    DedupSubset(windowed, joinKeys);
    assert eventCol in cols;
    forall y | y in out.rows ensures
      && InWindow(y, eventCol, start, end)
      && (joinKeys == [] ==> Get(y, DummyEntityId) == DummyEntityVal)
      && exists x :: x in source.rows && InWindow(x, eventCol, start, end)
           && forall c :: c in out.columns && c != DummyEntityId ==> Get(y, c) == Get(x, c)
    {
      var i :| 0 <= i < |out.rows| && out.rows[i] == y;
      assert y == ProjectRow(latest.rows[i], cols);
      var x: Row;
      if joinKeys != [] {
        x := latest.rows[i];
        assert x in DedupLast(windowed, joinKeys);
      } else {
        x := windowed[i];
        assert latest.rows[i] == x[DummyEntityId := DummyEntityVal];
        assert DummyEntityId in cols;
      }
      assert x in windowed;
      assert Get(y, eventCol) == Get(x, eventCol);
    }
  }

  /** With join keys, no two pulled rows share a key tuple. */
  lemma PullLatestOneRowPerKey(source: Frame, path: string, joinKeys: seq<Column>, features: seq<Column>, eventCol: Column,
                               created: Option<Column>, start: int, end: int)
    requires joinKeys != []
    requires Extract(source, path, joinKeys, features, eventCol, created, start, end).Ok?
    ensures var out := Extract(source, path, joinKeys, features, eventCol, created, start, end).value;
      forall i, j :: 0 <= i < j < |out.rows| ==> KeyTuple(out.rows[i], joinKeys) != KeyTuple(out.rows[j], joinKeys)
  {
    var out := Extract(source, path, joinKeys, features, eventCol, created, start, end).value;
    var cols := ColumnsToExtract(joinKeys, features, eventCol, created);
    var kept := DedupLast(Window(SortByTimestamp(source.rows, eventCol), eventCol, start, end), joinKeys);
    DedupUniqueKeys(Window(SortByTimestamp(source.rows, eventCol), eventCol, start, end), joinKeys);
    assert forall k :: k in joinKeys ==> k in cols;
    forall i | 0 <= i < |out.rows| ensures KeyTuple(out.rows[i], joinKeys) == KeyTuple(kept[i], joinKeys) {
      KeyTupleProject(kept[i], cols, joinKeys);
    }
  }

  /** With join keys, the row pulled for a key is the latest in-window source row of that key. */
  lemma PullLatestIsLatest(source: Frame, path: string, joinKeys: seq<Column>, features: seq<Column>, eventCol: Column,
                           created: Option<Column>, start: int, end: int)
    requires joinKeys != []
    requires Extract(source, path, joinKeys, features, eventCol, created, start, end).Ok?
    ensures var out := Extract(source, path, joinKeys, features, eventCol, created, start, end).value;
      forall y, x ::
        (&& y in out.rows && x in source.rows && InWindow(x, eventCol, start, end)
         && KeyTuple(x, joinKeys) == KeyTuple(y, joinKeys)) ==>
        Before(TsKey(x, eventCol), TsKey(y, eventCol))
  {
    var out := Extract(source, path, joinKeys, features, eventCol, created, start, end).value;
    var cols := ColumnsToExtract(joinKeys, features, eventCol, created);
    var windowed := Window(SortByTimestamp(source.rows, eventCol), eventCol, start, end);
    var kept := DedupLast(windowed, joinKeys);
    LatestRows(source, joinKeys, eventCol, start, end);
    DedupKeepsLatest(windowed, joinKeys, eventCol);
    assert forall k :: k in joinKeys ==> k in cols;
    assert eventCol in cols;
    forall y, x | && y in out.rows && x in source.rows && InWindow(x, eventCol, start, end)
                  && KeyTuple(x, joinKeys) == KeyTuple(y, joinKeys)
      ensures Before(TsKey(x, eventCol), TsKey(y, eventCol))
    {
      var i :| 0 <= i < |out.rows| && out.rows[i] == y;
      KeyTupleProject(kept[i], cols, joinKeys);
      assert kept[i] in kept && x in windowed;
      assert TsKey(y, eventCol) == TsKey(kept[i], eventCol);
    }
  }

  /** Every in-window source row is represented: by its key tuple with keys, by itself (plus the dummy) without. */
  lemma PullLatestCoversWindow(source: Frame, path: string, joinKeys: seq<Column>, features: seq<Column>, eventCol: Column,
                               created: Option<Column>, start: int, end: int)
    requires Extract(source, path, joinKeys, features, eventCol, created, start, end).Ok?
    ensures var out := Extract(source, path, joinKeys, features, eventCol, created, start, end).value;
      forall x :: x in source.rows && InWindow(x, eventCol, start, end) ==>
        if joinKeys != [] then exists y :: y in out.rows && KeyTuple(y, joinKeys) == KeyTuple(x, joinKeys)
        else ProjectRow(x[DummyEntityId := DummyEntityVal], out.columns) in out.rows
  {
    var out := Extract(source, path, joinKeys, features, eventCol, created, start, end).value;
    var cols := ColumnsToExtract(joinKeys, features, eventCol, created);
    var windowed := Window(SortByTimestamp(source.rows, eventCol), eventCol, start, end);
    var latest := Latest(source, joinKeys, eventCol, start, end);
    LatestRows(source, joinKeys, eventCol, start, end);
    DedupCoversKeys(windowed, joinKeys);
    assert forall k :: k in joinKeys ==> k in cols;
    forall x | x in source.rows && InWindow(x, eventCol, start, end)
      ensures if joinKeys != [] then exists y :: y in out.rows && KeyTuple(y, joinKeys) == KeyTuple(x, joinKeys)
              else ProjectRow(x[DummyEntityId := DummyEntityVal], out.columns) in out.rows
    {
      var w :| 0 <= w < |windowed| && windowed[w] == x;
      if joinKeys != [] {
        var k :| k in latest.rows && KeyTuple(k, joinKeys) == KeyTuple(x, joinKeys);
        var i :| 0 <= i < |latest.rows| && latest.rows[i] == k;
        KeyTupleProject(k, cols, joinKeys);
        assert out.rows[i] in out.rows;
      } else {
        assert out.rows[w] == ProjectRow(x[DummyEntityId := DummyEntityVal], cols);
      }
    }
  }

  /**
   * `pull_all_from_table_or_query` keeps every in-window source row's pair of
   * join keys and event time: rows of one key with distinct event times are
   * not collapsed.
   */
  lemma PullAllKeepsEveryEvent(storage: Storage, path: string, joinKeys: seq<Column>, features: seq<Column>,
                               eventCol: Column, start: int, end: int)
    requires PullAll(storage, path, joinKeys, features, eventCol, start, end).Ok?
    ensures var out := PullAll(storage, path, joinKeys, features, eventCol, start, end).value;
      forall x :: x in storage[path].rows && InWindow(x, eventCol, start, end) ==>
        exists y :: y in out.rows && KeyTuple(y, joinKeys) == KeyTuple(x, joinKeys) && Get(y, eventCol) == Get(x, eventCol)
  {
    var source := storage[path];
    var keys := joinKeys + [eventCol];
    var out := PullAll(storage, path, joinKeys, features, eventCol, start, end).value;
    PullLatestCoversWindow(source, path, keys, features, eventCol, None, start, end);
    forall x | x in source.rows && InWindow(x, eventCol, start, end)
      ensures exists y :: y in out.rows && KeyTuple(y, joinKeys) == KeyTuple(x, joinKeys) && Get(y, eventCol) == Get(x, eventCol)
    {
      var y :| y in out.rows && KeyTuple(y, keys) == KeyTuple(x, keys);
      KeyTupleConcat(y, joinKeys, [eventCol]);
      KeyTupleConcat(x, joinKeys, [eventCol]);
      assert KeyTuple(y, keys)[|joinKeys|] == Get(y, eventCol);
      assert KeyTuple(x, keys)[|joinKeys|] == Get(x, eventCol);
      assert KeyTuple(y, joinKeys) == KeyTuple(y, keys)[..|joinKeys|];
      assert KeyTuple(x, joinKeys) == KeyTuple(x, keys)[..|joinKeys|];
    }
  }

  /** `pull_all_from_table_or_query` never adds the dummy entity, since its keys are never empty. */
  lemma PullAllHasNoDummy(storage: Storage, path: string, joinKeys: seq<Column>, features: seq<Column>,
                          eventCol: Column, start: int, end: int)
    requires PullAll(storage, path, joinKeys, features, eventCol, start, end).Ok?
    ensures var out := PullAll(storage, path, joinKeys, features, eventCol, start, end).value;
      ColumnSet(out.columns) == ColumnSet(joinKeys) + ColumnSet(features) + {eventCol}
  {
    PullLatestColumns(storage[path], path, joinKeys + [eventCol], features, eventCol, None, start, end);
  }
}
