/**
 * What a successful historical retrieval guarantees: every row comes from a
 * source row that matches a spine row on the join keys and lies in that spine
 * row's TTL window (no data from the future leaks in), one row per join key,
 * the latest such source row, and every matched key represented.
 */
module PointInTimeJoin {
  import opened Wrappers
  import opened Frames
  import opened HistoricalRetrieval

  /** Source row s may serve spine row e: same join keys, and within e's TTL window. */
  predicate ValidPair(s: Row, e: Row, keys: seq<Column>, tsCol: Column, eventCol: Column, ttl: int)
  {
    KeyTuple(s, keys) == KeyTuple(e, keys) && PointInTime(s, e, eventCol, tsCol, ttl)
  }

  /** The rows `drop_duplicates` keeps, before the final projection. */
  function Kept(source: Frame, spine: Frame, keys: seq<Column>, tsCol: Column, eventCol: Column, ttl: int): seq<Row>
  {
    DedupLast(SortByTimestamp(DropFromRows(Candidates(source, spine, keys, tsCol, eventCol, ttl), Tag(tsCol)), eventCol), keys)
  }

  /** The labels selected for one request. */
  function Selected(req: ViewRequest, keys: seq<Column>, fullFeatureNames: bool): seq<Column>
  {
    OutputColumns(req.view.batchSource.eventTimestampColumn, keys,
                  FeatureColumnNames(req.view.nameToUse, req.features, fullFeatureNames))
  }

  /**
   * The frame of one view is the projection of the kept rows, and every
   * selected label is a column of the parquet source other than the spine's
   * carried timestamp.
   */
  lemma JoinSourceRows(spine: Frame, tsCol: Column, req: ViewRequest, fullFeatureNames: bool, keys: seq<Column>, source: Frame)
    requires JoinSource(spine, tsCol, req, fullFeatureNames, keys, source).Ok?
    ensures var out := JoinSource(spine, tsCol, req, fullFeatureNames, keys, source).value;
      var cols := Selected(req, keys, fullFeatureNames);
      var kept := Kept(source, spine, keys, tsCol, req.view.batchSource.eventTimestampColumn, req.view.ttl);
      && out.columns == cols
      && |out.rows| == |kept|
      && (forall i :: 0 <= i < |kept| ==> out.rows[i] == ProjectRow(kept[i], cols))
      && (forall c :: c in cols ==> c in source.columns && c != Tag(tsCol))
  {
    var eventCol := req.view.batchSource.eventTimestampColumn;
    var merged := MergeOnKeys(source, spine, keys, tsCol);
    var filtered := FilterTtl(merged, eventCol, tsCol, req.view.ttl);
    var stripped := DropColumn(filtered, Tag(tsCol)).value;
    var cols := Selected(req, keys, fullFeatureNames);
    assert forall c :: c in cols ==> c in stripped.columns;
    assert forall c :: c in merged.columns ==> c in source.columns || c == Tag(tsCol);
  }

  /** A merged row passes the TTL filter exactly when its source row is valid for its spine row. */
  lemma WithinTtlOfMerge(s: Row, e: Row, eventCol: Column, tsCol: Column, ttl: int)
    requires eventCol != Tag(tsCol)
    ensures WithinTtl(Merge(s, e, tsCol), eventCol, tsCol, ttl) <==> PointInTime(s, e, eventCol, tsCol, ttl)
  {
    assert Get(Merge(s, e, tsCol), eventCol) == Get(s, eventCol);
    assert Get(Merge(s, e, tsCol), Tag(tsCol)) == Get(e, tsCol);
  }

  lemma MergeDropTag(s: Row, e: Row, tsCol: Column)
    ensures Merge(s, e, tsCol) - {Tag(tsCol)} == s - {Tag(tsCol)}
  {
  }

  /** x is a valid source row, less the spine's carried timestamp. */
  ghost predicate FromValidPair(x: Row, source: Frame, spine: Frame, keys: seq<Column>, tsCol: Column, eventCol: Column, ttl: int)
  {
    exists s, e :: s in source.rows && e in spine.rows && ValidPair(s, e, keys, tsCol, eventCol, ttl) && x == s - {Tag(tsCol)}
  }

  /** A candidate is a key-matching merge that passes the TTL mask. */
  lemma CandidateMember(source: Frame, spine: Frame, keys: seq<Column>, tsCol: Column, eventCol: Column, ttl: int, m: Row)
    ensures m in Candidates(source, spine, keys, tsCol, eventCol, ttl) <==>
      Joined(m, source.rows, spine.rows, keys, tsCol) && WithinTtl(m, eventCol, tsCol, ttl)
  {
    InnerJoinMembers(source.rows, spine.rows, keys, tsCol);
  }

  /** The rows after dropping the carried timestamp: only valid source rows ... */
  lemma StrippedSound(source: Frame, spine: Frame, keys: seq<Column>, tsCol: Column, eventCol: Column, ttl: int, x: Row)
    requires eventCol != Tag(tsCol)
    requires x in DropFromRows(Candidates(source, spine, keys, tsCol, eventCol, ttl), Tag(tsCol))
    ensures FromValidPair(x, source, spine, keys, tsCol, eventCol, ttl)
  {
    var cands := Candidates(source, spine, keys, tsCol, eventCol, ttl);
    DropFromRowsMembers(cands, Tag(tsCol));
    var m :| m in cands && x == m - {Tag(tsCol)};
    CandidateMember(source, spine, keys, tsCol, eventCol, ttl, m);
    var s, e :| s in source.rows && e in spine.rows && KeyTuple(s, keys) == KeyTuple(e, keys) && m == Merge(s, e, tsCol);
    WithinTtlOfMerge(s, e, eventCol, tsCol, ttl);
    MergeDropTag(s, e, tsCol);
    assert ValidPair(s, e, keys, tsCol, eventCol, ttl) && x == s - {Tag(tsCol)};
  }

  /** ... and every one of them. */
  lemma StrippedComplete(source: Frame, spine: Frame, keys: seq<Column>, tsCol: Column, eventCol: Column, ttl: int, s: Row, e: Row)
    requires eventCol != Tag(tsCol)
    requires s in source.rows && e in spine.rows && ValidPair(s, e, keys, tsCol, eventCol, ttl)
    ensures s - {Tag(tsCol)} in DropFromRows(Candidates(source, spine, keys, tsCol, eventCol, ttl), Tag(tsCol))
  {
    var cands := Candidates(source, spine, keys, tsCol, eventCol, ttl);
    assert Joined(Merge(s, e, tsCol), source.rows, spine.rows, keys, tsCol);
    WithinTtlOfMerge(s, e, eventCol, tsCol, ttl);
    CandidateMember(source, spine, keys, tsCol, eventCol, ttl, Merge(s, e, tsCol));
    MergeDropTag(s, e, tsCol);
    DropFromRowsMembers(cands, Tag(tsCol));
  }

  /** Every kept row is a valid source row (less the carried timestamp). */
  lemma KeptFromValidPairs(source: Frame, spine: Frame, keys: seq<Column>, tsCol: Column, eventCol: Column, ttl: int)
    requires eventCol != Tag(tsCol)
    ensures forall y :: y in Kept(source, spine, keys, tsCol, eventCol, ttl) ==>
      FromValidPair(y, source, spine, keys, tsCol, eventCol, ttl)
  {
    var stripped := DropFromRows(Candidates(source, spine, keys, tsCol, eventCol, ttl), Tag(tsCol));
    SortedMembers(stripped, eventCol);
    DedupSubset(SortByTimestamp(stripped, eventCol), keys);
    forall y | y in Kept(source, spine, keys, tsCol, eventCol, ttl)
      ensures FromValidPair(y, source, spine, keys, tsCol, eventCol, ttl)
    {
      StrippedSound(source, spine, keys, tsCol, eventCol, ttl, y);
    }
  }

  /** The kept row of a key carries the latest event timestamp among the valid source rows of that key. */
  lemma KeptIsLatest(source: Frame, spine: Frame, keys: seq<Column>, tsCol: Column, eventCol: Column, ttl: int)
    requires eventCol != Tag(tsCol) && Tag(tsCol) !in keys
    ensures forall y, s, e ::
      (&& y in Kept(source, spine, keys, tsCol, eventCol, ttl) && s in source.rows && e in spine.rows
       && ValidPair(s, e, keys, tsCol, eventCol, ttl) && KeyTuple(s, keys) == KeyTuple(y, keys)) ==>
      Before(TsKey(s, eventCol), TsKey(y, eventCol))
  {
    var stripped := DropFromRows(Candidates(source, spine, keys, tsCol, eventCol, ttl), Tag(tsCol));
    var sorted := SortByTimestamp(stripped, eventCol);
    SortedMembers(stripped, eventCol);
    SortProperties(stripped, eventCol);
    DedupKeepsLatest(sorted, keys, eventCol);
    forall y, s, e | y in DedupLast(sorted, keys) && s in source.rows && e in spine.rows
      && ValidPair(s, e, keys, tsCol, eventCol, ttl) && KeyTuple(s, keys) == KeyTuple(y, keys)
      ensures Before(TsKey(s, eventCol), TsKey(y, eventCol))
    {
      var x := s - {Tag(tsCol)};
      StrippedComplete(source, spine, keys, tsCol, eventCol, ttl, s, e);
      assert x in sorted;
      KeyTupleWithout(s, Tag(tsCol), keys);
      GetWithout(s, Tag(tsCol), eventCol);
      assert TsKey(x, eventCol) == TsKey(s, eventCol);
    }
  }

  /** Every key with a valid source row is represented among the kept rows. */
  lemma KeptCoversKeys(source: Frame, spine: Frame, keys: seq<Column>, tsCol: Column, eventCol: Column, ttl: int)
    requires eventCol != Tag(tsCol) && Tag(tsCol) !in keys
    ensures forall s, e :: s in source.rows && e in spine.rows && ValidPair(s, e, keys, tsCol, eventCol, ttl) ==>
      exists y :: y in Kept(source, spine, keys, tsCol, eventCol, ttl) && KeyTuple(y, keys) == KeyTuple(s, keys)
  {
    var stripped := DropFromRows(Candidates(source, spine, keys, tsCol, eventCol, ttl), Tag(tsCol));
    var sorted := SortByTimestamp(stripped, eventCol);
    SortedMembers(stripped, eventCol);
    DedupCoversKeys(sorted, keys);
    forall s, e | s in source.rows && e in spine.rows && ValidPair(s, e, keys, tsCol, eventCol, ttl)
      ensures exists y :: y in DedupLast(sorted, keys) && KeyTuple(y, keys) == KeyTuple(s, keys)
    {
      var x := s - {Tag(tsCol)};
      StrippedComplete(source, spine, keys, tsCol, eventCol, ttl, s, e);
      assert x in sorted;
      KeyTupleWithout(s, Tag(tsCol), keys);
    }
  }

  // ---- the result of the whole retrieval ----

  /**
   * With no feature view nothing binds `df_to_join`. With two or more, once the
   * first view has joined, the second reads the deleted spine after its own
   * join keys and source are resolved.
   */
  lemma RetrieveNeedsOneView(spine: Frame, tsCol: Column, requests: seq<ViewRequest>, fullFeatureNames: bool,
                             registry: Registry, project: string, storage: Storage)
    ensures var r := Retrieve(spine, tsCol, requests, fullFeatureNames, registry, project, storage);
      && (r.Ok? ==> |requests| == 1)
      && (tsCol in spine.columns && requests == [] ==> r == Fail(UnboundLocalError("df_to_join")))
      && (|requests| >= 2 && r.Fail? ==> r.failure != UnboundLocalError("df_to_join"))
      && (tsCol in spine.columns && |requests| >= 2
          && JoinView(SortFrame(spine, tsCol), tsCol, requests[0], fullFeatureNames, registry, project, storage).Ok?
          ==> (Prelude(requests[1].view, registry, project, storage).Ok?
               ==> r == Fail(UnboundLocalError("entity_df_with_features")))
              && (Prelude(requests[1].view, registry, project, storage).Fail?
                  ==> r == Fail(Prelude(requests[1].view, registry, project, storage).failure)))
  {
  }

  /**
   * One feature view: the result is that view's frame with its event
   * timestamp column relabelled as the spine's timestamp column.
   */
  lemma RetrieveOneView(spine: Frame, tsCol: Column, req: ViewRequest, fullFeatureNames: bool,
                        registry: Registry, project: string, storage: Storage, keys: seq<Column>, source: Frame)
    requires Prelude(req.view, registry, project, storage) == Ok((keys, source))
    requires tsCol in spine.columns
    ensures var r := Retrieve(spine, tsCol, [req], fullFeatureNames, registry, project, storage);
      var j := JoinSource(SortFrame(spine, tsCol), tsCol, req, fullFeatureNames, keys, source);
      && (r.Ok? <==> j.Ok?)
      && (r.Ok? ==> r.value == RenameColumn(j.value, req.view.batchSource.eventTimestampColumn, tsCol))
      && (r.Fail? ==> r.failure == j.failure)
  {
  }

  /** The labels the caller can rely on being distinct from one another. */
  predicate DistinctLabels(tsCol: Column, eventCol: Column, keys: seq<Column>, names: seq<string>)
  {
    tsCol !in keys && tsCol !in names && eventCol !in keys && eventCol !in names
  }

  /** The join keys and, when Ok, the parquet source of the one requested view. */
  predicate Resolved(req: ViewRequest, registry: Registry, project: string, storage: Storage, keys: seq<Column>, source: Frame)
  {
    Prelude(req.view, registry, project, storage) == Ok((keys, source))
  }

  /** The kept rows of the one requested view, over the sorted spine. */
  function KeptOf(spine: Frame, tsCol: Column, req: ViewRequest, keys: seq<Column>, source: Frame): seq<Row>
  {
    Kept(source, SortFrame(spine, tsCol), keys, tsCol, req.view.batchSource.eventTimestampColumn, req.view.ttl)
  }

  /** Output row y shows kept row k: its keys and features, and k's event time under the spine's label. */
  predicate Shows(y: Row, k: Row, tsCol: Column, eventCol: Column, keys: seq<Column>, names: seq<string>)
  {
    && KeyTuple(y, keys) == KeyTuple(k, keys)
    && Get(y, tsCol) == Get(k, eventCol)
    && TsKey(y, tsCol) == TsKey(k, eventCol)
    && forall c :: c in keys + names ==> Get(y, c) == Get(k, c)
  }

  /**
   * A successful one-view retrieval has the spine's timestamp, the join keys
   * and the feature names as its columns, and one row per kept row, in order,
   * showing it.
   */
  lemma OutputShowsKept(spine: Frame, tsCol: Column, req: ViewRequest, fullFeatureNames: bool,
                        registry: Registry, project: string, storage: Storage, keys: seq<Column>, source: Frame)
    requires Resolved(req, registry, project, storage, keys, source)
    requires Retrieve(spine, tsCol, [req], fullFeatureNames, registry, project, storage).Ok?
    requires DistinctLabels(tsCol, req.view.batchSource.eventTimestampColumn, keys,
                            FeatureColumnNames(req.view.nameToUse, req.features, fullFeatureNames))
    ensures var out := Retrieve(spine, tsCol, [req], fullFeatureNames, registry, project, storage).value;
      var names := FeatureColumnNames(req.view.nameToUse, req.features, fullFeatureNames);
      var kept := KeptOf(spine, tsCol, req, keys, source);
      && out.columns == [tsCol] + keys + names
      && |out.rows| == |kept|
      && (forall i :: 0 <= i < |kept| ==> Shows(out.rows[i], kept[i], tsCol, req.view.batchSource.eventTimestampColumn, keys, names))
    ensures req.view.batchSource.eventTimestampColumn != Tag(tsCol) && Tag(tsCol) !in keys
  {
    var eventCol := req.view.batchSource.eventTimestampColumn;
    var names := FeatureColumnNames(req.view.nameToUse, req.features, fullFeatureNames);
    var sorted := SortFrame(spine, tsCol);
    var joined := JoinSource(sorted, tsCol, req, fullFeatureNames, keys, source).value;
    var out := Retrieve(spine, tsCol, [req], fullFeatureNames, registry, project, storage).value;
    var cols := Selected(req, keys, fullFeatureNames);
    var kept := KeptOf(spine, tsCol, req, keys, source);
    RetrieveOneView(spine, tsCol, req, fullFeatureNames, registry, project, storage, keys, source);
    JoinSourceRows(sorted, tsCol, req, fullFeatureNames, keys, source);
    assert out == RenameColumn(joined, eventCol, tsCol);
    assert eventCol in cols;
    RelabelColumns(joined, eventCol, tsCol, keys, names);
    forall i | 0 <= i < |kept| ensures Shows(out.rows[i], kept[i], tsCol, eventCol, keys, names) {
      ShowsRenamedProjection(kept[i], tsCol, eventCol, keys, names);
    }
  }

  lemma RelabelColumns(f: Frame, eventCol: Column, tsCol: Column, keys: seq<Column>, names: seq<string>)
    requires f.columns == [eventCol] + keys + names && eventCol !in keys && eventCol !in names
    ensures RenameColumn(f, eventCol, tsCol).columns == [tsCol] + keys + names
  {
    var r := RenameColumn(f, eventCol, tsCol);
    forall i | 0 <= i < |r.columns| ensures r.columns[i] == ([tsCol] + keys + names)[i] {
      if i > 0 { assert f.columns[i] in keys + names; }
    }
  }

  /** The relabelled projection of a kept row shows that row. */
  lemma ShowsRenamedProjection(k: Row, tsCol: Column, eventCol: Column, keys: seq<Column>, names: seq<string>)
    requires DistinctLabels(tsCol, eventCol, keys, names)
    ensures Shows(RenameRow(ProjectRow(k, [eventCol] + keys + names), eventCol, tsCol), k, tsCol, eventCol, keys, names)
  {
    var cols := [eventCol] + keys + names;
    var p := ProjectRow(k, cols);
    var y := RenameRow(p, eventCol, tsCol);
    assert eventCol in cols && eventCol in p;
    assert forall c :: c in keys + names ==> c in cols;
    KeyTupleProject(k, cols, keys);
    assert KeyTuple(y, keys) == KeyTuple(p, keys);
  }

  /**
   * No leakage: every result row carries the keys, the features and (under
   * the spine's timestamp label) the event time of a source row that matches
   * a spine row on the join keys and lies in [entity time - ttl, entity time].
   */
  lemma RetrievalRowsAreValid(spine: Frame, tsCol: Column, req: ViewRequest, fullFeatureNames: bool,
                              registry: Registry, project: string, storage: Storage, keys: seq<Column>, source: Frame)
    requires Resolved(req, registry, project, storage, keys, source)
    requires Retrieve(spine, tsCol, [req], fullFeatureNames, registry, project, storage).Ok?
    requires DistinctLabels(tsCol, req.view.batchSource.eventTimestampColumn, keys,
                            FeatureColumnNames(req.view.nameToUse, req.features, fullFeatureNames))
    ensures var out := Retrieve(spine, tsCol, [req], fullFeatureNames, registry, project, storage).value;
      var eventCol := req.view.batchSource.eventTimestampColumn;
      var names := FeatureColumnNames(req.view.nameToUse, req.features, fullFeatureNames);
      forall y :: y in out.rows ==> exists s, e ::
        && s in source.rows && e in spine.rows && ValidPair(s, e, keys, tsCol, eventCol, req.view.ttl)
        && Get(y, tsCol) == Get(s, eventCol)
        && forall c :: c in keys + names ==> Get(y, c) == Get(s, c)
  {
    var eventCol := req.view.batchSource.eventTimestampColumn;
    var names := FeatureColumnNames(req.view.nameToUse, req.features, fullFeatureNames);
    var sorted := SortFrame(spine, tsCol);
    var out := Retrieve(spine, tsCol, [req], fullFeatureNames, registry, project, storage).value;
    var kept := KeptOf(spine, tsCol, req, keys, source);
    OutputShowsKept(spine, tsCol, req, fullFeatureNames, registry, project, storage, keys, source);
    KeptFromValidPairs(source, sorted, keys, tsCol, eventCol, req.view.ttl);
    SortedMembers(spine.rows, tsCol);
    forall y | y in out.rows ensures exists s, e ::
      && s in source.rows && e in spine.rows && ValidPair(s, e, keys, tsCol, eventCol, req.view.ttl)
      && Get(y, tsCol) == Get(s, eventCol)
      && forall c :: c in keys + names ==> Get(y, c) == Get(s, c)
    {
      var i :| 0 <= i < |out.rows| && out.rows[i] == y;
      assert kept[i] in kept;
      var s, e :| s in source.rows && e in sorted.rows && ValidPair(s, e, keys, tsCol, eventCol, req.view.ttl)
        && kept[i] == s - {Tag(tsCol)};
      assert Shows(y, kept[i], tsCol, eventCol, keys, names);
      GetWithout(s, Tag(tsCol), eventCol);
      forall c | c in keys + names ensures Get(y, c) == Get(s, c) {
        assert c != Tag(tsCol) by {
          JoinSourceRows(sorted, tsCol, req, fullFeatureNames, keys, source);
          assert c in Selected(req, keys, fullFeatureNames);
        }
        GetWithout(s, Tag(tsCol), c);
      }
    }
  }

  /** No two result rows share a join key tuple. */
  lemma RetrievalOneRowPerKey(spine: Frame, tsCol: Column, req: ViewRequest, fullFeatureNames: bool,
                              registry: Registry, project: string, storage: Storage, keys: seq<Column>, source: Frame)
    requires Resolved(req, registry, project, storage, keys, source)
    requires Retrieve(spine, tsCol, [req], fullFeatureNames, registry, project, storage).Ok?
    requires DistinctLabels(tsCol, req.view.batchSource.eventTimestampColumn, keys,
                            FeatureColumnNames(req.view.nameToUse, req.features, fullFeatureNames))
    ensures var out := Retrieve(spine, tsCol, [req], fullFeatureNames, registry, project, storage).value;
      forall i, j :: 0 <= i < j < |out.rows| ==> KeyTuple(out.rows[i], keys) != KeyTuple(out.rows[j], keys)
  {
    var eventCol := req.view.batchSource.eventTimestampColumn;
    var names := FeatureColumnNames(req.view.nameToUse, req.features, fullFeatureNames);
    var out := Retrieve(spine, tsCol, [req], fullFeatureNames, registry, project, storage).value;
    var kept := KeptOf(spine, tsCol, req, keys, source);
    OutputShowsKept(spine, tsCol, req, fullFeatureNames, registry, project, storage, keys, source);
    DedupUniqueKeys(SortByTimestamp(DropFromRows(Candidates(source, SortFrame(spine, tsCol), keys, tsCol, eventCol, req.view.ttl),
                                                 Tag(tsCol)), eventCol), keys);
    forall i, j | 0 <= i < j < |out.rows| ensures KeyTuple(out.rows[i], keys) != KeyTuple(out.rows[j], keys) {
      assert Shows(out.rows[i], kept[i], tsCol, eventCol, keys, names);
      assert Shows(out.rows[j], kept[j], tsCol, eventCol, keys, names);
    }
  }

  /** The row returned for a key is the latest valid source row of that key. */
  lemma RetrievalIsLatest(spine: Frame, tsCol: Column, req: ViewRequest, fullFeatureNames: bool,
                          registry: Registry, project: string, storage: Storage, keys: seq<Column>, source: Frame)
    requires Resolved(req, registry, project, storage, keys, source)
    requires Retrieve(spine, tsCol, [req], fullFeatureNames, registry, project, storage).Ok?
    requires DistinctLabels(tsCol, req.view.batchSource.eventTimestampColumn, keys,
                            FeatureColumnNames(req.view.nameToUse, req.features, fullFeatureNames))
    ensures var out := Retrieve(spine, tsCol, [req], fullFeatureNames, registry, project, storage).value;
      var eventCol := req.view.batchSource.eventTimestampColumn;
      forall y, s, e ::
        (&& y in out.rows && s in source.rows && e in spine.rows
         && ValidPair(s, e, keys, tsCol, eventCol, req.view.ttl) && KeyTuple(s, keys) == KeyTuple(y, keys)) ==>
        Before(TsKey(s, eventCol), TsKey(y, tsCol))
  {
    var eventCol := req.view.batchSource.eventTimestampColumn;
    var names := FeatureColumnNames(req.view.nameToUse, req.features, fullFeatureNames);
    var sorted := SortFrame(spine, tsCol);
    var out := Retrieve(spine, tsCol, [req], fullFeatureNames, registry, project, storage).value;
    var kept := KeptOf(spine, tsCol, req, keys, source);
    OutputShowsKept(spine, tsCol, req, fullFeatureNames, registry, project, storage, keys, source);
    KeptIsLatest(source, sorted, keys, tsCol, eventCol, req.view.ttl);
    SortedMembers(spine.rows, tsCol);
    forall y, s, e | && y in out.rows && s in source.rows && e in spine.rows
                     && ValidPair(s, e, keys, tsCol, eventCol, req.view.ttl) && KeyTuple(s, keys) == KeyTuple(y, keys)
      ensures Before(TsKey(s, eventCol), TsKey(y, tsCol))
    {
      var i :| 0 <= i < |out.rows| && out.rows[i] == y;
      assert kept[i] in kept && e in sorted.rows;
      assert Shows(y, kept[i], tsCol, eventCol, keys, names);
    }
  }

  /** Every key that has a valid source row for some spine row appears in the result. */
  lemma RetrievalCoversKeys(spine: Frame, tsCol: Column, req: ViewRequest, fullFeatureNames: bool,
                            registry: Registry, project: string, storage: Storage, keys: seq<Column>, source: Frame)
    requires Resolved(req, registry, project, storage, keys, source)
    requires Retrieve(spine, tsCol, [req], fullFeatureNames, registry, project, storage).Ok?
    requires DistinctLabels(tsCol, req.view.batchSource.eventTimestampColumn, keys,
                            FeatureColumnNames(req.view.nameToUse, req.features, fullFeatureNames))
    ensures var out := Retrieve(spine, tsCol, [req], fullFeatureNames, registry, project, storage).value;
      forall s, e ::
        (s in source.rows && e in spine.rows
         && ValidPair(s, e, keys, tsCol, req.view.batchSource.eventTimestampColumn, req.view.ttl)) ==>
        exists y :: y in out.rows && KeyTuple(y, keys) == KeyTuple(s, keys)
  {
    var eventCol := req.view.batchSource.eventTimestampColumn;
    var names := FeatureColumnNames(req.view.nameToUse, req.features, fullFeatureNames);
    var sorted := SortFrame(spine, tsCol);
    var out := Retrieve(spine, tsCol, [req], fullFeatureNames, registry, project, storage).value;
    var kept := KeptOf(spine, tsCol, req, keys, source);
    OutputShowsKept(spine, tsCol, req, fullFeatureNames, registry, project, storage, keys, source);
    KeptCoversKeys(source, sorted, keys, tsCol, eventCol, req.view.ttl);
    SortedMembers(spine.rows, tsCol);
    forall s, e | s in source.rows && e in spine.rows && ValidPair(s, e, keys, tsCol, eventCol, req.view.ttl)
      ensures exists y :: y in out.rows && KeyTuple(y, keys) == KeyTuple(s, keys)
    {
      assert e in sorted.rows;
      var k :| k in kept && KeyTuple(k, keys) == KeyTuple(s, keys);
      var i :| 0 <= i < |kept| && kept[i] == k;
      assert Shows(out.rows[i], kept[i], tsCol, eventCol, keys, names);
      assert out.rows[i] in out.rows;
    }
  }

  /**
   * The selected feature columns are looked up in the source as they are
   * formatted: with full feature names the parquet file must already hold
   * `<view>__<feature>` columns, since nothing renames the source columns.
   */
  lemma FullNamesMustBeSourceColumns(spine: Frame, tsCol: Column, req: ViewRequest,
                                     registry: Registry, project: string, storage: Storage, keys: seq<Column>, source: Frame)
    requires Resolved(req, registry, project, storage, keys, source)
    requires Retrieve(spine, tsCol, [req], true, registry, project, storage).Ok?
    ensures forall f :: f in req.features ==> req.view.nameToUse + "__" + f in source.columns
  {
    var sorted := SortFrame(spine, tsCol);
    RetrieveOneView(spine, tsCol, req, true, registry, project, storage, keys, source);
    JoinSourceRows(sorted, tsCol, req, true, keys, source);
    var names := FeatureColumnNames(req.view.nameToUse, req.features, true);
    forall f | f in req.features ensures req.view.nameToUse + "__" + f in source.columns {
      var i :| 0 <= i < |req.features| && req.features[i] == f;
      assert names[i] in Selected(req, keys, true);
    }
  }
}
