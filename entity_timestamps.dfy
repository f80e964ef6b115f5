/**
 * The entity dataframe (the spine) of a historical retrieval: which column
 * holds its request timestamps, and the range those timestamps span.
 */
module EntityTimestamps {
  import opened Wrappers
  import opened Frames

  /** DEFAULT_ENTITY_DF_EVENT_TIMESTAMP_COL of Feast's offline_utils. */
  const DefaultTimestampColumn: Column := "event_timestamp"

  /** The dtype of a spine column, as far as `select_dtypes(include=["datetime", "datetimetz"])` cares. */
  datatype DType = Datetime | NonDatetime

  predicate IsDatetime(c: Column, dtypes: map<Column, DType>)
  {
    c in dtypes && dtypes[c] == Datetime
  }

  /** The datetime-typed columns, in frame order. */
  function DatetimeColumns(columns: seq<Column>, dtypes: map<Column, DType>): (r: seq<Column>)
    ensures forall c :: c in r <==> c in columns && IsDatetime(c, dtypes)
  {
    Filter(columns, (c: Column) => IsDatetime(c, dtypes))
  }

  /**
   * The spine's timestamp column: the default column if the spine has one,
   * otherwise its only datetime column; ValueError with zero or several.
   */
  function ResolveTimestampColumn(columns: seq<Column>, dtypes: map<Column, DType>): (r: Outcome<Column>)
    ensures DefaultTimestampColumn in columns ==> r == Ok(DefaultTimestampColumn)
    ensures r.Ok? ==> r.value in columns
    ensures r.Ok? && DefaultTimestampColumn !in columns ==>
      IsDatetime(r.value, dtypes) && forall c :: c in columns && IsDatetime(c, dtypes) ==> c == r.value
    ensures DefaultTimestampColumn !in columns && (forall c :: c in columns ==> !IsDatetime(c, dtypes)) ==>
      r.Fail?
    ensures r.Fail? ==> r.failure == MissingTimestampColumn(DefaultTimestampColumn)
  {
    if DefaultTimestampColumn in columns then Ok(DefaultTimestampColumn)
    else
      var datetimeColumns := DatetimeColumns(columns, dtypes);
      if |datetimeColumns| == 1 then
        assert datetimeColumns[0] in datetimeColumns;
        Ok(datetimeColumns[0])
      else
        assert datetimeColumns != [] ==> datetimeColumns[0] in datetimeColumns;
        Fail(MissingTimestampColumn(DefaultTimestampColumn))
  }

  /** Two datetime columns and no default column make the choice ambiguous: ValueError. */
  lemma AmbiguousTimestampColumnFails(columns: seq<Column>, dtypes: map<Column, DType>, i: int, j: int)
    requires DefaultTimestampColumn !in columns
    requires 0 <= i < j < |columns| && IsDatetime(columns[i], dtypes) && IsDatetime(columns[j], dtypes)
    ensures ResolveTimestampColumn(columns, dtypes) == Fail(MissingTimestampColumn(DefaultTimestampColumn))
  {
    FilterKeepsTwo(columns, (c: Column) => IsDatetime(c, dtypes), i, j);
  }

  /** With no default column and exactly one datetime column, that column is chosen. */
  lemma SingleDatetimeColumnChosen(columns: seq<Column>, dtypes: map<Column, DType>, i: int)
    requires DefaultTimestampColumn !in columns
    requires 0 <= i < |columns| && IsDatetime(columns[i], dtypes)
    requires forall j :: 0 <= j < |columns| && j != i ==> !IsDatetime(columns[j], dtypes)
    ensures ResolveTimestampColumn(columns, dtypes) == Ok(columns[i])
  {
    FilterSingle(columns, (c: Column) => IsDatetime(c, dtypes), i);
  }

  /** The instants held in a column, in row order, skipping NaT cells. */
  function TimestampsOf(rows: seq<Row>, col: Column): (r: seq<int>)
    ensures forall t :: t in r <==> exists row :: row in rows && Get(row, col) == Timestamp(t)
  {
    if rows == [] then []
    else
      var rest := TimestampsOf(rows[1..], col);
      assert forall row :: row in rows[1..] ==> row in rows;
      assert forall row :: row in rows ==> row == rows[0] || row in rows[1..];
      match Get(rows[0], col)
      case Timestamp(t) => [t] + rest
      case _ => rest
  }

  /** (min, max) of a list of instants; None (NaT) for an empty list. */
  function Range(ts: seq<int>): (r: Option<(int, int)>)
    ensures r.None? <==> ts == []
    ensures r.Some? ==> r.value.0 in ts && r.value.1 in ts
    ensures r.Some? ==> forall t :: t in ts ==> r.value.0 <= t <= r.value.1
  {
    if ts == [] then None
    else
      assert forall t :: t in ts ==> t == ts[0] || t in ts[1..];
      match Range(ts[1..])
      case None => Some((ts[0], ts[0]))
      case Some((lo, hi)) =>
        Some((if ts[0] < lo then ts[0] else lo, if ts[0] > hi then ts[0] else hi))
  }

  /** `_get_entity_df_event_timestamp_range`: the span of the spine's request timestamps. */
  function EventTimestampRange(spine: Frame, col: Column): (r: Option<(int, int)>)
    ensures r.None? <==> forall row :: row in spine.rows ==> !Get(row, col).Timestamp?
    ensures r.Some? ==> forall row :: row in spine.rows && Get(row, col).Timestamp? ==>
      r.value.0 <= Get(row, col).instant <= r.value.1
    ensures r.Some? ==> exists lo, hi ::
      && lo in spine.rows && hi in spine.rows
      && Get(lo, col) == Timestamp(r.value.0) && Get(hi, col) == Timestamp(r.value.1)
  {
    var ts := TimestampsOf(spine.rows, col);
    var r := Range(ts);
    assert r.None? ==> forall row :: row in spine.rows ==> !Get(row, col).Timestamp? by {
      forall row | row in spine.rows && Get(row, col).Timestamp? ensures r.Some? {
        assert Get(row, col).instant in ts;
      }
    }
    assert forall row :: row in spine.rows && Get(row, col).Timestamp? ==> Get(row, col).instant in ts;
    r
  }
}
