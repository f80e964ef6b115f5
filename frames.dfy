/**
 * The table operations the file offline store applies to its frames:
 * projection, renaming, filtering, sorting by a timestamp column and
 * `drop_duplicates(keys, keep="last")`. Timestamps are integers already
 * normalised to UTC; a cell that holds no timestamp behaves like pandas' NaT
 * (every comparison with it is false, and a sort puts it last).
 */
module Frames {
  import opened Wrappers
  import Errors

  type Column = string

  datatype Value = Null | Bool(b: bool) | Int(i: int) | Str(s: string) | Timestamp(instant: int)

  /** One row: the value of each of its columns. */
  type Row = map<Column, Value>

  /** A data frame: its column labels, in order, and its rows. */
  datatype Frame = Frame(columns: seq<Column>, rows: seq<Row>)

  /** What the store's operations raise. */
  datatype Failure =
    | NotFound(error: Errors.NotFoundError)
    | JoinKeysDuringMaterialization(source: string, joinKeys: set<Column>, sourceColumns: set<Column>)
    | EntityDfTypeError
    | MissingTimestampColumn(expected: Column)
    | KeyError(missing: set<Column>)
    | IndexError
    | UnboundLocalError(name: string)
    | AssertionError
    | FileNotFound(path: string)

  type Outcome<T> = Result<T, Failure>

  /** A file-backed batch source: its parquet path and timestamp columns. */
  datatype FileSource = FileSource(path: string, eventTimestampColumn: Column, createdTimestampColumn: Option<Column>)

  /** Any data source handed to the store; only file sources are accepted. */
  datatype DataSource = File(file: FileSource) | OtherSource(kind: string)

  /** The parquet files the store can read, by path. */
  type Storage = map<string, Frame>

  function ReadParquet(storage: Storage, path: string): (r: Outcome<Frame>)
    ensures r.Ok? <==> path in storage
    ensures r.Ok? ==> r.value == storage[path]
    ensures r.Fail? ==> r.failure == FileNotFound(path)
  {
    if path in storage then Ok(storage[path]) else Fail(FileNotFound(path))
  }

  /** The cell of a row; a column the row lacks reads as Null. */
  function Get(row: Row, c: Column): Value
  {
    if c in row then row[c] else Null
  }

  /** The values of the given key columns, in order. */
  function KeyTuple(row: Row, keys: seq<Column>): seq<Value>
  {
    seq(|keys|, i requires 0 <= i < |keys| => Get(row, keys[i]))
  }

  function KeyTuples(rows: seq<Row>, keys: seq<Column>): seq<seq<Value>>
  {
    seq(|rows|, i requires 0 <= i < |rows| => KeyTuple(rows[i], keys))
  }

  lemma KeyTupleConcat(row: Row, ks1: seq<Column>, ks2: seq<Column>)
    ensures KeyTuple(row, ks1 + ks2) == KeyTuple(row, ks1) + KeyTuple(row, ks2)
  {
  }

  /** The set of labels in a column list. */
  function ColumnSet(cols: seq<Column>): set<Column>
  {
    set c | c in cols
  }

  /** The requested columns a frame lacks. */
  function Missing(cols: seq<Column>, present: seq<Column>): (m: set<Column>)
    ensures m == {} <==> forall c :: c in cols ==> c in present
  {
    var m := set c | c in cols && c !in present;
    assert forall c :: c in cols && c !in present ==> c in m;
    m
  }

  /** Generic filter: the elements of `s` that satisfy `p`, in order. */
  function Filter<T(!new)>(s: seq<T>, p: T -> bool): (r: seq<T>)
    ensures forall x :: x in r <==> x in s && p(x)
    ensures |r| <= |s|
  {
    if s == [] then [] else (if p(s[0]) then [s[0]] else []) + Filter(s[1..], p)
  }

  /** The mask keeps every satisfying element as often as it occurs, and no other. */
  lemma {:induction false} FilterMultiplicity<T(!new)>(s: seq<T>, p: T -> bool, x: T)
    ensures multiset(Filter(s, p))[x] == if p(x) then multiset(s)[x] else 0
  {
    if s != [] {
      assert s == [s[0]] + s[1..];
      FilterMultiplicity(s[1..], p, x);
    }
  }

  /**
   * A boolean mask distributes over concatenation: the kept rows stay in
   * their order, each kept as often as it occurs.
   */
  lemma {:induction false} FilterConcat<T(!new)>(a: seq<T>, b: seq<T>, p: T -> bool)
    ensures Filter(a + b, p) == Filter(a, p) + Filter(b, p)
  {
    if a == [] {
      assert a + b == b;
    } else {
      assert (a + b)[0] == a[0];
      assert (a + b)[1..] == a[1..] + b;
      FilterConcat(a[1..], b, p);
    }
  }

  /** The mask on one element keeps it exactly when it satisfies `p`. */
  lemma FilterSingleton<T(!new)>(x: T, p: T -> bool)
    ensures Filter([x], p) == if p(x) then [x] else []
  {
    assert [x][1..] == [];
  }

  /** Filtering keeps two satisfying positions apart. */
  lemma {:induction false} FilterKeepsTwo<T(!new)>(s: seq<T>, p: T -> bool, i: int, j: int)
    requires 0 <= i < j < |s| && p(s[i]) && p(s[j])
    ensures |Filter(s, p)| >= 2
  {
    if i == 0 {
      assert s[j] in s[1..];
      assert s[j] in Filter(s[1..], p);
    } else {
      FilterKeepsTwo(s[1..], p, i - 1, j - 1);
    }
  }

  /** When exactly one position satisfies `p`, the filter keeps exactly that element. */
  lemma {:induction false} FilterSingle<T(!new)>(s: seq<T>, p: T -> bool, i: int)
    requires 0 <= i < |s| && p(s[i])
    requires forall j :: 0 <= j < |s| && j != i ==> !p(s[j])
    ensures Filter(s, p) == [s[i]]
  {
    if i == 0 {
      FilterNone(s[1..], p);
    } else {
      assert !p(s[0]);
      FilterSingle(s[1..], p, i - 1);
    }
  }

  lemma {:induction false} FilterNone<T(!new)>(s: seq<T>, p: T -> bool)
    requires forall j :: 0 <= j < |s| ==> !p(s[j])
    ensures Filter(s, p) == []
  {
    if s != [] {
      assert !p(s[0]);
      FilterNone(s[1..], p);
    }
  }

  // ---- projection, renaming, dropping and adding columns ----

  /** A row restricted to the given columns (`df[cols]` on one row). */
  function ProjectRow(row: Row, cols: seq<Column>): (r: Row)
    ensures r.Keys == ColumnSet(cols)
    ensures forall c :: c in cols ==> r[c] == Get(row, c)
  {
    map c | c in cols :: Get(row, c)
  }

  /** `df[cols]`: KeyError when a requested column is absent. */
  function Project(f: Frame, cols: seq<Column>): (r: Outcome<Frame>)
    ensures r.Ok? <==> forall c :: c in cols ==> c in f.columns
    ensures r.Fail? ==> r.failure == KeyError(Missing(cols, f.columns)) && Missing(cols, f.columns) != {}
    ensures r.Ok? ==> r.value.columns == cols && |r.value.rows| == |f.rows|
    ensures r.Ok? ==> forall i :: 0 <= i < |f.rows| ==> r.value.rows[i] == ProjectRow(f.rows[i], cols)
  {
    var missing := Missing(cols, f.columns);
    if missing != {} then Fail(KeyError(missing))
    else Ok(Frame(cols, seq(|f.rows|, i requires 0 <= i < |f.rows| => ProjectRow(f.rows[i], cols))))
  }

  /** Every projected row is the projection of a row of the input. */
  lemma ProjectedRowsComeFromRows(f: Frame, cols: seq<Column>)
    requires Project(f, cols).Ok?
    ensures forall y :: y in Project(f, cols).value.rows ==>
      exists x :: x in f.rows && y == ProjectRow(x, cols)
  {
    var out := Project(f, cols).value;
    forall y | y in out.rows ensures exists x :: x in f.rows && y == ProjectRow(x, cols) {
      var i :| 0 <= i < |out.rows| && out.rows[i] == y;
      assert f.rows[i] in f.rows;
    }
  }

  /** One row under `rename(columns={from: to})`. */
  function RenameRow(row: Row, from: Column, to: Column): (r: Row)
    ensures from in row ==> to in r && r[to] == row[from]
    ensures forall c :: c != from && c != to ==> Get(r, c) == Get(row, c)
  {
    if from in row then (row - {from})[to := row[from]] else row
  }

  /** `rename(columns={from: to})`: relabels every `from`; a missing label is ignored. */
  function RenameColumn(f: Frame, from: Column, to: Column): (r: Frame)
    ensures |r.columns| == |f.columns| && |r.rows| == |f.rows|
    ensures forall i :: 0 <= i < |f.columns| ==> r.columns[i] == if f.columns[i] == from then to else f.columns[i]
    ensures forall i :: 0 <= i < |f.rows| ==> r.rows[i] == RenameRow(f.rows[i], from, to)
  {
    Frame(seq(|f.columns|, i requires 0 <= i < |f.columns| => if f.columns[i] == from then to else f.columns[i]),
          seq(|f.rows|, i requires 0 <= i < |f.rows| => RenameRow(f.rows[i], from, to)))
  }

  function DropFromRows(rows: seq<Row>, c: Column): (r: seq<Row>)
    ensures |r| == |rows| && forall i :: 0 <= i < |rows| ==> r[i] == rows[i] - {c}
  {
    seq(|rows|, i requires 0 <= i < |rows| => rows[i] - {c})
  }

  lemma DropFromRowsMembers(rows: seq<Row>, c: Column)
    ensures forall x :: x in DropFromRows(rows, c) <==> exists m :: m in rows && x == m - {c}
  {
    var r := DropFromRows(rows, c);
    forall x | x in r ensures exists m :: m in rows && x == m - {c} {
      var i :| 0 <= i < |r| && r[i] == x;
      assert rows[i] in rows;
    }
    forall m | m in rows ensures m - {c} in r {
      var i :| 0 <= i < |rows| && rows[i] == m;
      assert r[i] == m - {c};
    }
  }

  /** Removing a column leaves the other cells as they were. */
  lemma GetWithout(row: Row, dropped: Column, c: Column)
    requires c != dropped
    ensures Get(row - {dropped}, c) == Get(row, c)
  {
  }

  lemma KeyTupleWithout(row: Row, dropped: Column, keys: seq<Column>)
    requires dropped !in keys
    ensures KeyTuple(row - {dropped}, keys) == KeyTuple(row, keys)
  {
  }

  lemma KeyTupleProject(row: Row, cols: seq<Column>, keys: seq<Column>)
    requires forall k :: k in keys ==> k in cols
    ensures KeyTuple(ProjectRow(row, cols), keys) == KeyTuple(row, keys)
  {
  }

  /** `drop([c], axis=1)`: KeyError when the frame has no such column. */
  function DropColumn(f: Frame, c: Column): (r: Outcome<Frame>)
    ensures r.Ok? <==> c in f.columns
    ensures r.Fail? ==> r.failure == KeyError({c})
    ensures r.Ok? ==> (forall x :: x in r.value.columns <==> x in f.columns && x != c)
    ensures r.Ok? ==> r.value.rows == DropFromRows(f.rows, c)
  {
    if c !in f.columns then Fail(KeyError({c}))
    else Ok(Frame(Filter(f.columns, (x: Column) => x != c), DropFromRows(f.rows, c)))
  }

  /** `df[c] = v`: sets column c of every row to v, appending the label if new. */
  function AddConstantColumn(f: Frame, c: Column, v: Value): (r: Frame)
    ensures ColumnSet(r.columns) == ColumnSet(f.columns) + {c}
    ensures |r.rows| == |f.rows|
    ensures forall i :: 0 <= i < |f.rows| ==> r.rows[i] == f.rows[i][c := v]
  {
    Frame(if c in f.columns then f.columns else f.columns + [c],
          seq(|f.rows|, i requires 0 <= i < |f.rows| => f.rows[i][c := v]))
  }

  /** A column list with each label once (the order of Python's `list(set(...))` is not specified). */
  function Distinct(s: seq<Column>): (r: seq<Column>)
    ensures forall c :: c in r <==> c in s
    ensures forall i, j :: 0 <= i < j < |r| ==> r[i] != r[j]
  {
    if s == [] then []
    else
      var rest := Distinct(s[1..]);
      if s[0] in rest then rest else [s[0]] + rest
  }

  // ---- ordering by a timestamp column ----

  /** The instant in a timestamp column, None for NaT. */
  function TsKey(row: Row, col: Column): Option<int>
  {
    match Get(row, col)
    case Timestamp(t) => Some(t)
    case _ => None
  }

  /** The order of `sort_values`: ascending, NaT last. */
  predicate Before(a: Option<int>, b: Option<int>)
  {
    match a
    case None => b.None?
    case Some(x) => b.None? || x <= b.value
  }

  predicate SortedBy(rows: seq<Row>, col: Column)
  {
    forall i, j :: 0 <= i < j < |rows| ==> Before(TsKey(rows[i], col), TsKey(rows[j], col))
  }

  function Insert(x: Row, s: seq<Row>, col: Column): seq<Row>
  {
    if s == [] || Before(TsKey(x, col), TsKey(s[0], col)) then [x] + s
    else [s[0]] + Insert(x, s[1..], col)
  }

  /**
   * `sort_values(by=col)`. This insertion sort is one admissible order; the
   * lemmas about what follows a sort hold for every sorted permutation.
   */
  function SortByTimestamp(rows: seq<Row>, col: Column): seq<Row>
  {
    if rows == [] then [] else Insert(rows[0], SortByTimestamp(rows[1..], col), col)
  }

  lemma {:induction false} InsertPermutes(x: Row, s: seq<Row>, col: Column)
    ensures multiset(Insert(x, s, col)) == multiset(s) + multiset{x}
  {
    if s != [] && !Before(TsKey(x, col), TsKey(s[0], col)) {
      InsertPermutes(x, s[1..], col);
      assert s == [s[0]] + s[1..];
    }
  }

  /** Two timestamps are always comparable one way or the other. */
  lemma BeforeTotal(a: Option<int>, b: Option<int>)
    ensures Before(a, b) || Before(b, a)
  {
  }

  lemma {:induction false} InsertSorted(x: Row, s: seq<Row>, col: Column)
    requires SortedBy(s, col)
    ensures SortedBy(Insert(x, s, col), col)
  {
    if s == [] || Before(TsKey(x, col), TsKey(s[0], col)) {
      InsertAtFrontSorted(x, s, col);
    } else {
      var tail := s[1..];
      InsertSorted(x, tail, col);
      BeforeTotal(TsKey(x, col), TsKey(s[0], col));
      InsertBehindSorted(x, s, col);
    }
  }

  lemma InsertAtFrontSorted(x: Row, s: seq<Row>, col: Column)
    requires SortedBy(s, col)
    requires s == [] || Before(TsKey(x, col), TsKey(s[0], col))
    ensures SortedBy([x] + s, col)
  {
    var r := [x] + s;
    forall i, j | 0 <= i < j < |r| ensures Before(TsKey(r[i], col), TsKey(r[j], col)) {
      if i == 0 && j > 1 {
        assert r[j] == s[j - 1];
        assert Before(TsKey(s[0], col), TsKey(s[j - 1], col));
        BeforeTransitive(TsKey(x, col), TsKey(s[0], col), TsKey(s[j - 1], col));
      } else if i > 0 {
        assert r[i] == s[i - 1] && r[j] == s[j - 1];
      }
    }
  }

  lemma BeforeTransitive(a: Option<int>, b: Option<int>, c: Option<int>)
    requires Before(a, b) && Before(b, c)
    ensures Before(a, c)
  {
  }

  lemma {:induction false} InsertMembers(x: Row, s: seq<Row>, col: Column)
    ensures forall y :: y in Insert(x, s, col) ==> y == x || y in s
  {
    if s != [] && !Before(TsKey(x, col), TsKey(s[0], col)) {
      InsertMembers(x, s[1..], col);
    }
  }

  lemma InsertBehindSorted(x: Row, s: seq<Row>, col: Column)
    requires s != [] && SortedBy(s, col)
    requires Before(TsKey(s[0], col), TsKey(x, col))
    requires SortedBy(Insert(x, s[1..], col), col)
    ensures SortedBy([s[0]] + Insert(x, s[1..], col), col)
  {
    var tail := s[1..];
    var ins := Insert(x, tail, col);
    InsertMembers(x, tail, col);
    var r := [s[0]] + ins;
    forall i, j | 0 <= i < j < |r| ensures Before(TsKey(r[i], col), TsKey(r[j], col)) {
      if i == 0 {
        var y := ins[j - 1];
        assert y in ins;
        if y != x {
          var k :| 0 <= k < |tail| && tail[k] == y;
          assert s[k + 1] == y;
        }
      } else {
        assert r[i] == ins[i - 1] && r[j] == ins[j - 1];
      }
    }
  }

  /** Sorting gives a sorted permutation of its input. */
  lemma {:induction false} SortProperties(rows: seq<Row>, col: Column)
    ensures multiset(SortByTimestamp(rows, col)) == multiset(rows)
    ensures SortedBy(SortByTimestamp(rows, col), col)
  {
    if rows != [] {
      SortProperties(rows[1..], col);
      InsertPermutes(rows[0], SortByTimestamp(rows[1..], col), col);
      InsertSorted(rows[0], SortByTimestamp(rows[1..], col), col);
      assert rows == [rows[0]] + rows[1..];
    }
  }

  lemma SortedMembers(rows: seq<Row>, col: Column)
    ensures forall x :: x in SortByTimestamp(rows, col) <==> x in rows
  {
    SortProperties(rows, col);
    forall x ensures x in SortByTimestamp(rows, col) <==> x in rows {
      assert x in SortByTimestamp(rows, col) <==> x in multiset(SortByTimestamp(rows, col));
      assert x in rows <==> x in multiset(rows);
    }
  }

  /** A filtered sorted sequence is still sorted. */
  lemma {:induction false} FilterSorted(rows: seq<Row>, p: Row -> bool, col: Column)
    requires SortedBy(rows, col)
    ensures SortedBy(Filter(rows, p), col)
  {
    if rows != [] {
      var tail := rows[1..];
      assert SortedBy(tail, col);
      FilterSorted(tail, p, col);
      if p(rows[0]) {
        var r := Filter(rows, p);
        var ft := Filter(tail, p);
        assert r == [rows[0]] + ft;
        forall i, j | 0 <= i < j < |r| ensures Before(TsKey(r[i], col), TsKey(r[j], col)) {
          if i == 0 {
            assert r[j] in ft;
            var k :| 0 <= k < |tail| && tail[k] == r[j];
            assert rows[k + 1] == r[j];
          } else {
            assert r[i] == ft[i - 1] && r[j] == ft[j - 1];
          }
        }
      }
    }
  }

  // ---- drop_duplicates(keys, keep="last") ----

  /** `drop_duplicates(keys, keep="last")`: keeps each row no later row shares a key tuple with. */
  function DedupLast(rows: seq<Row>, keys: seq<Column>): seq<Row>
  {
    if rows == [] then []
    else if KeyTuple(rows[0], keys) in KeyTuples(rows[1..], keys) then DedupLast(rows[1..], keys)
    else [rows[0]] + DedupLast(rows[1..], keys)
  }

  /** Row i is the last one with its key tuple. */
  predicate IsLastOfKey(rows: seq<Row>, keys: seq<Column>, i: int)
    requires 0 <= i < |rows|
  {
    forall j :: i < j < |rows| ==> KeyTuple(rows[j], keys) != KeyTuple(rows[i], keys)
  }

  /** The rows kept are exactly the last occurrences of their key tuples. */
  lemma {:induction false} DedupKeepsLastOccurrences(rows: seq<Row>, keys: seq<Column>)
    ensures forall y :: y in DedupLast(rows, keys) <==>
      exists i :: 0 <= i < |rows| && rows[i] == y && IsLastOfKey(rows, keys, i)
  {
    if rows != [] {
      var tail := rows[1..];
      DedupKeepsLastOccurrences(tail, keys);
      var h := rows[0];
      var headIsLast := KeyTuple(h, keys) !in KeyTuples(tail, keys);
      assert headIsLast <==> IsLastOfKey(rows, keys, 0) by {
        if !headIsLast {
          var j :| 0 <= j < |tail| && KeyTuples(tail, keys)[j] == KeyTuple(h, keys);
          assert rows[j + 1] == tail[j];
        } else {
          forall j | 0 < j < |rows| ensures KeyTuple(rows[j], keys) != KeyTuple(h, keys) {
            assert KeyTuples(tail, keys)[j - 1] == KeyTuple(rows[j], keys);
          }
        }
      }
      forall i | 0 <= i < |tail| ensures IsLastOfKey(tail, keys, i) <==> IsLastOfKey(rows, keys, i + 1) {
        assert forall j :: i < j < |tail| ==> tail[j] == rows[j + 1];
        if IsLastOfKey(tail, keys, i) {
          forall j | i + 1 < j < |rows| ensures KeyTuple(rows[j], keys) != KeyTuple(rows[i + 1], keys) {
            assert rows[j] == tail[j - 1];
          }
        }
      }
      forall y ensures y in DedupLast(rows, keys) <==>
        exists i :: 0 <= i < |rows| && rows[i] == y && IsLastOfKey(rows, keys, i)
      {
        if y in DedupLast(tail, keys) {
          var i :| 0 <= i < |tail| && tail[i] == y && IsLastOfKey(tail, keys, i);
          assert rows[i + 1] == y && IsLastOfKey(rows, keys, i + 1);
        }
        if exists i :: 0 <= i < |rows| && rows[i] == y && IsLastOfKey(rows, keys, i) {
          var i :| 0 <= i < |rows| && rows[i] == y && IsLastOfKey(rows, keys, i);
          if i > 0 {
            assert tail[i - 1] == y && IsLastOfKey(tail, keys, i - 1);
          }
        }
      }
    }
  }

  lemma DedupSubset(rows: seq<Row>, keys: seq<Column>)
    ensures forall y :: y in DedupLast(rows, keys) ==> y in rows
  {
    DedupKeepsLastOccurrences(rows, keys);
  }

  /** At most one row remains per key tuple. */
  lemma {:induction false} DedupUniqueKeys(rows: seq<Row>, keys: seq<Column>)
    ensures forall i, j :: 0 <= i < j < |DedupLast(rows, keys)| ==>
      KeyTuple(DedupLast(rows, keys)[i], keys) != KeyTuple(DedupLast(rows, keys)[j], keys)
  {
    if rows != [] {
      var tail := rows[1..];
      DedupUniqueKeys(tail, keys);
      var h := rows[0];
      if KeyTuple(h, keys) !in KeyTuples(tail, keys) {
        var d := DedupLast(tail, keys);
        var r := [h] + d;
        DedupSubset(tail, keys);
        forall i, j | 0 <= i < j < |r| ensures KeyTuple(r[i], keys) != KeyTuple(r[j], keys) {
          if i == 0 {
            assert r[j] in d;
            var k :| 0 <= k < |tail| && tail[k] == r[j];
            assert KeyTuples(tail, keys)[k] == KeyTuple(r[j], keys);
          } else {
            assert r[i] == d[i - 1] && r[j] == d[j - 1];
          }
        }
      }
    }
  }

  /** Every key tuple of the input survives. */
  lemma DedupCoversKeys(rows: seq<Row>, keys: seq<Column>)
    ensures forall x :: x in rows ==> exists y :: y in DedupLast(rows, keys) && KeyTuple(y, keys) == KeyTuple(x, keys)
  {
    DedupKeepsLastOccurrences(rows, keys);
    forall x | x in rows ensures exists y :: y in DedupLast(rows, keys) && KeyTuple(y, keys) == KeyTuple(x, keys) {
      var i :| 0 <= i < |rows| && rows[i] == x;
      var last := LastOfKey(rows, keys, i);
      assert rows[last] in DedupLast(rows, keys);
    }
  }

  /** The index of the last row sharing row i's key tuple. */
  ghost function LastOfKey(rows: seq<Row>, keys: seq<Column>, i: int): (k: int)
    requires 0 <= i < |rows|
    ensures i <= k < |rows| && KeyTuple(rows[k], keys) == KeyTuple(rows[i], keys) && IsLastOfKey(rows, keys, k)
    decreases |rows| - i
  {
    if IsLastOfKey(rows, keys, i) then i
    else
      var j :| i < j < |rows| && KeyTuple(rows[j], keys) == KeyTuple(rows[i], keys);
      LastOfKey(rows, keys, j)
  }

  /**
   * After a sort by `col`, the row kept for a key tuple carries the greatest
   * timestamp among the rows with that key tuple.
   */
  lemma DedupKeepsLatest(rows: seq<Row>, keys: seq<Column>, col: Column)
    requires SortedBy(rows, col)
    ensures forall y, x :: y in DedupLast(rows, keys) && x in rows && KeyTuple(x, keys) == KeyTuple(y, keys) ==>
      Before(TsKey(x, col), TsKey(y, col))
  {
    DedupKeepsLastOccurrences(rows, keys);
    forall y, x | y in DedupLast(rows, keys) && x in rows && KeyTuple(x, keys) == KeyTuple(y, keys)
      ensures Before(TsKey(x, col), TsKey(y, col))
    {
      var i :| 0 <= i < |rows| && rows[i] == y && IsLastOfKey(rows, keys, i);
      var j :| 0 <= j < |rows| && rows[j] == x;
      if j > i {
        assert false;
      } else if j < i {
        assert Before(TsKey(rows[j], col), TsKey(rows[i], col));
      } else {
        match TsKey(x, col) { case None => case Some(_) => }
      }
    }
  }
}
