/** The pandas steps both EU KLEMS pipelines share, with the label column of the
    variable (`variable_name` or `investment_type`) as a parameter: `set_index`,
    `concat` followed by the categorical cast, `melt` over the year columns,
    `cat.rename_categories`, and `pivot_table` with its default mean. */
module Reshape {
  import opened Wrappers
  import opened Frames
  import opened Text
  import opened Rounding
  import M = DataManagementUtilities

  // ---------------------------------------------------------------- set_index

  /** The columns that are not labelled `key`, in order. */
  function ColumnsWithout(cols: seq<Column>, key: string): (r: seq<Column>)
    ensures forall c :: c in r <==> c in cols && c.name != key
    ensures key !in Names(r)
  {
    if cols == [] then []
    else (if cols[0].name == key then [] else [cols[0]]) + ColumnsWithout(cols[1..], key)
  }

  /** Removing the key columns does not change which column a different label finds first. */
  lemma {:induction false} ColumnNamedWithout(cols: seq<Column>, key: string, n: string)
    requires n != key
    ensures ColumnNamed(ColumnsWithout(cols, key), n) == ColumnNamed(cols, n)
  {
    if cols != [] {
      var tail := ColumnsWithout(cols[1..], key);
      ColumnNamedWithout(cols[1..], key, n);
      if cols[0].name == key {
        assert ColumnsWithout(cols, key) == tail;
      } else {
        var w := [cols[0]] + tail;
        assert ColumnsWithout(cols, key) == w;
        assert w[0] == cols[0] && w[1..] == tail;
      }
    }
  }

  /** The cells of row `i` under each remaining label. */
  function RowFields(rest: seq<Column>, i: nat): map<string, Cell> {
    map n | n in Names(rest) :: CellOf(ColumnNamed(rest, n).value, i)
  }

  /** `DataFrame.set_index([key])`: the key column becomes the row index and leaves the columns;
      a key that is not a column raises KeyError. */
  function SetIndex(f: Frame, key: string): (r: Result<IndexedFrame>)
    ensures r.Err? <==> key !in Names(f.columns)
    ensures r.Err? ==> r.error == MissingKeys([key]) && r.error.PythonClass() == KeyError
    ensures r.Ok? ==>
      && |r.value.rows| == f.height
      && r.value.columns == Names(ColumnsWithout(f.columns, key))
      && forall i :: 0 <= i < f.height ==> r.value.rows[i].index == CellOf(ColumnNamed(f.columns, key).value, i)
  {
    match ColumnNamed(f.columns, key)
    case None => Err(MissingKeys([key]))
    case Some(k) =>
      var rest := ColumnsWithout(f.columns, key);
      Ok(IndexedFrame(
        Names(rest),
        set c | c in rest && c.categorical :: c.name,
        seq(f.height, i requires 0 <= i < f.height => IndexedRow(CellOf(k, i), RowFields(rest, i)))))
  }

  /** After set_index every other column is still there, categorical if it was, and each row
      carries its own cell of it; the key column is gone. */
  lemma SetIndexColumns(f: Frame, key: string)
    requires SetIndex(f, key).Ok?
    ensures var g := SetIndex(f, key).value;
      && key !in g.columns
      && (forall c :: c in f.columns && c.name != key ==> c.name in g.columns)
      && (forall c :: c in f.columns && c.name != key && c.categorical ==> c.name in g.categorical)
      && forall i, n :: 0 <= i < f.height && n in g.columns ==>
           Field(g.rows[i], n) == CellOf(ColumnNamed(f.columns, n).value, i)
  {
    var g := SetIndex(f, key).value;
    var rest := ColumnsWithout(f.columns, key);
    forall c | c in f.columns && c.name != key
      ensures c.name in g.columns
    {
      var j :| 0 <= j < |rest| && rest[j] == c;
      assert Names(rest)[j] == c.name;
    }
    forall i, n | 0 <= i < f.height && n in g.columns
      ensures Field(g.rows[i], n) == CellOf(ColumnNamed(f.columns, n).value, i)
    {
      ColumnNamedWithout(f.columns, key, n);
      assert g.rows[i].fields == RowFields(rest, i);
    }
  }

  // ---------------------------------------------------------------- concat

  /** The column labels of the concatenation: every frame's labels, each once, in order of first appearance. */
  function ConcatColumns(frames: seq<IndexedFrame>): (r: seq<string>)
    ensures forall x :: x in r <==> exists j :: 0 <= j < |frames| && x in frames[j].columns
  {
    if frames == [] then []
    else
      var init := ConcatColumns(frames[..|frames| - 1]);
      assert forall j :: 0 <= j < |frames| - 1 ==> frames[..|frames| - 1][j] == frames[j];
      AppendNew(init, frames[|frames| - 1].columns)
  }

  /** The rows of the concatenation: each frame's rows, frame after frame. */
  function ConcatRows(frames: seq<IndexedFrame>): seq<IndexedRow> {
    if frames == [] then [] else ConcatRows(frames[..|frames| - 1]) + frames[|frames| - 1].rows
  }

  /** `pd.concat(dfs)` followed by casting the label column to categorical. An empty list
      raises ValueError("No objects to concatenate"); a label column no frame has raises KeyError. */
  function Concat(frames: seq<IndexedFrame>, labelColumn: string): (r: Result<IndexedFrame>)
    ensures frames == [] ==> r == Err(NoObjectsToConcatenate) && r.error.PythonClass() == ValueError
    ensures frames != [] && (forall j :: 0 <= j < |frames| ==> labelColumn !in frames[j].columns) ==>
      r == Err(MissingKeys([labelColumn]))
    ensures r.Ok? <==> frames != [] && exists j :: 0 <= j < |frames| && labelColumn in frames[j].columns
    ensures r.Ok? ==>
      && r.value.categorical == {labelColumn}
      && r.value.rows == ConcatRows(frames)
      && (forall x :: x in r.value.columns <==> exists j :: 0 <= j < |frames| && x in frames[j].columns)
      && Distinct(r.value.columns)
  {
    if frames == [] then Err(NoObjectsToConcatenate)
    else
      var cols := ConcatColumns(frames);
      if labelColumn !in cols then Err(MissingKeys([labelColumn]))
      else
        ConcatColumnsDistinct(frames);
        Ok(IndexedFrame(cols, {labelColumn}, ConcatRows(frames)))
  }

  lemma {:induction false} ConcatColumnsDistinct(frames: seq<IndexedFrame>)
    ensures Distinct(ConcatColumns(frames))
  {
    if frames != [] {
      ConcatColumnsDistinct(frames[..|frames| - 1]);
      AppendNewDistinct(ConcatColumns(frames[..|frames| - 1]), frames[|frames| - 1].columns);
    }
  }

  /** Concatenation keeps the sheets in list order: the first sheet's rows come first,
      followed by the concatenation of the others. */
  lemma {:induction false} ConcatRowsInOrder(frames: seq<IndexedFrame>)
    requires frames != []
    ensures ConcatRows(frames) == frames[0].rows + ConcatRows(frames[1..])
    decreases |frames|
  {
    var n := |frames|;
    if n == 1 {
      assert frames[..0] == [] && frames[1..] == [];
    } else {
      ConcatRowsInOrder(frames[..n - 1]);
      assert frames[..n - 1][1..] == frames[1..][..n - 2];
      assert frames[..n - 1][0] == frames[0];
      assert frames[1..][n - 2] == frames[n - 1];
    }
  }

  /** No row is lost or duplicated: the concatenation has as many rows as all sheets together. */
  lemma {:induction false} ConcatRowsLength(frames: seq<IndexedFrame>, total: nat)
    requires total == RowCount(frames)
    ensures |ConcatRows(frames)| == total
  {
    if frames != [] {
      ConcatRowsLength(frames[..|frames| - 1], RowCount(frames[..|frames| - 1]));
      RowCountSnoc(frames);
    }
  }

  /** The number of rows of all frames together. */
  function RowCount(frames: seq<IndexedFrame>): nat {
    if frames == [] then 0 else |frames[0].rows| + RowCount(frames[1..])
  }

  lemma {:induction false} RowCountSnoc(frames: seq<IndexedFrame>)
    requires frames != []
    ensures RowCount(frames) == RowCount(frames[..|frames| - 1]) + |frames[|frames| - 1].rows|
    decreases |frames|
  {
    if |frames| > 1 {
      RowCountSnoc(frames[1..]);
      assert frames[1..][..|frames| - 2] == frames[..|frames| - 1][1..];
    }
  }

  // ---------------------------------------------------------------- melt

  /** A value column of the melt: the year and its column label. */
  datatype YearColumn = YearColumn(year: int, header: string)

  /** The value columns for `years`, each labelled `str(year)`. */
  function YearColumns(years: seq<int>): (r: seq<YearColumn>)
    ensures |r| == |years| && forall y :: 0 <= y < |years| ==> r[y] == YearColumn(years[y], IntToDecimal(years[y]))
  {
    seq(|years|, y requires 0 <= y < |years| => YearColumn(years[y], IntToDecimal(years[y])))
  }

  /** The long row one input row yields for one year: the index, label and country are kept,
      the value is the cell under the year's column, and the year is an integer. */
  function MeltRow(r: IndexedRow, c: YearColumn, labelColumn: string): LongRow {
    LongRow(r.index, Field(r, labelColumn), Field(r, "country_code"), c.year, Field(r, c.header))
  }

  /** The rows of one year, in input order. */
  function MeltYear(rows: seq<IndexedRow>, c: YearColumn, labelColumn: string): (r: seq<LongRow>)
    ensures |r| == |rows| && forall i :: 0 <= i < |rows| ==> r[i] == MeltRow(rows[i], c, labelColumn)
  {
    seq(|rows|, i requires 0 <= i < |rows| => MeltRow(rows[i], c, labelColumn))
  }

  /** `melt` stacks the value columns: all rows for the first year, then all rows for the next. */
  function MeltRows(rows: seq<IndexedRow>, cols: seq<YearColumn>, labelColumn: string): seq<LongRow> {
    if cols == [] then [] else MeltYear(rows, cols[0], labelColumn) + MeltRows(rows, cols[1..], labelColumn)
  }

  /** `DataFrame.melt(value_vars=[str(y) for y in years], id_vars=[labelColumn, "country_code"],
      var_name="year", value_name="investment_level", ignore_index=False)`. Missing id columns
      raise KeyError, and then missing year columns do. */
  function Melt(f: IndexedFrame, years: seq<int>, labelColumn: string): (r: Result<seq<LongRow>>)
    ensures r.Err? ==> r.error.MissingKeys? && r.error.PythonClass() == KeyError
    ensures r.Ok? <==>
      && labelColumn in f.columns && "country_code" in f.columns
      && forall y :: y in years ==> IntToDecimal(y) in f.columns
    ensures (labelColumn !in f.columns || "country_code" !in f.columns) ==>
      r == Err(MissingKeys(NotIn([labelColumn, "country_code"], f.columns)))
    ensures r.Ok? ==> r.value == MeltRows(f.rows, YearColumns(years), labelColumn)
  {
    var missingIds := NotIn([labelColumn, "country_code"], f.columns);
    var missingYears := NotIn(YearLabels(years), f.columns);
    if missingIds != [] then
      assert missingIds[0] in missingIds;
      Err(MissingKeys(missingIds))
    else if missingYears != [] then
      assert missingYears[0] in missingYears;
      Err(MissingKeys(missingYears))
    else
      YearLabelsPresent(years, f.columns);
      Ok(MeltRows(f.rows, YearColumns(years), labelColumn))
  }

  /** The column labels `str(y)` of the years, in order. */
  function YearLabels(years: seq<int>): (labels: seq<string>)
    ensures forall x :: x in labels <==> exists y :: y in years && x == IntToDecimal(y)
  {
    if years == [] then [] else [IntToDecimal(years[0])] + YearLabels(years[1..])
  }

  /** No year label is missing exactly when every year has its column. */
  lemma YearLabelsPresent(years: seq<int>, present: seq<string>)
    ensures NotIn(YearLabels(years), present) == [] <==> forall y :: y in years ==> IntToDecimal(y) in present
  {
    var missing := NotIn(YearLabels(years), present);
    if missing != [] {
      assert missing[0] in missing;
    }
  }

  /** Each input row yields one row per year. */
  lemma {:induction false} MeltRowsLength(rows: seq<IndexedRow>, cols: seq<YearColumn>, labelColumn: string)
    ensures |MeltRows(rows, cols, labelColumn)| == |cols| * |rows|
  {
    if cols != [] {
      MeltRowsLength(rows, cols[1..], labelColumn);
      MultiplyStep(|cols|, |rows|);
    }
  }

  /** The row at position `y * |rows| + i` comes from input row `i` and value column `cols[y]`. */
  lemma {:induction false} MeltRowsAt(rows: seq<IndexedRow>, cols: seq<YearColumn>, labelColumn: string, y: nat, i: nat)
    requires y < |cols| && i < |rows|
    ensures y * |rows| + i < |MeltRows(rows, cols, labelColumn)|
    ensures MeltRows(rows, cols, labelColumn)[y * |rows| + i] == MeltRow(rows[i], cols[y], labelColumn)
  {
    var n := |rows|;
    var head := MeltYear(rows, cols[0], labelColumn);
    var tail := MeltRows(rows, cols[1..], labelColumn);
    assert MeltRows(rows, cols, labelColumn) == head + tail;
    if y == 0 {
      assert (head + tail)[i] == head[i];
    } else {
      MeltRowsAt(rows, cols[1..], labelColumn, y - 1, i);
      var k := (y - 1) * n + i;
      MultiplyStep(y, n);
      assert (head + tail)[n + k] == tail[k];
    }
  }

  lemma MultiplyStep(y: nat, n: nat)
    requires y > 0
    ensures y * n == (y - 1) * n + n
  {
  }

  /** Every melted row comes from some input row and some value column. */
  lemma {:induction false} MeltRowsFrom(rows: seq<IndexedRow>, cols: seq<YearColumn>, labelColumn: string, r: LongRow)
    requires r in MeltRows(rows, cols, labelColumn)
    ensures exists i, y :: 0 <= i < |rows| && 0 <= y < |cols| && r == MeltRow(rows[i], cols[y], labelColumn)
  {
    if r in MeltYear(rows, cols[0], labelColumn) {
      var i :| 0 <= i < |rows| && MeltYear(rows, cols[0], labelColumn)[i] == r;
      assert r == MeltRow(rows[i], cols[0], labelColumn);
    } else {
      MeltRowsFrom(rows, cols[1..], labelColumn, r);
      var i, y :| 0 <= i < |rows| && 0 <= y < |cols[1..]| && r == MeltRow(rows[i], cols[1..][y], labelColumn);
      assert r == MeltRow(rows[i], cols[y + 1], labelColumn);
    }
  }

  /** The melt as a whole: one row per (year, input row), year-major. The row for year `years[y]`
      and input row `i` keeps the row's index, label and country, carries the year as an integer,
      and takes its value from the column `str(years[y])`. */
  lemma MeltShape(f: IndexedFrame, years: seq<int>, labelColumn: string, y: nat, i: nat)
    requires Melt(f, years, labelColumn).Ok? && y < |years| && i < |f.rows|
    ensures |Melt(f, years, labelColumn).value| == |years| * |f.rows|
    ensures y * |f.rows| + i < |Melt(f, years, labelColumn).value|
    ensures Melt(f, years, labelColumn).value[y * |f.rows| + i] ==
      LongRow(f.rows[i].index, Field(f.rows[i], labelColumn), Field(f.rows[i], "country_code"),
              years[y], Field(f.rows[i], IntToDecimal(years[y])))
  {
    var cols := YearColumns(years);
    MeltRowsLength(f.rows, cols, labelColumn);
    MeltRowsAt(f.rows, cols, labelColumn, y, i);
  }

  /** Every melted row carries one of the requested years. */
  lemma MeltYearsFromRange(f: IndexedFrame, years: seq<int>, labelColumn: string, r: LongRow)
    requires Melt(f, years, labelColumn).Ok? && r in Melt(f, years, labelColumn).value
    ensures r.year in years
  {
    MeltRowsFrom(f.rows, YearColumns(years), labelColumn, r);
  }

  // ---------------------------------------------------------------- rename_categories

  /** The categories of the label column: the distinct text labels it holds. */
  function Categories(rows: seq<LongRow>): set<string> {
    set i | 0 <= i < |rows| && rows[i].variable.Text? :: rows[i].variable.text
  }

  /** Two different categories would get the same new name. */
  predicate Collide(cats: set<string>, mapping: map<string, string>) {
    exists a, b :: a in cats && b in cats && a != b && M.RenameLabel(a, mapping) == M.RenameLabel(b, mapping)
  }

  function RenameCell(c: Cell, mapping: map<string, string>): Cell {
    if c.Text? then Text(M.RenameLabel(c.text, mapping)) else c
  }

  /** `Series.cat.rename_categories(mapping)`: each category that is a key of the mapping gets its
      new name, other categories keep theirs, and new names that clash raise ValueError. */
  function RenameCategories(rows: seq<LongRow>, mapping: map<string, string>): (r: Result<seq<LongRow>>)
    ensures r.Err? <==> Collide(Categories(rows), mapping)
    ensures r.Err? ==> r.error == CategoriesNotUnique && r.error.PythonClass() == ValueError
    ensures r.Ok? ==> |r.value| == |rows|
    ensures r.Ok? ==> forall i :: 0 <= i < |rows| ==>
      && r.value[i].index == rows[i].index && r.value[i].country == rows[i].country
      && r.value[i].year == rows[i].year && r.value[i].value == rows[i].value
      && (rows[i].variable.Text? && rows[i].variable.text in mapping ==> r.value[i].variable == Text(mapping[rows[i].variable.text]))
      && (!(rows[i].variable.Text? && rows[i].variable.text in mapping) ==> r.value[i].variable == rows[i].variable)
  {
    if Collide(Categories(rows), mapping) then Err(CategoriesNotUnique)
    else Ok(seq(|rows|, i requires 0 <= i < |rows| => rows[i].(variable := RenameCell(rows[i].variable, mapping))))
  }

  /** A successful rename is one-to-one on labels: rows with different labels keep different
      labels, so no two variables are merged by the pivot that follows. */
  lemma RenameCategoriesKeepsDistinct(rows: seq<LongRow>, mapping: map<string, string>, i: nat, j: nat)
    requires RenameCategories(rows, mapping).Ok? && i < |rows| && j < |rows|
    requires rows[i].variable != rows[j].variable
    ensures RenameCategories(rows, mapping).value[i].variable != RenameCategories(rows, mapping).value[j].variable
  {
    var a, b := rows[i].variable, rows[j].variable;
    if a.Text? && b.Text? {
      assert a.text in Categories(rows) && b.text in Categories(rows);
    }
  }

  // ---------------------------------------------------------------- pivot_table

  /** A row the pivot uses: its index, label and country are present and its value is a number. */
  predicate Valued(r: LongRow) {
    r.index.Text? && r.variable.Text? && r.country.Text? && r.value.Num?
  }

  /** The panel key of a used row: (industry_code, year, country_code). */
  function Key(r: LongRow): PanelKey
    requires Valued(r)
  {
    (r.index.text, r.year, r.country.text)
  }

  predicate Matches(r: LongRow, k: PanelKey, v: string) {
    Valued(r) && Key(r) == k && r.variable.text == v
  }

  /** The values of the rows with key `k` and label `v`, in row order. */
  function GroupValues(rows: seq<LongRow>, k: PanelKey, v: string): (r: seq<real>)
    ensures forall i :: 0 <= i < |rows| && Matches(rows[i], k, v) ==> |r| > 0
    ensures forall x :: x in r ==> exists i :: 0 <= i < |rows| && Matches(rows[i], k, v) && rows[i].value.value == x
  {
    if rows == [] then []
    else
      var tail := GroupValues(rows[1..], k, v);
      assert forall x :: x in tail ==> exists i :: 0 <= i < |rows| && Matches(rows[i], k, v) && rows[i].value.value == x by {
        forall x | x in tail ensures exists i :: 0 <= i < |rows| && Matches(rows[i], k, v) && rows[i].value.value == x {
          var i :| 0 <= i < |rows[1..]| && Matches(rows[1..][i], k, v) && rows[1..][i].value.value == x;
          assert rows[i + 1] == rows[1..][i];
        }
      }
      (if Matches(rows[0], k, v) then [rows[0].value.value] else []) + tail
  }

  function Sum(s: seq<real>): real {
    if s == [] then 0.0 else s[0] + Sum(s[1..])
  }

  /** The arithmetic mean, pandas' default aggregation. */
  function Mean(s: seq<real>): real
    requires |s| > 0
  {
    Sum(s) / (|s| as real)
  }

  /** The keys with at least one used row. */
  function Keys(rows: seq<LongRow>): set<PanelKey> {
    set i | 0 <= i < |rows| && Valued(rows[i]) :: Key(rows[i])
  }

  /** The labels with at least one used row under key `k`. */
  function LabelsAt(rows: seq<LongRow>, k: PanelKey): set<string> {
    set i | 0 <= i < |rows| && Valued(rows[i]) && Key(rows[i]) == k :: rows[i].variable.text
  }

  /** The labels of the used rows, in row order. */
  function ValuedLabels(rows: seq<LongRow>): (r: seq<string>)
    ensures forall x :: x in r <==> exists i :: 0 <= i < |rows| && Valued(rows[i]) && rows[i].variable.text == x
  {
    if rows == [] then []
    else
      var tail := ValuedLabels(rows[1..]);
      assert forall i :: 1 <= i < |rows| ==> rows[i] == rows[1..][i - 1];
      (if Valued(rows[0]) then [rows[0].variable.text] else []) + tail
  }

  /** `pivot_table(values="investment_level", index=["industry_code", "year", "country_code"],
      columns=<label>, observed=True)`: one entry per key, one column per label, each cell the mean
      of the numbers that fall into it. Rows with a missing key part or value take no part, and
      cells, keys and columns without any number are absent (see `PivotCell`). */
  function PivotMean(rows: seq<LongRow>): (t: Table<PanelKey>)
    ensures forall x :: x in t.columns <==> exists i :: 0 <= i < |rows| && Valued(rows[i]) && rows[i].variable.text == x
    ensures Distinct(t.columns)
  {
    AppendNewDistinct([], ValuedLabels(rows));
    Table(AppendNew([], ValuedLabels(rows)),
      map k | k in Keys(rows) :: map v | v in LabelsAt(rows, k) :: Mean(GroupValues(rows, k, v)))
  }

  /** A key is in the pivot exactly when some used row has it, and a cell exists exactly when some
      used row has its key and label; the cell is the mean of those rows' values, in row order. */
  lemma PivotCell(rows: seq<LongRow>, k: PanelKey, v: string)
    ensures k in PivotMean(rows).rows <==> exists i :: 0 <= i < |rows| && Valued(rows[i]) && Key(rows[i]) == k
    ensures (k in PivotMean(rows).rows && v in PivotMean(rows).rows[k]) <==>
      exists i :: 0 <= i < |rows| && Matches(rows[i], k, v)
    ensures k in PivotMean(rows).rows && v in PivotMean(rows).rows[k] ==>
      |GroupValues(rows, k, v)| > 0 && PivotMean(rows).rows[k][v] == Mean(GroupValues(rows, k, v))
  {
    var t := PivotMean(rows);
    if i :| 0 <= i < |rows| && Matches(rows[i], k, v) {
      assert k in Keys(rows);
      assert v in LabelsAt(rows, k);
    }
  }

  /** Grouping distributes over concatenation. */
  lemma {:induction false} GroupValuesAppend(a: seq<LongRow>, b: seq<LongRow>, k: PanelKey, v: string)
    ensures GroupValues(a + b, k, v) == GroupValues(a, k, v) + GroupValues(b, k, v)
  {
    if a == [] {
      assert a + b == b;
    } else {
      assert (a + b)[1..] == a[1..] + b;
      GroupValuesAppend(a[1..], b, k, v);
    }
  }

  /** Exactly one row in a cell: the cell holds that row's value unchanged. */
  lemma {:induction false} GroupValuesSingle(rows: seq<LongRow>, k: PanelKey, v: string, i: nat)
    requires i < |rows| && Matches(rows[i], k, v)
    requires forall j :: 0 <= j < |rows| && Matches(rows[j], k, v) ==> j == i
    ensures GroupValues(rows, k, v) == [rows[i].value.value]
  {
    assert rows == rows[..i] + [rows[i]] + rows[i + 1..];
    GroupValuesAppend(rows[..i] + [rows[i]], rows[i + 1..], k, v);
    GroupValuesAppend(rows[..i], [rows[i]], k, v);
    GroupValuesNone(rows[..i], k, v);
    GroupValuesNone(rows[i + 1..], k, v);
    assert [rows[i]][1..] == [];
  }

  lemma {:induction false} GroupValuesNone(rows: seq<LongRow>, k: PanelKey, v: string)
    requires forall j :: 0 <= j < |rows| ==> !Matches(rows[j], k, v)
    ensures GroupValues(rows, k, v) == []
  {
    if rows != [] {
      GroupValuesNone(rows[1..], k, v);
    }
  }

  /** A cell with one contributing row is that row's value: the pivot neither rounds nor rescales. */
  lemma PivotSingleRow(rows: seq<LongRow>, i: nat)
    requires i < |rows| && Valued(rows[i])
    requires forall j :: 0 <= j < |rows| && Matches(rows[j], Key(rows[i]), rows[i].variable.text) ==> j == i
    ensures Key(rows[i]) in PivotMean(rows).rows
    ensures rows[i].variable.text in PivotMean(rows).rows[Key(rows[i])]
    ensures PivotMean(rows).rows[Key(rows[i])][rows[i].variable.text] == rows[i].value.value
  {
    var k, v := Key(rows[i]), rows[i].variable.text;
    assert Matches(rows[i], k, v);
    GroupValuesSingle(rows, k, v, i);
    assert Sum([rows[i].value.value]) == rows[i].value.value;
  }

  /** Two rows with the same key and label are averaged, not rejected. */
  lemma PivotAveragesDuplicates(a: LongRow, b: LongRow)
    requires Valued(a) && Valued(b) && Key(a) == Key(b) && a.variable == b.variable
    ensures Key(a) in PivotMean([a, b]).rows && a.variable.text in PivotMean([a, b]).rows[Key(a)]
    ensures PivotMean([a, b]).rows[Key(a)][a.variable.text] == (a.value.value + b.value.value) / 2.0
  {
    var k, v := Key(a), a.variable.text;
    var rows := [a, b];
    assert Matches(rows[0], k, v);
    assert rows[1..] == [b] && [b][1..] == [];
    assert GroupValues([b], k, v) == [b.value.value];
    var s := GroupValues(rows, k, v);
    assert s == [a.value.value] + [b.value.value];
    assert s[1..] == [b.value.value];
    assert Sum(s[1..]) == b.value.value;
  }

  /** The sum of values between `lo` and `hi` lies between `|s| * lo` and `|s| * hi`. */
  lemma {:induction false} SumBounds(s: seq<real>, lo: real, hi: real)
    requires forall x :: x in s ==> lo <= x <= hi
    ensures (|s| as real) * lo <= Sum(s) <= (|s| as real) * hi
  {
    if s != [] {
      assert s[0] in s;
      assert forall x :: x in s[1..] ==> x in s;
      SumBounds(s[1..], lo, hi);
      var m := (|s| - 1) as real;
      assert (|s| as real) * lo == lo + m * lo;
      assert (|s| as real) * hi == hi + m * hi;
    }
  }

  /** A mean lies between the bounds of its values. */
  lemma MeanBounds(s: seq<real>, lo: real, hi: real)
    requires |s| > 0 && forall x :: x in s ==> lo <= x <= hi
    ensures lo <= Mean(s) <= hi
  {
    SumBounds(s, lo, hi);
    var n := |s| as real;
    var m := Mean(s);
    assert m * n == Sum(s);
  }

  /** Every cell of the pivot lies between the smallest and the largest value that falls into it. */
  lemma PivotCellWithinGroup(rows: seq<LongRow>, k: PanelKey, v: string, lo: real, hi: real)
    requires k in PivotMean(rows).rows && v in PivotMean(rows).rows[k]
    requires forall i :: 0 <= i < |rows| && Matches(rows[i], k, v) ==> lo <= rows[i].value.value <= hi
    ensures lo <= PivotMean(rows).rows[k][v] <= hi
  {
    MeanBounds(GroupValues(rows, k, v), lo, hi);
  }

  /** Applying `round(3)` to every cell, as the older pipeline does. */
  function RoundTable(t: Table<PanelKey>): (r: Table<PanelKey>)
    ensures r.columns == t.columns
    ensures forall k :: k in r.rows <==> k in t.rows
    ensures forall k, v :: k in t.rows ==> (v in r.rows[k] <==> v in t.rows[k])
    ensures forall k, v :: k in t.rows && v in t.rows[k] ==> r.rows[k][v] == Round3(t.rows[k][v])
  {
    Table(t.columns, map k | k in t.rows :: map v | v in t.rows[k] :: Round3(t.rows[k][v]))
  }
}
