/** Tables as the pipeline sees them: raw frames with ordered columns, frames
    re-indexed by one column, long (melted) rows, and keyed tables. */
module Frames {
  import opened Wrappers

  /** One cell: a number, a text label, or a missing value (NaN / None). */
  datatype Cell = Num(value: real) | Text(text: string) | Missing

  /** A column: its label, whether its dtype is categorical, and its cells. */
  datatype Column = Column(name: string, categorical: bool, cells: seq<Cell>)

  /** A DataFrame with a default row index: its columns in order and its row count. */
  datatype Frame = Frame(columns: seq<Column>, height: nat)

  /** The keys of a data_info dictionary (read from the project's YAML files). */
  datatype DataInfo = DataInfo(
    columnsToDrop: seq<string>,
    categoricalColumns: seq<string>,
    columnRenameMapping: map<string, string>,
    variableNameMapping: map<string, string>,
    sheetsToRead: Option<map<string, seq<string>>>)

  /** A file-system path, as its components. */
  datatype Path = Path(parts: seq<string>)

  function Join(p: Path, part: string): (r: Path)
    ensures |r.parts| == |p.parts| + 1 && r.parts[|p.parts|] == part
  {
    Path(p.parts + [part])
  }

  /** Every column of a frame holds one cell per row. */
  ghost predicate Valid(f: Frame) {
    forall i :: 0 <= i < |f.columns| ==> |f.columns[i].cells| == f.height
  }

  function Names(cols: seq<Column>): (r: seq<string>)
    ensures |r| == |cols| && forall i :: 0 <= i < |cols| ==> r[i] == cols[i].name
  {
    seq(|cols|, i requires 0 <= i < |cols| => cols[i].name)
  }

  /** Cell `i` of a column; a row past the column's end reads as missing. */
  function CellOf(col: Column, i: nat): Cell {
    if i < |col.cells| then col.cells[i] else Missing
  }

  /** The first column with a given label. */
  function ColumnNamed(cols: seq<Column>, name: string): (r: Option<Column>)
    ensures r.Some? <==> name in Names(cols)
    ensures r.Some? ==> r.value in cols && r.value.name == name
  {
    if cols == [] then None
    else if cols[0].name == name then Some(cols[0])
    else ColumnNamed(cols[1..], name)
  }

  /** A row of a frame indexed by one of its columns: the index cell and the other cells by label. */
  datatype IndexedRow = IndexedRow(index: Cell, fields: map<string, Cell>)

  /** A frame after set_index: its remaining column labels, the labels of its categorical
      columns, and its rows in order. */
  datatype IndexedFrame = IndexedFrame(columns: seq<string>, categorical: set<string>, rows: seq<IndexedRow>)

  /** The cell of a row under a label; a label the row does not carry reads as missing. */
  function Field(r: IndexedRow, name: string): Cell {
    if name in r.fields then r.fields[name] else Missing
  }

  /** One row of a melted (long) frame. */
  datatype LongRow = LongRow(index: Cell, variable: Cell, country: Cell, year: int, value: Cell)

  /** A keyed table: its column labels and, per key, the non-missing cells by column. */
  datatype Table<K> = Table(columns: seq<string>, rows: map<K, map<string, real>>)

  /** The key of the panel cube: (industry_code, year, country_code). */
  type PanelKey = (string, int, string)

  /** The key of a prepared slice: (year, country_code). */
  type SliceKey = (int, string)

  /** The labels of `names` that are not in `present`, in order. */
  function NotIn(names: seq<string>, present: seq<string>): (r: seq<string>)
    ensures forall x :: x in r <==> x in names && x !in present
  {
    if names == [] then []
    else (if names[0] in present then [] else [names[0]]) + NotIn(names[1..], present)
  }

  /** `acc` followed by the labels of `s` that are not yet in it, each once, in order of first appearance. */
  function AppendNew(acc: seq<string>, s: seq<string>): (r: seq<string>)
    ensures forall x :: x in r <==> x in acc || x in s
    ensures |acc| <= |r| && r[..|acc|] == acc
    decreases |s|
  {
    if s == [] then acc
    else if s[0] in acc then AppendNew(acc, s[1..])
    else AppendNew(acc + [s[0]], s[1..])
  }

  /** No label occurs twice. */
  predicate Distinct(s: seq<string>) {
    forall i, j :: 0 <= i < j < |s| ==> s[i] != s[j]
  }

  /** Starting from labels without repeats, the union has no repeats either. */
  lemma {:induction false} AppendNewDistinct(acc: seq<string>, s: seq<string>)
    requires Distinct(acc)
    ensures Distinct(AppendNew(acc, s))
    decreases |s|
  {
    if s != [] {
      if s[0] in acc {
        assert AppendNew(acc, s) == AppendNew(acc, s[1..]);
        AppendNewDistinct(acc, s[1..]);
      } else {
        var acc' := acc + [s[0]];
        assert AppendNew(acc, s) == AppendNew(acc', s[1..]);
        forall i, j | 0 <= i < j < |acc'| ensures acc'[i] != acc'[j] {
          if j == |acc| {
            assert acc'[i] == acc[i] && acc'[j] == s[0];
          }
        }
        AppendNewDistinct(acc', s[1..]);
      }
    }
  }

  /** Sum of the cells of a row under the given columns; a missing cell counts as zero. */
  function SumColumns(row: map<string, real>, cols: seq<string>): real {
    if cols == [] then 0.0
    else (if cols[0] in row then row[cols[0]] else 0.0) + SumColumns(row, cols[1..])
  }

  lemma {:induction false} SumColumnsAppend(row: map<string, real>, a: seq<string>, b: seq<string>)
    ensures SumColumns(row, a + b) == SumColumns(row, a) + SumColumns(row, b)
  {
    if a == [] {
      assert a + b == b;
    } else {
      assert (a + b)[1..] == a[1..] + b;
      SumColumnsAppend(row, a[1..], b);
    }
  }

  lemma {:induction false} SumColumnsNonNegative(row: map<string, real>, cols: seq<string>)
    requires forall c :: c in row ==> row[c] >= 0.0
    ensures SumColumns(row, cols) >= 0.0
  {
    if cols != [] {
      SumColumnsNonNegative(row, cols[1..]);
    }
  }
}
