/** The older EU KLEMS pipeline (data_management/clean_data.py): its `_clean_data` also drops
    incomplete rows and sets the index, its label column is `investment_type`, its years are fixed
    to 1995..2019, and its pivot is rounded to three decimals. */
module CleanDataLegacy {
  import opened Wrappers
  import opened Frames
  import opened Rounding
  import opened Reshape
  import M = DataManagementUtilities
  import E = CleanEuKlems

  /** The label column of the older sheets. */
  const InvestmentColumn: string := "investment_type"

  // ---------------------------------------------------------------- dropna

  /** Row `i` has a value in every column. */
  predicate Complete(f: Frame, i: nat) {
    forall j :: 0 <= j < |f.columns| ==> CellOf(f.columns[j], i) != Missing
  }

  /** The complete rows below `n`, in increasing order. */
  function CompleteRows(f: Frame, n: nat): (idx: seq<nat>)
    ensures forall k :: 0 <= k < |idx| ==> idx[k] < n && Complete(f, idx[k])
    ensures forall k, l :: 0 <= k < l < |idx| ==> idx[k] < idx[l]
    ensures forall i :: 0 <= i < n && Complete(f, i) ==> i in idx
  {
    if n == 0 then [] else CompleteRows(f, n - 1) + (if Complete(f, n - 1) then [n - 1] else [])
  }

  /** `DataFrame.dropna()`: the rows with a missing cell in any column go; the others stay in order. */
  function DropNa(f: Frame): (r: Frame)
    ensures var idx := CompleteRows(f, f.height);
      && r.height == |idx| && |r.columns| == |f.columns|
      && forall j :: 0 <= j < |f.columns| ==>
           && r.columns[j].name == f.columns[j].name && r.columns[j].categorical == f.columns[j].categorical
           && |r.columns[j].cells| == |idx|
           && forall k :: 0 <= k < |idx| ==> r.columns[j].cells[k] == CellOf(f.columns[j], idx[k])
  {
    var idx := CompleteRows(f, f.height);
    Frame(seq(|f.columns|, j requires 0 <= j < |f.columns| =>
            Column(f.columns[j].name, f.columns[j].categorical,
                   seq(|idx|, k requires 0 <= k < |idx| => CellOf(f.columns[j], idx[k])))),
          |idx|)
  }

  /** After dropna no cell of the frame is missing, every column holds one cell per row, and every
      complete row of the input is still there. */
  lemma DropNaComplete(f: Frame)
    ensures Valid(DropNa(f))
    ensures forall j, k :: 0 <= j < |DropNa(f).columns| && 0 <= k < DropNa(f).height ==>
      DropNa(f).columns[j].cells[k] != Missing
    ensures forall i :: 0 <= i < f.height && Complete(f, i) ==> i in CompleteRows(f, f.height)
    ensures DropNa(f).height <= f.height
  {
    var idx := CompleteRows(f, f.height);
    IncreasingBelow(idx, f.height);
  }

  /** An increasing sequence of numbers below `n` has at most `n` elements. */
  lemma {:induction false} IncreasingBelow(idx: seq<nat>, n: nat)
    requires forall k :: 0 <= k < |idx| ==> idx[k] < n
    requires forall k, l :: 0 <= k < l < |idx| ==> idx[k] < idx[l]
    ensures |idx| <= n
  {
    if idx != [] {
      var m := idx[|idx| - 1];
      IncreasingBelow(idx[..|idx| - 1], m);
    }
  }

  // ---------------------------------------------------------------- _clean_data

  /** What `_clean_data` returns: drop, dropna, the categorical casts, rename, set_index. */
  function CleanSheet(data: Frame, info: DataInfo): Result<IndexedFrame> {
    match M.Drop(data, info.columnsToDrop)
    case Err(e) => Err(e)
    case Ok(d) =>
      match M.CastAll(DropNa(d), info.categoricalColumns)
      case Err(e) => Err(e)
      case Ok(c) => SetIndex(M.Rename(c, info.columnRenameMapping), "industry_code")
  }

  /** `_clean_data`: the categorical columns are cast one label at a time in a loop. */
  method CleanData(data: Frame, info: DataInfo) returns (r: Result<IndexedFrame>)
    ensures r == CleanSheet(data, info)
  {
    var dropped := M.Drop(data, info.columnsToDrop);
    if dropped.Err? {
      return Err(dropped.error);
    }
    var complete := DropNa(dropped.value);
    var df := complete;
    var cats := info.categoricalColumns;
    for i := 0 to |cats|
      invariant M.CastAll(complete, cats) == M.CastAll(df, cats[i..])
    {
      assert cats[i..][0] == cats[i] && cats[i..][1..] == cats[i + 1..];
      var cast := M.CastCategorical(df, cats[i]);
      if cast.Err? {
        return Err(cast.error);
      }
      df := cast.value;
    }
    assert cats[|cats|..] == [];
    df := M.Rename(df, info.columnRenameMapping);
    return SetIndex(df, "industry_code");
  }

  /** The frame `_clean_data` indexes: every cell of every column is present. */
  lemma {:induction false} CastRenameComplete(d: Frame, info: DataInfo)
    requires M.CastAll(DropNa(d), info.categoricalColumns).Ok?
    ensures var h := M.Rename(M.CastAll(DropNa(d), info.categoricalColumns).value, info.columnRenameMapping);
      forall col, i :: col in h.columns && 0 <= i < h.height ==> CellOf(col, i) != Missing
  {
    var complete := DropNa(d);
    DropNaComplete(d);
    M.CastAllResult(complete, info.categoricalColumns);
    var c := M.CastAll(complete, info.categoricalColumns).value;
    var h := M.Rename(c, info.columnRenameMapping);
    forall col, i | col in h.columns && 0 <= i < h.height
      ensures CellOf(col, i) != Missing
    {
      var j :| 0 <= j < |h.columns| && h.columns[j] == col;
      assert col.cells == complete.columns[j].cells;
    }
  }

  /** A cleaned sheet has no missing index and no missing cell: dropna ran before the index was set. */
  lemma CleanSheetComplete(data: Frame, info: DataInfo)
    requires CleanSheet(data, info).Ok?
    ensures var g := CleanSheet(data, info).value;
      forall i :: 0 <= i < |g.rows| ==>
        g.rows[i].index != Missing && forall n :: n in g.columns ==> Field(g.rows[i], n) != Missing
  {
    var d := M.Drop(data, info.columnsToDrop).value;
    CastRenameComplete(d, info);
    var h := M.Rename(M.CastAll(DropNa(d), info.categoricalColumns).value, info.columnRenameMapping);
    assert CleanSheet(data, info) == SetIndex(h, "industry_code");
    SetIndexColumns(h, "industry_code");
    var g := SetIndex(h, "industry_code").value;
    forall i | 0 <= i < |g.rows|
      ensures g.rows[i].index != Missing && forall n :: n in g.columns ==> Field(g.rows[i], n) != Missing
    {
      assert ColumnNamed(h.columns, "industry_code").value in h.columns;
      forall n | n in g.columns ensures Field(g.rows[i], n) != Missing {
        assert ColumnNamed(h.columns, n).Some?;
        assert ColumnNamed(h.columns, n).value in h.columns;
      }
    }
  }

  // ---------------------------------------------------------------- the reshape

  /** All sheets cleaned in list order; the first sheet that fails decides the error. */
  function CleanSheets(raw: seq<Frame>, info: DataInfo): (r: Result<seq<IndexedFrame>>)
    ensures r.Ok? ==> |r.value| == |raw|
  {
    if raw == [] then Ok([])
    else
      var n := |raw| - 1;
      match CleanSheets(raw[..n], info)
      case Err(e) => Err(e)
      case Ok(ds) =>
        match CleanSheet(raw[n], info)
        case Err(e) => Err(e)
        case Ok(d) => Ok(ds + [d])
  }

  /** Once a prefix of the sheets fails, the whole list fails with the same error. */
  lemma {:induction false} CleanSheetsPrefixError(raw: seq<Frame>, info: DataInfo, i: nat)
    requires i <= |raw| && CleanSheets(raw[..i], info).Err?
    ensures CleanSheets(raw, info) == CleanSheets(raw[..i], info)
    decreases |raw| - i
  {
    if i < |raw| {
      assert raw[..i + 1][..i] == raw[..i];
      CleanSheetsPrefixError(raw, info, i + 1);
    } else {
      assert raw[..i] == raw;
    }
  }

  /** The panel the older `clean_and_reshape_eu_klems` returns: the years are fixed to 1995..2019
      and every value is rounded to three decimals. */
  function ReshapePanel(raw: seq<Frame>, info: DataInfo): (r: Result<Table<PanelKey>>)
    ensures raw == [] ==> r == Err(NoObjectsToConcatenate)
  {
    match CleanSheets(raw, info)
    case Err(e) => Err(e)
    case Ok(sheets) =>
      match Concat(sheets, InvestmentColumn)
      case Err(e) => Err(e)
      case Ok(data) =>
        match Melt(data, E.EuKlemsYears, InvestmentColumn)
        case Err(e) => Err(e)
        case Ok(long) =>
          match RenameCategories(long, info.variableNameMapping)
          case Err(e) => Err(e)
          case Ok(named) => Ok(RoundTable(PivotMean(named)))
  }

  /** `clean_and_reshape_eu_klems` of the older pipeline: the sheets are cleaned in a loop that
      appends them to a list, then concatenated, melted, renamed, pivoted and rounded. */
  method CleanAndReshapeEuKlems(raw: seq<Frame>, info: DataInfo) returns (r: Result<Table<PanelKey>>)
    ensures r == ReshapePanel(raw, info)
  {
    var data: seq<IndexedFrame> := [];
    for i := 0 to |raw|
      invariant CleanSheets(raw[..i], info) == Ok(data)
    {
      assert raw[..i + 1][..i] == raw[..i] && raw[..i + 1][i] == raw[i];
      var cleaned := CleanData(raw[i], info);
      if cleaned.Err? {
        CleanSheetsPrefixError(raw, info, i + 1);
        return Err(cleaned.error);
      }
      data := data + [cleaned.value];
    }
    assert raw[..|raw|] == raw;
    var merged := Concat(data, InvestmentColumn);
    if merged.Err? {
      return Err(merged.error);
    }
    var long := Melt(merged.value, E.EuKlemsYears, InvestmentColumn);
    if long.Err? {
      return Err(long.error);
    }
    var named := RenameCategories(long.value, info.variableNameMapping);
    if named.Err? {
      return Err(named.error);
    }
    return Ok(RoundTable(PivotMean(named.value)));
  }

  /** Every value of the older panel is already rounded to three decimals. */
  lemma PanelRounded(raw: seq<Frame>, info: DataInfo, k: PanelKey, v: string)
    requires ReshapePanel(raw, info).Ok?
    requires k in ReshapePanel(raw, info).value.rows && v in ReshapePanel(raw, info).value.rows[k]
    ensures Round3(ReshapePanel(raw, info).value.rows[k][v]) == ReshapePanel(raw, info).value.rows[k][v]
  {
    var sheets := CleanSheets(raw, info).value;
    var data := Concat(sheets, InvestmentColumn).value;
    var long := Melt(data, E.EuKlemsYears, InvestmentColumn).value;
    var named := RenameCategories(long, info.variableNameMapping).value;
    Round3Idempotent(PivotMean(named).rows[k][v]);
  }

  /** Every key of the older panel carries a year from 1995..2019. */
  lemma PanelYearsFixed(raw: seq<Frame>, info: DataInfo, k: PanelKey)
    requires ReshapePanel(raw, info).Ok? && k in ReshapePanel(raw, info).value.rows
    ensures k.1 in E.EuKlemsYears && 1995 <= k.1 <= 2019
  {
    var sheets := CleanSheets(raw, info).value;
    var data := Concat(sheets, InvestmentColumn).value;
    var long := Melt(data, E.EuKlemsYears, InvestmentColumn).value;
    var named := RenameCategories(long, info.variableNameMapping).value;
    PivotCell(named, k, "");
    var i :| 0 <= i < |named| && Valued(named[i]) && Key(named[i]) == k;
    assert named[i].year == long[i].year;
    MeltYearsFromRange(data, E.EuKlemsYears, InvestmentColumn, long[i]);
    E.EuKlemsYearsBounds();
  }
}
