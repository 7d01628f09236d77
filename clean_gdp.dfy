/** The World Bank GDP-per-capita pipeline (data_management/clean_gdp_data.py): the argument
    checks of `read_data`, and `clean_gdp_per_capita`, which cleans the sheet, strips the
    " [YRxxxx]" suffix from the year labels, melts the years into rows, maps the 3-letter
    country codes to 2-letter codes and keys the result by (country_code, year). */
module CleanGdp {
  import opened Wrappers
  import opened Frames
  import opened Text
  import opened Config
  import opened Reshape
  import U = Utilities
  import M = DataManagementUtilities

  /** The text of the error for a path argument that is not a `pathlib.Path`. */
  const PathTypeName: string := "<class 'pathlib.Path'>"

  /** The label of the country-code column. */
  const CountryCodeColumn: string := "country_code"

  // ---------------------------------------------------------------- read_data

  /** The checks `read_data` makes before reading: a None path, then a None data_info, then a
      data_info that is not a dictionary, then a path that is not a `Path`. */
  function ReadDataChecks(path: Arg<Path>, info: Arg<DataInfo>): (r: Outcome)
    ensures r == Pass <==> path.Given? && info.Given?
    ensures path.NoneArg? ==> r == Fail(ArgumentIsNone("path"))
    ensures !path.NoneArg? && info.NoneArg? ==> r == Fail(ArgumentIsNone("data_info"))
    ensures !path.NoneArg? && info.OtherType? ==> r == Fail(DataInfoNotDict) && r.error.PythonClass() == TypeError
    ensures path.OtherType? && info.Given? ==>
      r == Fail(WrongType("path", PathTypeName)) && r.error.PythonClass() == ValueError
  {
    if path.NoneArg? then Fail(ArgumentIsNone("path"))
    else if info.NoneArg? then Fail(ArgumentIsNone("data_info"))
    else if info.OtherType? then Fail(DataInfoNotDict)
    else if path.OtherType? then Fail(WrongType("path", PathTypeName))
    else Pass
  }

  // ---------------------------------------------------------------- _rename_year_columns

  /** `_rename_year_columns`: every column label becomes its text before the first space. */
  function RenameYearColumns(f: Frame): (r: Frame)
    ensures r.height == f.height && |r.columns| == |f.columns|
    ensures forall j :: 0 <= j < |f.columns| ==>
      && r.columns[j].name <= f.columns[j].name
      && ' ' !in r.columns[j].name
      && (' ' !in f.columns[j].name ==> r.columns[j].name == f.columns[j].name)
      && r.columns[j].categorical == f.columns[j].categorical
      && r.columns[j].cells == f.columns[j].cells
  {
    Frame(seq(|f.columns|, j requires 0 <= j < |f.columns| =>
            Column(FirstWord(f.columns[j].name), f.columns[j].categorical, f.columns[j].cells)),
          f.height)
  }

  /** Renaming the year labels twice gives what renaming once gives. */
  lemma RenameYearColumnsIdempotent(f: Frame)
    ensures RenameYearColumns(RenameYearColumns(f)) == RenameYearColumns(f)
  {
    var g := RenameYearColumns(f);
    forall j | 0 <= j < |g.columns|
      ensures RenameYearColumns(g).columns[j] == g.columns[j]
    {
      FirstWordIdempotent(f.columns[j].name);
    }
  }

  /** The World Bank's label "2000 [YR2000]" becomes "2000". */
  lemma WorldBankYearLabel()
    ensures FirstWord("2000 [YR2000]") == "2000"
  {
    assert "2000 [YR2000]" == "2000" + " " + "[YR2000]";
    FirstWordBeforeSpace("2000", "[YR2000]");
  }

  // ---------------------------------------------------------------- _make_year_separate_column

  /** One row of the GDP panel: its key (country_code, year) and its value. */
  datatype GdpRow = GdpRow(countryCode: Cell, year: int, gdpPerCapita: Cell)

  /** `astype(Int16)` of the year labels, in column order: the first label that is not an
      integer raises. */
  function ParseYears(cols: seq<Column>): (r: Result<seq<int>>)
    ensures r.Ok? <==> forall j :: 0 <= j < |cols| ==> ParseInt(cols[j].name).Some?
    ensures r.Ok? ==> |r.value| == |cols| && forall j :: 0 <= j < |cols| ==> ParseInt(cols[j].name) == Some(r.value[j])
    ensures r.Err? ==> exists j :: 0 <= j < |cols| && ParseInt(cols[j].name).None? && r.error == YearNotInteger(cols[j].name)
  {
    if cols == [] then Ok([])
    else match ParseInt(cols[0].name)
      case None => Err(YearNotInteger(cols[0].name))
      case Some(y) =>
        match ParseYears(cols[1..])
        case Err(e) =>
          assert exists j :: 0 <= j < |cols| && ParseInt(cols[j].name).None? && e == YearNotInteger(cols[j].name) by {
            var j :| 0 <= j < |cols| - 1 && ParseInt(cols[1..][j].name).None? && e == YearNotInteger(cols[1..][j].name);
            assert cols[1..][j] == cols[j + 1];
          }
          Err(e)
        case Ok(ys) =>
          var years := [y] + ys;
          assert forall j :: 0 <= j < |cols| ==> ParseInt(cols[j].name) == Some(years[j]) by {
            forall j | 0 <= j < |cols| ensures ParseInt(cols[j].name) == Some(years[j]) {
              if j > 0 {
                assert cols[j] == cols[1..][j - 1] && years[j] == ys[j - 1];
              }
            }
          }
          Ok(years)
  }

  /** The melted rows of one value column: one per row of the frame, in row order. */
  function YearRows(codes: Column, col: Column, year: int, height: nat): (r: seq<GdpRow>)
    ensures |r| == height && forall i :: 0 <= i < height ==> r[i] == GdpRow(CellOf(codes, i), year, CellOf(col, i))
  {
    seq(height, i requires 0 <= i < height => GdpRow(CellOf(codes, i), year, CellOf(col, i)))
  }

  /** `DataFrame.melt`: the value columns one after the other, each contributing all rows. */
  function GdpRows(codes: Column, cols: seq<Column>, years: seq<int>, height: nat): seq<GdpRow>
    requires |years| == |cols|
  {
    if cols == [] then [] else YearRows(codes, cols[0], years[0], height) + GdpRows(codes, cols[1..], years[1..], height)
  }

  /** `_make_year_separate_column`: melt every column except country_code into
      (country_code, year, gdp_per_capita) rows and cast the year to an integer. A frame without
      a country_code column raises KeyError. */
  function MakeYearSeparateColumn(f: Frame): (r: Result<seq<GdpRow>>)
    ensures CountryCodeColumn !in Names(f.columns) ==> r == Err(MissingKeys([CountryCodeColumn]))
    ensures r.Err? ==> r.error == MissingKeys([CountryCodeColumn]) || r.error.YearNotInteger?
  {
    match ColumnNamed(f.columns, CountryCodeColumn)
    case None => Err(MissingKeys([CountryCodeColumn]))
    case Some(codes) =>
      var values := ColumnsWithout(f.columns, CountryCodeColumn);
      match ParseYears(values)
      case Err(e) => Err(e)
      case Ok(years) => Ok(GdpRows(codes, values, years, f.height))
  }

  /** There are rows × (columns − country_code) melted rows. */
  lemma {:induction false} GdpRowsLength(codes: Column, cols: seq<Column>, years: seq<int>, height: nat)
    requires |years| == |cols|
    ensures |GdpRows(codes, cols, years, height)| == |cols| * height
  {
    if cols != [] {
      GdpRowsLength(codes, cols[1..], years[1..], height);
      MultiplyStep(|cols|, height);
    }
  }

  /** The melted row at position `j * height + i` holds row `i`'s code, the year of value column
      `j` and row `i`'s cell in that column. */
  lemma {:induction false} GdpRowsAt(codes: Column, cols: seq<Column>, years: seq<int>, height: nat, j: nat, i: nat)
    requires |years| == |cols| && j < |cols| && i < height
    ensures j * height + i < |GdpRows(codes, cols, years, height)|
    ensures GdpRows(codes, cols, years, height)[j * height + i] == GdpRow(CellOf(codes, i), years[j], CellOf(cols[j], i))
  {
    var head := YearRows(codes, cols[0], years[0], height);
    var tail := GdpRows(codes, cols[1..], years[1..], height);
    assert GdpRows(codes, cols, years, height) == head + tail;
    if j == 0 {
      assert (head + tail)[i] == head[i];
    } else {
      GdpRowsAt(codes, cols[1..], years[1..], height, j - 1, i);
      MultiplyStep(j, height);
      assert (head + tail)[height + (j - 1) * height + i] == tail[(j - 1) * height + i];
    }
  }

  /** A successful melt is the value columns' rows one after the other, each value column's label
      parsed as its year; `GdpRowsLength` and `GdpRowsAt` then say where each row sits. */
  lemma MakeYearSeparateColumnRows(f: Frame)
    requires MakeYearSeparateColumn(f).Ok?
    ensures CountryCodeColumn in Names(f.columns)
    ensures var values := ColumnsWithout(f.columns, CountryCodeColumn);
      && ParseYears(values).Ok?
      && MakeYearSeparateColumn(f).value ==
         GdpRows(ColumnNamed(f.columns, CountryCodeColumn).value, values, ParseYears(values).value, f.height)
  {
    var values := ColumnsWithout(f.columns, CountryCodeColumn);
    var codes := ColumnNamed(f.columns, CountryCodeColumn).value;
    assert ColumnNamed(f.columns, CountryCodeColumn) == Some(codes);
  }


  /** A column label that is not an integer makes the melt raise. */
  lemma NonIntegerYearRejected(f: Frame, c: Column)
    requires CountryCodeColumn in Names(f.columns)
    requires c in f.columns && c.name != CountryCodeColumn && ParseInt(c.name).None?
    ensures MakeYearSeparateColumn(f).Err? && MakeYearSeparateColumn(f).error.YearNotInteger?
  {
    var values := ColumnsWithout(f.columns, CountryCodeColumn);
    assert c in values;
    var j :| 0 <= j < |values| && values[j] == c;
    assert ParseInt(values[j].name).None?;
    assert ParseYears(values).Err?;
    assert ColumnNamed(f.columns, CountryCodeColumn).Some?;
    assert MakeYearSeparateColumn(f) == Err(ParseYears(values).error);
  }

  // ---------------------------------------------------------------- _rename_country_code

  /** `_rename_country_code`: `Series.map(ALL_COUNTRY_CODES_MAP)` on every row. */
  function RenameCountryCode(rows: seq<GdpRow>, codeMap: map<string, string>): (r: seq<GdpRow>)
    ensures |r| == |rows|
    ensures forall i :: 0 <= i < |rows| ==>
      && r[i].year == rows[i].year && r[i].gdpPerCapita == rows[i].gdpPerCapita
      && (rows[i].countryCode.Text? && rows[i].countryCode.text in codeMap ==>
            r[i].countryCode == Text(codeMap[rows[i].countryCode.text]))
      && (!(rows[i].countryCode.Text? && rows[i].countryCode.text in codeMap) ==> r[i].countryCode == Missing)
  {
    seq(|rows|, i requires 0 <= i < |rows| =>
      GdpRow(U.LookUp(codeMap, rows[i].countryCode), rows[i].year, rows[i].gdpPerCapita))
  }

  // ---------------------------------------------------------------- clean_gdp_per_capita

  /** What `clean_gdp_per_capita` returns for a frame and a dictionary: clean, rename the year
      labels, melt, map the country codes. The rows are keyed by (countryCode, year). */
  function GdpPerCapita(raw: Frame, info: DataInfo, s: Settings): (r: Result<seq<GdpRow>>)
    ensures r.Err? ==> r.error.MissingKeys? || r.error.YearNotInteger?
  {
    match M.Clean(raw, info)
    case Err(e) =>
      M.CleanResult(raw, info);
      Err(e)
    case Ok(df) =>
      match MakeYearSeparateColumn(RenameYearColumns(df))
      case Err(e) => Err(e)
      case Ok(rows) => Ok(RenameCountryCode(rows, s.allCountryCodesMap))
  }

  /** `clean_gdp_per_capita`: the checks on a None raw, a None data_info and a data_info that is
      not a dictionary come before any cleaning; a raw that is not a frame fails in `clean_data`;
      then the steps run one after the other on the working frame. */
  method CleanGdpPerCapita(raw: Arg<Frame>, info: Arg<DataInfo>, s: Settings) returns (r: Result<seq<GdpRow>>)
    ensures raw.NoneArg? ==> r == Err(ArgumentIsNone("raw"))
    ensures !raw.NoneArg? && info.NoneArg? ==> r == Err(ArgumentIsNone("data_info"))
    ensures !raw.NoneArg? && info.OtherType? ==> r == Err(DataInfoNotDict)
    ensures raw.OtherType? && info.Given? ==> r == Err(NotAFrame("raw"))
    ensures raw.Given? && info.Given? ==> r == GdpPerCapita(raw.value, info.value, s)
  {
    if raw.NoneArg? {
      return Err(ArgumentIsNone("raw"));
    }
    if info.NoneArg? {
      return Err(ArgumentIsNone("data_info"));
    }
    if info.OtherType? {
      return Err(DataInfoNotDict);
    }
    if raw.OtherType? {
      return Err(NotAFrame("raw"));
    }
    var df := M.CleanData(raw.value, info.value);
    if df.Err? {
      return Err(df.error);
    }
    var renamed := RenameYearColumns(df.value);
    var melted := MakeYearSeparateColumn(renamed);
    if melted.Err? {
      return Err(melted.error);
    }
    var rows := melted.value;
    rows := RenameCountryCode(rows, s.allCountryCodesMap);
    return Ok(rows);
  }

  /** Every country code the melt reads from `f` is a text in the code map. */
  ghost predicate CodesMapped(f: Frame, codeMap: map<string, string>) {
    forall col, i :: col in f.columns && col.name == CountryCodeColumn && 0 <= i < f.height ==>
      CellOf(col, i).Text? && CellOf(col, i).text in codeMap
  }

  /** When every cell of the sheet holds a value and every country code is in the code map, the
      panel has no missing cell at all, as the pipeline's dropna check expects. */
  lemma GdpPerCapitaComplete(raw: Frame, info: DataInfo, s: Settings)
    requires M.Clean(raw, info).Ok? && GdpPerCapita(raw, info, s).Ok?
    requires forall col, i :: col in raw.columns && 0 <= i < raw.height ==> CellOf(col, i) != Missing
    requires CodesMapped(RenameYearColumns(M.Clean(raw, info).value), s.allCountryCodesMap)
    ensures forall r :: r in GdpPerCapita(raw, info, s).value ==>
      r.countryCode != Missing && r.gdpPerCapita != Missing
  {
    var df := M.Clean(raw, info).value;
    var g := RenameYearColumns(df);
    CleanedCellsPresent(raw, info);
    MakeYearSeparateColumnRows(g);
    var values := ColumnsWithout(g.columns, CountryCodeColumn);
    var codes := ColumnNamed(g.columns, CountryCodeColumn).value;
    var melted := MakeYearSeparateColumn(g).value;
    assert GdpPerCapita(raw, info, s).value == RenameCountryCode(melted, s.allCountryCodesMap);
    GdpRowsComplete(codes, values, ParseYears(values).value, g.height, s.allCountryCodesMap);
  }

  /** Cleaning and the year rename keep the cells: a sheet without missing cells gives a frame
      without missing cells. */
  lemma CleanedCellsPresent(raw: Frame, info: DataInfo)
    requires M.Clean(raw, info).Ok?
    requires forall col, i :: col in raw.columns && 0 <= i < raw.height ==> CellOf(col, i) != Missing
    ensures var g := RenameYearColumns(M.Clean(raw, info).value);
      g.height == raw.height && forall col, i :: col in g.columns && 0 <= i < g.height ==> CellOf(col, i) != Missing
  {
    var df := M.Clean(raw, info).value;
    CleanKeepsCells(raw, info);
    var g := RenameYearColumns(df);
    forall col, i | col in g.columns && 0 <= i < g.height ensures CellOf(col, i) != Missing {
      var k :| 0 <= k < |g.columns| && g.columns[k] == col;
      assert col.cells == df.columns[k].cells;
      var c :| c in raw.columns && df.columns[k].cells == c.cells;
      assert CellOf(c, i) != Missing;
    }
  }

  /** Every column of a cleaned frame carries the cells of a column of the sheet. */
  lemma CleanKeepsCells(raw: Frame, info: DataInfo)
    requires M.Clean(raw, info).Ok?
    ensures var df := M.Clean(raw, info).value;
      df.height == raw.height &&
      forall j :: 0 <= j < |df.columns| ==> exists c :: c in raw.columns && df.columns[j].cells == c.cells
  {
    M.CleanResult(raw, info);
    var kept := M.KeptColumns(raw.columns, info.columnsToDrop);
    var df := M.Clean(raw, info).value;
    forall j | 0 <= j < |df.columns| ensures exists c :: c in raw.columns && df.columns[j].cells == c.cells {
      assert kept[j] in raw.columns;
    }
  }

  /** Every melted row comes from one row and one value column. */
  lemma {:induction false} GdpRowsFrom(codes: Column, cols: seq<Column>, years: seq<int>, height: nat, r: GdpRow)
    requires |years| == |cols| && r in GdpRows(codes, cols, years, height)
    ensures exists j, i :: 0 <= j < |cols| && 0 <= i < height && r == GdpRow(CellOf(codes, i), years[j], CellOf(cols[j], i))
  {
    var head := YearRows(codes, cols[0], years[0], height);
    var tail := GdpRows(codes, cols[1..], years[1..], height);
    if r in head {
      var i :| 0 <= i < height && head[i] == r;
      assert r == GdpRow(CellOf(codes, i), years[0], CellOf(cols[0], i));
    } else {
      GdpRowsFrom(codes, cols[1..], years[1..], height, r);
      var j, i :| 0 <= j < |cols| - 1 && 0 <= i < height && r == GdpRow(CellOf(codes, i), years[1..][j], CellOf(cols[1..][j], i));
      assert r == GdpRow(CellOf(codes, i), years[j + 1], CellOf(cols[j + 1], i));
    }
  }

  /** With every code mapped and every value present, no mapped melted row has a missing cell. */
  lemma GdpRowsComplete(codes: Column, cols: seq<Column>, years: seq<int>, height: nat, codeMap: map<string, string>)
    requires |years| == |cols|
    requires forall i :: 0 <= i < height ==> CellOf(codes, i).Text? && CellOf(codes, i).text in codeMap
    requires forall c, i :: c in cols && 0 <= i < height ==> CellOf(c, i) != Missing
    ensures forall r :: r in RenameCountryCode(GdpRows(codes, cols, years, height), codeMap) ==>
      r.countryCode != Missing && r.gdpPerCapita != Missing
  {
    var rows := GdpRows(codes, cols, years, height);
    forall r | r in RenameCountryCode(rows, codeMap) ensures r.countryCode != Missing && r.gdpPerCapita != Missing {
      var p :| 0 <= p < |rows| && RenameCountryCode(rows, codeMap)[p] == r;
      GdpRowsFrom(codes, cols, years, height, rows[p]);
      var j, i :| 0 <= j < |cols| && 0 <= i < height && rows[p] == GdpRow(CellOf(codes, i), years[j], CellOf(cols[j], i));
      assert cols[j] in cols;
    }
  }
}
