/** Cleaning and reshaping of the EU KLEMS sheets (data_management/clean_eu_klems_data.py):
    the argument checks of the readers, and the chain clean → set_index → concat → melt →
    rename the variable labels → pivot into a panel keyed by (industry_code, year, country_code). */
module CleanEuKlems {
  import opened Wrappers
  import opened Frames
  import opened Text
  import opened Rounding
  import opened Reshape
  import M = DataManagementUtilities

  /** The label column of the sheets. */
  const VariableColumn: string := "variable_name"

  /** The sheet groups `read_data` and `read_growth_accounts` need. */
  const AccountSheetGroups: seq<string> := ["intangible_analytical_detailed", "national_accounts"]
  const GrowthSheetGroups: seq<string> := ["growth_accounts"]

  /** The years the reshape melts as the code stands: `range(1995, 2020)`. */
  const EuKlemsYears: seq<int> :=
    [1995, 1996, 1997, 1998, 1999, 2000, 2001, 2002, 2003, 2004, 2005, 2006, 2007,
     2008, 2009, 2010, 2011, 2012, 2013, 2014, 2015, 2016, 2017, 2018, 2019]

  /** The fixed years are the 25 years from 1995 to 2019. */
  lemma EuKlemsYearsBounds()
    ensures |EuKlemsYears| == 25
    ensures forall y :: y in EuKlemsYears <==> 1995 <= y <= 2019
  {
    forall y | 1995 <= y <= 2019 ensures y in EuKlemsYears {
      assert EuKlemsYears[y - 1995] == y;
    }
  }

  // ---------------------------------------------------------------- argument checks

  /** `_raise_data_info_invalid`: anything but a dictionary raises TypeError. */
  function RaiseDataInfoInvalid(info: Arg<DataInfo>): (r: Outcome)
    ensures r.Pass? <==> info.Given?
    ensures r.Fail? ==> r.error == DataInfoNotDict && r.error.PythonClass() == TypeError
  {
    if info.Given? then Pass else Fail(DataInfoNotDict)
  }

  /** `_raise_keys_not_valid`: KeyError when "sheets_to_read" is missing, or when it lacks one of
      the required sheet groups. */
  function RaiseKeysNotValid(info: DataInfo, sheetNames: seq<string>): (r: Outcome)
    ensures info.sheetsToRead.None? ==> r == Fail(MissingSheetsToRead)
    ensures info.sheetsToRead.Some? ==>
      (r.Pass? <==> forall n :: n in sheetNames ==> n in info.sheetsToRead.value)
    ensures info.sheetsToRead.Some? && r.Fail? ==> r.error == MissingSheetGroup(sheetNames)
    ensures r.Fail? ==> r.error.PythonClass() == KeyError
  {
    match info.sheetsToRead
    case None => Fail(MissingSheetsToRead)
    case Some(sheets) =>
      if forall n :: n in sheetNames ==> n in sheets then Pass else Fail(MissingSheetGroup(sheetNames))
  }

  /** `_raise_path_invalid`: anything but a path raises TypeError naming the argument. */
  function RaisePathInvalid(path: Arg<Path>, name: string): (r: Outcome)
    ensures r.Pass? <==> path.Given?
    ensures r.Fail? ==> r.error == NotAPath(name) && r.error.PythonClass() == TypeError
  {
    if path.Given? then Pass else Fail(NotAPath(name))
  }

  /** The checks `read_data` runs before reading any sheet, in their order: data_info is a
      dictionary, it names both sheet groups, then the capital path, then the national path. */
  function ReadDataChecks(info: Arg<DataInfo>, capitalPath: Arg<Path>, nationalPath: Arg<Path>): (r: Outcome)
    ensures !info.Given? ==> r == Fail(DataInfoNotDict)
    ensures info.Given? && RaiseKeysNotValid(info.value, AccountSheetGroups).Fail? ==>
      r == RaiseKeysNotValid(info.value, AccountSheetGroups)
    ensures info.Given? && RaiseKeysNotValid(info.value, AccountSheetGroups).Pass? && !capitalPath.Given? ==>
      r == Fail(NotAPath("path_to_capital_accounts"))
    ensures r.Pass? <==>
      && info.Given? && info.value.sheetsToRead.Some?
      && AccountSheetGroups[0] in info.value.sheetsToRead.value
      && AccountSheetGroups[1] in info.value.sheetsToRead.value
      && capitalPath.Given? && nationalPath.Given?
    ensures r.Fail? && capitalPath.Given? && !nationalPath.Given? ==>
      r.error in {DataInfoNotDict, MissingSheetsToRead, MissingSheetGroup(AccountSheetGroups), NotAPath("path_to_national_accounts")}
  {
    if RaiseDataInfoInvalid(info).Fail? then RaiseDataInfoInvalid(info)
    else if RaiseKeysNotValid(info.value, AccountSheetGroups).Fail? then RaiseKeysNotValid(info.value, AccountSheetGroups)
    else if RaisePathInvalid(capitalPath, "path_to_capital_accounts").Fail? then RaisePathInvalid(capitalPath, "path_to_capital_accounts")
    else RaisePathInvalid(nationalPath, "path_to_national_accounts")
  }

  /** The checks `read_growth_accounts` runs before reading any sheet. */
  function ReadGrowthAccountsChecks(info: Arg<DataInfo>, path: Arg<Path>): (r: Outcome)
    ensures !info.Given? ==> r == Fail(DataInfoNotDict)
    ensures r.Pass? <==>
      info.Given? && info.value.sheetsToRead.Some? && "growth_accounts" in info.value.sheetsToRead.value && path.Given?
    ensures info.Given? && info.value.sheetsToRead.Some? && "growth_accounts" in info.value.sheetsToRead.value ==>
      (r.Fail? <==> r == Fail(NotAPath("path_to_growth_accounts")))
  {
    if RaiseDataInfoInvalid(info).Fail? then RaiseDataInfoInvalid(info)
    else if RaiseKeysNotValid(info.value, GrowthSheetGroups).Fail? then RaiseKeysNotValid(info.value, GrowthSheetGroups)
    else RaisePathInvalid(path, "path_to_growth_accounts")
  }

  /** An empty "sheets_to_read" dictionary is refused with KeyError whatever the paths are. */
  lemma EmptySheetsToReadRefused(info: DataInfo, capitalPath: Arg<Path>, nationalPath: Arg<Path>, growthPath: Arg<Path>)
    requires info.sheetsToRead == Some(map[])
    ensures ReadDataChecks(Given(info), capitalPath, nationalPath) == Fail(MissingSheetGroup(AccountSheetGroups))
    ensures ReadGrowthAccountsChecks(Given(info), growthPath) == Fail(MissingSheetGroup(GrowthSheetGroups))
  {
    assert AccountSheetGroups[0] !in info.sheetsToRead.value;
    assert GrowthSheetGroups[0] !in info.sheetsToRead.value;
  }

  // ---------------------------------------------------------------- the reshape

  /** One sheet after `clean_data` and `set_index(["industry_code"])`. */
  function CleanSheet(df: Frame, info: DataInfo): Result<IndexedFrame> {
    match M.Clean(df, info)
    case Err(e) => Err(e)
    case Ok(c) => SetIndex(c, "industry_code")
  }

  /** All sheets cleaned in list order; the first sheet that fails decides the error. */
  function CleanSheets(raw: seq<Frame>, info: DataInfo): (r: Result<seq<IndexedFrame>>)
    ensures r.Ok? ==> |r.value| == |raw|
  {
    if raw == [] then Ok([])
    else
      var n := |raw| - 1;
      assert forall i :: 0 <= i < n ==> raw[..n][i] == raw[i];
      match CleanSheets(raw[..n], info)
      case Err(e) => Err(e)
      case Ok(ds) =>
        match CleanSheet(raw[n], info)
        case Err(e) => Err(e)
        case Ok(d) => Ok(ds + [d])
  }

  /** Once a prefix of the sheets fails, the whole list fails with the same error. */
  lemma {:induction false} CleanSheetsPrefixError(raw: seq<Frame>, info: DataInfo, i: nat)
    requires i <= |raw| && CleanSheets(raw[..i], info).Err?
    ensures CleanSheets(raw, info) == CleanSheets(raw[..i], info)
    decreases |raw| - i
  {
    if i < |raw| {
      assert raw[..i + 1][..i] == raw[..i];
      CleanSheetsPrefixError(raw, info, i + 1);
    } else {
      assert raw[..i] == raw;
    }
  }

  /** One more sheet: the prefix up to `i + 1` is the prefix up to `i` and the cleaned sheet `i`. */
  lemma CleanSheetsStep(raw: seq<Frame>, info: DataInfo, i: nat)
    requires i < |raw| && CleanSheets(raw[..i], info).Ok?
    ensures CleanSheets(raw[..i + 1], info) ==
      match CleanSheet(raw[i], info)
      case Err(e) => Err(e)
      case Ok(d) => Ok(CleanSheets(raw[..i], info).value + [d])
  {
    assert raw[..i + 1][..i] == raw[..i] && raw[..i + 1][i] == raw[i];
  }

  /** The panel `clean_and_reshape_eu_klems` returns for sheets `raw` and the year columns `years`. */
  function ReshapePanel(raw: seq<Frame>, info: DataInfo, years: seq<int>): (r: Result<Table<PanelKey>>)
    ensures raw == [] ==> r == Err(NoObjectsToConcatenate)
  {
    match CleanSheets(raw, info)
    case Err(e) => Err(e)
    case Ok(sheets) =>
      match Concat(sheets, VariableColumn)
      case Err(e) => Err(e)
      case Ok(data) =>
        match Melt(data, years, VariableColumn)
        case Err(e) => Err(e)
        case Ok(long) =>
          match RenameCategories(long, info.variableNameMapping)
          case Err(e) => Err(e)
          case Ok(named) => Ok(PivotMean(named))
  }

  /** The loop of `clean_and_reshape_eu_klems`: each sheet is cleaned and indexed in turn and
      appended to a list; the first failure is returned. */
  method CleanAllSheets(raw: seq<Frame>, info: DataInfo) returns (r: Result<seq<IndexedFrame>>)
    ensures r == CleanSheets(raw, info)
  {
    var data: seq<IndexedFrame> := [];
    for i := 0 to |raw|
      invariant CleanSheets(raw[..i], info) == Ok(data)
    {
      CleanSheetsStep(raw, info, i);
      var cleaned := M.CleanData(raw[i], info);
      if cleaned.Err? {
        CleanSheetsPrefixError(raw, info, i + 1);
        return Err(cleaned.error);
      }
      var indexed := SetIndex(cleaned.value, "industry_code");
      if indexed.Err? {
        CleanSheetsPrefixError(raw, info, i + 1);
        return Err(indexed.error);
      }
      data := data + [indexed.value];
    }
    assert raw[..|raw|] == raw;
    return Ok(data);
  }

  /** `clean_and_reshape_eu_klems`: each sheet is cleaned and indexed in a loop that appends it to
      a list; the list is concatenated, melted over `years`, its labels renamed and the result
      pivoted. The pivot's values are returned as they are: the `round(3)` the function computes
      is discarded. */
  method CleanAndReshapeEuKlems(raw: seq<Frame>, info: DataInfo, years: seq<int>) returns (r: Result<Table<PanelKey>>)
    ensures r == ReshapePanel(raw, info, years)
  {
    var cleaned := CleanAllSheets(raw, info);
    if cleaned.Err? {
      return Err(cleaned.error);
    }
    var data := cleaned.value;
    var df := Concat(data, VariableColumn);
    if df.Err? {
      return Err(df.error);
    }
    var long := Melt(df.value, years, VariableColumn);
    if long.Err? {
      return Err(long.error);
    }
    var named := RenameCategories(long.value, info.variableNameMapping);
    if named.Err? {
      return Err(named.error);
    }
    return Ok(PivotMean(named.value));
  }

  /** Every key of the panel carries one of the requested years. */
  lemma PanelYearsInRange(raw: seq<Frame>, info: DataInfo, years: seq<int>, k: PanelKey)
    requires ReshapePanel(raw, info, years).Ok? && k in ReshapePanel(raw, info, years).value.rows
    ensures k.1 in years
  {
    var sheets := CleanSheets(raw, info).value;
    var data := Concat(sheets, VariableColumn).value;
    var long := Melt(data, years, VariableColumn).value;
    var named := RenameCategories(long, info.variableNameMapping).value;
    PivotCell(named, k, "");
    var i :| 0 <= i < |named| && Valued(named[i]) && Key(named[i]) == k;
    assert named[i].year == long[i].year;
    MeltYearsFromRange(data, years, VariableColumn, long[i]);
  }

  /** The panel's values are not rounded: a single value of 0.0001 reaches the panel unchanged,
      although rounding to three decimals would have made it 0. */
  lemma PanelNotRounded(row: LongRow)
    requires Valued(row) && row.value == Num(0.0001)
    ensures Key(row) in PivotMean([row]).rows && row.variable.text in PivotMean([row]).rows[Key(row)]
    ensures PivotMean([row]).rows[Key(row)][row.variable.text] == 0.0001
    ensures Round3(0.0001) == 0.0
  {
    PivotSingleRow([row], 0);
    assert RoundHalfEven(0.1) == 0;
  }

  /** The reshape as the code stands: the years are fixed to 1995..2019, so every row of a panel it
      returns lies in those years. */
  function ReshapePanelAsWritten(raw: seq<Frame>, info: DataInfo): (r: Result<Table<PanelKey>>)
    ensures r == ReshapePanel(raw, info, EuKlemsYears)
    ensures raw == [] ==> r == Err(NoObjectsToConcatenate)
    ensures r.Ok? ==> forall k :: k in r.value.rows ==> 1995 <= k.1 <= 2019
  {
    var r := ReshapePanel(raw, info, EuKlemsYears);
    assert r.Ok? ==> forall k :: k in r.value.rows ==> 1995 <= k.1 <= 2019 by {
      if r.Ok? {
        forall k | k in r.value.rows ensures 1995 <= k.1 <= 2019 {
          PanelYearsInRange(raw, info, EuKlemsYears, k);
          EuKlemsYearsBounds();
        }
      }
    }
    r
  }

  /** `str(year)` for the years the argument below needs. */
  lemma MockYearLabels()
    ensures IntToDecimal(1995) == "1995" && IntToDecimal(1996) == "1996" && IntToDecimal(1997) == "1997"
  {
    FourDigitLabel(1995);
    FourDigitLabel(1996);
    FourDigitLabel(1997);
  }

  lemma LastYearLabel()
    ensures EuKlemsYears[24] == 2019 && IntToDecimal(2019) == "2019"
  {
    FourDigitLabel(2019);
  }

  /** Sheets that clean and concatenate fail at the melt exactly as the melt fails. */
  lemma ReshapeMeltError(raw: seq<Frame>, info: DataInfo, years: seq<int>)
    requires CleanSheets(raw, info).Ok? && Concat(CleanSheets(raw, info).value, VariableColumn).Ok?
    requires Melt(Concat(CleanSheets(raw, info).value, VariableColumn).value, years, VariableColumn).Err?
    ensures ReshapePanel(raw, info, years) ==
      Err(Melt(Concat(CleanSheets(raw, info).value, VariableColumn).value, years, VariableColumn).error)
  {
  }

  /** Sheets whose year columns stop before 2019, such as the fixtures of the tests (1995..1997),
      are rejected by the code as written with KeyError at the melt, while melting the sheets'
      own years succeeds. */
  lemma AsWrittenRejectsShortYearRange(raw: seq<Frame>, info: DataInfo)
    requires CleanSheets(raw, info).Ok? && Concat(CleanSheets(raw, info).value, VariableColumn).Ok?
    requires var cols := Concat(CleanSheets(raw, info).value, VariableColumn).value.columns;
      VariableColumn in cols && "country_code" in cols && "1995" in cols && "1996" in cols && "1997" in cols
      && "2019" !in cols
    ensures ReshapePanelAsWritten(raw, info).Err?
    ensures ReshapePanelAsWritten(raw, info).error.MissingKeys?
    ensures Melt(Concat(CleanSheets(raw, info).value, VariableColumn).value, [1995, 1996, 1997], VariableColumn).Ok?
  {
    var data := Concat(CleanSheets(raw, info).value, VariableColumn).value;
    MeltRejectsMissingLastYear(data);
    MeltMockYears(data);
    ReshapeMeltError(raw, info, EuKlemsYears);
  }

  /** A frame without the column "2019" cannot be melted over 1995..2019. */
  lemma MeltRejectsMissingLastYear(data: IndexedFrame)
    requires "2019" !in data.columns
    ensures Melt(data, EuKlemsYears, VariableColumn).Err?
    ensures Melt(data, EuKlemsYears, VariableColumn).error.MissingKeys?
  {
    LastYearLabel();
    assert EuKlemsYears[24] in EuKlemsYears;
  }

  /** A frame with the id columns and the columns 1995..1997 melts over those years. */
  lemma MeltMockYears(data: IndexedFrame)
    requires VariableColumn in data.columns && "country_code" in data.columns
    requires "1995" in data.columns && "1996" in data.columns && "1997" in data.columns
    ensures Melt(data, [1995, 1996, 1997], VariableColumn).Ok?
  {
    MockYearLabels();
  }
}
