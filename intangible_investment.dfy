/** The ratio and aggregation engine of analysis/intangible_investment.py: shares of GDP,
    the three intangible roll-ups of the capital accounts, the merged investment and GDP table,
    and the table of aggregate shares for 2006. */
module IntangibleInvestment {
  import opened Wrappers
  import opened Frames
  import opened Rounding
  import opened Config

  /** A pandas Series: its index, and the index labels that hold a number (the rest are NaN). */
  datatype Series<K> = Series(index: set<K>, values: map<K, real>)

  /** The year `get_intangible_investment_aggregate_types` reads. */
  const AggregateTypesYear: int := 2006

  const InvestmentLevel: string := "investment_level"
  const ShareIntangible: string := "share_intangible"
  const Gdp: string := "gdp"
  /** The first key of the merge on ["year", "country_code"]. */
  const MergeKey: string := "year"

  // ---------------------------------------------------------------- shares

  /** `_calculate_share_of_intangible_investment` on one cell: the investment in percent of GDP,
      rounded to three decimals. */
  function Share(investment: real, gdp: real): (r: real)
    requires gdp != 0.0
    ensures -0.0005 <= r - investment / gdp * 100.0 <= 0.0005
  {
    Round3(investment / gdp * 100.0)
  }

  /** A non-negative investment over a positive GDP has a non-negative share. */
  lemma ShareNonNegative(investment: real, gdp: real)
    requires investment >= 0.0 && gdp > 0.0
    ensures Share(investment, gdp) >= 0.0
  {
    assert investment / gdp >= 0.0;
    Round3NonNegative(investment / gdp * 100.0);
  }

  /** More investment over the same positive GDP never has a smaller share. */
  lemma ShareMonotone(a: real, b: real, gdp: real)
    requires a <= b && gdp > 0.0
    ensures Share(a, gdp) <= Share(b, gdp)
  {
    assert a / gdp <= b / gdp;
    Round3Monotone(a / gdp * 100.0, b / gdp * 100.0);
  }

  /** The share of two Series: pandas aligns them, so the index is the union of both indices, and
      a label holds a number only where both hold one. */
  function ShareSeries(investment: Series<string>, gdp: Series<string>): (r: Series<string>)
    ensures r.index == investment.index + gdp.index
    ensures forall k :: k in r.values <==>
      k in investment.values && k in gdp.values && gdp.values[k] != 0.0
    ensures forall k :: k in r.values ==>
      -0.0005 <= r.values[k] - investment.values[k] / gdp.values[k] * 100.0 <= 0.0005
  {
    Series(investment.index + gdp.index,
           map k | k in investment.values && k in gdp.values && gdp.values[k] != 0.0 ::
             Share(investment.values[k], gdp.values[k]))
  }

  // ---------------------------------------------------------------- aggregates

  /** The detail columns of an aggregate category; any other mode raises ValueError("Invalid mode"). */
  function AggregateColumns(mode: string): (r: Result<seq<string>>)
    ensures r.Ok? <==> mode in IntangibleAggregateCategories
    ensures r.Err? ==> r.error == InvalidMode && r.error.PythonClass() == ValueError
    ensures r.Ok? ==> |r.value| > 0 && forall c :: c in r.value ==> c in IntangibleDetailCategories
  {
    if mode == ComputerizedInformation then Ok(ComputerizedInformationColumns)
    else if mode == InnovativeProperty then Ok(InnovativePropertyColumns)
    else if mode == EconomicCompetencies then Ok(EconomicCompetenciesColumns)
    else Err(InvalidMode)
  }

  /** `df.loc[CAPITAL_ACCOUNT_INDUSTRY_CODE, year, :]`: the rows of one year's market-economy
      totals, by country code. */
  function MarketRows(df: Table<PanelKey>, year: int): (r: map<string, map<string, real>>)
    ensures forall c :: c in r <==> (CapitalAccountIndustryCode, year, c) in df.rows
    ensures forall c :: c in r ==> r[c] == df.rows[(CapitalAccountIndustryCode, year, c)]
  {
    var selected := set p | p in df.rows && p.0 == CapitalAccountIndustryCode && p.1 == year;
    var rows := map p | p in selected :: p.2 := df.rows[p];
    assert forall c :: c in rows ==> (CapitalAccountIndustryCode, year, c) in selected;
    rows
  }

  /** The industry codes the rows of `df` use. */
  function IndustryCodes(df: Table<PanelKey>): set<string> {
    set k | k in df.rows :: k.0
  }

  /** The years the rows of `df` use. */
  function Years(df: Table<PanelKey>): set<int> {
    set k | k in df.rows :: k.1
  }

  /** `df.loc[MARKT, year, :][columns].sum(axis=1)`: an industry code or a year that no row uses
      raises KeyError, the industry code first; so does a column that is not in the frame. Both
      labels in use but never in the same row select no rows, and the sums are an empty Series.
      Otherwise every country gets the sum of its cells in those columns, a missing cell counting
      as zero. */
  function AggregateOver(df: Table<PanelKey>, year: int, columns: seq<string>): (r: Result<Series<string>>)
    ensures r.Err? <==> CapitalAccountIndustryCode !in IndustryCodes(df) || year !in Years(df)
                        || exists c :: c in columns && c !in df.columns
    ensures CapitalAccountIndustryCode !in IndustryCodes(df) ==> r == Err(MissingIndustryCode(CapitalAccountIndustryCode))
    ensures CapitalAccountIndustryCode in IndustryCodes(df) && year !in Years(df) ==> r == Err(MissingYear(year))
    ensures r.Err? ==> r.error.PythonClass() == KeyError
    ensures r.Ok? ==>
      && r.value.index == MarketRows(df, year).Keys
      && r.value.values.Keys == r.value.index
      && forall c :: c in r.value.values ==> r.value.values[c] == SumColumns(MarketRows(df, year)[c], columns)
  {
    var rows := MarketRows(df, year);
    var missing := NotIn(columns, df.columns);
    if CapitalAccountIndustryCode !in IndustryCodes(df) then Err(MissingIndustryCode(CapitalAccountIndustryCode))
    else if year !in Years(df) then Err(MissingYear(year))
    else if missing != [] then
      assert missing[0] in missing;
      Err(MissingKeys(missing))
    else Ok(Series(rows.Keys, map c | c in rows :: SumColumns(rows[c], columns)))
  }

  /** The industry code and the year both in use, but in no common row: the selection is empty
      and so are the sums; nothing is raised. */
  lemma AggregateOverEmptySelection(df: Table<PanelKey>, year: int, columns: seq<string>)
    requires CapitalAccountIndustryCode in IndustryCodes(df) && year in Years(df)
    requires forall c :: c in columns ==> c in df.columns
    requires forall c :: (CapitalAccountIndustryCode, year, c) !in df.rows
    ensures AggregateOver(df, year, columns) == Ok(Series({}, map[]))
  {
    var rows := MarketRows(df, year);
    assert rows == map[];
    var r := AggregateOver(df, year, columns);
    assert r.Ok?;
    assert r.value.index == {};
    assert r.value.values == map[];
  }

  /** The panel below uses both `MARKT` and 2006, never together, and the sums for 2006 are empty. */
  lemma AggregateOverNoCommonRow()
    ensures AggregateOver(NoCommonRowPanel(), 2006, ["software_and_databases"]) == Ok(Series({}, map[]))
  {
    var df := NoCommonRowPanel();
    assert (CapitalAccountIndustryCode, 2005, "AT") in df.rows;
    assert ("TOT", 2006, "AT") in df.rows;
    forall c ensures (CapitalAccountIndustryCode, 2006, c) !in df.rows {
      assert CapitalAccountIndustryCode != "TOT";
    }
    AggregateOverEmptySelection(df, 2006, ["software_and_databases"]);
  }

  /** Market-economy rows for 2005 only, and 2006 rows for the whole economy only. */
  function NoCommonRowPanel(): Table<PanelKey> {
    var row := map["software_and_databases" := 1.0];
    Table(["software_and_databases"], map[(CapitalAccountIndustryCode, 2005, "AT") := row, ("TOT", 2006, "AT") := row])
  }

  /** `aggregate_intangible_investment`: the mode is checked first, then the rows are summed. */
  function AggregateIntangibleInvestment(df: Table<PanelKey>, year: int, mode: string): (r: Result<Series<string>>)
    ensures mode !in IntangibleAggregateCategories ==> r == Err(InvalidMode)
    ensures mode in IntangibleAggregateCategories ==> r == AggregateOver(df, year, AggregateColumns(mode).value)
  {
    match AggregateColumns(mode)
    case Err(e) => Err(e)
    case Ok(columns) => AggregateOver(df, year, columns)
  }

  /** `aggregate_computerized_information`: the general aggregate for its mode. */
  function AggregateComputerizedInformation(df: Table<PanelKey>, year: int): (r: Result<Series<string>>)
    ensures r == AggregateIntangibleInvestment(df, year, ComputerizedInformation)
  {
    AggregateOver(df, year, ComputerizedInformationColumns)
  }

  /** `aggregate_innovative_property`: the general aggregate for its mode. */
  function AggregateInnovativeProperty(df: Table<PanelKey>, year: int): (r: Result<Series<string>>)
    ensures r == AggregateIntangibleInvestment(df, year, InnovativeProperty)
  {
    AggregateOver(df, year, InnovativePropertyColumns)
  }

  /** `aggregate_economic_competencies`: the general aggregate for its mode. */
  function AggregateEconomicCompetencies(df: Table<PanelKey>, year: int): (r: Result<Series<string>>)
    ensures r == AggregateIntangibleInvestment(df, year, EconomicCompetencies)
  {
    AggregateOver(df, year, EconomicCompetenciesColumns)
  }

  /** The three aggregates split the eight detail categories: for every country they add up to
      the sum over all eight, and they succeed or fail together. */
  lemma AggregatesSumToDetails(df: Table<PanelKey>, year: int, c: string)
    requires AggregateOver(df, year, IntangibleDetailCategories).Ok?
    ensures var ci := AggregateComputerizedInformation(df, year);
      var ip := AggregateInnovativeProperty(df, year);
      var ec := AggregateEconomicCompetencies(df, year);
      && ci.Ok? && ip.Ok? && ec.Ok?
      && (c in ci.value.values ==>
           c in ip.value.values && c in ec.value.values
           && ci.value.values[c] + ip.value.values[c] + ec.value.values[c]
              == AggregateOver(df, year, IntangibleDetailCategories).value.values[c])
  {
    AggregateColumnsPartitionDetails();
    var rows := MarketRows(df, year);
    if c in rows {
      SumColumnsAppend(rows[c], ComputerizedInformationColumns, InnovativePropertyColumns);
      SumColumnsAppend(rows[c], ComputerizedInformationColumns + InnovativePropertyColumns, EconomicCompetenciesColumns);
    }
  }

  // ---------------------------------------------------------------- get_share_of_intangible_investment_per_gdp

  /** One row of the merged table: the investment level, the national row's cells, and the share
      of GDP where the row's GDP is a non-zero number (NaN otherwise). */
  function MergedRow(level: real, nationalRow: map<string, real>): (m: map<string, real>)
    ensures InvestmentLevel in m && m[InvestmentLevel] == level
    ensures forall c :: c in nationalRow && c != InvestmentLevel && c != ShareIntangible ==>
      c in m && m[c] == nationalRow[c]
    ensures ShareIntangible in m <==> Gdp in nationalRow && nationalRow[Gdp] != 0.0
    ensures ShareIntangible in m ==> m[ShareIntangible] == Share(level, nationalRow[Gdp])
  {
    var merged := nationalRow[InvestmentLevel := level];
    if Gdp in nationalRow && nationalRow[Gdp] != 0.0
    then merged[ShareIntangible := Share(level, nationalRow[Gdp])]
    else merged - {ShareIntangible}
  }

  /** With non-negative investment and positive GDP the merged row's share is non-negative. */
  lemma MergedRowShareNonNegative(capitalRow: map<string, real>, columns: seq<string>, nationalRow: map<string, real>)
    requires forall c :: c in capitalRow ==> capitalRow[c] >= 0.0
    requires Gdp in nationalRow ==> nationalRow[Gdp] > 0.0
    ensures var m := MergedRow(SumColumns(capitalRow, columns), nationalRow);
      ShareIntangible in m ==> m[ShareIntangible] >= 0.0
  {
    var level := SumColumns(capitalRow, columns);
    SumColumnsNonNegative(capitalRow, columns);
    if Gdp in nationalRow {
      ShareNonNegative(level, nationalRow[Gdp]);
    }
  }

  /** `get_share_of_intangible_investment_per_gdp`: the investment level is the row sum of the
      capital accounts; it is merged (inner, on year and country code) with the national accounts;
      the share of GDP is added where GDP is a non-zero number. Capital accounts without rows sum
      to an empty Series, which leaves the new frame's empty, unnamed index in place, so the merge
      finds no "year" and raises KeyError; a national table without a gdp column raises KeyError
      after the merge. */
  method GetShareOfIntangibleInvestmentPerGdp(capital: Table<SliceKey>, national: Table<SliceKey>)
    returns (r: Result<Table<SliceKey>>)
    ensures r.Err? <==> capital.rows == map[] || Gdp !in national.columns
    ensures capital.rows == map[] ==> r == Err(MissingKeys([MergeKey]))
    ensures capital.rows != map[] && Gdp !in national.columns ==> r == Err(MissingKeys([Gdp]))
    ensures r.Err? ==> r.error.PythonClass() == KeyError
    ensures r.Ok? ==> r.value.columns == [InvestmentLevel] + national.columns + [ShareIntangible]
    ensures r.Ok? ==> r.value.rows.Keys == capital.rows.Keys * national.rows.Keys
    ensures r.Ok? ==> forall k :: k in r.value.rows ==>
      r.value.rows[k] == MergedRow(SumColumns(capital.rows[k], capital.columns), national.rows[k])
    ensures r.Ok? && (forall k, c :: k in capital.rows && c in capital.rows[k] ==> capital.rows[k][c] >= 0.0)
                  && (forall k :: k in national.rows && Gdp in national.rows[k] ==> national.rows[k][Gdp] > 0.0) ==>
      forall k :: k in r.value.rows && ShareIntangible in r.value.rows[k] ==> r.value.rows[k][ShareIntangible] >= 0.0
  {
    var levels := map k | k in capital.rows :: SumColumns(capital.rows[k], capital.columns);
    if capital.rows == map[] {
      return Err(MissingKeys([MergeKey]));
    }
    if Gdp !in national.columns {
      return Err(MissingKeys([Gdp]));
    }
    var rows := map k | k in levels && k in national.rows :: MergedRow(levels[k], national.rows[k]);
    r := Ok(Table([InvestmentLevel] + national.columns + [ShareIntangible], rows));
    if (forall k, c :: k in capital.rows && c in capital.rows[k] ==> capital.rows[k][c] >= 0.0)
       && (forall k :: k in national.rows && Gdp in national.rows[k] ==> national.rows[k][Gdp] > 0.0) {
      forall k | k in rows && ShareIntangible in rows[k] ensures rows[k][ShareIntangible] >= 0.0 {
        MergedRowShareNonNegative(capital.rows[k], capital.columns, national.rows[k]);
      }
    }
  }

  // ---------------------------------------------------------------- get_intangible_investment_aggregate_types

  /** `df[name] = s`: a frame without rows takes a non-empty Series' index as its own, its other
      columns becoming NaN; otherwise the Series is aligned to the frame's index, and labels
      without a number get NaN. */
  function AssignColumn(t: Table<string>, name: string, s: Series<string>): (r: Table<string>)
    ensures t.rows == map[] && s.index != {} ==> r.rows.Keys == s.index
    ensures !(t.rows == map[] && s.index != {}) ==> r.rows.Keys == t.rows.Keys
    ensures forall k :: k in r.rows ==> (name in r.rows[k] <==> k in s.values)
    ensures forall k :: k in r.rows && k in s.values ==> r.rows[k][name] == s.values[k]
    ensures forall k, c :: k in t.rows && k in r.rows && c != name ==> (c in r.rows[k] <==> c in t.rows[k])
    ensures forall k, c :: k in t.rows && k in r.rows && c != name && c in t.rows[k] ==> r.rows[k][c] == t.rows[k][c]
    ensures r.columns == if name in t.columns then t.columns else t.columns + [name]
  {
    var columns := if name in t.columns then t.columns else t.columns + [name];
    if t.rows == map[] && s.index != {} then
      Table(columns, map k | k in s.index :: if k in s.values then map[name := s.values[k]] else map[])
    else
      Table(columns, map k | k in t.rows :: if k in s.values then t.rows[k][name := s.values[k]] else t.rows[k] - {name})
  }

  /** Assigning the same Series to the same column a second time changes nothing. */
  lemma AssignColumnIdempotent(t: Table<string>, name: string, s: Series<string>)
    ensures AssignColumn(AssignColumn(t, name, s), name, s) == AssignColumn(t, name, s)
  {
    var r := AssignColumn(t, name, s);
    var r2 := AssignColumn(r, name, s);
    assert r2.columns == r.columns;
    if r.rows == map[] {
      assert r2.rows.Keys == {};
    } else {
      assert r2.rows.Keys == r.rows.Keys;
      forall k | k in r.rows ensures r2.rows[k] == r.rows[k] {
        RowReassigned(r.rows[k], r2.rows[k], name, s, k);
      }
    }
  }

  /** A row that already holds the Series' cell (or lacks it where the Series has none) is
      unchanged by assigning it again. */
  lemma RowReassigned(row: map<string, real>, row2: map<string, real>, name: string, s: Series<string>, k: string)
    requires name in row <==> k in s.values
    requires k in s.values ==> row[name] == s.values[k]
    requires forall c :: c != name ==> (c in row2 <==> c in row)
    requires forall c :: c != name && c in row ==> row2[c] == row[c]
    requires name in row2 <==> k in s.values
    requires k in s.values ==> row2[name] == s.values[k]
    ensures row2 == row
  {
  }

  /** The detail columns of the `j`-th aggregate category. */
  function CategoryColumns(j: nat): (r: seq<string>)
    requires j < |IntangibleAggregateCategories|
    ensures AggregateColumns(IntangibleAggregateCategories[j]) == Ok(r)
  {
    [ComputerizedInformationColumns, InnovativePropertyColumns, EconomicCompetenciesColumns][j]
  }

  /** Country `k`'s row holds the `j`-th category's share exactly where the country has a market
      row and a non-zero GDP, and the share is that of the category's sum. */
  predicate CellMatches(row: map<string, real>, market: map<string, map<string, real>>, gdp: Series<string>, k: string, j: nat)
    requires j < 3
  {
    var name := IntangibleAggregateCategories[j];
    && (name in row <==> k in market && k in gdp.values && gdp.values[k] != 0.0)
    && (name in row ==> row[name] == Share(SumColumns(market[k], CategoryColumns(j)), gdp.values[k]))
  }

  /** The first `n` category columns of the frame hold their shares. */
  predicate Filled(df: Table<string>, market: map<string, map<string, real>>, gdp: Series<string>, n: nat)
    requires n <= 3
  {
    forall k, j :: k in df.rows && 0 <= j < n ==> CellMatches(df.rows[k], market, gdp, k, j)
  }

  /** One pass of the loop: assigning the `i`-th category's share column keeps the earlier columns
      and fills the new one. */
  lemma AssignFilled(df: Table<string>, market: map<string, map<string, real>>, gdp: Series<string>, i: nat, aggregate: Series<string>)
    requires i < 3 && Filled(df, market, gdp, i) && df.columns == IntangibleAggregateCategories[..i]
    requires i == 0 ==> df.rows == map[]
    requires i > 0 ==> df.rows.Keys == market.Keys + gdp.index
    requires aggregate.index == market.Keys && aggregate.values.Keys == market.Keys
    requires forall c :: c in aggregate.values ==> aggregate.values[c] == SumColumns(market[c], CategoryColumns(i))
    ensures var d := AssignColumn(df, IntangibleAggregateCategories[i], ShareSeries(aggregate, gdp));
      && Filled(d, market, gdp, i + 1)
      && d.rows.Keys == market.Keys + gdp.index
      && d.columns == IntangibleAggregateCategories[..i + 1]
  {
    var categories := IntangibleAggregateCategories;
    var share := ShareSeries(aggregate, gdp);
    assert categories[i] !in df.columns;
    var d := AssignColumn(df, categories[i], share);
    assert categories[..i + 1] == categories[..i] + [categories[i]];
    forall k, j | k in d.rows && 0 <= j < i + 1 ensures CellMatches(d.rows[k], market, gdp, k, j) {
      if j < i {
        assert categories[j] != categories[i];
        assert k in df.rows;
        assert CellMatches(df.rows[k], market, gdp, k, j);
      } else {
        if k in share.values {
          assert share.values[k] == Share(aggregate.values[k], gdp.values[k]);
        }
      }
    }
  }

  /** `get_intangible_investment_aggregate_types`: for each aggregate category in turn, the 2006
      aggregate's share of `gdp` becomes a column. The frame is indexed by the countries of the
      2006 market-economy rows together with the labels of `gdp` (none when both are empty); a
      country holds a share exactly where it has a row and `gdp` holds a non-zero number for it. */
  method GetIntangibleInvestmentAggregateTypes(capital: Table<PanelKey>, gdp: Series<string>)
    returns (r: Result<Table<string>>)
    ensures r.Err? <==> CapitalAccountIndustryCode !in IndustryCodes(capital)
                        || AggregateTypesYear !in Years(capital)
                        || exists c :: c in IntangibleDetailCategories && c !in capital.columns
    ensures r.Err? ==> r.error.PythonClass() == KeyError
    ensures r.Ok? ==>
      var market := MarketRows(capital, AggregateTypesYear);
      && r.value.columns == IntangibleAggregateCategories
      && r.value.rows.Keys == market.Keys + gdp.index
      && Filled(r.value, market, gdp, 3)
  {
    var market := MarketRows(capital, AggregateTypesYear);
    var categories := IntangibleAggregateCategories;
    var df: Table<string> := Table([], map[]);
    AggregateColumnsPartitionDetails();
    for i := 0 to 3
      invariant df.columns == categories[..i]
      invariant i == 0 ==> df.rows == map[]
      invariant i > 0 ==> df.rows.Keys == market.Keys + gdp.index
      invariant i > 0 ==> CapitalAccountIndustryCode in IndustryCodes(capital) && AggregateTypesYear in Years(capital)
      invariant forall j, c :: 0 <= j < i && c in CategoryColumns(j) ==> c in capital.columns
      invariant Filled(df, market, gdp, i)
    {
      var aggregate := AggregateIntangibleInvestment(capital, AggregateTypesYear, categories[i]);
      assert AggregateColumns(categories[i]) == Ok(CategoryColumns(i));
      if aggregate.Err? {
        return Err(aggregate.error);
      }
      AssignFilled(df, market, gdp, i, aggregate.value);
      df := AssignColumn(df, categories[i], ShareSeries(aggregate.value, gdp));
    }
    assert categories[..3] == categories;
    forall c | c in IntangibleDetailCategories ensures c in capital.columns {
      if c in ComputerizedInformationColumns {
        assert c in CategoryColumns(0);
      } else if c in InnovativePropertyColumns {
        assert c in CategoryColumns(1);
      } else {
        assert c in CategoryColumns(2);
      }
    }
    return Ok(df);
  }
}
