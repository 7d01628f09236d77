/** The checked layer the test suite of analysis/intangible_investment.py calls: argument checks,
    the "Index is not the same" check that refuses to realign capital and national accounts, and
    the warning for a share of intangible investment above 100% of GDP. The calculations reuse the
    share and aggregate definitions of `IntangibleInvestment`. */
module CheckedInvestment {
  import opened Wrappers
  import opened Frames
  import opened Config
  import I = IntangibleInvestment

  /** Shares above this many percent of GDP raise a warning. */
  const ShareWarningThreshold: real := 100.0

  /** The type an accounts argument must have. */
  const FrameTypeName: string := "<class 'pandas.core.frame.DataFrame'>"

  const TangibleAssets: string := "tangible_assets"
  const ShareTangible: string := "share_tangible"

  /** The type check, then the column check, of one accounts argument: anything but a frame raises
      ValueError naming the argument, and so does a frame that lacks a required column. */
  function CheckAccounts(arg: Arg<Table<SliceKey>>, name: string, required: seq<string>): (r: Result<Table<SliceKey>>)
    ensures !arg.Given? ==> r == Err(WrongType(name, FrameTypeName)) && r.error.PythonClass() == ValueError
    ensures arg.Given? ==> (r.Ok? <==> forall c :: c in required ==> c in arg.value.columns)
    ensures arg.Given? && r.Err? ==> r.error == WrongColumns(name) && r.error.PythonClass() == ValueError
    ensures r.Ok? ==> r.value == arg.value
  {
    if !arg.Given? then Err(WrongType(name, FrameTypeName))
    else if exists c :: c in required && c !in arg.value.columns then Err(WrongColumns(name))
    else Ok(arg.value)
  }

  /** A result together with whether a warning was issued. */
  datatype Warned<T> = Warned(value: T, warning: bool)

  /** The share of intangible investment per GDP of the tested signature: both arguments are
      checked, capital first; the investment level sums the eight detail categories; a share above
      100% of GDP warns and the table is still returned. */
  function CheckedShareOfIntangibleInvestmentPerGdp(capital: Arg<Table<SliceKey>>, national: Arg<Table<SliceKey>>)
    : (r: Result<Warned<Table<SliceKey>>>)
    ensures !capital.Given? ==> r == Err(WrongType("capital_accounts", FrameTypeName))
    ensures capital.Given? && (exists c :: c in IntangibleDetailCategories && c !in capital.value.columns) ==>
      r == Err(WrongColumns("capital_accounts"))
    ensures (capital.Given? && forall c :: c in IntangibleDetailCategories ==> c in capital.value.columns) ==>
      (!national.Given? ==> r == Err(WrongType("national_accounts", FrameTypeName)))
      && (national.Given? && I.Gdp !in national.value.columns ==> r == Err(WrongColumns("national_accounts")))
    ensures r.Err? ==> r.error.PythonClass() == ValueError
    ensures r.Ok? ==>
      && capital.Given? && national.Given? && I.Gdp in national.value.columns
      && forall c :: c in IntangibleDetailCategories ==> c in capital.value.columns
    ensures r.Ok? ==>
      && r.value.value.rows.Keys == capital.value.rows.Keys * national.value.rows.Keys
      && forall k :: k in r.value.value.rows ==>
           r.value.value.rows[k] == I.MergedRow(SumColumns(capital.value.rows[k], IntangibleDetailCategories), national.value.rows[k])
    ensures r.Ok? ==> (r.value.warning <==>
      exists k :: k in r.value.value.rows && I.ShareIntangible in r.value.value.rows[k]
                  && r.value.value.rows[k][I.ShareIntangible] > ShareWarningThreshold)
  {
    match CheckAccounts(capital, "capital_accounts", IntangibleDetailCategories)
    case Err(e) => Err(e)
    case Ok(cap) =>
      match CheckAccounts(national, "national_accounts", [I.Gdp])
      case Err(e) => Err(e)
      case Ok(natl) =>
        var rows := map k | k in cap.rows && k in natl.rows ::
          I.MergedRow(SumColumns(cap.rows[k], IntangibleDetailCategories), natl.rows[k]);
        var warning := exists k :: k in rows && I.ShareIntangible in rows[k] && rows[k][I.ShareIntangible] > ShareWarningThreshold;
        Ok(Warned(Table([I.InvestmentLevel] + natl.columns + [I.ShareIntangible], rows), warning))
  }

  /** An investment level at least twice a positive GDP is a share of about 200%, so the checked
      share warns (the fixture sets one detail category to 100 and GDP to 50). */
  lemma LargeInvestmentWarns(capital: Table<SliceKey>, national: Table<SliceKey>, k: SliceKey)
    requires forall c :: c in IntangibleDetailCategories ==> c in capital.columns
    requires I.Gdp in national.columns
    requires k in capital.rows && k in national.rows && I.Gdp in national.rows[k]
    requires national.rows[k][I.Gdp] > 0.0
    requires SumColumns(capital.rows[k], IntangibleDetailCategories) >= 2.0 * national.rows[k][I.Gdp]
    ensures CheckedShareOfIntangibleInvestmentPerGdp(Given(capital), Given(national)).Ok?
    ensures CheckedShareOfIntangibleInvestmentPerGdp(Given(capital), Given(national)).value.warning
  {
    var level := SumColumns(capital.rows[k], IntangibleDetailCategories);
    var gdp := national.rows[k][I.Gdp];
    assert level / gdp >= 2.0 by {
      assert level >= 2.0 * gdp;
      assert level / gdp >= (2.0 * gdp) / gdp;
    }
    var r := CheckedShareOfIntangibleInvestmentPerGdp(Given(capital), Given(national));
    assert r.value.value.rows[k][I.ShareIntangible] == I.Share(level, gdp);
  }

  /** "Index is not the same": capital and national accounts must carry the same keys; they are
      never realigned. */
  function CheckIndexSame(capital: Table<SliceKey>, national: Table<SliceKey>): (r: Outcome)
    ensures r == Pass <==> capital.rows.Keys == national.rows.Keys
    ensures r.Fail? ==> r.error == IndexNotSame && r.error.PythonClass() == ValueError
  {
    if capital.rows.Keys == national.rows.Keys then Pass else Fail(IndexNotSame)
  }

  /** The aggregate shares of the tested signature: after the index check, one column per
      aggregate category in order, each the category's sum as a share of the national GDP. */
  function CheckedAggregateTypes(capital: Table<SliceKey>, national: Table<SliceKey>): (r: Result<Table<SliceKey>>)
    ensures r.Err? <==> capital.rows.Keys != national.rows.Keys
    ensures r.Err? ==> r.error == IndexNotSame
    ensures r.Ok? ==> r.value.columns == IntangibleAggregateCategories && r.value.rows.Keys == capital.rows.Keys
    ensures r.Ok? ==> forall k, j :: k in r.value.rows && 0 <= j < 3 ==>
      var name := IntangibleAggregateCategories[j];
      && (name in r.value.rows[k] <==> I.Gdp in national.rows[k] && national.rows[k][I.Gdp] != 0.0)
      && (name in r.value.rows[k] ==>
            r.value.rows[k][name] == I.Share(SumColumns(capital.rows[k], I.CategoryColumns(j)), national.rows[k][I.Gdp]))
  {
    match CheckIndexSame(capital, national)
    case Fail(e) => Err(e)
    case Pass =>
      Ok(Table(IntangibleAggregateCategories,
        map k | k in capital.rows ::
          var row := national.rows[k];
          if I.Gdp in row && row[I.Gdp] != 0.0 then
            map j | j in IntangibleAggregateCategories ::
              I.Share(SumColumns(capital.rows[k], I.CategoryColumns(CategoryIndex(j))), row[I.Gdp])
          else map[]))
  }

  /** The position of an aggregate category. */
  function CategoryIndex(name: string): (j: nat)
    requires name in IntangibleAggregateCategories
    ensures j < 3 && IntangibleAggregateCategories[j] == name
  {
    if name == ComputerizedInformation then 0 else if name == InnovativeProperty then 1 else 2
  }

  /** The share of tangible investment of the tested signature: after the index check, a single
      column share_tangible on the capital accounts' index. */
  function CheckedShareOfTangibleInvestmentPerGdp(capital: Table<SliceKey>, national: Table<SliceKey>): (r: Result<Table<SliceKey>>)
    ensures r.Err? <==> capital.rows.Keys != national.rows.Keys
    ensures r.Err? ==> r.error == IndexNotSame
    ensures r.Ok? ==> r.value.columns == [ShareTangible] && r.value.rows.Keys == capital.rows.Keys
    ensures r.Ok? ==> forall k :: k in r.value.rows ==>
      (ShareTangible in r.value.rows[k] <==>
         TangibleAssets in capital.rows[k] && I.Gdp in national.rows[k] && national.rows[k][I.Gdp] != 0.0)
  {
    match CheckIndexSame(capital, national)
    case Fail(e) => Err(e)
    case Pass =>
      Ok(Table([ShareTangible],
        map k | k in capital.rows ::
          var row := national.rows[k];
          if TangibleAssets in capital.rows[k] && I.Gdp in row && row[I.Gdp] != 0.0
          then map[ShareTangible := I.Share(capital.rows[k][TangibleAssets], row[I.Gdp])]
          else map[]))
  }
}
