/** `prepare_accounts` of analysis/utilities.py: the slice of an accounts cube for one industry
    code, a list of years and optionally one country, with the industry level dropped. */
module AnalysisUtilities {
  import opened Wrappers
  import opened Frames

  /** `country_code if country_code else slice(None)`: a missing or empty code selects every country. */
  predicate CountrySelected(countryCode: Option<string>, c: string) {
    countryCode.None? || countryCode.value == [] || countryCode.value == c
  }

  /** `accounts.loc[(industry_code, list(years), selector)].reset_index(level="industry_code", drop=True)`. */
  function PrepareAccounts(accounts: Table<PanelKey>, years: seq<int>, industryCode: string,
                           countryCode: Option<string>): (r: Table<SliceKey>)
    ensures r.columns == accounts.columns
    ensures forall k: SliceKey :: k in r.rows <==>
      (industryCode, k.0, k.1) in accounts.rows && k.0 in years && CountrySelected(countryCode, k.1)
    ensures forall k: SliceKey :: k in r.rows ==> r.rows[k] == accounts.rows[(industryCode, k.0, k.1)]
  {
    var selected := set p | p in accounts.rows && p.0 == industryCode && p.1 in years && CountrySelected(countryCode, p.2);
    var rows := map p | p in selected :: (p.1, p.2) := accounts.rows[p];
    assert forall k: SliceKey :: k in rows ==> (industryCode, k.0, k.1) in selected;
    Table(accounts.columns, rows)
  }

  /** Two accounts prepared with the same years and the same country carry keys from
      `years` × {country} only, and both contain every such key the other cube also has for its
      industry code: the capital and national slices line up key for key. */
  lemma PreparedAccountsAligned(capital: Table<PanelKey>, national: Table<PanelKey>, years: seq<int>,
                                capitalCode: string, nationalCode: string, country: string)
    requires country != []
    requires forall y :: y in years ==>
      ((capitalCode, y, country) in capital.rows <==> (nationalCode, y, country) in national.rows)
    ensures var c := PrepareAccounts(capital, years, capitalCode, Some(country));
      var n := PrepareAccounts(national, years, nationalCode, Some(country));
      && c.rows.Keys == n.rows.Keys
      && forall k :: k in c.rows ==> k.0 in years && k.1 == country
  {
    var c := PrepareAccounts(capital, years, capitalCode, Some(country));
    var n := PrepareAccounts(national, years, nationalCode, Some(country));
    forall k: SliceKey ensures k in c.rows <==> k in n.rows {
      var y := k.0;
      if y in years && k.1 == country {
        assert k == (y, country);
        assert (capitalCode, y, country) in capital.rows <==> (nationalCode, y, country) in national.rows;
      }
    }
  }

  /** Without a country code every country of the selected industry and years stays. */
  lemma PrepareAllCountries(accounts: Table<PanelKey>, years: seq<int>, industryCode: string, y: int, c: string)
    requires (industryCode, y, c) in accounts.rows && y in years
    ensures (y, c) in PrepareAccounts(accounts, years, industryCode, None).rows
    ensures (y, c) in PrepareAccounts(accounts, years, industryCode, Some("")).rows
  {
  }
}
