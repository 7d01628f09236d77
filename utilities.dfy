/** Country names, download paths and clean-data paths. */
module Utilities {
  import opened Wrappers
  import opened Frames
  import opened Config

  /** Python `dict(zip(keys, values))`: pairs up to the shorter list; a repeated key keeps its last value. */
  function ZipMap(keys: seq<string>, values: seq<string>): (m: map<string, string>)
    ensures forall k :: k in m <==> exists i :: 0 <= i < |keys| && i < |values| && keys[i] == k
    decreases |keys|
  {
    var n := if |keys| < |values| then |keys| else |values|;
    if n == 0 then map[]
    else
      var m := ZipMap(keys[..n - 1], values[..n - 1]);
      assert forall i :: 0 <= i < n - 1 ==> keys[..n - 1][i] == keys[i];
      m[keys[n - 1] := values[n - 1]]
  }

  /** With distinct keys, each key is paired with the value at its own position. */
  lemma {:induction false} ZipMapAt(keys: seq<string>, values: seq<string>, i: nat)
    requires |keys| == |values| && i < |keys|
    requires forall a, b :: 0 <= a < b < |keys| ==> keys[a] != keys[b]
    ensures keys[i] in ZipMap(keys, values) && ZipMap(keys, values)[keys[i]] == values[i]
    decreases |keys|
  {
    var n := |keys|;
    if i < n - 1 {
      ZipMapAt(keys[..n - 1], values[..n - 1], i);
      assert keys[i] != keys[n - 1];
    }
  }

  /** The outcome of `_add_country_name`: the input frame itself, or one name per row. */
  datatype CountryNames = SameFrame(frame: Frame) | NameSeries(names: seq<Cell>)

  /** The code-to-name map of a mode; an unknown mode uses the main countries. */
  function ModeMap(mode: string, s: Settings): map<string, string> {
    if mode == "extended" then ZipMap(s.countryCodesExtended, s.countriesExtended)
    else if mode == "all" then ZipMap(s.allCountryCodes, s.allCountries)
    else ZipMap(CountryCodes, s.countries)
  }

  /** Python `Series.map(dict)` on one cell: a code not in the map becomes missing. */
  function LookUp(m: map<string, string>, code: Cell): (r: Cell)
    ensures r.Text? <==> code.Text? && code.text in m
    ensures r.Text? ==> r.text == m[code.text]
  {
    if code.Text? && code.text in m then Text(m[code.text]) else Missing
  }

  /** `_add_country_name`: the country name of every row's country code. */
  function AddCountryName(df: Arg<Frame>, mode: string, s: Settings): (r: Result<CountryNames>)
    ensures !df.Given? ==> r == Err(InputNotDataFrame)
    ensures df.Given? && "country_code" !in Names(df.value.columns) ==> r == Err(NoCountryCodeColumn)
    ensures r.Ok? ==> df.Given? && "country_code" in Names(df.value.columns)
    ensures r.Ok? && r.value.SameFrame? ==> r.value.frame == df.value
    ensures r.Ok? && r.value.NameSeries? ==>
      var codes := ColumnNamed(df.value.columns, "country_code").value.cells;
      |r.value.names| == |codes| > 0
      && forall i :: 0 <= i < |codes| ==> r.value.names[i] == LookUp(ModeMap(mode, s), codes[i])
  {
    match df
    case Given(f) =>
      (match ColumnNamed(f.columns, "country_code")
       case None => Err(NoCountryCodeColumn)
       case Some(col) =>
         if |col.cells| == 0 then Ok(SameFrame(f))
         else
           var m := ModeMap(mode, s);
           Ok(NameSeries(seq(|col.cells|, i requires 0 <= i < |col.cells| => LookUp(m, col.cells[i])))))
    case _ => Err(InputNotDataFrame)
  }

  /** `add_country_name_main_countries`. */
  function AddCountryNameMainCountries(df: Arg<Frame>, s: Settings): (r: Result<CountryNames>)
    ensures r == AddCountryName(df, "main", s)
    ensures !df.Given? ==> r == Err(InputNotDataFrame)
    ensures r.Ok? && r.value.NameSeries? ==>
      var codes := ColumnNamed(df.value.columns, "country_code").value.cells;
      |r.value.names| == |codes|
      && forall i :: 0 <= i < |codes| ==> r.value.names[i] == LookUp(ZipMap(CountryCodes, s.countries), codes[i])
  {
    AddCountryName(df, "main", s)
  }

  /** `add_country_name_extended_countries`. */
  function AddCountryNameExtendedCountries(df: Arg<Frame>, s: Settings): (r: Result<CountryNames>)
    ensures r == AddCountryName(df, "extended", s)
    ensures !df.Given? ==> r == Err(InputNotDataFrame)
    ensures r.Ok? && r.value.NameSeries? ==>
      var codes := ColumnNamed(df.value.columns, "country_code").value.cells;
      |r.value.names| == |codes|
      && forall i :: 0 <= i < |codes| ==> r.value.names[i] == LookUp(ZipMap(s.countryCodesExtended, s.countriesExtended), codes[i])
  {
    AddCountryName(df, "extended", s)
  }

  /** `add_country_name_all_countries`. */
  function AddCountryNameAllCountries(df: Arg<Frame>, s: Settings): (r: Result<CountryNames>)
    ensures r == AddCountryName(df, "all", s)
    ensures !df.Given? ==> r == Err(InputNotDataFrame)
    ensures r.Ok? && r.value.NameSeries? ==>
      var codes := ColumnNamed(df.value.columns, "country_code").value.cells;
      |r.value.names| == |codes|
      && forall i :: 0 <= i < |codes| ==> r.value.names[i] == LookUp(ZipMap(s.allCountryCodes, s.allCountries), codes[i])
  {
    AddCountryName(df, "all", s)
  }

  /** In the main mode, the j-th main country code is named by the j-th country name. */
  lemma MainCountryNamed(df: Frame, s: Settings, i: nat, j: nat)
    requires s.Valid()
    requires "country_code" in Names(df.columns)
    requires i < |ColumnNamed(df.columns, "country_code").value.cells|
    requires j < |CountryCodes|
    requires ColumnNamed(df.columns, "country_code").value.cells[i] == Text(CountryCodes[j])
    ensures AddCountryName(Given(df), "main", s).Ok?
    ensures AddCountryName(Given(df), "main", s).value == NameSeries(AddCountryName(Given(df), "main", s).value.names)
    ensures AddCountryName(Given(df), "main", s).value.names[i] == Text(s.countries[j])
  {
    CountryCodesDistinct();
    ZipMapAt(CountryCodes, s.countries, j);
  }

  /** A mode other than "extended" and "all" behaves as the main mode. */
  lemma UnknownModeIsMain(df: Arg<Frame>, mode: string, s: Settings)
    requires mode != "extended" && mode != "all"
    ensures AddCountryName(df, mode, s) == AddCountryName(df, "main", s)
  {
  }

  /** The file names downloaded for a country: all of them, except "growth_accounts" for SK. */
  function FileNamesFor(code: string, names: seq<string>): (r: seq<string>)
    ensures code != "SK" ==> r == names
    ensures code == "SK" ==> forall x {:trigger x in r} :: x in r <==> x in names && x != "growth_accounts"
    ensures |r| <= |names|
  {
    if code != "SK" then names
    else
      WithoutNameMembers(names, "growth_accounts");
      WithoutName(names, "growth_accounts")
  }

  /** `[n for n in names if n != x]`. */
  function WithoutName(names: seq<string>, x: string): (r: seq<string>)
    ensures |r| <= |names|
  {
    if names == [] then []
    else (if names[0] == x then [] else [names[0]]) + WithoutName(names[1..], x)
  }

  lemma {:induction false} WithoutNameMembers(names: seq<string>, x: string)
    ensures forall y :: y in WithoutName(names, x) <==> y in names && y != x
  {
    if names != [] {
      WithoutNameMembers(names[1..], x);
      assert forall y :: y in names <==> y == names[0] || y in names[1..];
    }
  }

  /** The SK list keeps the order of the names: a list split at any point gives the names kept
      from its first part followed by those kept from the rest. */
  lemma FileNamesForAppend(code: string, a: seq<string>, b: seq<string>)
    ensures FileNamesFor(code, a + b) == FileNamesFor(code, a) + FileNamesFor(code, b)
  {
    if code == "SK" {
      WithoutNameAppend(a, b, "growth_accounts");
    }
  }

  lemma {:induction false} WithoutNameAppend(a: seq<string>, b: seq<string>, x: string)
    ensures WithoutName(a + b, x) == WithoutName(a, x) + WithoutName(b, x)
  {
    if a == [] {
      assert a + b == b;
    } else {
      assert (a + b)[0] == a[0] && (a + b)[1..] == a[1..] + b;
      WithoutNameAppend(a[1..], b, x);
    }
  }

  /** Names without "growth_accounts" are all downloaded for SK, in their order. */
  lemma FileNamesForWithoutGrowth(names: seq<string>)
    requires "growth_accounts" !in names
    ensures FileNamesFor("SK", names) == names
  {
    WithoutNameAbsent(names, "growth_accounts");
  }

  lemma {:induction false} WithoutNameAbsent(names: seq<string>, x: string)
    requires x !in names
    ensures WithoutName(names, x) == names
  {
    if names != [] {
      assert names[0] != x;
      WithoutNameAbsent(names[1..], x);
      assert [names[0]] + names[1..] == names;
    }
  }

  /** For SK, "growth_accounts" is cut out of the names and the others stay in order, as the list
      comprehension that leaves it out does. */
  lemma FileNamesForSkipsGrowth(a: seq<string>, b: seq<string>)
    requires "growth_accounts" !in a && "growth_accounts" !in b
    ensures FileNamesFor("SK", a + ["growth_accounts"] + b) == a + b
  {
    WithoutNameSkips(a, b, "growth_accounts");
  }

  lemma WithoutNameSkips(a: seq<string>, b: seq<string>, x: string)
    requires x !in a && x !in b
    ensures WithoutName(a + [x] + b, x) == a + b
  {
    var single := [x];
    assert WithoutName(single, x) == [] by {
      assert single[1..] == [];
    }
    WithoutNameAbsent(a, x);
    WithoutNameAppend(a, single, x);
    assert WithoutName(a + single, x) == a;
    WithoutNameAbsent(b, x);
    WithoutNameAppend(a + single, b, x);
  }

  /** One entry of the download-path dictionary. */
  datatype DownloadEntry = DownloadEntry(fileName: string, path: Path)

  /** `get_eu_klems_download_paths`: the download path of each EU KLEMS file of a country, in file-name order. */
  function GetEuKlemsDownloadPaths(code: Arg<string>, s: Settings): (r: Result<seq<DownloadEntry>>)
    ensures !code.Given? ==> r == Err(CountryCodeNotString)
    ensures code.Given? && code.value !in s.allCountryCodes ==> r == Err(CountryCodeNotValid(code.value))
    ensures r.Ok? <==> code.Given? && code.value in s.allCountryCodes
    ensures r.Ok? ==>
      var names := FileNamesFor(code.value, s.euKlemsFileNames);
      |r.value| == |names|
      && forall i :: 0 <= i < |names| ==>
           r.value[i].fileName == names[i]
           && r.value[i].path == Path(s.downloadPath.parts + [code.value, names[i] + ".xlsx"])
  {
    match code
    case Given(c) =>
      if c !in s.allCountryCodes then Err(CountryCodeNotValid(c))
      else
        var names := FileNamesFor(c, s.euKlemsFileNames);
        Ok(seq(|names|, i requires 0 <= i < |names| =>
          DownloadEntry(names[i], Join(Join(s.downloadPath, c), names[i] + ".xlsx"))))
    case _ => Err(CountryCodeNotString)
  }

  /** The dictionary's keys are the file names `FileNamesFor` lists, in order: for a valid code
      other than SK exactly the EU KLEMS file names; for SK "growth_accounts" is not among them.
      Every path runs through the country's directory. */
  lemma DownloadPathsKeys(c: string, s: Settings)
    requires c in s.allCountryCodes
    ensures var r := GetEuKlemsDownloadPaths(Given(c), s);
      r.Ok?
      && seq(|r.value|, i requires 0 <= i < |r.value| => r.value[i].fileName) == FileNamesFor(c, s.euKlemsFileNames)
      && (c != "SK" ==> seq(|r.value|, i requires 0 <= i < |r.value| => r.value[i].fileName) == s.euKlemsFileNames)
      && (c == "SK" ==> forall i :: 0 <= i < |r.value| ==> r.value[i].fileName != "growth_accounts")
      && forall i :: 0 <= i < |r.value| ==> c in r.value[i].path.parts
  {
    var r := GetEuKlemsDownloadPaths(Given(c), s);
    var names := FileNamesFor(c, s.euKlemsFileNames);
    forall i | 0 <= i < |r.value|
      ensures c in r.value[i].path.parts
    {
      assert r.value[i].path.parts[|s.downloadPath.parts|] == c;
    }
    if c == "SK" {
      forall i | 0 <= i < |r.value|
        ensures r.value[i].fileName != "growth_accounts"
      {
        assert names[i] in names;
      }
    }
  }

  /** For SK the dictionary's keys are the EU KLEMS file names without "growth_accounts", in
      their configured order. */
  lemma SkDownloadKeys(s: Settings, a: seq<string>, b: seq<string>)
    requires s.Valid() && "SK" in s.allCountryCodes
    requires s.euKlemsFileNames == a + ["growth_accounts"] + b
    ensures var r := GetEuKlemsDownloadPaths(Given("SK"), s);
      r.Ok? && seq(|r.value|, i requires 0 <= i < |r.value| => r.value[i].fileName) == a + b
  {
    var names := s.euKlemsFileNames;
    assert names[|a|] == "growth_accounts";
    assert "growth_accounts" !in a by {
      forall i | 0 <= i < |a| ensures a[i] != "growth_accounts" {
        assert names[i] == a[i];
      }
    }
    assert "growth_accounts" !in b by {
      forall i | 0 <= i < |b| ensures b[i] != "growth_accounts" {
        assert names[|a| + 1 + i] == b[i];
      }
    }
    FileNamesForSkipsGrowth(a, b);
    DownloadPathsKeys("SK", s);
  }

  /** `get_account_data_path_for_countries`: one clean-data path per country, in input order. */
  function GetAccountDataPathForCountries(key: string, codes: seq<string>, s: Settings): (r: seq<Path>)
    ensures |r| == |codes|
    ensures forall i :: 0 <= i < |codes| ==>
      r[i].parts == s.dataCleanPath.parts + [codes[i], key + "_accounts.pkl"]
  {
    seq(|codes|, i requires 0 <= i < |codes| => Join(Join(s.dataCleanPath, codes[i]), key + "_accounts.pkl"))
  }

  /** Without an explicit list, the paths of all country codes. */
  function GetAccountDataPathForAllCountries(key: string, s: Settings): (r: seq<Path>)
    ensures r == GetAccountDataPathForCountries(key, s.allCountryCodes, s)
    ensures |r| == |s.allCountryCodes|
    ensures forall i :: 0 <= i < |r| ==>
      r[i].parts == s.dataCleanPath.parts + [s.allCountryCodes[i], key + "_accounts.pkl"]
  {
    GetAccountDataPathForCountries(key, s.allCountryCodes, s)
  }

  /** Different countries get different files. */
  lemma AccountDataPathsDistinct(key: string, codes: seq<string>, s: Settings, i: nat, j: nat)
    requires i < |codes| && j < |codes| && codes[i] != codes[j]
    ensures GetAccountDataPathForCountries(key, codes, s)[i] != GetAccountDataPathForCountries(key, codes, s)[j]
  {
    var r := GetAccountDataPathForCountries(key, codes, s);
    assert r[i].parts[|s.dataCleanPath.parts|] == codes[i];
    assert r[j].parts[|s.dataCleanPath.parts|] == codes[j];
  }
}
