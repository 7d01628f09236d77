# Measuring intangible capital: a Dafny model of the data pipeline

This project models the data pipeline of the intangible-capital study (Python, pandas). It covers:

- **EU KLEMS pipeline.** The argument checks of the sheet readers; `clean_data` (drop, categorical cast, rename); and the reshape that runs concatenate, melt, rename and pivot. The reshape builds a panel keyed by (industry_code, year, country_code). Both the current `clean_eu_klems_data.py` and the older `clean_data.py` are modelled.
- **World Bank GDP per capita.** The checks; the year-label rename (" [YRxxxx]" is cut off); the melt; the country-code map; and the (country_code, year) key.
- **Analysis.**
  - `prepare_accounts` and shares of GDP (`round(x / gdp * 100, 3)`).
  - The three intangible aggregates over the eight detail columns.
  - The inner merge of capital and national accounts, and the 2006 aggregate shares.
  - The labour-productivity percentages and the split of GDP into labour and capital compensation.
- **Helpers.** Country names per country group; the EU KLEMS download-path dictionary (SK has no growth accounts); the clean-data paths; and the selection of download links from the download page, with the file-name extraction from an href.

How the pandas data is represented:

- A raw sheet is a `Frames.Frame`: its columns in order, each with its label, a categorical flag and its cells (number, text or missing).
- A frame after `set_index` is an `IndexedFrame`.
- A keyed result is a `Table<K>`: the column labels, and for each key the non-missing cells by label.
- A pandas `Series` with string labels is `IntangibleInvestment.Series`.
- Exceptions are `Wrappers.Error` values, each mapped to its Python class by `PythonClass()`.
- A dynamically typed argument is an `Arg<T>`: `NoneArg`, `Given(v)` or `OtherType`.
- Some constants are imported from a configuration module that is not part of this model: the country lists and maps, the file names and the paths. They are fields of `Config.Settings`, and `Settings.Valid()` states the facts the code relies on. The constants the code spells out are `const`s. Among them are the aggregate categories and their detail columns (`Config.ComputerizedInformationColumns`, `Config.InnovativePropertyColumns`, `Config.EconomicCompetenciesColumns` and their concatenation `Config.IntangibleDetailCategories`). They are fixed to the names that `intangible_investment.py` spells out at lines 103, 115, 127 and 142-146, not read from the configuration module.
- Exact `real` arithmetic stands for floating point. `Rounding.Round3` is round-half-even to three decimals.

Functions and loops follow the source's own form:

- Loops that fill lists, columns or a Series are methods with loop invariants, proved against the specification functions:
  - `CleanData` (both copies), `CleanAllSheets` and `CleanAndReshapeEuKlems`;
  - `CleanGdpPerCapita` and `GetUrlsFileNamesByCountry`;
  - `GetShareOfIntangibleInvestmentPerGdp` and `GetIntangibleInvestmentAggregateTypes`;
  - `GetShareOfIntangibleSubComponentsInLabourProductivity`, which fills a local array;
  - `CalculateCapitalCompensation` and `GrowthAccountingMain`.
- Expressions are functions, and lemmas relate them.

Where the code and its own comments or documentation disagree, the model follows the code:

- The pivot of `clean_eu_klems_data.py` is not rounded. `df.round(3)` at line 106 discards its result, although the docstring at line 92 promises three decimals (`CleanEuKlems.PanelNotRounded`). The older `clean_data.py:71` does round (`CleanDataLegacy.PanelRounded`).
- `pivot_table` averages duplicate (key, label) cells rather than rejecting them (`Reshape.PivotAveragesDuplicates`).
- `_calculate_labour_compensation` divides by `hours_worked_persons`. The formula in the comment at `growth_accounting.py:6` divides by the employees' hours. For 100 of compensation, 2 hours of persons and 1 of employees, the code gives 150 and the comment 200 (`GrowthAccounting.LabourCompensationDiffersFromComment`).
- `get_share_of_intangible_sub_components_in_labour_productivity` returns the percentages unchanged. No share is computed from them.
- `str.split(country_code)[1]` in `_extract_file_name_from_href` is the text between the first and the second occurrence of the code, not everything after the first one. `strip("?dl=1")` strips a set of characters, not a suffix.
- Three error helpers are imported from `error_handling_utilities.py`, which does not define them: `raise_variable_none`, `raise_variable_wrong_type` and `raise_data_info_invalid`. Their behaviour is taken from the tests:
  - None raises ValueError;
  - a wrong type raises ValueError naming the expected type;
  - a data_info that is not a dictionary raises TypeError.
- The tests of `intangible_investment.py` call signatures and checks that `intangible_investment.py` does not define:
  - `(capital_accounts, national_accounts, country_code)`;
  - the "Index is not the same" check;
  - the warning above 100%;
  - `get_share_of_tangible_investment_per_gdp`.

  `CheckedInvestment` models that tested layer separately and cites only the tests. `IntangibleInvestment` models `intangible_investment.py` as written.

## Model

| member | source | states |
|---|---|---|
| Config.CountryCodesDistinct | src/measuring_intangible_capital/config.py:14 | The five main country codes are pairwise distinct. |
| Config.AggregateColumnsPartitionDetails | src/measuring_intangible_capital/analysis/intangible_investment.py:141-146 | The three aggregates' column lists are pairwise disjoint, and together they are exactly the eight detail categories. |
| Frames.SumColumnsAppend | src/measuring_intangible_capital/analysis/intangible_investment.py:150 | A row sum over two concatenated column lists is the sum of the two row sums. |
| Frames.SumColumnsNonNegative | src/measuring_intangible_capital/analysis/intangible_investment.py:79 | The row sum of non-negative cells is non-negative. |
| Rounding.RoundHalfEven | src/measuring_intangible_capital/analysis/intangible_investment.py:30 | The result is an integer within 0.5 of the input; on a tie it is even. |
| Rounding.Round3 | src/measuring_intangible_capital/analysis/intangible_investment.py:30 | `round(x, 3)` is within 0.0005 of x. |
| Rounding.Round3Idempotent | src/measuring_intangible_capital/data_management/clean_data.py:71 | Rounding a rounded value changes nothing. |
| Rounding.Round3NonNegative | src/measuring_intangible_capital/analysis/intangible_investment.py:30 | A non-negative value never rounds to a negative one. |
| Rounding.Round3Monotone | src/measuring_intangible_capital/analysis/intangible_investment.py:30 | Rounding preserves order. |
| DataManagementUtilities.Drop | src/measuring_intangible_capital/data_management/utilities.py:22 | KeyError, listing the missing labels, iff some label to drop is not a column. Otherwise every column not named goes through unchanged, no dropped label remains and the height is kept. |
| DataManagementUtilities.CastCategorical | src/measuring_intangible_capital/data_management/utilities.py:25 | KeyError iff no column has the label. Otherwise the labels and height are unchanged. |
| DataManagementUtilities.MarkCategorical | src/measuring_intangible_capital/data_management/utilities.py:25 | Exactly the columns with the label become categorical. Labels and cells are kept. |
| DataManagementUtilities.Rename | src/measuring_intangible_capital/data_management/utilities.py:27 | Each column takes its mapped label, or keeps its own if unmapped. Mapping keys that are not columns are ignored. Cells and categorical flags are kept. |
| DataManagementUtilities.CleanData | src/measuring_intangible_capital/data_management/utilities.py:22-27 | The loop of casts, between the drop and the rename, computes exactly drop, then the casts in list order, then the rename. |
| DataManagementUtilities.CastAllResult | src/measuring_intangible_capital/data_management/utilities.py:24-25 | The casts succeed iff every label is a column; the first missing label raises KeyError. On success exactly the listed columns are newly categorical, and nothing else changes. |
| DataManagementUtilities.CleanResult | src/measuring_intangible_capital/data_management/utilities.py:22-27 | `clean_data` succeeds iff every label to drop is a column and every categorical label survives the drop. Its columns are then the kept columns, renamed. |
| DataManagementUtilities.CleanCategoricalRenamed | src/measuring_intangible_capital/data_management/utilities.py:24-27 | Each categorical label ends up categorical under its renamed label; the cast happens before the rename. |
| DataManagementUtilities.CleanDroppedAbsent | src/measuring_intangible_capital/data_management/utilities.py:22-27 | A dropped label is absent from the result unless the rename produces it again. |
| DataManagementUtilities.CleanUnmappedKept | src/measuring_intangible_capital/data_management/utilities.py:27 | Columns the mapping does not mention keep their labels. |
| DataManagementUtilities.CleanValid | src/measuring_intangible_capital/data_management/utilities.py:22-27 | A well-formed frame stays well formed: every column has one cell per row, at the same height. |
| DataUtilities.CleanData | src/measuring_intangible_capital/data_management/data_utilities.py:4-27 | The second copy of `clean_data` returns exactly what the first returns, for every input. |
| Text.Find | src/measuring_intangible_capital/data_management/download/eu_klems_download.py:37 | The first position of a substring, or None iff it does not occur. |
| Text.SplitSecond | src/measuring_intangible_capital/data_management/download/eu_klems_download.py:37 | `split(sep)[1]`: ValueError for an empty separator, IndexError when the separator does not occur. On success the piece does not contain the separator. |
| Text.Strip | src/measuring_intangible_capital/data_management/download/eu_klems_download.py:37 | The result is a slice of the input whose first and last characters are outside the stripped set. |
| Text.ReplacePercent20Complete | src/measuring_intangible_capital/data_management/download/eu_klems_download.py:38 | After replacing "%20" with "_", no "%20" is left. |
| Text.FirstWord | src/measuring_intangible_capital/data_management/clean_gdp_data.py:64 | `split(" ")[0]` is a prefix with no space, and a label without a space is unchanged. |
| Text.FirstWordIdempotent | src/measuring_intangible_capital/data_management/clean_gdp_data.py:64 | Taking the first word twice is the same as taking it once. |
| Text.FirstWordBeforeSpace | src/measuring_intangible_capital/data_management/clean_gdp_data.py:55 | The first word of `a + " " + b` is `a` when `a` has no space. |
| Text.IntToDecimalRoundTrip | src/measuring_intangible_capital/data_management/clean_eu_klems_data.py:142-152 | Parsing `str(n)` as an integer gives back n. |
| Text.ParseIntPlusSign | src/measuring_intangible_capital/data_management/clean_gdp_data.py:96 | "+2000" parses as 2000, as Python `int()` does. |
| Text.ParseIntWhitespace | src/measuring_intangible_capital/data_management/clean_gdp_data.py:96 | " 2000 " parses as 2000: surrounding whitespace is ignored. |
| Text.ParseIntUnderscores | src/measuring_intangible_capital/data_management/clean_gdp_data.py:96 | "2_000" parses as 2000; "2__000" is rejected. |
| Text.ParseIntRejectsWorldBankLabel | src/measuring_intangible_capital/data_management/clean_gdp_data.py:96 | A World Bank label "2000 [YR2000]" that was not renamed does not parse. |
| Text.IntToDecimalInjective | src/measuring_intangible_capital/data_management/clean_eu_klems_data.py:142 | Different years have different column labels. |
| Text.FourDigitLabel | src/measuring_intangible_capital/data_management/clean_eu_klems_data.py:142 | `str(y)` of a four-digit year spells its four digits. |
| Utilities.ZipMap | src/measuring_intangible_capital/utilities.py:62 | `dict(zip(keys, values))` has exactly the keys paired up to the shorter list. |
| Utilities.ZipMapAt | src/measuring_intangible_capital/utilities.py:62-69 | With distinct keys of equal-length lists, key i maps to value i. |
| Utilities.LookUp | src/measuring_intangible_capital/utilities.py:69 | `Series.map(dict)` on a cell: a name iff the cell is a code in the map, otherwise missing. |
| Utilities.AddCountryName | src/measuring_intangible_capital/utilities.py:44-69 | A non-frame raises ValueError, then a frame without country_code raises ValueError. An empty column returns the input frame itself. Otherwise there is one lookup per row, in order, in the mode's map. |
| Utilities.AddCountryNameMainCountries | src/measuring_intangible_capital/utilities.py:71-82 | A non-frame raises ValueError. Otherwise each row's code is looked up among the main country codes and gets the name at the same position. |
| Utilities.AddCountryNameExtendedCountries | src/measuring_intangible_capital/utilities.py:84-95 | A non-frame raises ValueError. Otherwise each row's code is looked up among the extended country codes and gets the name at the same position. |
| Utilities.AddCountryNameAllCountries | src/measuring_intangible_capital/utilities.py:97-107 | A non-frame raises ValueError. Otherwise each row's code is looked up among all country codes and gets the name at the same position. |
| Utilities.MainCountryNamed | src/measuring_intangible_capital/utilities.py:62-69 | In the main mode, a row holding the j-th main code gets the j-th country name. |
| Utilities.UnknownModeIsMain | src/measuring_intangible_capital/utilities.py:62-67 | Any mode other than "extended" and "all" behaves as "main". |
| Utilities.FileNamesFor | src/measuring_intangible_capital/utilities.py:128-133 | All file names for a code other than SK. For SK, the names other than "growth_accounts" (membership); their order is stated by the lemmas below. |
| Utilities.FileNamesForAppend | src/measuring_intangible_capital/utilities.py:130-132 | The SK list comprehension keeps order: the names kept from a split list are those kept from its first part followed by those kept from the rest. |
| Utilities.FileNamesForWithoutGrowth | src/measuring_intangible_capital/utilities.py:130-132 | A name list without "growth_accounts" is kept whole and in order for SK. |
| Utilities.FileNamesForSkipsGrowth | src/measuring_intangible_capital/utilities.py:130-132 | For SK, a list a + ["growth_accounts"] + b gives exactly a + b. |
| Utilities.GetEuKlemsDownloadPaths | src/measuring_intangible_capital/utilities.py:109-138 | A non-string code raises ValueError, then an unknown code raises ValueError. Otherwise there is one entry per file name, in order, with path download/code/name.xlsx. |
| Utilities.DownloadPathsKeys | src/measuring_intangible_capital/utilities.py:128-138 | The keys are the names FileNamesFor lists, in that order: for a valid code other than SK exactly the file names, and for SK "growth_accounts" is missing. Every path contains the country code. |
| Utilities.SkDownloadKeys | src/measuring_intangible_capital/utilities.py:128-138 | With distinct configured names a + ["growth_accounts"] + b, the SK keys are exactly a + b, in order. |
| Utilities.GetAccountDataPathForCountries | src/measuring_intangible_capital/utilities.py:141-149 | One path clean/code/key_accounts.pkl per code, in input order. |
| Utilities.GetAccountDataPathForAllCountries | src/measuring_intangible_capital/utilities.py:141-149 | The default argument is all country codes: one path per code, in order, ending in the code and "<key>_accounts.pkl". |
| Utilities.AccountDataPathsDistinct | src/measuring_intangible_capital/utilities.py:145-148 | Different countries get different paths. |
| EuKlemsDownload.LinkNameMatches | src/measuring_intangible_capital/data_management/download/eu_klems_download.py:13-21 | The alternation matches iff some file name occurs in the text. |
| EuKlemsDownload.FindAll | src/measuring_intangible_capital/data_management/download/eu_klems_download.py:72 | A link is found iff it is on the page and has a text that matches; the page order is stated by the lemmas below. |
| EuKlemsDownload.FindAllAppend | src/measuring_intangible_capital/data_management/download/eu_klems_download.py:72 | The links found on a page split at any point are those found on its first part followed by those found on the rest. |
| EuKlemsDownload.FindAllSingle | src/measuring_intangible_capital/data_management/download/eu_klems_download.py:72 | A single link is found iff its text matches. |
| EuKlemsDownload.ExtractFileNameFromHref | src/measuring_intangible_capital/data_management/download/eu_klems_download.py:24-38 | Succeeds iff the code is non-empty and occurs in the href (ValueError or IndexError otherwise). The name never contains "%20". |
| EuKlemsDownload.ExtractSimpleHref | src/measuring_intangible_capital/data_management/download/eu_klems_download.py:37-38 | An href `<head><code>_<p>%20<q>?dl=1` yields the file name `<p>_<q>`. |
| EuKlemsDownload.ExtractFileNameExample | src/measuring_intangible_capital/data_management/download/eu_klems_download.py:27-28 | The documented href with "SK" yields "intangible_analytical.xlsx". |
| EuKlemsDownload.KeptHrefs | src/measuring_intangible_capital/data_management/download/eu_klems_download.py:74-80 | Every kept href contains the code and does not start with "#"; the page order is stated by the lemmas below. |
| EuKlemsDownload.KeptHrefsMembers | src/measuring_intangible_capital/data_management/download/eu_klems_download.py:74-80 | An href is kept iff some link carries it, it is not None, it does not start with "#" and it contains the code. |
| EuKlemsDownload.KeptHrefsAppend | src/measuring_intangible_capital/data_management/download/eu_klems_download.py:74-80 | The hrefs kept from a list split at any point are those kept from its first part followed by those kept from the rest. |
| EuKlemsDownload.KeptHrefsSingle | src/measuring_intangible_capital/data_management/download/eu_klems_download.py:74-80 | A single link contributes its href iff it passes the filter. |
| EuKlemsDownload.GetUrlsFileNamesByCountry | src/measuring_intangible_capital/data_management/download/eu_klems_download.py:51-82 | The urls are the kept hrefs of the matching links, in page order. The file names are, pairwise, their extracted names, so the two lists have equal length. An empty code raises iff some link is kept. |
| EuKlemsDownload.PageUrlsAppend | src/measuring_intangible_capital/data_management/download/eu_klems_download.py:72-80 | The urls of a page split at any point are the urls of its first part followed by those of the rest. |
| EuKlemsDownload.PageUrlsInOrder | src/measuring_intangible_capital/data_management/download/eu_klems_download.py:72-80 | Two matching, kept links give their two urls in page order. |
| Reshape.SetIndex | src/measuring_intangible_capital/data_management/clean_eu_klems_data.py:77 | KeyError iff the key column is missing. Otherwise the key column becomes the row index, and each row keeps the other cells by label. |
| Reshape.SetIndexColumns | src/measuring_intangible_capital/data_management/clean_eu_klems_data.py:77 | After set_index every other column is still there, categorical if it was, with its cells. |
| Reshape.ColumnsWithout | src/measuring_intangible_capital/data_management/clean_gdp_data.py:92 | The melt's value columns: exactly the columns not labelled with the id. |
| Reshape.Concat | src/measuring_intangible_capital/data_management/clean_eu_klems_data.py:119-124 | An empty list raises ValueError. A missing label column raises KeyError. Otherwise the sheets' rows follow one another in list order, the columns are their union and the label column is the only categorical column. |
| Reshape.ConcatColumnsDistinct | src/measuring_intangible_capital/data_management/clean_eu_klems_data.py:119 | The concatenated frame has no repeated column label. |
| Reshape.ConcatRowsInOrder | src/measuring_intangible_capital/data_management/clean_eu_klems_data.py:119 | The first sheet's rows come first, followed by the rest in order. |
| Reshape.ConcatRowsLength | src/measuring_intangible_capital/data_management/clean_eu_klems_data.py:119 | The concatenation has as many rows as all sheets together. |
| Reshape.YearColumns | src/measuring_intangible_capital/data_management/clean_eu_klems_data.py:142 | One value column per year, labelled `str(year)`. |
| Reshape.YearLabels | src/measuring_intangible_capital/data_management/clean_eu_klems_data.py:142 | `list(map(str, years))` holds exactly the years' labels. |
| Reshape.YearLabelsPresent | src/measuring_intangible_capital/data_management/clean_eu_klems_data.py:142-145 | No year label is missing iff every year has its column. |
| Reshape.Melt | src/measuring_intangible_capital/data_management/clean_eu_klems_data.py:142-154 | KeyError for missing id columns, then for missing year columns. It succeeds iff all are present, and the result is the rows year by year. |
| Reshape.MeltRowsLength | src/measuring_intangible_capital/data_management/clean_eu_klems_data.py:144-150 | Each input row yields one row per year. |
| Reshape.MeltRowsAt | src/measuring_intangible_capital/data_management/clean_eu_klems_data.py:144-150 | Row `y * n + i` comes from input row i and year y. |
| Reshape.MeltRowsFrom | src/measuring_intangible_capital/data_management/clean_eu_klems_data.py:144-150 | Every melted row comes from some input row and some year. |
| Reshape.MeltShape | src/measuring_intangible_capital/data_management/clean_eu_klems_data.py:144-152 | The melt has |years| × rows rows. The row for year y and input row i keeps the index, label and country, takes the cell under `str(year)`, and carries the year as an integer. |
| Reshape.MeltYearsFromRange | src/measuring_intangible_capital/data_management/clean_eu_klems_data.py:144-152 | Every melted row carries one of the requested years. |
| Reshape.RenameCategories | src/measuring_intangible_capital/data_management/clean_eu_klems_data.py:192 | ValueError iff two categories would get the same name. Otherwise the row count is kept, mapped labels are renamed, other labels are unchanged and nothing else changes. |
| Reshape.RenameCategoriesKeepsDistinct | src/measuring_intangible_capital/data_management/clean_eu_klems_data.py:192 | A successful rename keeps different labels different. |
| Reshape.GroupValues | src/measuring_intangible_capital/data_management/clean_eu_klems_data.py:100-105 | A cell's group is non-empty when a row matches it, and every value in it comes from a matching row. |
| Reshape.ValuedLabels | src/measuring_intangible_capital/data_management/clean_eu_klems_data.py:103 | The pivot's columns are exactly the labels of the rows that have a value. |
| Reshape.PivotMean | src/measuring_intangible_capital/data_management/clean_eu_klems_data.py:100-105 | There is one column per label that has a value, and no label repeats. |
| Reshape.PivotCell | src/measuring_intangible_capital/data_management/clean_eu_klems_data.py:100-105 | A key is present iff some row with a value has it. A cell is present iff some such row has that key and label, and it is then the mean of those rows. |
| Reshape.GroupValuesAppend | src/measuring_intangible_capital/data_management/clean_eu_klems_data.py:100-105 | Grouping distributes over concatenation. |
| Reshape.PivotSingleRow | src/measuring_intangible_capital/data_management/clean_eu_klems_data.py:100-105 | A cell fed by one row is that row's value, neither rounded nor rescaled. |
| Reshape.PivotAveragesDuplicates | src/measuring_intangible_capital/data_management/clean_eu_klems_data.py:100-105 | Two rows with the same key and label are averaged, not rejected. |
| Reshape.MeanBounds | src/measuring_intangible_capital/data_management/clean_eu_klems_data.py:100-105 | A mean lies between the bounds of its values. |
| Reshape.PivotCellWithinGroup | src/measuring_intangible_capital/data_management/clean_eu_klems_data.py:100-105 | Every pivot cell lies between the smallest and largest value that falls into it. |
| Reshape.RoundTable | src/measuring_intangible_capital/data_management/clean_data.py:71 | `round(3)` keeps columns, keys and cell positions, and rounds every value. |
| CleanEuKlems.EuKlemsYearsBounds | src/measuring_intangible_capital/data_management/clean_eu_klems_data.py:81 | `range(1995, 2020)` is the 25 years 1995..2019. |
| CleanEuKlems.RaiseDataInfoInvalid | src/measuring_intangible_capital/data_management/clean_eu_klems_data.py:206-208 | TypeError iff data_info is not a dictionary. |
| CleanEuKlems.RaiseKeysNotValid | src/measuring_intangible_capital/data_management/clean_eu_klems_data.py:198-204 | KeyError when "sheets_to_read" is missing, or when it lacks a required group. Passes otherwise. |
| CleanEuKlems.RaisePathInvalid | src/measuring_intangible_capital/data_management/clean_eu_klems_data.py:194-196 | TypeError, naming the argument, iff the path is not a Path. |
| CleanEuKlems.ReadDataChecks | src/measuring_intangible_capital/data_management/clean_eu_klems_data.py:19-22 | The checks run in order: data_info type, sheet keys, capital path, national path. Passes iff all hold. |
| CleanEuKlems.ReadGrowthAccountsChecks | src/measuring_intangible_capital/data_management/clean_eu_klems_data.py:48-50 | The checks run in order: data_info type, "growth_accounts" present, path. Passes iff all hold. |
| CleanEuKlems.EmptySheetsToReadRefused | src/measuring_intangible_capital/data_management/clean_eu_klems_data.py:198-204 | An empty "sheets_to_read" raises KeyError in both readers, whatever the paths. |
| CleanEuKlems.CleanSheets | src/measuring_intangible_capital/data_management/clean_eu_klems_data.py:75-78 | On success there is one cleaned, indexed sheet per input sheet. |
| CleanEuKlems.CleanSheetsPrefixError | src/measuring_intangible_capital/data_management/clean_eu_klems_data.py:75-78 | The first sheet that fails decides the error of the whole list. |
| CleanEuKlems.CleanAllSheets | src/measuring_intangible_capital/data_management/clean_eu_klems_data.py:73-78 | The append loop computes exactly the sheet-by-sheet cleaning, stopping at the first failure. |
| CleanEuKlems.ReshapePanel | src/measuring_intangible_capital/data_management/clean_eu_klems_data.py:60-86 | An empty sheet list raises ValueError (nothing to concatenate). |
| CleanEuKlems.CleanAndReshapeEuKlems | src/measuring_intangible_capital/data_management/clean_eu_klems_data.py:60-86 | The method computes clean, set_index, concat, melt over `years`, rename and pivot, failing at the first failing step. |
| CleanEuKlems.PanelYearsInRange | src/measuring_intangible_capital/data_management/clean_eu_klems_data.py:81-84 | Every panel key carries one of the requested years. |
| CleanEuKlems.PanelNotRounded | src/measuring_intangible_capital/data_management/clean_eu_klems_data.py:106 | A value of 0.0001 reaches the panel unchanged, although `round(3)` would give 0. |
| CleanEuKlems.ReshapeMeltError | src/measuring_intangible_capital/data_management/clean_eu_klems_data.py:80-81 | Sheets that clean and concatenate fail at the melt exactly as the melt fails. |
| CleanEuKlems.ReshapePanelAsWritten | src/measuring_intangible_capital/data_management/clean_eu_klems_data.py:81 | As written, the reshape melts the fixed years 1995..2019: an empty list raises ValueError, and every row of the panel lies in 1995..2019. |
| CleanEuKlems.AsWrittenRejectsShortYearRange | src/measuring_intangible_capital/data_management/clean_eu_klems_data.py:81 | Sheets with year columns 1995..1997 and no "2019" raise KeyError as written, while melting their own years succeeds. |
| CleanEuKlems.MeltRejectsMissingLastYear | src/measuring_intangible_capital/data_management/clean_eu_klems_data.py:81 | A frame without the column "2019" cannot be melted over 1995..2019. |
| CleanEuKlems.MeltMockYears | tests/data_management/test_clean_eu_klems_data.py:149-155 | A frame with the id columns and the columns 1995..1997 melts over those years. |
| CleanDataLegacy.CompleteRows | src/measuring_intangible_capital/data_management/clean_data.py:93 | Exactly the complete rows, in increasing order. |
| CleanDataLegacy.DropNa | src/measuring_intangible_capital/data_management/clean_data.py:93 | `dropna()` keeps exactly the complete rows, in order, in every column. |
| CleanDataLegacy.DropNaComplete | src/measuring_intangible_capital/data_management/clean_data.py:93 | After dropna no cell is missing, every complete row survives and the height does not grow. |
| CleanDataLegacy.CleanData | src/measuring_intangible_capital/data_management/clean_data.py:76-102 | The cast loop computes drop, dropna, the casts, the rename and set_index. |
| CleanDataLegacy.CastRenameComplete | src/measuring_intangible_capital/data_management/clean_data.py:93-98 | After dropna, the casts and the rename, no cell is missing. |
| CleanDataLegacy.CleanSheetComplete | src/measuring_intangible_capital/data_management/clean_data.py:92-100 | A cleaned sheet has no missing index and no missing cell. |
| CleanDataLegacy.CleanSheets | src/measuring_intangible_capital/data_management/clean_data.py:56-57 | On success there is one cleaned sheet per input sheet. |
| CleanDataLegacy.CleanSheetsPrefixError | src/measuring_intangible_capital/data_management/clean_data.py:56-57 | The first sheet that fails decides the error. |
| CleanDataLegacy.ReshapePanel | src/measuring_intangible_capital/data_management/clean_data.py:41-74 | An empty sheet list raises ValueError. |
| CleanDataLegacy.CleanAndReshapeEuKlems | src/measuring_intangible_capital/data_management/clean_data.py:41-74 | The loop and the chain compute clean, concat, melt over 1995..2019, rename, pivot and round. |
| CleanDataLegacy.PanelRounded | src/measuring_intangible_capital/data_management/clean_data.py:71 | Every value of the older panel is already rounded to three decimals. |
| CleanDataLegacy.PanelYearsFixed | src/measuring_intangible_capital/data_management/clean_data.py:61-62 | Every key of the older panel has a year in 1995..2019. |
| CleanGdp.ReadDataChecks | src/measuring_intangible_capital/data_management/clean_gdp_data.py:27-30 | The checks run in order: None path, None data_info, data_info not a dict (TypeError), path not a Path (ValueError naming `<class 'pathlib.Path'>`). Passes iff both are given. |
| CleanGdp.RenameYearColumns | src/measuring_intangible_capital/data_management/clean_gdp_data.py:52-65 | Every label becomes its text before the first space: a prefix with no space, unchanged if it had none. Cells and flags are kept. |
| CleanGdp.RenameYearColumnsIdempotent | src/measuring_intangible_capital/data_management/clean_gdp_data.py:64 | Renaming twice equals renaming once. |
| CleanGdp.WorldBankYearLabel | src/measuring_intangible_capital/data_management/clean_gdp_data.py:55 | "2000 [YR2000]" becomes "2000". |
| CleanGdp.ParseYears | src/measuring_intangible_capital/data_management/clean_gdp_data.py:96 | Succeeds iff every value label parses as Python `int()` parses a string: surrounding whitespace, an optional sign, and digits with single underscores between them. Each label gives its year. Otherwise the error names a label that does not parse. |
| CleanGdp.YearRows | src/measuring_intangible_capital/data_management/clean_gdp_data.py:91-95 | One value column yields one row per frame row, with that row's code, the year and the cell. |
| CleanGdp.MakeYearSeparateColumn | src/measuring_intangible_capital/data_management/clean_gdp_data.py:81-97 | KeyError without a country_code column. Otherwise the only possible error is a year label that Python `int()` rejects (whitespace, sign and underscores accepted). |
| CleanGdp.MakeYearSeparateColumnRows | src/measuring_intangible_capital/data_management/clean_gdp_data.py:91-96 | A successful melt is the value columns' rows one after another, each with its parsed year. |
| CleanGdp.GdpRowsLength | src/measuring_intangible_capital/data_management/clean_gdp_data.py:91-95 | The melt has rows × (columns − 1) rows. |
| CleanGdp.GdpRowsAt | src/measuring_intangible_capital/data_management/clean_gdp_data.py:91-95 | Row `j * height + i` holds row i's code, column j's year and the cell. |
| CleanGdp.GdpRowsFrom | src/measuring_intangible_capital/data_management/clean_gdp_data.py:91-95 | Every melted row comes from one frame row and one value column. |
| CleanGdp.NonIntegerYearRejected | src/measuring_intangible_capital/data_management/clean_gdp_data.py:96 | A value label that Python `int()` rejects, such as "2000 [YR2000]", makes the Int16 cast raise. |
| CleanGdp.RenameCountryCode | src/measuring_intangible_capital/data_management/clean_gdp_data.py:68-78 | Each code in the map becomes its mapped code, any other code becomes missing, and year and value are kept. |
| CleanGdp.GdpPerCapita | src/measuring_intangible_capital/data_management/clean_gdp_data.py:44-49 | The chain fails only with KeyError for a missing label or a non-integer year. |
| CleanGdp.CleanGdpPerCapita | src/measuring_intangible_capital/data_management/clean_gdp_data.py:39-49 | The checks run in order: None raw, None data_info, data_info not a dict, raw not a frame. Then the result is the chain: clean, rename years, melt, map codes. |
| CleanGdp.GdpRowsComplete | src/measuring_intangible_capital/data_management/clean_gdp_data.py:68-95 | With every code mapped and every value present, no melted row has a missing cell. |
| CleanGdp.GdpPerCapitaComplete | tests/data_management/test_clean_gdp_data.py:77-83 | If the sheet has no missing cell and every code is in the map, the result has no missing code or value. |
| AnalysisUtilities.PrepareAccounts | src/measuring_intangible_capital/analysis/utilities.py:17-20 | A (year, country) key is in the result iff (industry_code, year, country) is in the accounts, the year is in `years` and the country is selected. Its values and the columns are unchanged. |
| AnalysisUtilities.PreparedAccountsAligned | src/measuring_intangible_capital/analysis/utilities.py:8-20 | Two accounts prepared with the same years and country have the same keys, all from years × {country}. |
| AnalysisUtilities.PrepareAllCountries | src/measuring_intangible_capital/analysis/utilities.py:17 | None and "" select every country. |
| IntangibleInvestment.Share | src/measuring_intangible_capital/analysis/intangible_investment.py:17-30 | The share is within 0.0005 of investment / gdp × 100. |
| IntangibleInvestment.ShareNonNegative | src/measuring_intangible_capital/analysis/intangible_investment.py:30 | A non-negative investment over a positive GDP has a non-negative share. |
| IntangibleInvestment.ShareMonotone | src/measuring_intangible_capital/analysis/intangible_investment.py:30 | More investment over the same positive GDP never gives a smaller share. |
| IntangibleInvestment.ShareSeries | src/measuring_intangible_capital/analysis/intangible_investment.py:30 | Alignment: the index is the union of both indices. A value exists iff both sides have one and GDP ≠ 0, and it is then the share. |
| IntangibleInvestment.AggregateColumns | src/measuring_intangible_capital/analysis/intangible_investment.py:139-148 | Succeeds iff the mode is one of the three categories; otherwise ValueError("Invalid mode"). The columns are non-empty detail categories. |
| IntangibleInvestment.MarketRows | src/measuring_intangible_capital/analysis/intangible_investment.py:150 | `.loc[MARKT, year, :]` gives exactly the countries with a market-economy row that year, with those rows. |
| IntangibleInvestment.AggregateOver | src/measuring_intangible_capital/analysis/intangible_investment.py:150 | KeyError iff MARKT is not an industry code of the index (raised first), the year is not a year of the index, or a column is missing. Otherwise the sums, possibly empty: the index is the countries with a MARKT row for that year, and each value is the row sum of the columns. |
| IntangibleInvestment.AggregateOverEmptySelection | src/measuring_intangible_capital/analysis/intangible_investment.py:150 | When MARKT and the year are both used in the index but never in the same row, nothing is raised and the sums are an empty Series. |
| IntangibleInvestment.AggregateOverNoCommonRow | src/measuring_intangible_capital/analysis/intangible_investment.py:150 | Rows (MARKT, 2005, AT) and (TOT, 2006, AT) give an empty Series for 2006, not KeyError. |
| IntangibleInvestment.AggregateIntangibleInvestment | src/measuring_intangible_capital/analysis/intangible_investment.py:129-150 | The mode is checked first, then the row sum is taken over that mode's columns. |
| IntangibleInvestment.AggregateComputerizedInformation | src/measuring_intangible_capital/analysis/intangible_investment.py:93-103 | Equals the general aggregate for "computerized_information". |
| IntangibleInvestment.AggregateInnovativeProperty | src/measuring_intangible_capital/analysis/intangible_investment.py:105-115 | Equals the general aggregate for "innovative_property". |
| IntangibleInvestment.AggregateEconomicCompetencies | src/measuring_intangible_capital/analysis/intangible_investment.py:117-127 | Equals the general aggregate for "economic_competencies". |
| IntangibleInvestment.AggregatesSumToDetails | src/measuring_intangible_capital/analysis/intangible_investment.py:141-146 | For every country the three aggregates add up to the sum over all eight detail categories. |
| IntangibleInvestment.MergedRow | src/measuring_intangible_capital/analysis/intangible_investment.py:79-87 | A merged row holds the investment level and the national row's cells. Its share exists iff GDP is present and ≠ 0, and is then Share(level, gdp). |
| IntangibleInvestment.MergedRowShareNonNegative | src/measuring_intangible_capital/analysis/intangible_investment.py:85-87 | Non-negative capital cells and positive GDP give a non-negative share. |
| IntangibleInvestment.GetShareOfIntangibleInvestmentPerGdp | src/measuring_intangible_capital/analysis/intangible_investment.py:64-91 | KeyError iff capital has no rows (its empty sum leaves the new frame without "year", so the merge raises, first) or national has no gdp column. The keys are the intersection (inner merge), and each row is the merged row of the capital row sum. Shares are non-negative for non-negative capital and positive GDP. |
| IntangibleInvestment.AssignColumn | src/measuring_intangible_capital/analysis/intangible_investment.py:157 | `df[name] = s`: a frame without rows takes a non-empty Series' index as its own, even when it has columns, and its other cells are missing. Otherwise s is aligned to the frame's index. Other cells are kept. |
| IntangibleInvestment.AssignColumnIdempotent | src/measuring_intangible_capital/analysis/intangible_investment.py:157 | Assigning the same Series to the same column twice gives the same frame as assigning it once. |
| IntangibleInvestment.CategoryColumns | src/measuring_intangible_capital/analysis/intangible_investment.py:155-158 | The j-th category's columns are the ones its mode selects. |
| IntangibleInvestment.AssignFilled | src/measuring_intangible_capital/analysis/intangible_investment.py:155-160 | One loop pass adds the next category's share column and keeps the earlier ones. |
| IntangibleInvestment.GetIntangibleInvestmentAggregateTypes | src/measuring_intangible_capital/analysis/intangible_investment.py:152-161 | KeyError iff MARKT is not an industry code of the index, 2006 is not a year of the index, or a detail column is missing. Otherwise the columns are the three categories in order, the index is the market countries together with GDP's index, and each cell is that category's 2006 share of GDP. |
| CheckedInvestment.CheckAccounts | tests/analysis/test_intangible_investment.py:38-68 | A non-frame raises ValueError naming the argument. A frame missing a required column raises "has the wrong columns". |
| CheckedInvestment.CheckedShareOfIntangibleInvestmentPerGdp | tests/analysis/test_intangible_investment.py:38-95 | The capital checks come first, then the national checks. The rows are the merged rows of the detail sum on the common keys, and the warning is raised iff some share exceeds 100. |
| CheckedInvestment.LargeInvestmentWarns | tests/analysis/test_intangible_investment.py:70-78 | An investment of at least twice a positive GDP succeeds and warns. |
| CheckedInvestment.CheckIndexSame | tests/analysis/test_intangible_investment.py:145-154 | ValueError "Index is not the same" iff the key sets differ. |
| CheckedInvestment.CheckedAggregateTypes | tests/analysis/test_intangible_investment.py:145-162 | Differing indices raise. Otherwise the columns are the three categories, the keys are capital's keys and each cell is the category's share of GDP. |
| CheckedInvestment.CheckedShareOfTangibleInvestmentPerGdp | tests/analysis/test_intangible_investment.py:164-191 | Differing indices raise. Otherwise the only column is share_tangible and the index is capital's. |
| LabourProductivity.RaiseLengthMismatch | src/measuring_intangible_capital/analysis/labour_productivity.py:28-32 | ValueError reporting the actual length and 3, iff the length is not 3. |
| LabourProductivity.PercentagesChecks | src/measuring_intangible_capital/analysis/labour_productivity.py:17-19 | The checks run in order: None, not a list (naming `<class 'list'>`), then the length. All raise ValueError. |
| LabourProductivity.GetShareOfIntangibleSubComponentsInLabourProductivity | src/measuring_intangible_capital/analysis/labour_productivity.py:9-26 | Fails exactly as the checks do. Otherwise the index is the three aggregate categories and the values are the percentages, unscaled. |
| LabourProductivity.PercentTable | src/measuring_intangible_capital/analysis/labour_productivity.py:35-62 | SK is absent, and every entry has three values. |
| LabourProductivity.PercentTableEntriesPass | src/measuring_intangible_capital/analysis/labour_productivity.py:49-60 | There are ten countries, including every main country but SK, and every entry passes the checks. |
| GrowthAccounting.LabourCompensation | src/measuring_intangible_capital/analysis/growth_accounting.py:5-13 | With no self-employed hours it equals the compensation of employees. |
| GrowthAccounting.LabourCompensationBounds | src/measuring_intangible_capital/analysis/growth_accounting.py:7-13 | For 0 < employees' hours ≤ persons' hours it lies between COMP and 2·COMP. |
| GrowthAccounting.LabourCompensationDiffersFromComment | src/measuring_intangible_capital/analysis/growth_accounting.py:6-13 | The code's formula and the comment's formula disagree (150 vs 200). |
| GrowthAccounting.Adjusted | src/measuring_intangible_capital/analysis/growth_accounting.py:19-30 | Labour plus capital equals GDP. A non-negative remainder is left unchanged. GDP ≥ 0 gives non-negative capital. |
| GrowthAccounting.CalculateCapitalCompensation | src/measuring_intangible_capital/analysis/growth_accounting.py:15-32 | Every row is the corrected split: rows with a negative remainder get 95%/5% of GDP, other rows are unchanged. Labour plus capital equals GDP in every row, and capital is non-negative when GDP is. |
| GrowthAccounting.GrowthAccountingMain | src/measuring_intangible_capital/analysis/growth_accounting.py:34-44 | Exactly the two columns. Each row is the corrected split of GDP and the row's labour compensation, and the two add up to GDP. |

## Findings

| source | as written | input that shows it | evidently intended | confidence | as-written member | corrected member |
|---|---|---|---|---|---|---|
| src/measuring_intangible_capital/data_management/clean_eu_klems_data.py:60-62,81 | `clean_and_reshape_eu_klems` has no `years` parameter and always melts `range(1995, 2020)`. | The calls with `years=` in src/measuring_intangible_capital/data_management/task_clean_and_reshape_eu_klems.py:63-71 and tests/data_management/test_clean_eu_klems_data.py:150-154 do not fit the signature. Sheets whose year columns are 1995..1997 (no "2019") fail at the melt with KeyError. | Melt the years the caller passes, as the task file and the tests expect. | high that the signature and the callers disagree; not executed | CleanEuKlems.ReshapePanelAsWritten, CleanEuKlems.AsWrittenRejectsShortYearRange | CleanEuKlems.CleanAndReshapeEuKlems, CleanEuKlems.PanelYearsInRange |

## Left out

- `CleanGdp.ParseYears`: parses labels with Python `int()`'s ASCII grammar. `int()` also accepts non-ASCII decimal digits and non-ASCII whitespace; those labels are rejected here.
- `CleanGdp.MakeYearSeparateColumn`: the same grammar as `CleanGdp.ParseYears`. The Int16 range is not checked: a year label outside -32768..32767 would make the cast raise, and here it gives its year.
- File and network I/O:
  - the Excel reads in `read_data` and `read_growth_accounts` after their checks;
  - `read_data` of the GDP pipeline after its checks;
  - `read_yaml`;
  - the pickle reads of `get_country_total_gdp_investment`;
  - `get_eu_klems_download_page` and `urlretrieve`.
- The import-time scripts at the end of `clean_data.py` (lines 162-180) and of `growth_accounting.py` (lines 46-58), and the plotting and task files. They only wire the modelled functions together.
- pandas dtype bookkeeping is not modelled: Int16 and Int32 year columns, categorical index levels and float64 value dtypes. Only the categorical flag of columns is kept.
- Exact error-message texts are not modelled. Each error carries the data its message names, and its Python class.
- Floating point:
  - values are exact reals, and `Round3` is exact round-half-even;
  - binary representation effects are not modelled;
  - where pandas would produce inf or NaN from a zero GDP, the model leaves the share cell without a value.
- Series alignment by index inside `_calculate_capital_compensation` and `main` is not modelled.
- `GrowthAccounting.CalculateCapitalCompensation`: it takes GDP and labour compensation as row-aligned sequences of equal length. Alignment of differently indexed frames is not modelled.
- `GrowthAccounting.LabourCompensation`: requires a non-zero `hours_worked_persons`. pandas would give inf or NaN for zero hours.
- `AnalysisUtilities.PrepareAccounts`: selects the present labels. pandas raises KeyError when the industry code, a given country code or any of the years is absent from its level of the index; none of these errors is modelled, and the model returns the rows that are present.
- `IntangibleInvestment.GetShareOfIntangibleInvestmentPerGdp`:
  - the keys stay keys instead of turning into columns at `reset_index` (line 90);
  - a national column named investment_level or share_intangible is overwritten; pandas would suffix it `_x`/`_y` in the merge.
- `Reshape.PivotMean`: its columns are in order of first appearance. pandas sorts the pivot's columns. Cell contents do not depend on the order.
- `Reshape.Concat`: only the label column is categorical in the result. pandas also keeps another column categorical when every sheet holds it with the same categories, and turns mismatched categoricals into object columns; the model treats every other column as not categorical.
- `Reshape.RenameCategories`: the categories are the labels the rows hold. pandas renames the declared categories of the column, which the cast after the concatenation takes from the same labels; they differ only when the melt leaves no rows, where a clash among the declared categories would still raise ValueError.
- `CheckedInvestment.CheckedShareOfTangibleInvestmentPerGdp`: the value of share_tangible is taken as the share of the tangible_assets column, as the fixture's column name suggests. The function is not part of this model's source files, so only its index and column are promised.
- `CheckedInvestment.CheckedShareOfIntangibleInvestmentPerGdp`: the tests do not pin the order of the capital and national checks; capital is checked first. The `country_code` argument of the tested signatures is not modelled.
- `get_composition_of_value_added` is called by the tests; its definition is not part of this model.
- `EuKlemsDownload.LinkNameMatches`: the regular-expression alternation is matched as a plain substring search. This assumes, as the configured file names do, that the names hold no regular-expression metacharacters. BeautifulSoup's `string=` match is taken as a match on the link's own text.
