/** The project's configuration: the constants the modelled code uses.
    Only the main country codes are spelled out in the project's own
    configuration file; the other lists and paths come from a configuration
    module that is not part of this model, so they are fields of `Settings`
    and only the facts the code relies on are stated about them. */
module Config {
  import opened Frames

  /** The five countries of the main analysis. */
  const CountryCodes: seq<string> := ["AT", "CZ", "DK", "EL", "SK"]

  /** Industry code of the market-economy totals in the capital accounts. */
  const CapitalAccountIndustryCode: string := "MARKT"

  /** Industry code of the whole-economy totals in the national accounts. */
  const NationalAccountIndustryCode: string := "TOT"

  /** The three intangible aggregates, in the order the analysis reports them. */
  const ComputerizedInformation: string := "computerized_information"
  const InnovativeProperty: string := "innovative_property"
  const EconomicCompetencies: string := "economic_competencies"
  const IntangibleAggregateCategories: seq<string> :=
    [ComputerizedInformation, InnovativeProperty, EconomicCompetencies]

  /** The detail columns of each aggregate. */
  const ComputerizedInformationColumns: seq<string> :=
    ["software_and_databases", "research_and_development"]
  const InnovativePropertyColumns: seq<string> :=
    ["entertainment_and_artistic", "new_financial_product", "design"]
  const EconomicCompetenciesColumns: seq<string> :=
    ["organizational_capital", "brand", "training"]

  /** The eight detail categories of intangible investment. */
  const IntangibleDetailCategories: seq<string> :=
    ComputerizedInformationColumns + InnovativePropertyColumns + EconomicCompetenciesColumns

  /** The configuration values that are not spelled out in the project's own configuration file. */
  datatype Settings = Settings(
    countries: seq<string>,               // display names of CountryCodes, pairwise
    countryCodesExtended: seq<string>,
    countriesExtended: seq<string>,
    allCountryCodes: seq<string>,
    allCountries: seq<string>,
    allCountryCodesMap: map<string, string>, // World Bank 3-letter code -> 2-letter code
    euKlemsFileNames: seq<string>,
    filesToDownloadNames: seq<string>,
    downloadPath: Path,
    dataCleanPath: Path)
  {
    /** The facts the modelled code relies on. */
    predicate Valid() {
      && |countries| == |CountryCodes|
      && |countriesExtended| == |countryCodesExtended|
      && |allCountries| == |allCountryCodes|
      && "SK" in allCountryCodes
      && (forall c :: c in CountryCodes ==> c in allCountryCodes)
      && (forall i, j :: 0 <= i < j < |euKlemsFileNames| ==> euKlemsFileNames[i] != euKlemsFileNames[j])
    }
  }

  /** The main country codes are pairwise distinct. */
  lemma CountryCodesDistinct()
    ensures forall i, j :: 0 <= i < j < |CountryCodes| ==> CountryCodes[i] != CountryCodes[j]
  {
  }

  /** The three aggregates' columns are pairwise disjoint and make up the eight detail categories. */
  lemma AggregateColumnsPartitionDetails()
    ensures |IntangibleDetailCategories| == 8
    ensures forall c :: c in ComputerizedInformationColumns ==> c !in InnovativePropertyColumns && c !in EconomicCompetenciesColumns
    ensures forall c :: c in InnovativePropertyColumns ==> c !in EconomicCompetenciesColumns
    ensures forall c :: c in IntangibleDetailCategories <==>
      c in ComputerizedInformationColumns || c in InnovativePropertyColumns || c in EconomicCompetenciesColumns
  {
  }
}
