/** Optional values, results, and the exceptions the modelled code raises. */
module Wrappers {

  datatype Option<+T> = None | Some(value: T)

  /** The Python exception class behind an `Error`. */
  datatype PyException = KeyError | TypeError | ValueError | AttributeError | IndexError

  /** Every exception the modelled functions raise, with the data its message carries. */
  datatype Error =
    | MissingKeys(keys: seq<string>)                 // labels that are not in an axis
    | MissingSheetsToRead                            // data_info has no "sheets_to_read"
    | MissingSheetGroup(groups: seq<string>)         // "sheets_to_read" lacks a required group
    | DataInfoNotDict                                // data_info is not a dictionary
    | NotAPath(argument: string)                     // a path argument is not a pathlib.Path
    | ArgumentIsNone(argument: string)               // a required argument is None
    | WrongType(argument: string, expectedType: string)  // an argument has the wrong Python type
    | NotAFrame(argument: string)                    // a frame method called on a non-frame
    | NoObjectsToConcatenate                         // pandas.concat of an empty list
    | CategoriesNotUnique                            // rename_categories made two categories equal
    | YearNotInteger(yearLabel: string)              // a year label that is not an integer
    | InvalidMode                                    // an unknown aggregate category
    | LengthMismatch(actual: nat, expectedLength: nat)// a list of the wrong length
    | InputNotDataFrame                              // _add_country_name on a non-frame
    | NoCountryCodeColumn                            // a frame without a country_code column
    | CountryCodeNotString                           // a country code that is not a str
    | CountryCodeNotValid(code: string)              // a country code outside the known codes
    | EmptySeparator                                 // str.split("")
    | IndexOutOfRange                                // indexing past the end of a list
    | IndexNotSame                                   // capital and national indices differ
    | MissingIndustryCode(industryCode: string)      // an industry code the index does not use
    | MissingYear(year: int)                         // a year the index does not use
    | WrongColumns(argument: string)                 // a frame without the columns it needs
  {
    /** The exception class Python raises for this error. */
    function PythonClass(): PyException {
      match this
      case MissingKeys(_) => KeyError
      case MissingSheetsToRead => KeyError
      case MissingSheetGroup(_) => KeyError
      case MissingIndustryCode(_) => KeyError
      case MissingYear(_) => KeyError
      case DataInfoNotDict => TypeError
      case NotAPath(_) => TypeError
      case NotAFrame(_) => AttributeError
      case IndexOutOfRange => IndexError
      case _ => ValueError
    }
  }

  datatype Result<+T> = Ok(value: T) | Err(error: Error)

  /** The result of a check that either passes or raises. */
  datatype Outcome = Pass | Fail(error: Error)

  /** A dynamically typed Python argument: None, a value of the expected type, or anything else. */
  datatype Arg<+T> = NoneArg | Given(value: T) | OtherType
}
