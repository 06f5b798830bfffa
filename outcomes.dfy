/** The three ways a validation ends, plus the Python runtime errors that
    escape the validator on some inputs. */
module Outcomes {
  import opened JsonValues

  /** Causes of BadResponseFormatException: the data has the wrong shape. */
  datatype Mismatch =
    | EmptyResponse                               // "Empty response"
    | NotEmptyDict(value: Json)                   // "'...' is not an empty dict"
    | NotADict(value: Json)                       // "'...' is not a dict"
    | NotAnArray(value: Json)                     // "'...' is not an array"
    | IndexOutOfRange(array: Json, index: nat)    // "length of array '...' is lower than the index i"
    | EmptyArray                                  // "array should not be empty"
    | MissingKey(key: string, dict: Json)         // "key '...' is not in dict ..."

  /** Causes of MalformedStructureException: the structure string is bad. */
  datatype Defect =
    | UnmatchedParen(rest: string)  // "There is no matching end parenthesis in '...'"
    | BadArrayToken                 // "only <int> | '*' | '+' are allowed as array index arguments"

  /** Python errors that are neither exception kind. */
  datatype Fault =
    | LevelIndexError       // IndexError: a level that strips to "" or to "("
    | NoKeys(value: Json)   // AttributeError: `.keys()` on a value that is not a dict

  datatype Outcome =
    | Ok
    | BadFormat(mismatch: Mismatch)
    | Malformed(defect: Defect)
    | Crash(fault: Fault)
}
