/** The single error kind of PyRomano (`RomanError`) and the wrappers that carry it. */
module Errors {

  /** Why a conversion raised `RomanError`. The Python exception carries a message
      string; each variant here stands for one of those messages. */
  datatype RomanError =
    | EmptyInput                        // numeral is empty
    | InvalidSequence(sequence: string) // numeral repeats a symbol too often
    | FractionNotAtEnd                  // `S` or `·` before the last six characters
    | InvalidNumeral(roman: string)     // the scan did not consume the whole numeral
    | OutOfRange                        // decimal outside [0, 3999.5]
    | UnknownUnit(unit: string)         // unit name not in the unit table
    | InvalidUnits                      // one of the two units of a conversion is unknown
    | NegativeValue                     // measurement value below zero

  datatype Option<T> = None | Some(value: T)

  /** A value, or the `RomanError` that was raised instead. */
  datatype Result<T> = Ok(value: T) | Err(error: RomanError)

  /** The outcome of a check that returns nothing or raises. */
  datatype Outcome = Pass | Fail(error: RomanError)
}
