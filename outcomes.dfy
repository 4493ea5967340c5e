/** The failure-carrying values shared by the model: an optional value and a
    result that is either a value or one of the errors bigmoney.js can raise. */
module Outcomes {

  datatype Option<T> = None | Some(value: T)

  /** The errors of the modelled core: big.js refuses a zero divisor, `convert`
      throws when a rate is missing, and `allocate` fails on an empty ratio list
      because `reduce` runs there without an initial value. */
  datatype Error =
    | DivisionByZero
    | UnknownRate(currency: string)
    | EmptyRatios

  datatype Result<T> = Ok(value: T) | Err(error: Error)
}
