/** Results and error kinds. Every exception the modelled code raises is an
    Err value: the RNException cases carry the one piece of message content
    that matters (the offending character, the offending year or id), the
    java.lang and java.time exceptions that escape uncaught have kinds of
    their own. */
module Errors {

  datatype Option<T> = None | Some(value: T)

  /** One complaint of the older factory's field check; it lists them all. */
  datatype FieldProblem =
    | BadAuthorityNumber(authority: int)
    | BadInstanceNumber(instance: int)
    | BadTypeNumber(rnType: int)

  datatype Error =
    // encoded-form errors
    | IllegalCharacter(c: char)
    | TooManyDigits
    | BadCheckDigits
    | MalformedEncoding
    | DigitCheckFailed
    | NegativeValue
    | NumericOverflow
    // decimal-form and field errors
    | BadDecimalLength
    | BadDecimalDate
    | AuthorityOutOfRange(authority: int)
    | InstanceOutOfRange(instance: int)
    | TypeOutOfRange(rnType: int)
    | VersionOutOfRange(version: int)
    | YearOutOfRange(year: int)
    | BadFactoryFields(problems: seq<FieldProblem>)
    // exceptions that are not RNExceptions
    | NumberFormat
    | IllegalDate

  /** The errors the source raises as RNException; only these are caught by
      the factories. */
  predicate IsRNException(e: Error)
  {
    !(e.NumberFormat? || e.IllegalDate?)
  }

  datatype Result<T> = Ok(value: T) | Err(error: Error)
}
