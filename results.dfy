/** Optional values, the exceptions the converter can raise, and a result type
    that carries either a value or one of those exceptions. */
module Results {

  datatype Option<+T> = None | Some(value: T)

  /** The exceptions raised along the conversion path, each named after
      Python's exception class or, where Python raises InvalidOperation, after
      the decimal condition it reports (ConversionSyntax, DivisionUndefined). */
  datatype Error =
    | KeyError(key: string)          // a record lacks a field that is read
    | ConversionSyntax(text: string) // InvalidOperation: `Decimal(text)` cannot read `text`
    | TypeError                      // `Rate(**data)` got missing or unexpected fields
    | IndexError                     // `rates[0]` on an empty list
    | DivisionByZero                 // nonzero Decimal divided by zero
    | DivisionUndefined              // InvalidOperation: Decimal zero divided by zero
    | FetchFailed(code: string)      // the rate table for `code` could not be obtained

  datatype Result<+T> = Success(value: T) | Failure(error: Error)
}
