/**
 * Optional values and failing computations, shared by every module.
 *
 * The Kotlin code signals errors by throwing; each exception class the core
 * can throw is one `Failure` here, and an operation that can throw returns a
 * `Result`.
 */
module Wrappers {

  datatype Option<T> = None | Some(value: T)

  /** The exception classes thrown by the modelled code. */
  datatype Failure =
    | IllegalArgument      // IllegalArgumentException, also `require(...)` and `requireNotNull(...)`
    | NumberFormat         // NumberFormatException (a subclass of IllegalArgumentException)
    | IndexOutOfBounds     // ArrayIndexOutOfBoundsException
    | IllegalState         // IllegalStateException, also `check(...)`
    | IllegalAddressClass  // ModbusIllegalAddressClassException
    | ModbusApi            // ModbusApiException
    | SchemaParse          // ModbusSchemaParseException
    | SchemaMissingField   // ModbusSchemaMissingFieldException
    | NullPointer          // NullPointerException, from `!!` on a missing map entry
    | NoSuchElement        // NoSuchElementException, from `next()` on an exhausted iterator

  datatype Result<T> = Ok(value: T) | Fail(failure: Failure)
}
