/**
 * Failure values of the sieve library. Every exception that the modelled code raises,
 * or lets escape from a collaborator, is one constructor of SieveError; operations that
 * can throw return a Result (a value or an error) or an Outcome (nothing or an error).
 */
module Errors {

  datatype Option<+T> = None | Some(value: T)

  datatype SieveError =
    /** ArgumentException: the property lambda's body is not a member access ("refers to a method"). */
    | LambdaRefersToMethod
    /** ArgumentException: the property lambda reads a field ("refers to a field"). */
    | LambdaRefersToField
    /** ArgumentException: the property is declared on a type unrelated to the filtered type. */
    | LambdaPropertyFromOtherType
    /** Exception("the given property name is null or empty"). */
    | BlankPropertyName
    /** PropertyNotFoundException, with its message. */
    | PropertyNotFound(message: string)
    /** ArgumentException: the property's declared type differs from the sieve's value type. */
    | PropertyTypeMismatch(message: string)
    /** InvalidSieveValueException, with its message. */
    | InvalidSieveValue(message: string)
    /** NoSieveValuesSuppliedException. */
    | NoSieveValuesSupplied
    /** Exception("Could not determine empty values list behavior."). */
    | UndeterminedEmptyValuesListBehavior
    /** NullReferenceException: a member of a property that is still null was used. */
    | NullReference
    /** ArgumentNullException: a LINQ operator was given a null source list. */
    | ArgumentNull
    /** Whatever the type converter throws when it cannot convert the given text. */
    | ConversionFailed(input: string)
    /** FormatException or OverflowException from int.Parse on the given text. */
    | IntParseFailed(input: string)

  /** A value, or the error that was thrown instead of returning it. */
  datatype Result<+T> = Ok(value: T) | Err(error: SieveError)

  /** Normal completion of a state-changing call, or the error it threw. */
  datatype Outcome = Pass | Fail(error: SieveError)
}
