/**
 * The two policy enumerations of the sieves. Their constructors follow the declaration order
 * of the enum members, so the first constructor is the value of a field nobody has assigned
 * (the integer 0). The last constructor of each stands for any other integer cast to the enum,
 * which the code handles with an explicit fallback.
 */
module Options {

  /** What to build when the acceptable values list turns out to be empty. */
  datatype EmptyValuesListBehavior =
    | LetAllObjectsThrough
    | LetNoObjectsThrough
    | ThrowSieveValuesNotFoundException
    | UndefinedEmptyValuesListBehavior

  /** What to do with a pending string that cannot be converted to the value type. */
  datatype InvalidValueBehavior =
    | IgnoreInvalidValue
    | ThrowInvalidSieveValueException
    | UndefinedInvalidValueBehavior
}
