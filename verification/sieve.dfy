/**
 * Sieve.cs: the earliest filter, on one int property and one acceptable value. Its expression
 * compares the property with the first (and only) value of its list.
 */
module SimpleSieves {
  import opened Errors
  import opened Text
  import opened Expressions
  import opened Int32Parsing

  class Sieve<T(!new)> {
    /** The int property that `_propertyName` names, as Expression.PropertyOrField resolves it. */
    const property: PropertyInfo<T, int>
    /** `_acceptableValues`: the constructor adds the one value, and nothing changes it afterwards. */
    const acceptableValues: seq<int>

    /** Sieve(name, type, int): the value is the only acceptable value. */
    constructor (property: PropertyInfo<T, int>, acceptableValue: int)
      ensures this.property == property && acceptableValues == [acceptableValue]
    {
      this.property := property;
      acceptableValues := [acceptableValue];
    }

    /**
     * GetRawExpression: `item.Property == value` for the first acceptable value (Enumerable.First,
     * which needs a value to be there).
     */
    function GetRawExpression(): (r: Expr<T, int>)
      requires acceptableValues != []
      ensures forall item: T :: Eval(r, item) <==> property.get(item) == acceptableValues[0]
    {
      PropertyEquals(property, acceptableValues[0])
    }

    /** GetCompiledExpression: the compiled delegate of GetRawExpression's tree. */
    function GetCompiledExpression(): (r: T -> bool)
      requires acceptableValues != []
      ensures forall item: T :: r(item) <==> property.get(item) == acceptableValues[0]
    {
      Compile(GetRawExpression())
    }
  }

  /**
   * With its single value, the expression that uses First() accepts the same objects as the
   * Or-fold of SieveDefinition over the whole list.
   */
  lemma FirstAgreesWithOrFold<T(!new)>(sieve: Sieve<T>, item: T)
    requires |sieve.acceptableValues| == 1
    ensures Eval(sieve.GetRawExpression(), item) == Eval(OrFold(sieve.property, sieve.acceptableValues), item)
  {
    OrFoldAccepts(sieve.property, sieve.acceptableValues, item);
  }

  /**
   * Sieve(name, type, string): the text goes through int.Parse first, so a null text throws
   * ArgumentNullException and one that is not a 32-bit integer throws before any sieve exists.
   */
  method FromString<T(!new)>(property: PropertyInfo<T, int>, acceptableValue: NullableString)
    returns (r: Result<Sieve<T>>)
    ensures acceptableValue.None? ==> r == Err(ArgumentNull)
    ensures acceptableValue.Some? && ParseInt32(acceptableValue.value).None? ==>
      r == Err(IntParseFailed(acceptableValue.value))
    ensures acceptableValue.Some? && ParseInt32(acceptableValue.value).Some? ==>
      r.Ok? && fresh(r.value) && r.value.property == property &&
      r.value.acceptableValues == [ParseInt32(acceptableValue.value).value]
  {
    match acceptableValue
    case None =>
      return Err(ArgumentNull);
    case Some(s) =>
      match ParseInt32(s)
      case None =>
        return Err(IntParseFailed(s));
      case Some(n) =>
        var sieve := new Sieve(property, n);
        return Ok(sieve);
  }
}
