/**
 * SieveDefinition.cs: a filter on one property, built from the property's name and a list of
 * acceptable values that the constructors fill. The constructors that take strings parse them
 * with int.Parse, and only when the property type is int; for any other type they add nothing.
 */
module SieveDefinitions {
  import opened Errors
  import opened Text
  import opened Collections
  import opened Expressions
  import opened Int32Parsing

  /**
   * int.Parse on one item of a string constructor, the int given as a value of the property
   * type: None where it throws (a null item, or text that is not a 32-bit integer).
   */
  function ParseItem<V>(asValue: int -> V): NullableString -> Option<V> {
    (item: NullableString) =>
      match item
      case None => None
      case Some(s) => (match ParseInt32(s) case None => None case Some(n) => Some(asValue(n)))
  }

  /** The exception int.Parse throws for an item: ArgumentNullException for null, else a format or overflow error. */
  function ParseError(item: NullableString): (e: SieveError)
    ensures item.None? <==> e == ArgumentNull
  {
    match item
    case None => ArgumentNull
    case Some(s) => IntParseFailed(s)
  }

  class SieveDefinition<T(!new), V(==)> {
    /** The property that `_propertyName` names, as Expression.PropertyOrField resolves it. */
    const property: PropertyInfo<T, V>
    /** `_acceptableValues`: the constants, in the order they were added. */
    var acceptableValues: seq<V>

    /** The field initialiser: no acceptable value yet. */
    constructor (property: PropertyInfo<T, V>)
      ensures this.property == property && acceptableValues == []
    {
      this.property := property;
      acceptableValues := [];
    }

    /** `_acceptableValues.Add(Expression.Constant(value))`. */
    method Add(value: V)
      modifies this
      ensures acceptableValues == old(acceptableValues) + [value]
    {
      acceptableValues := acceptableValues + [value];
    }

    /**
     * GetRawExpression: starting from PredicateBuilder.False, each `item.Property == value` is
     * or-ed on in turn; the result accepts an object exactly when its property value is one of
     * the acceptable values.
     */
    method GetRawExpression() returns (r: Expr<T, V>)
      ensures r == OrFold(property, acceptableValues)
      ensures forall item: T :: Eval(r, item) <==> property.get(item) in acceptableValues
    {
      r := Constant(false);
      for i := 0 to |acceptableValues|
        invariant r == OrFold(property, acceptableValues[..i])
      {
        assert acceptableValues[..i + 1][..i] == acceptableValues[..i];
        r := OrElse(r, PropertyEquals(property, acceptableValues[i]));
      }
      assert acceptableValues[..|acceptableValues|] == acceptableValues;
      forall item: T ensures Eval(r, item) <==> property.get(item) in acceptableValues {
        OrFoldAccepts(property, acceptableValues, item);
      }
    }

    /** GetCompiledExpression: the compiled delegate of GetRawExpression's tree. */
    method GetCompiledExpression() returns (r: T -> bool)
      ensures forall item: T :: r(item) <==> property.get(item) in acceptableValues
    {
      var e := GetRawExpression();
      r := Compile(e);
    }
  }

  /** SieveDefinition(name, type, IEnumerable<V>): each value is added, in order. */
  method FromValues<T(!new), V(==)>(property: PropertyInfo<T, V>, values: seq<V>) returns (d: SieveDefinition<T, V>)
    ensures fresh(d) && d.property == property && d.acceptableValues == values
  {
    d := new SieveDefinition(property);
    for i := 0 to |values|
      invariant d.property == property && d.acceptableValues == values[..i]
    {
      assert values[..i + 1] == values[..i] + [values[i]];
      d.Add(values[i]);
    }
    assert values[..|values|] == values;
  }

  /** SieveDefinition(name, type, V): the list constructor with a one-value list. */
  method FromValue<T(!new), V(==)>(property: PropertyInfo<T, V>, value: V) returns (d: SieveDefinition<T, V>)
    ensures fresh(d) && d.property == property && d.acceptableValues == [value]
  {
    d := FromValues(property, [value]);
  }

  /**
   * SieveDefinition(name, type, string): for an int property the text is parsed and becomes the
   * only acceptable value, and a text int.Parse refuses makes the constructor throw; for a
   * property of any other type the list stays empty.
   */
  method FromString<T(!new), V(==)>(property: PropertyInfo<T, V>, valueType: ClrType, asValue: int -> V,
                                     acceptableValue: NullableString)
    returns (r: Result<SieveDefinition<T, V>>)
    ensures valueType != Int32Type ==> r.Ok? && r.value.acceptableValues == []
    ensures valueType == Int32Type && ParseItem(asValue)(acceptableValue).None? ==>
      r == Err(ParseError(acceptableValue))
    ensures valueType == Int32Type && ParseItem(asValue)(acceptableValue).Some? ==>
      r.Ok? && r.value.acceptableValues == [ParseItem(asValue)(acceptableValue).value]
    ensures r.Ok? ==> fresh(r.value) && r.value.property == property
  {
    var d := new SieveDefinition(property);
    if valueType == Int32Type {
      match ParseItem(asValue)(acceptableValue)
      case None =>
        return Err(ParseError(acceptableValue));
      case Some(v) =>
        d.Add(v);
    }
    return Ok(d);
  }

  /**
   * SieveDefinition(name, type, List<string>): for an int property each text is parsed and added
   * in turn, and the first one int.Parse refuses makes the constructor throw; for a property of
   * any other type the list stays empty.
   */
  method FromStrings<T(!new), V(==)>(property: PropertyInfo<T, V>, valueType: ClrType, asValue: int -> V,
                                      acceptableValues: seq<NullableString>)
    returns (r: Result<SieveDefinition<T, V>>)
    ensures valueType != Int32Type ==> r.Ok? && r.value.acceptableValues == []
    ensures valueType == Int32Type ==>
      var c := ConvertUntilFailure(acceptableValues, ParseItem(asValue));
      (c.failedAt.None? ==> r.Ok? && r.value.acceptableValues == c.values) &&
      (c.failedAt.Some? ==> r == Err(ParseError(acceptableValues[c.failedAt.value])))
    ensures r.Ok? ==> fresh(r.value) && r.value.property == property
  {
    var d := new SieveDefinition(property);
    if valueType == Int32Type {
      for i := 0 to |acceptableValues|
        invariant d.property == property
        invariant ConvertUntilFailure(acceptableValues[..i], ParseItem(asValue)) == Conversion(d.acceptableValues, None)
      {
        match ParseItem(asValue)(acceptableValues[i])
        case None =>
          ConvertUntilFailureAt(acceptableValues, i, d.acceptableValues, ParseItem(asValue));
          return Err(ParseError(acceptableValues[i]));
        case Some(v) =>
          ConvertUntilFailureStep(acceptableValues, i, d.acceptableValues, ParseItem(asValue));
          d.Add(v);
      }
      assert acceptableValues[..|acceptableValues|] == acceptableValues;
    }
    return Ok(d);
  }
}
