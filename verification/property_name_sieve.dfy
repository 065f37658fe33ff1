/**
 * EqualitySieve.cs (the first sieve, in the library's root namespace): the property to filter is
 * chosen by name among the public properties of the filtered type, the acceptable values are a
 * list the calls replace, and a list of values to parse is converted at once, item by item.
 */
module PropertyNameSieves {
  import opened Errors
  import opened Collections
  import opened Text
  import opened Expressions

  /** DEFAULT_SEPARATORS: a comma only. */
  const DefaultSeparators: seq<string> := [","]

  /** The filter FindMatchingProperty applies: the property's name equals `name`, ignoring case. */
  function NameMatches<T, V>(name: string): PropertyInfo<T, V> -> bool {
    (p: PropertyInfo<T, V>) => EqualsIgnoreCase(p.name, name)
  }

  /**
   * FindMatchingProperty: the first property, in the order GetProperties returns them, whose name equals `name`
   * ignoring case; PropertyNotFoundException when there is none.
   */
  function FindMatchingProperty<T, V>(properties: seq<PropertyInfo<T, V>>, name: string): (r: Result<PropertyInfo<T, V>>)
    ensures r.Ok? <==> exists i | 0 <= i < |properties| :: EqualsIgnoreCase(properties[i].name, name)
    ensures r.Ok? ==> exists i | 0 <= i < |properties| ::
      properties[i] == r.value && EqualsIgnoreCase(properties[i].name, name) &&
      (forall j | 0 <= j < i :: !EqualsIgnoreCase(properties[j].name, name))
    ensures r.Err? ==> r.error == PropertyNotFound("Property '" + name + "' does not exist.")
  {
    var matching := Where(properties, NameMatches(name));
    if matching != [] then
      WhereHead(properties, NameMatches(name));
      Ok(matching[0])
    else
      assert forall i | 0 <= i < |properties| :: NameMatches(name)(properties[i]) == EqualsIgnoreCase(properties[i].name, name);
      Err(PropertyNotFound("Property '" + name + "' does not exist."))
  }

  /**
   * Names that differ only in case find the same property: ForProperty("id") and
   * ForProperty("ID") filter on the same one, and fail together.
   */
  lemma FindMatchingPropertyIgnoresCase<T, V>(properties: seq<PropertyInfo<T, V>>, name: string, other: string)
    requires EqualsIgnoreCase(name, other)
    ensures FindMatchingProperty(properties, name).Ok? <==> FindMatchingProperty(properties, other).Ok?
    ensures FindMatchingProperty(properties, name).Ok? ==>
      FindMatchingProperty(properties, name).value == FindMatchingProperty(properties, other).value
  {
    forall p: string ensures EqualsIgnoreCase(p, name) <==> EqualsIgnoreCase(p, other) {
      EqualsIgnoreCaseIsEquivalence(p, name, other);
      EqualsIgnoreCaseIsEquivalence(p, other, name);
      EqualsIgnoreCaseIsEquivalence(name, other, p);
    }
    var a := FindMatchingProperty(properties, name);
    var b := FindMatchingProperty(properties, other);
    if a.Ok? {
      var i :| 0 <= i < |properties| && properties[i] == a.value && EqualsIgnoreCase(properties[i].name, name) &&
        (forall j | 0 <= j < i :: !EqualsIgnoreCase(properties[j].name, name));
      var k :| 0 <= k < |properties| && properties[k] == b.value && EqualsIgnoreCase(properties[k].name, other) &&
        (forall j | 0 <= j < k :: !EqualsIgnoreCase(properties[j].name, other));
      assert i == k;
    }
  }

  /** EnsurePropertyTypesMatch: the property's declared type must be the sieve's value type. */
  function EnsurePropertyTypesMatch<T, V>(property: PropertyInfo<T, V>, valueType: ClrType): (r: Outcome)
    ensures r == Pass <==> property.propertyType == valueType
    ensures r.Fail? ==> r.error.PropertyTypeMismatch?
  {
    if property.propertyType == valueType then Pass
    else
      var message := "property type doesn't match for property " + property.name + ". Sieve expects "
                     + valueType.name + " but property is " + property.propertyType.fullName;
      Fail(PropertyTypeMismatch(message))
  }

  /** The pieces ForValues(string) converts: the non-blank pieces of the split, each trimmed. */
  function TrimmedPieces(s: string, separators: seq<string>): (r: seq<string>)
    ensures |r| == |SplitNonBlank(s, separators)|
    ensures forall i | 0 <= i < |r| :: r[i] == Trim(SplitNonBlank(s, separators)[i])
  {
    var pieces := SplitNonBlank(s, separators);
    seq(|pieces|, i requires 0 <= i < |pieces| => Trim(pieces[i]))
  }

  /** No piece ForValues(string) converts is empty, and none starts or ends with white space. */
  lemma TrimmedPiecesHaveText(s: string, separators: seq<string>)
    ensures var r := TrimmedPieces(s, separators);
      forall i | 0 <= i < |r| :: r[i] != [] && !IsWhiteSpace(r[i][0]) && !IsWhiteSpace(r[i][|r[i]| - 1])
  {
    var pieces := SplitNonBlank(s, separators);
    forall i | 0 <= i < |pieces| ensures Trim(pieces[i]) != [] {
      assert !IsBlank(pieces[i]);
    }
  }

  /**
   * After ForValues(string) has converted every piece, the expression accepts an object exactly
   * when its property value is the conversion of one of the trimmed pieces.
   */
  lemma ParsedValuesAccepted<T, V>(property: PropertyInfo<T, V>, s: string, separators: seq<string>,
                                        convert: string -> Option<V>, item: T)
    requires ConvertUntilFailure(TrimmedPieces(s, separators), convert).failedAt.None?
    ensures Eval(OrFold(property, ConvertUntilFailure(TrimmedPieces(s, separators), convert).values), item) <==>
      exists i | 0 <= i < |TrimmedPieces(s, separators)| :: convert(TrimmedPieces(s, separators)[i]) == Some(property.get(item))
  {
    var items := TrimmedPieces(s, separators);
    var values := ConvertUntilFailure(items, convert).values;
    ConvertUntilFailureMeaning(items, convert);
    OrFoldAccepts(property, values, item);
    if property.get(item) in values {
      var i :| 0 <= i < |values| && values[i] == property.get(item);
      assert convert(items[i]) == Some(property.get(item));
    }
  }

  class EqualitySieve<T(!new), V(==)> {
    /** typeof(T).GetProperties(), in the order it returns them. */
    const properties: seq<PropertyInfo<T, V>>
    /** typeof(V). */
    const valueType: ClrType
    /** The type converter for V: ConvertFromString, None where it throws. */
    const convert: string -> Option<V>
    var propertyToFilter: Option<PropertyInfo<T, V>>
    /** Null until one of the ForValue(s) calls sets it. */
    var acceptableValues: Option<seq<V>>
    /** Null until set, or until ForValues(string) latches the defaults. */
    var separators: Option<seq<string>>

    /** The implicit constructor: every property is null. */
    constructor (properties: seq<PropertyInfo<T, V>>, valueType: ClrType, convert: string -> Option<V>)
      ensures this.properties == properties && this.valueType == valueType && this.convert == convert
      ensures propertyToFilter == None && acceptableValues == None && separators == None
    {
      this.properties := properties;
      this.valueType := valueType;
      this.convert := convert;
      propertyToFilter := None;
      acceptableValues := None;
      separators := None;
    }

    /** The separators ForValues(string) splits with: those set, or the defaults when null or empty. */
    function SeparatorsInUse(): (r: seq<string>)
      reads this
      ensures r != []
      ensures separators.Some? && separators.value != [] ==> r == separators.value
      ensures separators.None? || separators.value == [] ==> r == DefaultSeparators
    {
      if separators.None? || separators.value == [] then DefaultSeparators else separators.value
    }

    /**
     * ForProperty(string): a blank name is refused; otherwise the first property with that name,
     * ignoring case, is looked up and its type checked. Only on success is it the property to filter.
     */
    method ForProperty(propertyName: NullableString) returns (outcome: Outcome)
      modifies this
      ensures IsNullOrWhiteSpace(propertyName) ==> outcome == Fail(BlankPropertyName)
      ensures HasText(propertyName) && FindMatchingProperty(properties, propertyName.value).Err? ==>
        outcome == Fail(FindMatchingProperty(properties, propertyName.value).error)
      ensures HasText(propertyName) && FindMatchingProperty(properties, propertyName.value).Ok? ==>
        outcome == EnsurePropertyTypesMatch(FindMatchingProperty(properties, propertyName.value).value, valueType)
      ensures outcome.Pass? ==> propertyToFilter == Some(FindMatchingProperty(properties, propertyName.value).value)
      ensures outcome.Fail? ==> propertyToFilter == old(propertyToFilter)
      ensures acceptableValues == old(acceptableValues) && separators == old(separators)
    {
      if IsNullOrWhiteSpace(propertyName) {
        return Fail(BlankPropertyName);
      }
      match FindMatchingProperty(properties, propertyName.value)
      case Err(e) =>
        outcome := Fail(e);
      case Ok(p) =>
        outcome := EnsurePropertyTypesMatch(p, valueType);
        if outcome.Pass? {
          propertyToFilter := Some(p);
        }
    }

    /** ForValue(V): the value becomes the only acceptable value. */
    method ForValue(value: V)
      modifies this
      ensures acceptableValues == Some([value])
      ensures propertyToFilter == old(propertyToFilter) && separators == old(separators)
    {
      acceptableValues := Some([value]);
    }

    /**
     * ForValue(string): the string, converted as given (not trimmed), becomes the only acceptable
     * value; when it does not convert, the exception is swallowed and no value is acceptable.
     */
    method ForValueString(stringValue: NullableString)
      modifies this
      ensures stringValue.Some? && convert(stringValue.value).Some? ==>
        acceptableValues == Some([convert(stringValue.value).value])
      ensures stringValue.None? || convert(stringValue.value).None? ==> acceptableValues == Some([])
      ensures propertyToFilter == old(propertyToFilter) && separators == old(separators)
    {
      if stringValue.None? {
        acceptableValues := Some([]);
        return;
      }
      match convert(stringValue.value)
      case Some(v) =>
        acceptableValues := Some([v]);
      case None =>
        acceptableValues := Some([]);
    }

    /** ForValues(IEnumerable<V>): a copy of the values becomes the list of acceptable values. */
    method ForValues(values: seq<V>)
      modifies this
      ensures acceptableValues == Some(values)
      ensures propertyToFilter == old(propertyToFilter) && separators == old(separators)
    {
      acceptableValues := Some(values);
    }

    /**
     * ForValues(string): the separators are latched (defaults when null or empty), the string is
     * split, blank pieces are dropped, and a new list receives each trimmed piece's conversion in
     * turn. The first piece that does not convert ends the call with its error, leaving the list
     * holding the values converted before it. A null string fails once the separators are latched.
     */
    method ForValuesToParse(valuesListToParse: NullableString) returns (outcome: Outcome)
      modifies this
      ensures separators == Some(old(SeparatorsInUse()))
      ensures propertyToFilter == old(propertyToFilter)
      ensures valuesListToParse.None? ==> outcome == Fail(NullReference) && acceptableValues == old(acceptableValues)
      ensures valuesListToParse.Some? ==>
        var items := TrimmedPieces(valuesListToParse.value, old(SeparatorsInUse()));
        var c := ConvertUntilFailure(items, convert);
        acceptableValues == Some(c.values) &&
        (c.failedAt.None? ==> outcome == Pass) &&
        (c.failedAt.Some? ==> outcome == Fail(ConversionFailed(items[c.failedAt.value])))
    {
      if separators.None? || separators.value == [] {
        separators := Some(DefaultSeparators);
      }
      var separatorsInUse := separators.value;
      if valuesListToParse.None? {
        return Fail(NullReference);
      }
      var pieces := SplitNonBlank(valuesListToParse.value, separatorsInUse);
      ghost var items := TrimmedPieces(valuesListToParse.value, separatorsInUse);
      var values: seq<V> := [];
      acceptableValues := Some(values);
      for i := 0 to |pieces|
        invariant acceptableValues == Some(values)
        invariant separators == Some(separatorsInUse) && propertyToFilter == old(propertyToFilter)
        invariant ConvertUntilFailure(items[..i], convert) == Conversion(values, None)
      {
        var item := Trim(pieces[i]);
        assert item == items[i];
        var converted := convert(item);
        if converted.None? {
          ConvertUntilFailureAt(items, i, values, convert);
          return Fail(ConversionFailed(item));
        }
        ConvertUntilFailureStep(items, i, values, convert);
        values := values + [converted.value];
        acceptableValues := Some(values);
      }
      assert items[..|pieces|] == items;
      outcome := Pass;
    }

    /** WithSeparator: a separator with text replaces the separators; a blank one is ignored. */
    method WithSeparator(newSeparator: NullableString)
      modifies this
      ensures HasText(newSeparator) ==> separators == Some([newSeparator.value])
      ensures !HasText(newSeparator) ==> separators == old(separators)
      ensures propertyToFilter == old(propertyToFilter) && acceptableValues == old(acceptableValues)
    {
      if HasText(newSeparator) {
        separators := Some([newSeparator.value]);
      }
    }

    /** WithSeparators: a non-null, non-empty list replaces the separators; any other is ignored. */
    method WithSeparators(separatorStrings: Option<seq<string>>)
      modifies this
      ensures separatorStrings.Some? && separatorStrings.value != [] ==> separators == separatorStrings
      ensures !(separatorStrings.Some? && separatorStrings.value != []) ==> separators == old(separators)
      ensures propertyToFilter == old(propertyToFilter) && acceptableValues == old(acceptableValues)
    {
      if separatorStrings.Some? && separatorStrings.value != [] {
        separators := separatorStrings;
      }
    }

    /**
     * ToExpression: `item.Property == value` for each acceptable value, folded with Or from False.
     * The property is used first, so a missing property is a NullReferenceException before the
     * null list is an ArgumentNullException. An empty list accepts nothing.
     */
    function ToExpression(): (r: Result<Expr<T, V>>)
      reads this
      ensures propertyToFilter.None? ==> r == Err(NullReference)
      ensures propertyToFilter.Some? && acceptableValues.None? ==> r == Err(ArgumentNull)
      ensures r.Ok? <==> propertyToFilter.Some? && acceptableValues.Some?
      ensures r.Ok? ==> forall item: T ::
        Eval(r.value, item) <==> propertyToFilter.value.get(item) in acceptableValues.value
    {
      match propertyToFilter
      case None => Err(NullReference)
      case Some(p) =>
        match acceptableValues
        case None => Err(ArgumentNull)
        case Some(vs) =>
          assert forall item: T :: Eval(OrFold(p, vs), item) <==> p.get(item) in vs by {
            forall item: T { OrFoldAccepts(p, vs, item); }
          }
          Ok(OrFold(p, vs))
    }

    /** ToCompiledExpression: the compiled delegate of ToExpression's tree. */
    function ToCompiledExpression(): (r: Result<T -> bool>)
      reads this
      ensures r.Err? <==> ToExpression().Err?
      ensures r.Err? ==> r.error == ToExpression().error
      ensures r.Ok? ==> forall item: T :: r.value(item) <==> propertyToFilter.value.get(item) in acceptableValues.value
    {
      match ToExpression()
      case Err(e) => Err(e)
      case Ok(tree) => Ok(Compile(tree))
    }
  }
}
