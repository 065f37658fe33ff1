/**
 * Sieves/EqualitySieve.cs: the equality sieve built on the same value pipeline as BaseSieve,
 * with its own fields, separators that are latched to the defaults on first use, and the
 * translation of the acceptable values into an expression `item.P == v1 || item.P == v2 || ...`.
 */
module EqualitySieves {
  import opened Errors
  import opened Options
  import opened Collections
  import opened Text
  import opened Expressions
  import opened AcceptableValues

  /** EqualitySieve.DefaultSeparators. */
  const DefaultSeparators: seq<string> := [",", "|"]

  /**
   * What ToExpression returns for a property (null when ForProperty was never called), the
   * outcome of reading the acceptable values, and the empty-list behaviour: the read's error,
   * the empty-list expression, or an expression accepting exactly the objects whose property
   * holds one of the values.
   */
  function ExpressionFor<T(!new), V(==)>(property: Option<PropertyInfo<T, V>>, values: Result<seq<V>>,
                                         emptyBehavior: EmptyValuesListBehavior): (r: Result<Expr<T, V>>)
    ensures property.None? ==> r == Err(NullReference)
    ensures property.Some? && values.Err? ==> r == Err(values.error)
    ensures property.Some? && values == Ok([]) ==> r == HandleEmptyAcceptableValuesList(emptyBehavior)
    ensures property.Some? && values.Ok? && values.value != [] ==>
      r.Ok? && forall item: T :: Eval(r.value, item) <==> property.value.get(item) in values.value
  {
    match property
    case None => Err(NullReference)
    case Some(p) =>
      match values
      case Err(e) => Err(e)
      case Ok(vs) =>
        if vs == [] then HandleEmptyAcceptableValuesList(emptyBehavior)
        else
          assert forall item: T :: Eval(OrFold(p, vs), item) <==> p.get(item) in vs by {
            forall item: T { OrFoldAccepts(p, vs, item); }
          }
          Ok(OrFold(p, vs))
  }

  class EqualitySieve<T(!new), V(==)> {
    var propertyToFilter: Option<PropertyInfo<T, V>>
    var knownAcceptableValues: seq<V>
    /** Null until set, or until the first read latches the defaults. */
    var separators: Option<seq<string>>
    var emptyValuesListBehavior: EmptyValuesListBehavior
    var invalidValueBehavior: InvalidValueBehavior
    var potentiallyAcceptableValues: seq<NullableString>
    var potentiallyAcceptableValuesToParse: seq<NullableString>
    /** The type converter for V: ConvertFromString, None where it throws. */
    const convert: string -> Option<V>

    constructor (convert: string -> Option<V>)
      ensures this.convert == convert
      ensures propertyToFilter == None && separators == None
      ensures emptyValuesListBehavior == LetAllObjectsThrough && invalidValueBehavior == IgnoreInvalidValue
      ensures knownAcceptableValues == [] && potentiallyAcceptableValues == [] && potentiallyAcceptableValuesToParse == []
    {
      this.convert := convert;
      propertyToFilter := None;
      knownAcceptableValues := [];
      separators := None;
      emptyValuesListBehavior := LetAllObjectsThrough;
      invalidValueBehavior := IgnoreInvalidValue;
      potentiallyAcceptableValues := [];
      potentiallyAcceptableValuesToParse := [];
    }

    /** The separators a read uses: those set, or the defaults when none (or an empty list) are set. */
    function SeparatorsInUse(): (r: seq<string>)
      reads this
      ensures r != []
      ensures separators.Some? && separators.value != [] ==> r == separators.value
      ensures separators.None? || separators.value == [] ==> r == DefaultSeparators
    {
      if separators.None? || separators.value == [] then DefaultSeparators else separators.value
    }

    /** What reading AcceptableValues yields in the current state. */
    ghost function Resolved(): Result<seq<V>>
      reads this
    {
      Resolve(knownAcceptableValues, potentiallyAcceptableValues, potentiallyAcceptableValuesToParse,
              SeparatorsInUse(), TrimAndConvert(convert), invalidValueBehavior)
    }

    /** What ToExpression returns in the current state. */
    ghost function Expected(): Result<Expr<T, V>>
      reads this
    {
      ExpressionFor(propertyToFilter, Resolved(), emptyValuesListBehavior)
    }

    /** The pieces a read appends to the strings to convert: the strings to parse, split. */
    function ParsedPieces(): seq<NullableString>
      reads this
    {
      AsNullable(SplitAll(potentiallyAcceptableValuesToParse, SeparatorsInUse()))
    }

    /**
     * How many times ToExpression reads the acceptable values: not at all without a property,
     * once when the read fails, twice when it yields nothing and three times otherwise.
     */
    ghost function ReadsByToExpression(): nat
      reads this
    {
      if propertyToFilter.None? then 0
      else if Resolved().Err? then 1
      else if Resolved().value == [] then 2
      else 3
    }

    /** GetSeparatorsOrDefault: null or empty separators are replaced by the defaults, for good. */
    method GetSeparatorsOrDefault() returns (r: seq<string>)
      modifies this
      ensures r == old(SeparatorsInUse()) && separators == Some(r)
      ensures propertyToFilter == old(propertyToFilter) && knownAcceptableValues == old(knownAcceptableValues)
      ensures potentiallyAcceptableValues == old(potentiallyAcceptableValues)
      ensures potentiallyAcceptableValuesToParse == old(potentiallyAcceptableValuesToParse)
      ensures emptyValuesListBehavior == old(emptyValuesListBehavior) && invalidValueBehavior == old(invalidValueBehavior)
      ensures Resolved() == old(Resolved())
    {
      if separators.None? || separators.value == [] {
        separators := Some(DefaultSeparators);
      }
      r := separators.value;
    }

    /** ClearPotentialValuesLists: all three kinds of values are dropped. */
    method ClearPotentialValuesLists()
      modifies this
      ensures knownAcceptableValues == [] && potentiallyAcceptableValues == [] && potentiallyAcceptableValuesToParse == []
      ensures propertyToFilter == old(propertyToFilter) && separators == old(separators)
      ensures emptyValuesListBehavior == old(emptyValuesListBehavior) && invalidValueBehavior == old(invalidValueBehavior)
    {
      knownAcceptableValues := [];
      potentiallyAcceptableValues := [];
      potentiallyAcceptableValuesToParse := [];
    }

    /** ForProperty(lambda): the selected property becomes the one to filter on; a rejected lambda changes nothing. */
    method ForProperty(lambda: PropertyLambda<T, V>) returns (outcome: Outcome)
      modifies this
      ensures ExtractPropertyInfo(lambda).Err? ==>
        outcome == Fail(ExtractPropertyInfo(lambda).error) && propertyToFilter == old(propertyToFilter)
      ensures ExtractPropertyInfo(lambda).Ok? ==>
        outcome == Pass && propertyToFilter == Some(ExtractPropertyInfo(lambda).value)
      ensures knownAcceptableValues == old(knownAcceptableValues) && separators == old(separators)
      ensures potentiallyAcceptableValues == old(potentiallyAcceptableValues)
      ensures potentiallyAcceptableValuesToParse == old(potentiallyAcceptableValuesToParse)
      ensures emptyValuesListBehavior == old(emptyValuesListBehavior) && invalidValueBehavior == old(invalidValueBehavior)
    {
      match ExtractPropertyInfo(lambda)
      case Err(e) =>
        outcome := Fail(e);
      case Ok(p) =>
        propertyToFilter := Some(p);
        outcome := Pass;
    }

    /** ForValue(V): the value becomes the only acceptable value. */
    method ForValue(value: V)
      modifies this
      ensures knownAcceptableValues == [value] && potentiallyAcceptableValues == [] && potentiallyAcceptableValuesToParse == []
      ensures propertyToFilter == old(propertyToFilter) && separators == old(separators)
      ensures emptyValuesListBehavior == old(emptyValuesListBehavior) && invalidValueBehavior == old(invalidValueBehavior)
      ensures Resolved() == Ok([value])
    {
      ClearPotentialValuesLists();
      knownAcceptableValues := [value];
      assert Pending([], [], SeparatorsInUse()) == [];
      assert ConvertRaw([], TrimAndConvert(convert), invalidValueBehavior) == Ok([]);
      assert [value][..0] == [];
      assert Distinct([value]) == [value];
      assert [value] + [] == [value];
      assert ConvertAndMerge([value], [], TrimAndConvert(convert), invalidValueBehavior) == Ok([value]);
    }

    /** ForValue(string): the string becomes the only value, converted when read. */
    method ForValueString(item: NullableString)
      modifies this
      ensures knownAcceptableValues == [] && potentiallyAcceptableValues == [item] && potentiallyAcceptableValuesToParse == []
      ensures propertyToFilter == old(propertyToFilter) && separators == old(separators)
      ensures emptyValuesListBehavior == old(emptyValuesListBehavior) && invalidValueBehavior == old(invalidValueBehavior)
      ensures Resolved() ==
        match ConvertItem(item, convert)
        case Some(v) => Ok([v])
        case None =>
          if invalidValueBehavior == ThrowInvalidSieveValueException then Err(InvalidValueError(item)) else Ok([])
    {
      ClearPotentialValuesLists();
      potentiallyAcceptableValues := [item];
      ResolveSingle(item, SeparatorsInUse(), TrimAndConvert(convert), invalidValueBehavior);
      assert TrimAndConvert(convert)(item) == ConvertItem(item, convert);
    }

    /** ForValues(IEnumerable<V>): the values replace all others; each is acceptable once. */
    method ForValues(values: seq<V>)
      modifies this
      ensures knownAcceptableValues == values && potentiallyAcceptableValues == [] && potentiallyAcceptableValuesToParse == []
      ensures propertyToFilter == old(propertyToFilter) && separators == old(separators)
      ensures emptyValuesListBehavior == old(emptyValuesListBehavior) && invalidValueBehavior == old(invalidValueBehavior)
      ensures Resolved() == Ok(Distinct(values))
    {
      ClearPotentialValuesLists();
      knownAcceptableValues := values;
      assert values + [] == values;
    }

    /** ForValues(IEnumerable<string>): the strings that are neither null nor blank replace all other values. */
    method ForValueStrings(items: seq<NullableString>)
      modifies this
      ensures knownAcceptableValues == [] && potentiallyAcceptableValues == Where(items, HasText)
      ensures potentiallyAcceptableValuesToParse == []
      ensures propertyToFilter == old(propertyToFilter) && separators == old(separators)
      ensures emptyValuesListBehavior == old(emptyValuesListBehavior) && invalidValueBehavior == old(invalidValueBehavior)
    {
      ClearPotentialValuesLists();
      potentiallyAcceptableValues := potentiallyAcceptableValues + Where(items, HasText);
    }

    /** ForValues(string): the separated string replaces all other values. */
    method ForValuesToParse(valuesListToParse: NullableString)
      modifies this
      ensures knownAcceptableValues == [] && potentiallyAcceptableValues == []
      ensures potentiallyAcceptableValuesToParse == [valuesListToParse]
      ensures propertyToFilter == old(propertyToFilter) && separators == old(separators)
      ensures emptyValuesListBehavior == old(emptyValuesListBehavior) && invalidValueBehavior == old(invalidValueBehavior)
    {
      ClearPotentialValuesLists();
      potentiallyAcceptableValuesToParse := potentiallyAcceptableValuesToParse + [valuesListToParse];
    }

    /** WithSeparator: a separator that is neither null nor blank replaces the separators; any other is ignored. */
    method WithSeparator(newSeparator: NullableString)
      modifies this
      ensures HasText(newSeparator) ==> separators == Some([newSeparator.value])
      ensures !HasText(newSeparator) ==> separators == old(separators)
      ensures propertyToFilter == old(propertyToFilter) && knownAcceptableValues == old(knownAcceptableValues)
      ensures potentiallyAcceptableValues == old(potentiallyAcceptableValues)
      ensures potentiallyAcceptableValuesToParse == old(potentiallyAcceptableValuesToParse)
      ensures emptyValuesListBehavior == old(emptyValuesListBehavior) && invalidValueBehavior == old(invalidValueBehavior)
    {
      if HasText(newSeparator) {
        separators := Some([newSeparator.value]);
      }
    }

    /** WithSeparators: a non-null, non-empty list replaces the separators; any other is ignored. */
    method WithSeparators(separatorStrings: Option<seq<string>>)
      modifies this
      ensures separatorStrings.Some? && separatorStrings.value != [] ==> separators == separatorStrings
      ensures !(separatorStrings.Some? && separatorStrings.value != []) ==> separators == old(separators)
      ensures propertyToFilter == old(propertyToFilter) && knownAcceptableValues == old(knownAcceptableValues)
      ensures potentiallyAcceptableValues == old(potentiallyAcceptableValues)
      ensures potentiallyAcceptableValuesToParse == old(potentiallyAcceptableValuesToParse)
      ensures emptyValuesListBehavior == old(emptyValuesListBehavior) && invalidValueBehavior == old(invalidValueBehavior)
    {
      if separatorStrings.Some? && separatorStrings.value != [] {
        separators := separatorStrings;
      }
    }

    method WithEmptyValuesListBehavior(behavior: EmptyValuesListBehavior)
      modifies this
      ensures emptyValuesListBehavior == behavior
      ensures propertyToFilter == old(propertyToFilter) && separators == old(separators)
      ensures knownAcceptableValues == old(knownAcceptableValues)
      ensures potentiallyAcceptableValues == old(potentiallyAcceptableValues)
      ensures potentiallyAcceptableValuesToParse == old(potentiallyAcceptableValuesToParse)
      ensures invalidValueBehavior == old(invalidValueBehavior)
    {
      emptyValuesListBehavior := behavior;
    }

    method WithInvalidValueBehavior(behavior: InvalidValueBehavior)
      modifies this
      ensures invalidValueBehavior == behavior
      ensures propertyToFilter == old(propertyToFilter) && separators == old(separators)
      ensures knownAcceptableValues == old(knownAcceptableValues)
      ensures potentiallyAcceptableValues == old(potentiallyAcceptableValues)
      ensures potentiallyAcceptableValuesToParse == old(potentiallyAcceptableValuesToParse)
      ensures emptyValuesListBehavior == old(emptyValuesListBehavior)
    {
      invalidValueBehavior := behavior;
    }

    /** ForAdditionalValue(V): one more known value; one already known changes nothing that is read. */
    method ForAdditionalValue(value: V)
      modifies this
      ensures knownAcceptableValues == old(knownAcceptableValues) + [value]
      ensures potentiallyAcceptableValues == old(potentiallyAcceptableValues)
      ensures potentiallyAcceptableValuesToParse == old(potentiallyAcceptableValuesToParse)
      ensures propertyToFilter == old(propertyToFilter) && separators == old(separators)
      ensures emptyValuesListBehavior == old(emptyValuesListBehavior) && invalidValueBehavior == old(invalidValueBehavior)
      ensures value in old(knownAcceptableValues) ==> Resolved() == old(Resolved())
      ensures Resolved().Ok? ==> value in Resolved().value
    {
      knownAcceptableValues := knownAcceptableValues + [value];
      if value in old(knownAcceptableValues) {
        RepeatedKnownValueCollapses(old(knownAcceptableValues), value, potentiallyAcceptableValues,
          potentiallyAcceptableValuesToParse, SeparatorsInUse(), TrimAndConvert(convert), invalidValueBehavior);
      }
    }

    /** ForAdditionalValue(string): one more string to convert, kept even when null or blank. */
    method ForAdditionalValueString(item: NullableString)
      modifies this
      ensures potentiallyAcceptableValues == old(potentiallyAcceptableValues) + [item]
      ensures knownAcceptableValues == old(knownAcceptableValues)
      ensures potentiallyAcceptableValuesToParse == old(potentiallyAcceptableValuesToParse)
      ensures propertyToFilter == old(propertyToFilter) && separators == old(separators)
      ensures emptyValuesListBehavior == old(emptyValuesListBehavior) && invalidValueBehavior == old(invalidValueBehavior)
    {
      potentiallyAcceptableValues := potentiallyAcceptableValues + [item];
    }

    /** ForAdditionalValues(IEnumerable<V>): more known values. */
    method ForAdditionalValues(values: seq<V>)
      modifies this
      ensures knownAcceptableValues == old(knownAcceptableValues) + values
      ensures potentiallyAcceptableValues == old(potentiallyAcceptableValues)
      ensures potentiallyAcceptableValuesToParse == old(potentiallyAcceptableValuesToParse)
      ensures propertyToFilter == old(propertyToFilter) && separators == old(separators)
      ensures emptyValuesListBehavior == old(emptyValuesListBehavior) && invalidValueBehavior == old(invalidValueBehavior)
    {
      knownAcceptableValues := knownAcceptableValues + values;
    }

    /** ForAdditionalValues(IEnumerable<string>): more strings to convert, without the null or blank ones. */
    method ForAdditionalValueStrings(items: seq<NullableString>)
      modifies this
      ensures potentiallyAcceptableValues == old(potentiallyAcceptableValues) + Where(items, HasText)
      ensures knownAcceptableValues == old(knownAcceptableValues)
      ensures potentiallyAcceptableValuesToParse == old(potentiallyAcceptableValuesToParse)
      ensures propertyToFilter == old(propertyToFilter) && separators == old(separators)
      ensures emptyValuesListBehavior == old(emptyValuesListBehavior) && invalidValueBehavior == old(invalidValueBehavior)
    {
      potentiallyAcceptableValues := potentiallyAcceptableValues + Where(items, HasText);
    }

    /** ForAdditionalValues(string): one more separated string. */
    method ForAdditionalValuesToParse(valuesListToParse: NullableString)
      modifies this
      ensures potentiallyAcceptableValuesToParse == old(potentiallyAcceptableValuesToParse) + [valuesListToParse]
      ensures knownAcceptableValues == old(knownAcceptableValues)
      ensures potentiallyAcceptableValues == old(potentiallyAcceptableValues)
      ensures propertyToFilter == old(propertyToFilter) && separators == old(separators)
      ensures emptyValuesListBehavior == old(emptyValuesListBehavior) && invalidValueBehavior == old(invalidValueBehavior)
    {
      potentiallyAcceptableValuesToParse := potentiallyAcceptableValuesToParse + [valuesListToParse];
    }

    /** ParseListOfPotentiallyAcceptableItems: the pieces of every separated string, in order. */
    method ParseListOfPotentiallyAcceptableItems(separatorList: seq<string>) returns (result: seq<string>)
      ensures result == SplitAll(potentiallyAcceptableValuesToParse, separatorList)
    {
      var toParse := potentiallyAcceptableValuesToParse;
      result := [];
      for i := 0 to |toParse|
        invariant result == SplitAll(toParse[..i], separatorList)
      {
        assert toParse[..i + 1][..i] == toParse[..i];
        result := result + SplitPending(toParse[i], separatorList);
      }
      assert toParse[..|toParse|] == toParse;
    }

    /** AddParsedItemsToPotentiallyAcceptableValues: the pieces join the strings to convert. */
    method AddParsedItemsToPotentiallyAcceptableValues(parsedItems: seq<string>)
      modifies this
      ensures potentiallyAcceptableValues == old(potentiallyAcceptableValues) + AsNullable(parsedItems)
      ensures knownAcceptableValues == old(knownAcceptableValues)
      ensures potentiallyAcceptableValuesToParse == old(potentiallyAcceptableValuesToParse)
      ensures propertyToFilter == old(propertyToFilter) && separators == old(separators)
      ensures emptyValuesListBehavior == old(emptyValuesListBehavior) && invalidValueBehavior == old(invalidValueBehavior)
    {
      for i := 0 to |parsedItems|
        invariant potentiallyAcceptableValues == old(potentiallyAcceptableValues) + AsNullable(parsedItems[..i])
        invariant knownAcceptableValues == old(knownAcceptableValues)
        invariant potentiallyAcceptableValuesToParse == old(potentiallyAcceptableValuesToParse)
        invariant propertyToFilter == old(propertyToFilter) && separators == old(separators)
        invariant emptyValuesListBehavior == old(emptyValuesListBehavior) && invalidValueBehavior == old(invalidValueBehavior)
      {
        assert AsNullable(parsedItems[..i + 1]) == AsNullable(parsedItems[..i]) + [Some(parsedItems[i])];
        potentiallyAcceptableValues := potentiallyAcceptableValues + [Some(parsedItems[i])];
      }
      assert parsedItems[..|parsedItems|] == parsedItems;
    }

    /**
     * ParsePotentiallyAcceptableValues: the known values, then each string converted after
     * trimming; one that does not convert is skipped, or stops the loop with
     * InvalidSieveValueException; finally repeats are removed.
     */
    method ParsePotentiallyAcceptableValues() returns (r: Result<seq<V>>)
      ensures r == ConvertAndMerge(knownAcceptableValues, potentiallyAcceptableValues, TrimAndConvert(convert), invalidValueBehavior)
    {
      var raw := potentiallyAcceptableValues;
      var tryConvert := TrimAndConvert(convert);
      var result := knownAcceptableValues;
      ghost var converted: seq<V> := [];
      for i := 0 to |raw|
        invariant ConvertRaw(raw[..i], tryConvert, invalidValueBehavior) == Ok(converted)
        invariant result == knownAcceptableValues + converted
      {
        var stringItem := raw[i];
        match tryConvert(stringItem)
        case Some(convertedItem) =>
          ConvertRawPrefixStep(raw, i, converted, tryConvert, invalidValueBehavior);
          result := result + [convertedItem];
          converted := converted + [convertedItem];
        case None =>
          if invalidValueBehavior == ThrowInvalidSieveValueException {
            ConvertRawThrowsAt(raw, i, converted, tryConvert, invalidValueBehavior);
            return Err(InvalidValueError(stringItem));
          }
          ConvertRawPrefixStep(raw, i, converted, tryConvert, invalidValueBehavior);
      }
      assert raw[..|raw|] == raw;
      assert ConvertRaw(raw, tryConvert, invalidValueBehavior) == Ok(converted);
      return Ok(Distinct(result));
    }

    /**
     * GetAcceptableValues (the AcceptableValues property): the resolved values. As side effects
     * the separators are latched and the pieces of the separated strings are appended to the
     * strings to convert, neither of which changes what the next read yields.
     */
    method GetAcceptableValues() returns (r: Result<seq<V>>)
      modifies this
      ensures r == old(Resolved())
      ensures separators == Some(old(SeparatorsInUse()))
      ensures potentiallyAcceptableValues == old(potentiallyAcceptableValues) + old(ParsedPieces())
      ensures ParsedPieces() == old(ParsedPieces())
      ensures knownAcceptableValues == old(knownAcceptableValues)
      ensures potentiallyAcceptableValuesToParse == old(potentiallyAcceptableValuesToParse)
      ensures propertyToFilter == old(propertyToFilter)
      ensures emptyValuesListBehavior == old(emptyValuesListBehavior) && invalidValueBehavior == old(invalidValueBehavior)
      ensures Resolved() == old(Resolved())
    {
      var separatorList := GetSeparatorsOrDefault();
      var parsedItems := ParseListOfPotentiallyAcceptableItems(separatorList);
      AddParsedItemsToPotentiallyAcceptableValues(parsedItems);
      r := ParsePotentiallyAcceptableValues();
      ReadIsRepeatable(knownAcceptableValues, old(potentiallyAcceptableValues), potentiallyAcceptableValuesToParse,
        separatorList, TrimAndConvert(convert), invalidValueBehavior);
    }

    /**
     * ToExpression: the property is looked up first (NullReferenceException when none is set);
     * then the acceptable values are read twice for the emptiness test and, when there are
     * some, a third time to build the disjunction of equalities. Each read repeats the
     * side effects of GetAcceptableValues without changing its result.
     */
    method ToExpression() returns (r: Result<Expr<T, V>>)
      modifies this
      ensures r == old(Expected())
      ensures old(propertyToFilter).None? ==> unchanged(this)
      ensures old(propertyToFilter).Some? ==> separators == Some(old(SeparatorsInUse()))
      ensures potentiallyAcceptableValues ==
        old(potentiallyAcceptableValues) + Repeated(old(ParsedPieces()), old(ReadsByToExpression()))
      ensures propertyToFilter == old(propertyToFilter) && knownAcceptableValues == old(knownAcceptableValues)
      ensures potentiallyAcceptableValuesToParse == old(potentiallyAcceptableValuesToParse)
      ensures emptyValuesListBehavior == old(emptyValuesListBehavior) && invalidValueBehavior == old(invalidValueBehavior)
      ensures Resolved() == old(Resolved())
    {
      ghost var pieces := ParsedPieces();
      if propertyToFilter.None? {
        return Err(NullReference);
      }
      var property := propertyToFilter.value;
      assert old(potentiallyAcceptableValues) + Repeated(pieces, 0) == old(potentiallyAcceptableValues);
      var first := GetAcceptableValues();
      RepeatedStep(old(potentiallyAcceptableValues), pieces, 0);
      if first.Err? {
        return Err(first.error);
      }
      var second := GetAcceptableValues();
      RepeatedStep(old(potentiallyAcceptableValues), pieces, 1);
      match second
      case Err(e) =>
        return Err(e);
      case Ok(vs) =>
        if vs == [] {
          return HandleEmptyAcceptableValuesList(emptyValuesListBehavior);
        }
      var values := GetAcceptableValues();
      RepeatedStep(old(potentiallyAcceptableValues), pieces, 2);
      match values
      case Err(e) =>
        return Err(e);
      case Ok(vs) =>
        return Ok(OrFold(property, vs));
    }

    /** ToCompiledExpression: the compiled delegate of ToExpression's tree. */
    method ToCompiledExpression() returns (r: Result<T -> bool>)
      modifies this
      ensures old(Expected()).Err? ==> r == Err(old(Expected()).error)
      ensures old(Expected()).Ok? ==> r == Ok(Compile(old(Expected()).value))
      ensures old(propertyToFilter).None? ==> unchanged(this)
      ensures old(propertyToFilter).Some? ==> separators == Some(old(SeparatorsInUse()))
      ensures potentiallyAcceptableValues ==
        old(potentiallyAcceptableValues) + Repeated(old(ParsedPieces()), old(ReadsByToExpression()))
      ensures propertyToFilter == old(propertyToFilter) && knownAcceptableValues == old(knownAcceptableValues)
      ensures potentiallyAcceptableValuesToParse == old(potentiallyAcceptableValuesToParse)
      ensures emptyValuesListBehavior == old(emptyValuesListBehavior) && invalidValueBehavior == old(invalidValueBehavior)
      ensures Resolved() == old(Resolved())
    {
      var e := ToExpression();
      match e
      case Err(err) =>
        r := Err(err);
      case Ok(tree) =>
        r := Ok(Compile(tree));
    }
  }

  /**
   * EqualitySieve<T>.ForProperty<V>: a new sieve filtering on the property the lambda selects;
   * a lambda that does not select a property of T is rejected.
   */
  method ForPropertyOf<T(!new), V(==)>(convert: string -> Option<V>, lambda: PropertyLambda<T, V>)
    returns (r: Result<EqualitySieve<T, V>>)
    ensures ExtractPropertyInfo(lambda).Err? ==> r == Err(ExtractPropertyInfo(lambda).error)
    ensures r.Ok? ==> fresh(r.value) && r.value.propertyToFilter == Some(ExtractPropertyInfo(lambda).value)
    ensures r.Ok? ==> r.value.convert == convert && r.value.separators == None
    ensures r.Ok? ==> r.value.knownAcceptableValues == [] && r.value.potentiallyAcceptableValues == []
    ensures r.Ok? ==> r.value.potentiallyAcceptableValuesToParse == []
    ensures r.Ok? ==> r.value.emptyValuesListBehavior == LetAllObjectsThrough
    ensures r.Ok? ==> r.value.invalidValueBehavior == IgnoreInvalidValue
    ensures r.Ok? <==> ExtractPropertyInfo(lambda).Ok?
  {
    var sieve := new EqualitySieve(convert);
    var outcome := sieve.ForProperty(lambda);
    if outcome.Fail? {
      return Err(outcome.error);
    }
    return Ok(sieve);
  }
}
