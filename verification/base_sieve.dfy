/**
 * Sieves/BaseSieve.cs: a sieve configured through fluent calls that each change its fields in
 * place. Values come in three forms (values of the property type, strings to convert, and
 * separated strings to split and convert); reading the acceptable values resolves them.
 */
module BaseSieves {
  import opened Errors
  import opened Options
  import opened Collections
  import opened Text
  import opened Expressions
  import opened AcceptableValues

  /** BaseSieve.DefaultSeparators: the separators used until others are set. */
  const DefaultSeparators: seq<string> := [",", "|"]

  class BaseSieve<T(!new), V(==)> {
    var propertyToFilter: Option<PropertyInfo<T, V>>
    var emptyValuesListBehavior: EmptyValuesListBehavior
    var invalidValueBehavior: InvalidValueBehavior
    var addedSeparators: seq<string>
    /** Strings to convert one by one. */
    var potentiallyAcceptableValues: seq<NullableString>
    /** Separated strings to split, then convert. */
    var potentiallyAcceptableValuesToParse: seq<NullableString>
    /** Values given as values of the property type. */
    var knownAcceptableValues: seq<V>
    /** The type converter for V: ConvertFromString, None where it throws. */
    const convert: string -> Option<V>

    /** The field initialisers: nothing to filter on yet, no values, default behaviours and separators. */
    constructor (convert: string -> Option<V>)
      ensures this.convert == convert
      ensures propertyToFilter == None
      ensures emptyValuesListBehavior == LetAllObjectsThrough && invalidValueBehavior == IgnoreInvalidValue
      ensures addedSeparators == []
      ensures knownAcceptableValues == [] && potentiallyAcceptableValues == [] && potentiallyAcceptableValuesToParse == []
    {
      this.convert := convert;
      propertyToFilter := None;
      emptyValuesListBehavior := LetAllObjectsThrough;
      invalidValueBehavior := IgnoreInvalidValue;
      addedSeparators := [];
      knownAcceptableValues := [];
      potentiallyAcceptableValues := [];
      potentiallyAcceptableValuesToParse := [];
    }

    /** Separators / GetSeparatorsOrDefault: the separators set last, or the defaults; never empty. */
    function Separators(): (r: seq<string>)
      reads this
      ensures r != []
      ensures addedSeparators != [] ==> r == addedSeparators
      ensures addedSeparators == [] ==> r == DefaultSeparators
    {
      if addedSeparators == [] then DefaultSeparators else addedSeparators
    }

    /** What reading AcceptableValues yields in the current state. */
    ghost function Resolved(): Result<seq<V>>
      reads this
    {
      Resolve(knownAcceptableValues, potentiallyAcceptableValues, potentiallyAcceptableValuesToParse,
              Separators(), TrimAndConvert(convert), invalidValueBehavior)
    }

    /** ClearPotentialValuesLists: all three kinds of values are dropped. */
    method ClearPotentialValuesLists()
      modifies this
      ensures knownAcceptableValues == [] && potentiallyAcceptableValues == [] && potentiallyAcceptableValuesToParse == []
      ensures propertyToFilter == old(propertyToFilter) && addedSeparators == old(addedSeparators)
      ensures emptyValuesListBehavior == old(emptyValuesListBehavior) && invalidValueBehavior == old(invalidValueBehavior)
      ensures Resolved() == Ok([])
    {
      knownAcceptableValues := [];
      potentiallyAcceptableValues := [];
      potentiallyAcceptableValuesToParse := [];
    }

    /** ForValue(V): the value becomes the only acceptable value. */
    method ForValue(value: V)
      modifies this
      ensures knownAcceptableValues == [value] && potentiallyAcceptableValues == [] && potentiallyAcceptableValuesToParse == []
      ensures propertyToFilter == old(propertyToFilter) && addedSeparators == old(addedSeparators)
      ensures emptyValuesListBehavior == old(emptyValuesListBehavior) && invalidValueBehavior == old(invalidValueBehavior)
      ensures Resolved() == Ok([value])
    {
      ClearPotentialValuesLists();
      knownAcceptableValues := [value];
      assert Pending([], [], Separators()) == [];
      assert ConvertRaw([], TrimAndConvert(convert), invalidValueBehavior) == Ok([]);
      assert [value][..0] == [];
      assert Distinct([value]) == [value];
      assert [value] + [] == [value];
      assert ConvertAndMerge([value], [], TrimAndConvert(convert), invalidValueBehavior) == Ok([value]);
    }

    /**
     * ForValue(string): the string becomes the only value, to be converted when read; it then
     * yields its conversion, nothing, or the invalid-value error.
     */
    method ForValueString(item: NullableString)
      modifies this
      ensures knownAcceptableValues == [] && potentiallyAcceptableValues == [item] && potentiallyAcceptableValuesToParse == []
      ensures propertyToFilter == old(propertyToFilter) && addedSeparators == old(addedSeparators)
      ensures emptyValuesListBehavior == old(emptyValuesListBehavior) && invalidValueBehavior == old(invalidValueBehavior)
      ensures Resolved() ==
        match ConvertItem(item, convert)
        case Some(v) => Ok([v])
        case None =>
          if invalidValueBehavior == ThrowInvalidSieveValueException then Err(InvalidValueError(item)) else Ok([])
    {
      ClearPotentialValuesLists();
      potentiallyAcceptableValues := [item];
      ResolveSingle(item, Separators(), TrimAndConvert(convert), invalidValueBehavior);
      assert TrimAndConvert(convert)(item) == ConvertItem(item, convert);
    }

    /** ForValues(IEnumerable<V>): the values replace all others; each is acceptable once. */
    method ForValues(values: seq<V>)
      modifies this
      ensures knownAcceptableValues == values && potentiallyAcceptableValues == [] && potentiallyAcceptableValuesToParse == []
      ensures propertyToFilter == old(propertyToFilter) && addedSeparators == old(addedSeparators)
      ensures emptyValuesListBehavior == old(emptyValuesListBehavior) && invalidValueBehavior == old(invalidValueBehavior)
      ensures Resolved() == Ok(Distinct(values))
    {
      ClearPotentialValuesLists();
      knownAcceptableValues := values;
      assert values + [] == values;
    }

    /** ForValues(IEnumerable<string>): the strings that are neither null nor blank replace all other values. */
    method ForValueStrings(items: seq<NullableString>)
      modifies this
      ensures knownAcceptableValues == [] && potentiallyAcceptableValues == Where(items, HasText)
      ensures potentiallyAcceptableValuesToParse == []
      ensures propertyToFilter == old(propertyToFilter) && addedSeparators == old(addedSeparators)
      ensures emptyValuesListBehavior == old(emptyValuesListBehavior) && invalidValueBehavior == old(invalidValueBehavior)
    {
      ClearPotentialValuesLists();
      potentiallyAcceptableValues := potentiallyAcceptableValues + Where(items, HasText);
    }

    /** ForValues(string): the separated string replaces all other values. */
    method ForValuesToParse(valuesListToParse: NullableString)
      modifies this
      ensures knownAcceptableValues == [] && potentiallyAcceptableValues == []
      ensures potentiallyAcceptableValuesToParse == [valuesListToParse]
      ensures propertyToFilter == old(propertyToFilter) && addedSeparators == old(addedSeparators)
      ensures emptyValuesListBehavior == old(emptyValuesListBehavior) && invalidValueBehavior == old(invalidValueBehavior)
    {
      ClearPotentialValuesLists();
      potentiallyAcceptableValuesToParse := potentiallyAcceptableValuesToParse + [valuesListToParse];
    }

    /** WithSeparator: a separator that is neither null nor blank replaces the separators; any other is ignored. */
    method WithSeparator(newSeparator: NullableString)
      modifies this
      ensures HasText(newSeparator) ==> addedSeparators == [newSeparator.value]
      ensures !HasText(newSeparator) ==> addedSeparators == old(addedSeparators)
      ensures HasText(newSeparator) ==> Separators() == [newSeparator.value]
      ensures propertyToFilter == old(propertyToFilter) && knownAcceptableValues == old(knownAcceptableValues)
      ensures potentiallyAcceptableValues == old(potentiallyAcceptableValues)
      ensures potentiallyAcceptableValuesToParse == old(potentiallyAcceptableValuesToParse)
      ensures emptyValuesListBehavior == old(emptyValuesListBehavior) && invalidValueBehavior == old(invalidValueBehavior)
    {
      if HasText(newSeparator) {
        addedSeparators := [newSeparator.value];
      }
    }

    /** WithSeparators: a non-null, non-empty list replaces the separators; any other is ignored. */
    method WithSeparators(separatorStrings: Option<seq<string>>)
      modifies this
      ensures separatorStrings.Some? && separatorStrings.value != [] ==> addedSeparators == separatorStrings.value
      ensures !(separatorStrings.Some? && separatorStrings.value != []) ==> addedSeparators == old(addedSeparators)
      ensures propertyToFilter == old(propertyToFilter) && knownAcceptableValues == old(knownAcceptableValues)
      ensures potentiallyAcceptableValues == old(potentiallyAcceptableValues)
      ensures potentiallyAcceptableValuesToParse == old(potentiallyAcceptableValuesToParse)
      ensures emptyValuesListBehavior == old(emptyValuesListBehavior) && invalidValueBehavior == old(invalidValueBehavior)
    {
      if separatorStrings.Some? && separatorStrings.value != [] {
        addedSeparators := separatorStrings.value;
      }
    }

    method WithEmptyValuesListBehavior(behavior: EmptyValuesListBehavior)
      modifies this
      ensures emptyValuesListBehavior == behavior
      ensures propertyToFilter == old(propertyToFilter) && addedSeparators == old(addedSeparators)
      ensures knownAcceptableValues == old(knownAcceptableValues)
      ensures potentiallyAcceptableValues == old(potentiallyAcceptableValues)
      ensures potentiallyAcceptableValuesToParse == old(potentiallyAcceptableValuesToParse)
      ensures invalidValueBehavior == old(invalidValueBehavior)
      ensures Resolved() == old(Resolved())
    {
      emptyValuesListBehavior := behavior;
    }

    method WithInvalidValueBehavior(behavior: InvalidValueBehavior)
      modifies this
      ensures invalidValueBehavior == behavior
      ensures propertyToFilter == old(propertyToFilter) && addedSeparators == old(addedSeparators)
      ensures knownAcceptableValues == old(knownAcceptableValues)
      ensures potentiallyAcceptableValues == old(potentiallyAcceptableValues)
      ensures potentiallyAcceptableValuesToParse == old(potentiallyAcceptableValuesToParse)
      ensures emptyValuesListBehavior == old(emptyValuesListBehavior)
    {
      invalidValueBehavior := behavior;
    }

    /** ForAdditionalValue(V): one more known value; one already known changes nothing that is read. */
    method ForAdditionalValue(value: V)
      modifies this
      ensures knownAcceptableValues == old(knownAcceptableValues) + [value]
      ensures potentiallyAcceptableValues == old(potentiallyAcceptableValues)
      ensures potentiallyAcceptableValuesToParse == old(potentiallyAcceptableValuesToParse)
      ensures propertyToFilter == old(propertyToFilter) && addedSeparators == old(addedSeparators)
      ensures emptyValuesListBehavior == old(emptyValuesListBehavior) && invalidValueBehavior == old(invalidValueBehavior)
      ensures value in old(knownAcceptableValues) ==> Resolved() == old(Resolved())
      ensures Resolved().Ok? ==> value in Resolved().value
    {
      knownAcceptableValues := knownAcceptableValues + [value];
      if value in old(knownAcceptableValues) {
        RepeatedKnownValueCollapses(old(knownAcceptableValues), value, potentiallyAcceptableValues,
          potentiallyAcceptableValuesToParse, Separators(), TrimAndConvert(convert), invalidValueBehavior);
      }
    }

    /** ForAdditionalValue(string): one more string to convert, kept even when null or blank. */
    method ForAdditionalValueString(item: NullableString)
      modifies this
      ensures potentiallyAcceptableValues == old(potentiallyAcceptableValues) + [item]
      ensures knownAcceptableValues == old(knownAcceptableValues)
      ensures potentiallyAcceptableValuesToParse == old(potentiallyAcceptableValuesToParse)
      ensures propertyToFilter == old(propertyToFilter) && addedSeparators == old(addedSeparators)
      ensures emptyValuesListBehavior == old(emptyValuesListBehavior) && invalidValueBehavior == old(invalidValueBehavior)
    {
      potentiallyAcceptableValues := potentiallyAcceptableValues + [item];
    }

    /** ForAdditionalValues(IEnumerable<V>): more known values. */
    method ForAdditionalValues(values: seq<V>)
      modifies this
      ensures knownAcceptableValues == old(knownAcceptableValues) + values
      ensures potentiallyAcceptableValues == old(potentiallyAcceptableValues)
      ensures potentiallyAcceptableValuesToParse == old(potentiallyAcceptableValuesToParse)
      ensures propertyToFilter == old(propertyToFilter) && addedSeparators == old(addedSeparators)
      ensures emptyValuesListBehavior == old(emptyValuesListBehavior) && invalidValueBehavior == old(invalidValueBehavior)
    {
      knownAcceptableValues := knownAcceptableValues + values;
    }

    /** ForAdditionalValues(IEnumerable<string>): more strings to convert, without the null or blank ones. */
    method ForAdditionalValueStrings(items: seq<NullableString>)
      modifies this
      ensures potentiallyAcceptableValues == old(potentiallyAcceptableValues) + Where(items, HasText)
      ensures knownAcceptableValues == old(knownAcceptableValues)
      ensures potentiallyAcceptableValuesToParse == old(potentiallyAcceptableValuesToParse)
      ensures propertyToFilter == old(propertyToFilter) && addedSeparators == old(addedSeparators)
      ensures emptyValuesListBehavior == old(emptyValuesListBehavior) && invalidValueBehavior == old(invalidValueBehavior)
    {
      potentiallyAcceptableValues := potentiallyAcceptableValues + Where(items, HasText);
    }

    /** ForAdditionalValues(string): one more separated string. */
    method ForAdditionalValuesToParse(valuesListToParse: NullableString)
      modifies this
      ensures potentiallyAcceptableValuesToParse == old(potentiallyAcceptableValuesToParse) + [valuesListToParse]
      ensures knownAcceptableValues == old(knownAcceptableValues)
      ensures potentiallyAcceptableValues == old(potentiallyAcceptableValues)
      ensures propertyToFilter == old(propertyToFilter) && addedSeparators == old(addedSeparators)
      ensures emptyValuesListBehavior == old(emptyValuesListBehavior) && invalidValueBehavior == old(invalidValueBehavior)
    {
      potentiallyAcceptableValuesToParse := potentiallyAcceptableValuesToParse + [valuesListToParse];
    }

    /** ForProperty(lambda): the selected property becomes the one to filter on; a rejected lambda changes nothing. */
    method ForProperty(lambda: PropertyLambda<T, V>) returns (outcome: Outcome)
      modifies this
      ensures ExtractPropertyInfo(lambda).Err? ==>
        outcome == Fail(ExtractPropertyInfo(lambda).error) && propertyToFilter == old(propertyToFilter)
      ensures ExtractPropertyInfo(lambda).Ok? ==>
        outcome == Pass && propertyToFilter == Some(ExtractPropertyInfo(lambda).value)
      ensures knownAcceptableValues == old(knownAcceptableValues)
      ensures potentiallyAcceptableValues == old(potentiallyAcceptableValues)
      ensures potentiallyAcceptableValuesToParse == old(potentiallyAcceptableValuesToParse)
      ensures addedSeparators == old(addedSeparators)
      ensures emptyValuesListBehavior == old(emptyValuesListBehavior) && invalidValueBehavior == old(invalidValueBehavior)
    {
      match ExtractPropertyInfo(lambda)
      case Err(e) =>
        outcome := Fail(e);
      case Ok(p) =>
        propertyToFilter := Some(p);
        outcome := Pass;
    }

    /** ParseListOfPotentiallyAcceptableItems: the pieces of every separated string, in order. */
    method ParseListOfPotentiallyAcceptableItems(separators: seq<string>) returns (result: seq<string>)
      ensures result == SplitAll(potentiallyAcceptableValuesToParse, separators)
    {
      var toParse := potentiallyAcceptableValuesToParse;
      result := [];
      for i := 0 to |toParse|
        invariant result == SplitAll(toParse[..i], separators)
      {
        assert toParse[..i + 1][..i] == toParse[..i];
        result := result + SplitPending(toParse[i], separators);
      }
      assert toParse[..|toParse|] == toParse;
    }

    /** AddParsedItemsToPotentiallyAcceptableValues: the pieces join the strings to convert. */
    method AddParsedItemsToPotentiallyAcceptableValues(parsedItems: seq<string>)
      modifies this
      ensures potentiallyAcceptableValues == old(potentiallyAcceptableValues) + AsNullable(parsedItems)
      ensures knownAcceptableValues == old(knownAcceptableValues)
      ensures potentiallyAcceptableValuesToParse == old(potentiallyAcceptableValuesToParse)
      ensures propertyToFilter == old(propertyToFilter) && addedSeparators == old(addedSeparators)
      ensures emptyValuesListBehavior == old(emptyValuesListBehavior) && invalidValueBehavior == old(invalidValueBehavior)
    {
      for i := 0 to |parsedItems|
        invariant potentiallyAcceptableValues == old(potentiallyAcceptableValues) + AsNullable(parsedItems[..i])
        invariant knownAcceptableValues == old(knownAcceptableValues)
        invariant potentiallyAcceptableValuesToParse == old(potentiallyAcceptableValuesToParse)
        invariant propertyToFilter == old(propertyToFilter) && addedSeparators == old(addedSeparators)
        invariant emptyValuesListBehavior == old(emptyValuesListBehavior) && invalidValueBehavior == old(invalidValueBehavior)
      {
        assert AsNullable(parsedItems[..i + 1]) == AsNullable(parsedItems[..i]) + [Some(parsedItems[i])];
        potentiallyAcceptableValues := potentiallyAcceptableValues + [Some(parsedItems[i])];
      }
      assert parsedItems[..|parsedItems|] == parsedItems;
    }

    /**
     * ParsePotentiallyAcceptableValues: the known values, then each string converted after
     * trimming; one that does not convert is skipped, or stops the loop with
     * InvalidSieveValueException; finally repeats are removed.
     */
    method ParsePotentiallyAcceptableValues() returns (r: Result<seq<V>>)
      ensures r == ConvertAndMerge(knownAcceptableValues, potentiallyAcceptableValues, TrimAndConvert(convert), invalidValueBehavior)
    {
      var raw := potentiallyAcceptableValues;
      var tryConvert := TrimAndConvert(convert);
      var result := knownAcceptableValues;
      ghost var converted: seq<V> := [];
      for i := 0 to |raw|
        invariant ConvertRaw(raw[..i], tryConvert, invalidValueBehavior) == Ok(converted)
        invariant result == knownAcceptableValues + converted
      {
        var stringItem := raw[i];
        match tryConvert(stringItem)
        case Some(convertedItem) =>
          ConvertRawPrefixStep(raw, i, converted, tryConvert, invalidValueBehavior);
          result := result + [convertedItem];
          converted := converted + [convertedItem];
        case None =>
          if invalidValueBehavior == ThrowInvalidSieveValueException {
            ConvertRawThrowsAt(raw, i, converted, tryConvert, invalidValueBehavior);
            return Err(InvalidValueError(stringItem));
          }
          ConvertRawPrefixStep(raw, i, converted, tryConvert, invalidValueBehavior);
      }
      assert raw[..|raw|] == raw;
      assert ConvertRaw(raw, tryConvert, invalidValueBehavior) == Ok(converted);
      return Ok(Distinct(result));
    }

    /**
     * GetAcceptableValues (the AcceptableValues property): the resolved values. As a side effect
     * the pieces of the separated strings are appended to the strings to convert, which leaves
     * what the next read yields unchanged.
     */
    method GetAcceptableValues() returns (r: Result<seq<V>>)
      modifies this
      ensures r == old(Resolved())
      ensures potentiallyAcceptableValues ==
        old(potentiallyAcceptableValues) + AsNullable(SplitAll(old(potentiallyAcceptableValuesToParse), old(Separators())))
      ensures knownAcceptableValues == old(knownAcceptableValues)
      ensures potentiallyAcceptableValuesToParse == old(potentiallyAcceptableValuesToParse)
      ensures propertyToFilter == old(propertyToFilter) && addedSeparators == old(addedSeparators)
      ensures emptyValuesListBehavior == old(emptyValuesListBehavior) && invalidValueBehavior == old(invalidValueBehavior)
      ensures Resolved() == old(Resolved())
    {
      var separators := Separators();
      var parsedItems := ParseListOfPotentiallyAcceptableItems(separators);
      AddParsedItemsToPotentiallyAcceptableValues(parsedItems);
      r := ParsePotentiallyAcceptableValues();
      ReadIsRepeatable(knownAcceptableValues, old(potentiallyAcceptableValues), potentiallyAcceptableValuesToParse,
        separators, TrimAndConvert(convert), invalidValueBehavior);
    }
  }
}
