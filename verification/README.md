# Sieve.NET: acceptable values and equality predicates, in Dafny

Sieve.NET builds filters ("sieves") over objects of a type `T`. A sieve names one property of `T`
and a list of acceptable values for it. It produces an expression that accepts an object exactly
when the property's value is one of the acceptable values. Values can be given as values of the
property type, as strings to convert, or as separated strings to split and convert.

This project models five generations of that code, each as written:

- `Sieves/BaseSieve.cs` (module `BaseSieves`). It is a class with three value lists, separators and
  two policies, changed in place by fluent calls. Reading `AcceptableValues` runs a pipeline:
  - split the separated strings;
  - append the pieces to the strings to convert;
  - trim and convert each string, skipping or rejecting failures;
  - put the known values first and remove repeats.
- `Sieves/EqualitySieve.cs` (module `EqualitySieves`). It is the same accumulator, with separators
  that latch to the defaults on first use. `ToExpression` Or-folds the values, and an empty list
  follows `EmptyValuesListBehavior`.
- `EqualitySieve.cs` (module `PropertyNameSieves`). The property is chosen by name, ignoring case.
  Strings are converted at once, and `ToExpression` has no empty-list policy.
- `SieveDefinition.cs` (module `SieveDefinitions`). Constructors fill a list of constants, and
  `GetRawExpression` Or-folds them in a loop.
- `Sieve.cs` (module `SimpleSieves`). There is one int value, compared by equality.

Shared modules:

- `Errors`: every exception as a `SieveError` constructor, plus `Result` and `Outcome`.
- `Options`: the two behaviour enums.
- `Collections`: LINQ `Where`, `Distinct` and `First`, and convert-until-failure loops.
- `Text`:
  - `Char.IsWhiteSpace`;
  - `String.Trim`;
  - `String.Split` with `RemoveEmptyEntries`, a left-to-right scan where the first listed separator
    that matches wins;
  - `IsNullOrWhiteSpace`.
- `Expressions`: expression trees, their evaluation, and the Or-fold.
- `AcceptableValues`: the read pipeline as functions.
- `Int32Parsing`: `int.Parse`.

A C# `null` string is `None` in a `NullableString`. A thrown exception is an `Err` or `Fail` result.
State that a call leaves behind is in the method's postcondition. Overloads get distinct names:
- `ForValue(string)` is `ForValueString`;
- `ForValues(IEnumerable<string>)` is `ForValueStrings`;
- `ForValues(string)` is `ForValuesToParse`.

Where the written description of the library and the code disagree, the model follows the code.
An unset property is used through `PropertyToFilter.Name`, so the error is a `NullReference`. No
"sieve property not set" exception is thrown anywhere.

## Model

Source paths are relative to the repository root.

| member | source | states |
|---|---|---|
| Collections.Where | src/app/Sieve.NET.Core/Sieves/BaseSieve.cs:110 | `Where` keeps exactly the elements that pass the filter, and nothing else |
| Collections.WhereNothing | src/app/Sieve.NET.Core/Sieves/BaseSieve.cs:110 | when no element passes, `Where` returns an empty list |
| Collections.WhereHead | src/app/Sieve.NET.Core/EqualitySieve.cs:106-115 | `Where(..).First()` is the first element, in order, that passes the filter |
| Collections.ConvertUntilFailure | src/app/Sieve.NET.Core/EqualitySieve.cs:153-157 | a loop that converts until the first failure: every item before the failure position is converted, and the position is inside the list |
| Collections.ConvertUntilFailureMeaning | src/app/Sieve.NET.Core/EqualitySieve.cs:153-157 | the values are the conversions of the items before the failure, in order, and the item at the failure position does not convert |
| Collections.ConvertUntilFailureStops | src/app/Sieve.NET.Core/SieveDefinition.cs:43-49 | once a prefix has failed, the items after it are never looked at |
| Collections.ConvertUntilFailureStep | src/app/Sieve.NET.Core/SieveDefinition.cs:43-49 | one more converted item extends the value list by its value |
| Collections.ConvertUntilFailureFails | src/app/Sieve.NET.Core/EqualitySieve.cs:154-157 | a failing item after a fully converted prefix ends the conversion at its position |
| Collections.ConvertUntilFailureAt | src/app/Sieve.NET.Core/EqualitySieve.cs:154-157 | the first failing item decides the outcome for the whole list |
| Collections.Distinct | src/app/Sieve.NET.Core/Sieves/BaseSieve.cs:148 | `Distinct` has no repeats, has the same elements as its input, and is no longer than it |
| Collections.DistinctSnoc | src/app/Sieve.NET.Core/Sieves/BaseSieve.cs:148 | one more element is appended exactly when it is new |
| Collections.DistinctExtends | src/app/Sieve.NET.Core/Sieves/BaseSieve.cs:127-148 | the known values' distinct list is a prefix of the result, so the known values come first |
| Collections.DistinctAbsorbs | src/app/Sieve.NET.Core/Sieves/BaseSieve.cs:148 | appending values already present changes nothing |
| Collections.DistinctSkipsRepeat | src/app/Sieve.NET.Core/Sieves/BaseSieve.cs:148 | a repeat of an earlier value can be dropped without changing the result |
| Collections.DistinctOfDistinct | src/app/Sieve.NET.Core/Sieves/BaseSieve.cs:148 | a list without repeats is left as it is |
| Text.IsWhiteSpace | src/app/Sieve.NET.Core/Sieves/BaseSieve.cs:107 | `Char.IsWhiteSpace`: the Unicode space, line and paragraph separators and the control characters U+0009 to U+000D and U+0085, the test behind every blank check and `Trim` |
| Text.LeadingWhiteSpace | src/app/Sieve.NET.Core/Sieves/BaseSieve.cs:134 | the length of the white space that starts the string: every character before it is white space, and the next one, if any, is not |
| Text.TrailingWhiteSpace | src/app/Sieve.NET.Core/Sieves/BaseSieve.cs:134 | the length of the white space that ends the string: every character after it is white space, and the one before, if any, is not |
| Text.Trim | src/app/Sieve.NET.Core/Sieves/BaseSieve.cs:134 | `String.Trim` is the slice after the leading white space, and only white space follows it; it is empty exactly for blank strings and has no white space at either end |
| Text.TrimIdempotent | src/app/Sieve.NET.Core/Sieves/BaseSieve.cs:134 | trimming an already trimmed string changes nothing |
| Text.SeparatorAt | src/app/Sieve.NET.Core/Sieves/BaseSieve.cs:109 | the first listed non-empty separator that the string starts with, or none |
| Text.MatchLength | src/app/Sieve.NET.Core/Sieves/BaseSieve.cs:109 | the length of the first listed non-empty separator that starts the string, and 0 exactly when none does; empty separators never match |
| Text.SplitFrom | src/app/Sieve.NET.Core/Sieves/BaseSieve.cs:109 | the splitting scan yields at least one piece |
| Text.Split | src/app/Sieve.NET.Core/Sieves/BaseSieve.cs:109 | `String.Split` always yields at least one piece |
| Text.SplitNonBlank | src/app/Sieve.NET.Core/Sieves/BaseSieve.cs:109-111 | split with empty entries removed, then drop blank pieces: no piece is empty or blank |
| Text.SplitFromSkipsSeparator | src/app/Sieve.NET.Core/Sieves/BaseSieve.cs:109 | where the one separator starts the text, the piece so far is closed and the scan goes on after the separator |
| Text.SplitFromKeepsCharacter | src/app/Sieve.NET.Core/Sieves/BaseSieve.cs:109 | where the one separator does not start the text, the first character joins the piece being read |
| Text.SplitFromJoin | src/app/Sieve.NET.Core/Sieves/BaseSieve.cs:109 | joining the pieces of the scan with its one separator gives back the scanned text |
| Text.SplitFromJoinAtSeparator | src/app/Sieve.NET.Core/Sieves/BaseSieve.cs:109 | the round trip through the scan when the text starts with the separator |
| Text.SplitFromJoinInPiece | src/app/Sieve.NET.Core/Sieves/BaseSieve.cs:109 | the round trip through the scan when the text does not start with the separator |
| Text.SplitJoinRoundTrip | src/app/Sieve.NET.Core/Sieves/BaseSieve.cs:109 | with one non-empty separator, `Join(Split(s))` is `s` |
| Text.NoSeparatorInPiece | src/app/Sieve.NET.Core/Sieves/BaseSieve.cs:109 | a piece read up to a separator contains no separator |
| Text.SplitFromAvoidsSeparators | src/app/Sieve.NET.Core/Sieves/BaseSieve.cs:109 | no piece of the scan contains any of the separators |
| Text.SplitAvoidsSeparators | src/app/Sieve.NET.Core/Sieves/BaseSieve.cs:109 | no piece of a split contains any of the separators |
| Text.SplitFromOfBlank | src/app/Sieve.NET.Core/Sieves/BaseSieve.cs:107-111 | every piece of a blank string is blank |
| Text.SplitNonBlankOfBlank | src/app/Sieve.NET.Core/Sieves/BaseSieve.cs:107-111 | a blank string yields no pieces, so the blank guard adds nothing |
| Text.SplitFromWithoutSeparators | src/app/Sieve.NET.Core/Sieves/BaseSieve.cs:109 | with no non-empty separator, the scan only collects characters and ends with one piece |
| Text.SplitWithoutSeparators | src/app/Sieve.NET.Core/Sieves/BaseSieve.cs:109 | a separator list of empty strings only (`WithSeparators([""])`) leaves the string as one piece |
| Text.EqualsIgnoreCase | src/app/Sieve.NET.Core/EqualitySieve.cs:108 | equal lengths and equal characters once ASCII letters are folded to one case |
| Text.EqualsIgnoreCaseIsEquivalence | src/app/Sieve.NET.Core/EqualitySieve.cs:108 | the comparison ignoring case is reflexive, symmetric and transitive |
| Expressions.Eval | src/app/Sieve.NET.Core/Sieves/EqualitySieve.cs:257 | what the compiled tree returns for an object: constants, the constant comparison, the property equality and the short-circuit or |
| Expressions.Compile | src/app/Sieve.NET.Core/Sieves/EqualitySieve.cs:257 | the compiled delegate returns, for every object, what the tree evaluates to |
| Expressions.OrFold | src/app/Sieve.NET.Core/Sieves/EqualitySieve.cs:196-206 | the values as property equalities folded with `Or` from `False`, left to right; `OrFoldAccepts` states what it accepts |
| Expressions.OrFoldAccepts | src/app/Sieve.NET.Core/Sieves/EqualitySieve.cs:196-206 | the Or-fold from False accepts an object exactly when its property value is one of the values |
| Expressions.OrFoldIgnoresOrder | src/app/Sieve.NET.Core/Sieves/EqualitySieve.cs:196-206 | lists with the same elements give predicates that agree on every object, whatever their order or repeats |
| Expressions.ExtractPropertyInfo | src/app/Sieve.NET.Core/Sieves/BaseSieve.cs:420-446 | a method call is rejected; a field access is rejected; a property of an unrelated type is rejected; a property of `T` or a base type is accepted |
| Int32Parsing.DigitChar | src/app/Sieve.NET.Core/SieveDefinition.cs:29 | the digit character of a digit reads back as that digit |
| Int32Parsing.StripLeadingNumberWhite | src/app/Sieve.NET.Core/SieveDefinition.cs:29 | a suffix of the input that does not start with number white space |
| Int32Parsing.StripTrailingNumberWhite | src/app/Sieve.NET.Core/SieveDefinition.cs:29 | a prefix of the input that does not end with number white space |
| Int32Parsing.ParseInt32 | src/app/Sieve.NET.Core/SieveDefinition.cs:29 | `int.Parse` yields only values in the 32-bit range |
| Int32Parsing.ParseSignedDigits | src/app/Sieve.NET.Core/SieveDefinition.cs:29 | after the white space, an optional sign and digits give a value in the 32-bit range, or nothing |
| Int32Parsing.ParseWithoutSurroundingWhite | src/app/Sieve.NET.Core/SieveDefinition.cs:29 | for text with no white space at either end, `int.Parse` is the sign-and-digits step alone |
| Int32Parsing.ParseOfDigits | src/app/Sieve.NET.Core/SieveDefinition.cs:29 | a run of digits parses to its value when it fits in 32 bits |
| Int32Parsing.ParseOfNegatedDigits | src/app/Sieve.NET.Core/SieveDefinition.cs:29 | a `-` before a run of digits parses to the negated value when it fits in 32 bits |
| Int32Parsing.DigitsOf | src/app/Sieve.NET.Core/SieveDefinition.cs:29 | the decimal digits of `n` without leading zeros, whose value is `n` |
| Int32Parsing.ParseFormatRoundTrip | src/app/Sieve.NET.Core/SieveDefinition.cs:29 | `int.Parse` reads back every 32-bit value written in decimal |
| Int32Parsing.StripLeadingKeepsNoDigits | src/app/Sieve.NET.Core/SieveDefinition.cs:29 | skipping leading white space brings in no digit |
| Int32Parsing.StripTrailingKeepsNoDigits | src/app/Sieve.NET.Core/SieveDefinition.cs:29 | skipping trailing white space brings in no digit |
| Int32Parsing.NoDigitsNoValue | src/app/Sieve.NET.Core/SieveDefinition.cs:29 | text without digits never parses |
| AcceptableValues.SplitPending | src/app/Sieve.NET.Core/Sieves/BaseSieve.cs:105-112 | the pieces of one separated string: none blank, and none for a null or blank string |
| AcceptableValues.SplitPendingGuardIsRedundant | src/app/Sieve.NET.Core/Sieves/BaseSieve.cs:107 | for a non-null string the blank guard gives the same pieces as splitting |
| AcceptableValues.SplitAll | src/app/Sieve.NET.Core/Sieves/BaseSieve.cs:93-103 | the pieces of all separated strings, in order; none is blank |
| AcceptableValues.AsNullable | src/app/Sieve.NET.Core/Sieves/BaseSieve.cs:114-117 | each piece becomes a non-null string at the same position |
| AcceptableValues.ConvertItem | src/app/Sieve.NET.Core/Sieves/BaseSieve.cs:134 | a null string never converts; any other is trimmed before conversion |
| AcceptableValues.TrimAndConvert | src/app/Sieve.NET.Core/Sieves/BaseSieve.cs:134 | the conversion the loop applies: null never converts, and white space around a string makes no difference |
| AcceptableValues.FirstFailureFrom | src/app/Sieve.NET.Core/Sieves/BaseSieve.cs:130-145 | the first string at or after a position that does not convert |
| AcceptableValues.FirstFailure | src/app/Sieve.NET.Core/Sieves/BaseSieve.cs:130-145 | the first string that does not convert; every string before it converts |
| AcceptableValues.ConvertRaw | src/app/Sieve.NET.Core/Sieves/BaseSieve.cs:130-145 | the conversion loop: it fails only under the throw policy, and otherwise yields at most one value per string |
| AcceptableValues.Conversions | src/app/Sieve.NET.Core/Sieves/BaseSieve.cs:130-145 | the conversions of the strings that convert, in order, at most one per string; the reference the loop is held to |
| AcceptableValues.ConvertRawMeaning | src/app/Sieve.NET.Core/Sieves/BaseSieve.cs:130-145 | the conversion loop fails exactly under the throw policy with a string that does not convert. The error is `Invalid value: ` followed by the first such string, untrimmed. Otherwise every value is some string's conversion, and every string that converts contributes its value |
| AcceptableValues.ConvertRawConversions | src/app/Sieve.NET.Core/Sieves/BaseSieve.cs:130-145 | without an error, the loop's values are exactly the conversions of the strings that convert, in order |
| AcceptableValues.ConvertRawStep | src/app/Sieve.NET.Core/Sieves/BaseSieve.cs:130-145 | one loop step: a converted string is appended, a failing one is skipped or raises the error |
| AcceptableValues.ConvertRawSnoc | src/app/Sieve.NET.Core/Sieves/BaseSieve.cs:130-145 | converting a list with one more string is one more loop step |
| AcceptableValues.ConvertRawAppend | src/app/Sieve.NET.Core/Sieves/BaseSieve.cs:130-145 | once the loop has thrown, later strings do not change the result |
| AcceptableValues.ConvertRawPrefixStep | src/app/Sieve.NET.Core/Sieves/BaseSieve.cs:130-145 | after a prefix has converted without error, the next string adds its value, or is skipped when it does not convert under the ignore policy |
| AcceptableValues.ConvertRawThrowsAt | src/app/Sieve.NET.Core/Sieves/BaseSieve.cs:130-145 | under the throw policy, the first string that does not convert is the error for the whole list |
| AcceptableValues.ConvertAndMerge | src/app/Sieve.NET.Core/Sieves/BaseSieve.cs:125-149 | the known values followed by the loop's values, without repeats, or the loop's error; `ConvertAndMergeMeaning` states what that is |
| AcceptableValues.ConvertAndMergeMeaning | src/app/Sieve.NET.Core/Sieves/BaseSieve.cs:125-149 | fails exactly under the throw policy with a string that does not convert, with the error for the first such string; otherwise the known values and then the conversions in order, each at its first occurrence |
| AcceptableValues.Resolve | src/app/Sieve.NET.Core/Sieves/BaseSieve.cs:69-80 | a read fails exactly under the throw policy with a pending string that does not convert, with `Invalid value: ` and the first such string. Otherwise the result is the known values, then the conversions of the pending strings in order, each at its first occurrence: it has no repeats, begins with the distinct known values, holds every known value and every converted string's value, and nothing else |
| AcceptableValues.ResolveSingle | src/app/Sieve.NET.Core/Sieves/BaseSieve.cs:194-199 | with one string to convert and nothing else, a read yields its conversion, or nothing, or its invalid-value error under the throw policy |
| AcceptableValues.ConvertAndMergeAbsorbsRepeat | src/app/Sieve.NET.Core/Sieves/BaseSieve.cs:114-117 | converting the re-appended pieces a second time changes nothing |
| AcceptableValues.ReadIsRepeatable | src/app/Sieve.NET.Core/Sieves/BaseSieve.cs:75 | after a read has re-appended the split pieces, the next read yields the same result |
| AcceptableValues.RepeatedKnownValueCollapses | src/app/Sieve.NET.Core/Sieves/BaseSieve.cs:336-340 | adding a value already known does not change what is read |
| AcceptableValues.HandleEmptyAcceptableValuesList | src/app/Sieve.NET.Core/Sieves/BaseSieve.cs:448-474 | the throw policy gives `NoSieveValuesSuppliedException`, and an unknown policy gives the generic exception. Otherwise the expression accepts every object for `LetAllObjectsThrough` and none for `LetNoObjectsThrough` |
| BaseSieves.BaseSieve.constructor | src/app/Sieve.NET.Core/Sieves/BaseSieve.cs:62-65 | empty lists, no separators, default policies |
| BaseSieves.BaseSieve.Separators | src/app/Sieve.NET.Core/Sieves/BaseSieve.cs:82-91 | the added separators, or `[",", "|"]` when none were added; never empty |
| BaseSieves.BaseSieve.ClearPotentialValuesLists | src/app/Sieve.NET.Core/Sieves/BaseSieve.cs:476-481 | all three lists are empty and nothing else changes; a read yields no values |
| BaseSieves.BaseSieve.ForValue | src/app/Sieve.NET.Core/Sieves/BaseSieve.cs:176-181 | whatever the prior state, a read yields exactly `[value]` |
| BaseSieves.BaseSieve.ForValueString | src/app/Sieve.NET.Core/Sieves/BaseSieve.cs:194-199 | the string is the only pending value. A read yields its trimmed conversion, or nothing, or the invalid-value error under the throw policy |
| BaseSieves.BaseSieve.ForValues | src/app/Sieve.NET.Core/Sieves/BaseSieve.cs:234-242 | a read yields the given values without repeats, in order |
| BaseSieves.BaseSieve.ForValueStrings | src/app/Sieve.NET.Core/Sieves/BaseSieve.cs:254-262 | the lists are cleared, then the strings that are not null or blank become the pending strings |
| BaseSieves.BaseSieve.ForValuesToParse | src/app/Sieve.NET.Core/Sieves/BaseSieve.cs:271-277 | the lists are cleared, then the string is the only one to parse |
| BaseSieves.BaseSieve.WithSeparator | src/app/Sieve.NET.Core/Sieves/BaseSieve.cs:284-291 | a non-blank separator replaces the separators; a blank one changes nothing |
| BaseSieves.BaseSieve.WithSeparators | src/app/Sieve.NET.Core/Sieves/BaseSieve.cs:299-306 | a non-null, non-empty list replaces the separators; anything else changes nothing |
| BaseSieves.BaseSieve.WithEmptyValuesListBehavior | src/app/Sieve.NET.Core/Sieves/BaseSieve.cs:313-317 | sets the empty-list policy only |
| BaseSieves.BaseSieve.WithInvalidValueBehavior | src/app/Sieve.NET.Core/Sieves/BaseSieve.cs:324-329 | sets the invalid-value policy only |
| BaseSieves.BaseSieve.ForAdditionalValue | src/app/Sieve.NET.Core/Sieves/BaseSieve.cs:336-340 | appends to the known values; adding a value that is already known leaves every read unchanged |
| BaseSieves.BaseSieve.ForAdditionalValueString | src/app/Sieve.NET.Core/Sieves/BaseSieve.cs:349-353 | appends the string, unfiltered, to the pending strings |
| BaseSieves.BaseSieve.ForAdditionalValues | src/app/Sieve.NET.Core/Sieves/BaseSieve.cs:360-364 | appends the values to the known values |
| BaseSieves.BaseSieve.ForAdditionalValueStrings | src/app/Sieve.NET.Core/Sieves/BaseSieve.cs:372-380 | appends the strings that are not null or blank |
| BaseSieves.BaseSieve.ForAdditionalValuesToParse | src/app/Sieve.NET.Core/Sieves/BaseSieve.cs:391-395 | appends the string to the strings to parse |
| BaseSieves.BaseSieve.ForProperty | src/app/Sieve.NET.Core/Sieves/BaseSieve.cs:410-418 | the property the lambda selects becomes the property to filter; a rejected lambda changes nothing |
| BaseSieves.BaseSieve.ParseListOfPotentiallyAcceptableItems | src/app/Sieve.NET.Core/Sieves/BaseSieve.cs:93-103 | the loop collects the non-blank pieces of every string to parse, in order |
| BaseSieves.BaseSieve.AddParsedItemsToPotentiallyAcceptableValues | src/app/Sieve.NET.Core/Sieves/BaseSieve.cs:114-117 | the pieces are appended to the pending strings, and nothing else changes |
| BaseSieves.BaseSieve.ParsePotentiallyAcceptableValues | src/app/Sieve.NET.Core/Sieves/BaseSieve.cs:125-149 | the loop yields the known values followed by the converted strings, without repeats, or the invalid-value error |
| BaseSieves.BaseSieve.GetAcceptableValues | src/app/Sieve.NET.Core/Sieves/BaseSieve.cs:69-80 | returns the resolved values and re-appends the split pieces to the pending strings; the next read gives the same result |
| EqualitySieves.ExpressionFor | src/app/Sieve.NET.Core/Sieves/EqualitySieve.cs:186-207 | no property is a null reference, and a failing read propagates. An empty list follows the empty-list policy. Otherwise the expression accepts an object exactly when its property value is acceptable |
| EqualitySieves.EqualitySieve.constructor | src/app/Sieve.NET.Core/Sieves/EqualitySieve.cs:23-35 | empty lists, null separators, default policies |
| EqualitySieves.EqualitySieve.SeparatorsInUse | src/app/Sieve.NET.Core/Sieves/EqualitySieve.cs:101-110 | the separators set, or `[",", "|"]` when null or empty |
| EqualitySieves.EqualitySieve.GetSeparatorsOrDefault | src/app/Sieve.NET.Core/Sieves/EqualitySieve.cs:101-110 | null or empty separators latch to the defaults; what is read does not change |
| EqualitySieves.EqualitySieve.ClearPotentialValuesLists | src/app/Sieve.NET.Core/Sieves/EqualitySieve.cs:270-275 | all three lists are empty and nothing else changes |
| EqualitySieves.EqualitySieve.ForProperty | src/app/Sieve.NET.Core/Sieves/EqualitySieve.cs:134-170 | the property the lambda selects becomes the property to filter; a rejected lambda changes nothing |
| EqualitySieves.EqualitySieve.ForValue | src/app/Sieve.NET.Core/Sieves/EqualitySieve.cs:172-177 | whatever the prior state, a read yields exactly `[value]` |
| EqualitySieves.EqualitySieve.ForValueString | src/app/Sieve.NET.Core/Sieves/EqualitySieve.cs:179-184 | conversion is deferred: under the default policy a string that does not convert reads as no values |
| EqualitySieves.EqualitySieve.ForValues | src/app/Sieve.NET.Core/Sieves/EqualitySieve.cs:260-268 | a read yields the given values without repeats, in order |
| EqualitySieves.EqualitySieve.ForValueStrings | src/app/Sieve.NET.Core/Sieves/EqualitySieve.cs:277-285 | the lists are cleared, then the strings that are not null or blank become the pending strings |
| EqualitySieves.EqualitySieve.ForValuesToParse | src/app/Sieve.NET.Core/Sieves/EqualitySieve.cs:287-293 | the lists are cleared, then the string is the only one to parse |
| EqualitySieves.EqualitySieve.WithSeparator | src/app/Sieve.NET.Core/Sieves/EqualitySieve.cs:295-302 | a non-blank separator replaces the separators; a blank one changes nothing |
| EqualitySieves.EqualitySieve.WithSeparators | src/app/Sieve.NET.Core/Sieves/EqualitySieve.cs:304-311 | a non-null, non-empty list replaces the separators; anything else changes nothing |
| EqualitySieves.EqualitySieve.WithEmptyValuesListBehavior | src/app/Sieve.NET.Core/Sieves/EqualitySieve.cs:313-317 | sets the empty-list policy only |
| EqualitySieves.EqualitySieve.WithInvalidValueBehavior | src/app/Sieve.NET.Core/Sieves/EqualitySieve.cs:319-324 | sets the invalid-value policy only |
| EqualitySieves.EqualitySieve.ForAdditionalValue | src/app/Sieve.NET.Core/Sieves/EqualitySieve.cs:326-330 | appends to the known values; adding a value that is already known leaves every read unchanged |
| EqualitySieves.EqualitySieve.ForAdditionalValueString | src/app/Sieve.NET.Core/Sieves/EqualitySieve.cs:332-336 | appends the string, unfiltered, to the pending strings |
| EqualitySieves.EqualitySieve.ForAdditionalValues | src/app/Sieve.NET.Core/Sieves/EqualitySieve.cs:338-342 | appends the values to the known values |
| EqualitySieves.EqualitySieve.ForAdditionalValueStrings | src/app/Sieve.NET.Core/Sieves/EqualitySieve.cs:344-352 | appends the strings that are not null or blank |
| EqualitySieves.EqualitySieve.ForAdditionalValuesToParse | src/app/Sieve.NET.Core/Sieves/EqualitySieve.cs:354-358 | appends the string to the strings to parse |
| EqualitySieves.EqualitySieve.ParseListOfPotentiallyAcceptableItems | src/app/Sieve.NET.Core/Sieves/EqualitySieve.cs:81-99 | the loop collects the non-blank pieces of every string to parse, in order |
| EqualitySieves.EqualitySieve.AddParsedItemsToPotentiallyAcceptableValues | src/app/Sieve.NET.Core/Sieves/EqualitySieve.cs:76-79 | the pieces are appended to the pending strings, and nothing else changes |
| EqualitySieves.EqualitySieve.ParsePotentiallyAcceptableValues | src/app/Sieve.NET.Core/Sieves/EqualitySieve.cs:50-74 | the loop yields the known values followed by the converted strings, without repeats, or the invalid-value error |
| EqualitySieves.EqualitySieve.GetAcceptableValues | src/app/Sieve.NET.Core/Sieves/EqualitySieve.cs:27-48 | latches the separators, returns the resolved values and appends the split pieces to the pending strings once; the pieces and the next read stay the same |
| EqualitySieves.EqualitySieve.ToExpression | src/app/Sieve.NET.Core/Sieves/EqualitySieve.cs:186-207 | the result is the expression for the property and the values read. Without a property nothing changes; otherwise the separators latch and the split pieces are appended once per read: once when the read fails, twice when it yields nothing, three times otherwise. Every read agrees |
| EqualitySieves.EqualitySieve.ToCompiledExpression | src/app/Sieve.NET.Core/Sieves/EqualitySieve.cs:255-258 | the compiled delegate of `ToExpression`'s tree, or its error, leaving the same state as `ToExpression` |
| EqualitySieves.ForPropertyOf | src/app/Sieve.NET.Core/Sieves/EqualitySieve.cs:14-21 | a new sieve on the property the lambda selects, with every other field at its default; a rejected lambda gives its error |
| PropertyNameSieves.NameMatches | src/app/Sieve.NET.Core/EqualitySieve.cs:108 | the filter of the property search: the property's name equals the name, ignoring case |
| PropertyNameSieves.FindMatchingProperty | src/app/Sieve.NET.Core/EqualitySieve.cs:104-119 | it succeeds exactly when some property has the name, ignoring case, and returns the first such property. Otherwise the error is `Property '<name>' does not exist.` |
| PropertyNameSieves.FindMatchingPropertyIgnoresCase | src/app/Sieve.NET.Core/EqualitySieve.cs:104-119 | names that differ only in case find the same property, and fail together |
| PropertyNameSieves.EnsurePropertyTypesMatch | src/app/Sieve.NET.Core/EqualitySieve.cs:89-102 | it passes exactly when the property's type is the value type, and otherwise reports a type mismatch |
| PropertyNameSieves.TrimmedPieces | src/app/Sieve.NET.Core/EqualitySieve.cs:149-156 | one piece for each non-blank piece of the split, which is that piece trimmed |
| PropertyNameSieves.TrimmedPiecesHaveText | src/app/Sieve.NET.Core/EqualitySieve.cs:149-156 | no trimmed piece is empty, and none starts or ends with white space |
| PropertyNameSieves.ParsedValuesAccepted | src/app/Sieve.NET.Core/EqualitySieve.cs:142-160 | after every piece converts, the expression accepts an object exactly when its property value is some piece's conversion |
| PropertyNameSieves.EqualitySieve.constructor | src/app/Sieve.NET.Core/EqualitySieve.cs:14-16 | the property to filter, the values and the separators are all null |
| PropertyNameSieves.EqualitySieve.SeparatorsInUse | src/app/Sieve.NET.Core/EqualitySieve.cs:144-147 | the separators set, or `[","]` when null or empty |
| PropertyNameSieves.EqualitySieve.ForProperty | src/app/Sieve.NET.Core/EqualitySieve.cs:20-34 | a null or blank name fails, and a missing property fails. Otherwise the first matching property's type is checked, and it is stored only on success. On any failure nothing changes |
| PropertyNameSieves.EqualitySieve.ForValue | src/app/Sieve.NET.Core/EqualitySieve.cs:36-40 | the values become `[value]` |
| PropertyNameSieves.EqualitySieve.ForValueString | src/app/Sieve.NET.Core/EqualitySieve.cs:42-56 | the values become the untrimmed string's conversion, or an empty list when it does not convert; it never fails |
| PropertyNameSieves.EqualitySieve.ForValues | src/app/Sieve.NET.Core/EqualitySieve.cs:137-141 | the values become the given list as it is, repeats included |
| PropertyNameSieves.EqualitySieve.ForValuesToParse | src/app/Sieve.NET.Core/EqualitySieve.cs:142-160 | it latches the separators and converts the trimmed non-blank pieces in order. It stops at the first piece that does not convert, with that piece's error, and keeps the values converted before it. A null string fails |
| PropertyNameSieves.EqualitySieve.WithSeparator | src/app/Sieve.NET.Core/EqualitySieve.cs:162-169 | a non-blank separator replaces the separators; a blank one changes nothing |
| PropertyNameSieves.EqualitySieve.WithSeparators | src/app/Sieve.NET.Core/EqualitySieve.cs:171-178 | a non-null, non-empty list replaces the separators; anything else changes nothing |
| PropertyNameSieves.EqualitySieve.ToExpression | src/app/Sieve.NET.Core/EqualitySieve.cs:58-74 | no property is a null reference, and no values is a null argument. Otherwise the expression accepts an object exactly when its property value is in the list, so an empty list accepts nothing |
| PropertyNameSieves.EqualitySieve.ToCompiledExpression | src/app/Sieve.NET.Core/EqualitySieve.cs:132-135 | fails exactly when `ToExpression` does, with its error; otherwise the delegate agrees with the expression on every object |
| SieveDefinitions.ParseError | src/app/Sieve.NET.Core/SieveDefinition.cs:29 | `int.Parse` of null is the null-argument error; other failures are parse errors |
| SieveDefinitions.SieveDefinition.constructor | src/app/Sieve.NET.Core/SieveDefinition.cs:15-20 | the list of constants starts empty |
| SieveDefinitions.SieveDefinition.Add | src/app/Sieve.NET.Core/SieveDefinition.cs:65 | one constant is appended |
| SieveDefinitions.SieveDefinition.GetRawExpression | src/app/Sieve.NET.Core/SieveDefinition.cs:77-98 | the loop builds the Or-fold from False, which accepts an object exactly when its property value is one of the constants; none when there are none |
| SieveDefinitions.SieveDefinition.GetCompiledExpression | src/app/Sieve.NET.Core/SieveDefinition.cs:100-105 | the delegate accepts an object exactly when the raw expression does |
| SieveDefinitions.FromValues | src/app/Sieve.NET.Core/SieveDefinition.cs:56-68 | every value is kept, in order, repeats included |
| SieveDefinitions.FromValue | src/app/Sieve.NET.Core/SieveDefinition.cs:70-74 | the same as the list constructor with `[value]` |
| SieveDefinitions.FromString | src/app/Sieve.NET.Core/SieveDefinition.cs:22-34 | for an int property, it stores the parsed value or fails with `int.Parse`'s error; for any other type it stores nothing |
| SieveDefinitions.FromStrings | src/app/Sieve.NET.Core/SieveDefinition.cs:36-52 | for an int property, it parses each text in order and fails at the first that does not parse; for any other type it stores nothing |
| SimpleSieves.Sieve.constructor | src/app/Sieve.NET.Core/Sieve.cs:15-23 | exactly one acceptable value is stored |
| SimpleSieves.Sieve.GetRawExpression | src/app/Sieve.NET.Core/Sieve.cs:29-44 | accepts an object exactly when its property value equals the first value |
| SimpleSieves.Sieve.GetCompiledExpression | src/app/Sieve.NET.Core/Sieve.cs:46-51 | the delegate accepts exactly the objects the raw expression accepts |
| SimpleSieves.FirstAgreesWithOrFold | src/app/Sieve.NET.Core/Sieve.cs:38 | with its single value, the `First()` expression agrees with the Or-fold over the list |
| SimpleSieves.FromString | src/app/Sieve.NET.Core/Sieve.cs:25-27 | the sieve for `int.Parse(text)`; null or unparsable text fails before any sieve exists |

## Left out

- Expression trees, reflection and `Compile` are a datatype and its evaluator. `Expression.PropertyOrField` name resolution is not modelled; a sieve holds the resolved property, a name, a type and a getter. `PredicateBuilder` is not part of this model; its `Or` is read as logical or.
- `SieveType` is stored by `Sieve` and `SieveDefinition` and never read, so it is left out. So is the unused `DEFAULT_SEPARATOR` of `SieveDefinition`.
- `TypeDescriptor.GetConverter(..).ConvertFromString` is the parameter `convert: string -> Option<V>`, where `None` means it throws. A null string is treated as a failed conversion.
- `int.Parse` is modelled for ASCII digits, an optional sign and the white space `NumberStyles.Integer` allows. Culture-specific signs, trailing NUL characters and non-ASCII digits are not modelled.
- Case-insensitive name comparison folds ASCII letters only. Culture-aware case folding is not modelled.
- `PropertyInfo<T, V>` is typed by the sieve's value type, so a property of another type is represented by its declared `ClrType`. Only that type is compared; its getter is never used.
- `SieveDefinition`'s string constructors test `typeof(TPropertyType) == typeof(int)`. The model passes that type as a separate parameter `valueType`, supplied by the caller; the property's declared type is not read. The parsed ints reach a `V` property through a parameter `asValue: int -> V`, meant to be the identity when that type is `int`; nothing in the model enforces this.
- A null collection argument (`ForValues(null)` and similar) throws `ArgumentNullException` in LINQ. The model takes collections as sequences that are never null. A null entry inside a separator list is not modelled.
- The list that `WithSeparators` stores is shared with the caller, so later changes by the caller would show through. Aliasing is not modelled; the model stores a value.
- `BaseSieve.ToExpression` and `ToCompiledExpression` only throw `NotImplementedException` and are not modelled.
- The implicit conversion operators only call `ToExpression`/`ToCompiledExpression` and are not modelled.
- Attribute discovery (`SieveAttribute`, `IFindableSieve`) is not part of this model.
- Exception messages that print a lambda or a `Type` are constructors without their message text.
- Failed constructors (`Sieve(string)`, the string constructors of `SieveDefinition`) are factory methods returning `Err`, because a constructor cannot fail in the model.
