/**
 * How the lambda-based sieves (Sieves/BaseSieve.cs and Sieves/EqualitySieve.cs) turn what they
 * were given into the list of acceptable values: values given directly, strings to convert one
 * by one, and separated strings to split first. Both classes share this definition; their
 * methods are proved against it.
 */
module AcceptableValues {
  import opened Errors
  import opened Options
  import opened Collections
  import opened Text
  import opened Expressions

  /**
   * GetParsedValuesFromPotentiallyAcceptableParseString: a null or blank string yields nothing,
   * anything else the non-blank pieces between separators.
   */
  function SplitPending(item: NullableString, separators: seq<string>): (r: seq<string>)
    ensures forall i | 0 <= i < |r| :: !IsBlank(r[i])
    ensures IsNullOrWhiteSpace(item) ==> r == []
  {
    if IsNullOrWhiteSpace(item) then [] else SplitNonBlank(item.value, separators)
  }

  /** The null-or-blank guard in front of the split only saves work: without it the result is the same. */
  lemma SplitPendingGuardIsRedundant(s: string, separators: seq<string>)
    ensures SplitPending(Some(s), separators) == SplitNonBlank(s, separators)
  {
    if IsBlank(s) {
      SplitNonBlankOfBlank(s, separators);
    }
  }

  /** ParseListOfPotentiallyAcceptableItems: the pieces of every string to parse, in order. */
  function SplitAll(items: seq<NullableString>, separators: seq<string>): (r: seq<string>)
    ensures forall i | 0 <= i < |r| :: !IsBlank(r[i])
  {
    if items == [] then []
    else SplitAll(items[..|items| - 1], separators) + SplitPending(items[|items| - 1], separators)
  }

  /** The pieces as (non-null) entries of the list of strings to convert. */
  function AsNullable(pieces: seq<string>): (r: seq<NullableString>)
    ensures |r| == |pieces|
    ensures forall i | 0 <= i < |r| :: r[i] == Some(pieces[i])
  {
    seq(|pieces|, i requires 0 <= i < |pieces| => Some(pieces[i]))
  }

  /**
   * Convert(stringItem.Trim()) inside the try block: a null item fails (Trim throws), any other
   * is trimmed and handed to the type converter.
   */
  function ConvertItem<V>(item: NullableString, convert: string -> Option<V>): (r: Option<V>)
    ensures item.None? ==> r.None?
  {
    match item
    case None => None
    case Some(s) => convert(Trim(s))
  }

  /**
   * ConvertItem as a function value, the form in which the conversion loop is given it: null
   * never converts, and white space around a string makes no difference.
   */
  function TrimAndConvert<V>(convert: string -> Option<V>): (r: NullableString -> Option<V>)
    ensures r(None).None?
    ensures forall s: string :: r(Some(s)) == r(Some(Trim(s)))
  {
    forall s: string ensures ConvertItem(Some(s), convert) == ConvertItem(Some(Trim(s)), convert) {
      TrimIdempotent(s);
    }
    (item: NullableString) => ConvertItem(item, convert)
  }

  /** String.Format renders a null argument as the empty string. */
  function FormatItem(item: NullableString): string {
    match item
    case None => ""
    case Some(s) => s
  }

  /** The exception thrown for an item that does not convert; it quotes the untrimmed item. */
  function InvalidValueError(item: NullableString): SieveError {
    InvalidSieveValue("Invalid value: " + FormatItem(item))
  }

  /** Every string to convert converts. */
  predicate AllConvert<V>(raw: seq<NullableString>, tryConvert: NullableString -> Option<V>) {
    forall i | 0 <= i < |raw| :: tryConvert(raw[i]).Some?
  }

  /** Some string to convert converts to `v`. */
  ghost predicate ConvertsTo<V>(raw: seq<NullableString>, tryConvert: NullableString -> Option<V>, v: V) {
    exists i | 0 <= i < |raw| :: tryConvert(raw[i]) == Some(v)
  }

  /** The position of the first string, from `start` on, that does not convert. */
  function FirstFailureFrom<V>(raw: seq<NullableString>, tryConvert: NullableString -> Option<V>, start: nat): (i: nat)
    requires start <= |raw|
    requires exists k | start <= k < |raw| :: tryConvert(raw[k]).None?
    ensures start <= i < |raw| && tryConvert(raw[i]).None?
    ensures forall k | start <= k < i :: tryConvert(raw[k]).Some?
    decreases |raw| - start
  {
    if tryConvert(raw[start]).None? then start
    else FirstFailureFrom(raw, tryConvert, start + 1)
  }

  /** The position of the first string that does not convert. */
  function FirstFailure<V>(raw: seq<NullableString>, tryConvert: NullableString -> Option<V>): (i: nat)
    requires !AllConvert(raw, tryConvert)
    ensures i < |raw| && tryConvert(raw[i]).None?
    ensures forall k | 0 <= k < i :: tryConvert(raw[k]).Some?
  {
    FirstFailureFrom(raw, tryConvert, 0)
  }

  /**
   * The conversion loop of ParsePotentiallyAcceptableValues: the converted items in order; an
   * item that does not convert is skipped unless the behaviour is to throw, in which case the
   * first such item ends the loop with InvalidSieveValueException.
   */
  function ConvertRaw<V>(raw: seq<NullableString>, tryConvert: NullableString -> Option<V>, behavior: InvalidValueBehavior)
    : (r: Result<seq<V>>)
    ensures r.Err? ==> behavior == ThrowInvalidSieveValueException
    ensures r.Ok? ==> |r.value| <= |raw|
  {
    if raw == [] then Ok([])
    else
      match ConvertRaw(raw[..|raw| - 1], tryConvert, behavior)
      case Err(e) => Err(e)
      case Ok(vs) =>
        match tryConvert(raw[|raw| - 1])
        case Some(v) => Ok(vs + [v])
        case None =>
          if behavior == ThrowInvalidSieveValueException then Err(InvalidValueError(raw[|raw| - 1]))
          else Ok(vs)
  }

  /**
   * The conversions of the strings that convert, in the order of the strings, whatever the
   * behaviour for the others: the reference the conversion loop is held to.
   */
  function Conversions<V>(raw: seq<NullableString>, tryConvert: NullableString -> Option<V>): (r: seq<V>)
    ensures |r| <= |raw|
  {
    if raw == [] then []
    else
      Conversions(raw[..|raw| - 1], tryConvert) +
        match tryConvert(raw[|raw| - 1])
        case Some(v) => [v]
        case None => []
  }

  /**
   * What the conversion loop yields: it fails exactly under the throw behaviour when some string
   * does not convert, and then with the error for the first such string; otherwise the values are
   * the conversions of the strings that convert, and every such conversion is among them.
   */
  lemma {:induction false} ConvertRawMeaning<V>(raw: seq<NullableString>, tryConvert: NullableString -> Option<V>,
                                                behavior: InvalidValueBehavior)
    ensures var r := ConvertRaw(raw, tryConvert, behavior);
      && (r.Err? <==> (behavior == ThrowInvalidSieveValueException && !AllConvert(raw, tryConvert)))
      && (r.Err? ==> r.error == InvalidValueError(raw[FirstFailure(raw, tryConvert)]))
      && (r.Ok? ==> forall v | v in r.value :: ConvertsTo(raw, tryConvert, v))
      && (r.Ok? ==> forall i | 0 <= i < |raw| && tryConvert(raw[i]).Some? :: tryConvert(raw[i]).value in r.value)
    decreases |raw|
  {
    if raw != [] {
      ConvertRawMeaning(raw[..|raw| - 1], tryConvert, behavior);
      ConvertRawStep(raw, tryConvert, behavior);
    }
  }

  /** Without an error, the conversion loop yields exactly the conversions of the strings that convert, in order. */
  lemma {:induction false} ConvertRawConversions<V>(raw: seq<NullableString>, tryConvert: NullableString -> Option<V>,
                                                    behavior: InvalidValueBehavior)
    ensures ConvertRaw(raw, tryConvert, behavior).Ok? ==> ConvertRaw(raw, tryConvert, behavior).value == Conversions(raw, tryConvert)
    decreases |raw|
  {
    if raw != [] {
      ConvertRawConversions(raw[..|raw| - 1], tryConvert, behavior);
    }
  }

  /** How the facts ConvertRaw states about `raw` follow from those about all but its last item. */
  lemma ConvertRawStep<V>(raw: seq<NullableString>, tryConvert: NullableString -> Option<V>, behavior: InvalidValueBehavior)
    requires raw != []
    ensures var init := raw[..|raw| - 1];
      && (AllConvert(raw, tryConvert) <==> AllConvert(init, tryConvert) && tryConvert(raw[|raw| - 1]).Some?)
      && (!AllConvert(init, tryConvert) ==> FirstFailure(raw, tryConvert) == FirstFailure(init, tryConvert))
      && (AllConvert(init, tryConvert) && tryConvert(raw[|raw| - 1]).None? ==> FirstFailure(raw, tryConvert) == |raw| - 1)
      && (forall v | ConvertsTo(init, tryConvert, v) :: ConvertsTo(raw, tryConvert, v))
      && (forall i | 0 <= i < |init| :: tryConvert(init[i]) == tryConvert(raw[i]))
  {
    var init := raw[..|raw| - 1];
    assert forall i | 0 <= i < |init| :: init[i] == raw[i];
    if !AllConvert(raw, tryConvert) {
      var k := FirstFailure(raw, tryConvert);
      assert raw[..k] == init[..k] || k == |raw| - 1;
      if !AllConvert(init, tryConvert) {
        var j := FirstFailure(init, tryConvert);
        assert init[..j] == raw[..j];
      }
    }
  }

  /**
   * ParsePotentiallyAcceptableValues: the known values, then the converted ones, without repeats;
   * under the throw behaviour the first string that does not convert raises its error instead.
   */
  function ConvertAndMerge<V(==)>(known: seq<V>, raw: seq<NullableString>, tryConvert: NullableString -> Option<V>,
                                  behavior: InvalidValueBehavior): Result<seq<V>>
  {
    match ConvertRaw(raw, tryConvert, behavior)
    case Err(e) => Err(e)
    case Ok(vs) => Ok(Distinct(known + vs))
  }

  /**
   * What ParsePotentiallyAcceptableValues yields: the first string that does not convert raises
   * its error under the throw behaviour; otherwise the known values and then the conversions,
   * in order, each at its first occurrence.
   */
  lemma ConvertAndMergeMeaning<V>(known: seq<V>, raw: seq<NullableString>, tryConvert: NullableString -> Option<V>,
                                  behavior: InvalidValueBehavior)
    ensures var r := ConvertAndMerge(known, raw, tryConvert, behavior);
      && (r.Err? <==> (behavior == ThrowInvalidSieveValueException && !AllConvert(raw, tryConvert)))
      && (r.Err? ==> r.error == InvalidValueError(raw[FirstFailure(raw, tryConvert)]))
      && (r.Ok? ==> r.value == Distinct(known + Conversions(raw, tryConvert)))
  {
    ConvertRawMeaning(raw, tryConvert, behavior);
    ConvertRawConversions(raw, tryConvert, behavior);
  }

  /** What GetAcceptableValues converts: the strings given, then the pieces of the strings to parse. */
  function Pending(raw: seq<NullableString>, toParse: seq<NullableString>, separators: seq<string>)
    : seq<NullableString>
  {
    raw + AsNullable(SplitAll(toParse, separators))
  }

  /**
   * GetAcceptableValues: the pieces of the strings to parse are appended to the strings to
   * convert, and the lot is converted and merged with the known values. The result is the known
   * values and then the conversions, in order, each at its first occurrence; so it holds no
   * value twice, keeps the known values in their first-seen order at its head, and holds
   * exactly the known values and the ones some string converts to. Under the throw behaviour
   * the first string that does not convert raises its error.
   */
  function Resolve<V(==)>(known: seq<V>, raw: seq<NullableString>, toParse: seq<NullableString>,
                          separators: seq<string>, tryConvert: NullableString -> Option<V>, behavior: InvalidValueBehavior)
    : (r: Result<seq<V>>)
    ensures r.Err? <==>
      (behavior == ThrowInvalidSieveValueException && !AllConvert(Pending(raw, toParse, separators), tryConvert))
    ensures r.Ok? ==> NoDuplicates(r.value) && Distinct(known) <= r.value
    ensures r.Ok? ==> forall v | v in known :: v in r.value
    ensures r.Ok? ==> forall v | v in r.value ::
      (v in known || ConvertsTo(Pending(raw, toParse, separators), tryConvert, v))
    ensures r.Ok? ==> forall i | 0 <= i < |Pending(raw, toParse, separators)| &&
                                 tryConvert(Pending(raw, toParse, separators)[i]).Some? ::
      tryConvert(Pending(raw, toParse, separators)[i]).value in r.value
    ensures r.Ok? ==> r.value == Distinct(known + Conversions(Pending(raw, toParse, separators), tryConvert))
    ensures r.Err? ==> r.error == InvalidValueError(
      Pending(raw, toParse, separators)[FirstFailure(Pending(raw, toParse, separators), tryConvert)])
  {
    var all := Pending(raw, toParse, separators);
    ConvertRawMeaning(all, tryConvert, behavior);
    ConvertAndMergeMeaning(known, all, tryConvert, behavior);
    DistinctExtends(known, Conversions(all, tryConvert));
    ConvertAndMerge(known, all, tryConvert, behavior)
  }

  /** A single string to convert, and nothing else: its conversion, or nothing, or its error under the throw behaviour. */
  lemma ResolveSingle<V>(item: NullableString, separators: seq<string>, tryConvert: NullableString -> Option<V>,
                         behavior: InvalidValueBehavior)
    ensures Resolve([], [item], [], separators, tryConvert, behavior) ==
      match tryConvert(item)
      case Some(v) => Ok([v])
      case None => if behavior == ThrowInvalidSieveValueException then Err(InvalidValueError(item)) else Ok([])
  {
    assert Pending([item], [], separators) == [item];
    assert [item][..0] == [];
    assert ConvertRaw([], tryConvert, behavior) == Ok([]);
    if tryConvert(item).Some? {
      var v := tryConvert(item).value;
      assert [] + [v] == [v];
      assert Distinct([v]) == [v];
    }
  }

  /** One more string to convert: its conversion is appended, or it is skipped, or it fails. */
  lemma ConvertRawSnoc<V>(raw: seq<NullableString>, item: NullableString,
                          tryConvert: NullableString -> Option<V>, behavior: InvalidValueBehavior)
    ensures ConvertRaw(raw + [item], tryConvert, behavior) ==
      match ConvertRaw(raw, tryConvert, behavior)
      case Err(e) => Err(e)
      case Ok(vs) =>
        match tryConvert(item)
        case Some(v) => Ok(vs + [v])
        case None =>
          if behavior == ThrowInvalidSieveValueException then Err(InvalidValueError(item)) else Ok(vs)
  {
    assert (raw + [item])[..|raw|] == raw;
  }

  /** Converting two lists one after the other is converting their concatenation; the first failure wins. */
  lemma {:induction false} ConvertRawAppend<V>(a: seq<NullableString>, b: seq<NullableString>,
                                               tryConvert: NullableString -> Option<V>, behavior: InvalidValueBehavior)
    ensures ConvertRaw(a + b, tryConvert, behavior) ==
      match ConvertRaw(a, tryConvert, behavior)
      case Err(e) => Err(e)
      case Ok(x) =>
        match ConvertRaw(b, tryConvert, behavior)
        case Err(e) => Err(e)
        case Ok(y) => Ok(x + y)
    decreases |b|
  {
    if b == [] {
      assert a + b == a;
      match ConvertRaw(a, tryConvert, behavior)
      case Err(_) =>
      case Ok(x) => assert x + [] == x;
    } else {
      var init := b[..|b| - 1];
      ConvertRawAppend(a, init, tryConvert, behavior);
      assert (a + b)[..|a + b| - 1] == a + init;
      assert (a + b)[|a + b| - 1] == b[|b| - 1];
      match ConvertRaw(a, tryConvert, behavior)
      case Err(_) =>
      case Ok(x) =>
        match ConvertRaw(init, tryConvert, behavior)
        case Err(_) =>
        case Ok(y) =>
          match tryConvert(b[|b| - 1])
          case Some(v) => assert x + y + [v] == x + (y + [v]);
          case None =>
    }
  }

  /** One step of the conversion loop over a prefix of `raw`: the string at `i` is converted or skipped. */
  lemma ConvertRawPrefixStep<V>(raw: seq<NullableString>, i: nat, converted: seq<V>,
                                tryConvert: NullableString -> Option<V>, behavior: InvalidValueBehavior)
    requires i < |raw| && ConvertRaw(raw[..i], tryConvert, behavior) == Ok(converted)
    requires tryConvert(raw[i]).Some? || behavior != ThrowInvalidSieveValueException
    ensures tryConvert(raw[i]).Some? ==>
      ConvertRaw(raw[..i + 1], tryConvert, behavior) == Ok(converted + [tryConvert(raw[i]).value])
    ensures tryConvert(raw[i]).None? ==> ConvertRaw(raw[..i + 1], tryConvert, behavior) == Ok(converted)
  {
    assert raw[..i + 1][..i] == raw[..i];
  }

  /** Under the throw behaviour, the first string that does not convert decides the result of the whole loop. */
  lemma ConvertRawThrowsAt<V>(raw: seq<NullableString>, i: nat, converted: seq<V>,
                              tryConvert: NullableString -> Option<V>, behavior: InvalidValueBehavior)
    requires i < |raw| && ConvertRaw(raw[..i], tryConvert, behavior) == Ok(converted)
    requires tryConvert(raw[i]).None? && behavior == ThrowInvalidSieveValueException
    ensures ConvertRaw(raw, tryConvert, behavior) == Err(InvalidValueError(raw[i]))
  {
    assert raw[..i + 1][..i] == raw[..i];
    assert ConvertRaw(raw[..i + 1], tryConvert, behavior) == Err(InvalidValueError(raw[i]));
    ConvertRawAppend(raw[..i + 1], raw[i + 1..], tryConvert, behavior);
    assert raw[..i + 1] + raw[i + 1..] == raw;
  }

  /** Converting the same strings a second time adds nothing to the merged values. */
  lemma ConvertAndMergeAbsorbsRepeat<V>(known: seq<V>, a: seq<NullableString>, b: seq<NullableString>,
                                        tryConvert: NullableString -> Option<V>, behavior: InvalidValueBehavior)
    ensures ConvertAndMerge(known, a + b + b, tryConvert, behavior) == ConvertAndMerge(known, a + b, tryConvert, behavior)
  {
    ConvertRawAppend(a + b, b, tryConvert, behavior);
    ConvertRawAppend(a, b, tryConvert, behavior);
    match ConvertRaw(a + b, tryConvert, behavior)
    case Err(_) =>
    case Ok(xy) =>
      var y := ConvertRaw(b, tryConvert, behavior).value;
      assert known + (xy + y) == (known + xy) + y;
      DistinctAbsorbs(known + xy, y);
  }

  /**
   * Reading the acceptable values appends the pieces of the strings to parse to the strings to
   * convert, so the next read converts them twice; the result is the same all the same, which
   * is what makes the property safe to read repeatedly.
   */
  lemma ReadIsRepeatable<V>(known: seq<V>, raw: seq<NullableString>, toParse: seq<NullableString>,
                            separators: seq<string>, tryConvert: NullableString -> Option<V>,
                            behavior: InvalidValueBehavior)
    ensures Resolve(known, raw + AsNullable(SplitAll(toParse, separators)), toParse, separators, tryConvert, behavior)
         == Resolve(known, raw, toParse, separators, tryConvert, behavior)
  {
    var pieces := AsNullable(SplitAll(toParse, separators));
    ConvertAndMergeAbsorbsRepeat(known, raw, pieces, tryConvert, behavior);
  }

  /** A value given again (ForAdditionalValue after ForValue, say) appears only once. */
  lemma RepeatedKnownValueCollapses<V>(known: seq<V>, v: V, raw: seq<NullableString>,
                                           toParse: seq<NullableString>, separators: seq<string>,
                                           tryConvert: NullableString -> Option<V>, behavior: InvalidValueBehavior)
    requires v in known
    ensures Resolve(known + [v], raw, toParse, separators, tryConvert, behavior)
         == Resolve(known, raw, toParse, separators, tryConvert, behavior)
  {
    match ConvertRaw(Pending(raw, toParse, separators), tryConvert, behavior)
    case Err(_) =>
    case Ok(vs) =>
      assert known + [v] + vs == known + [v] + vs;
      DistinctSkipsRepeat(known, v, vs);
  }

  /**
   * HandleEmptyAcceptableValuesList, which both lambda-based sieves use when no acceptable value
   * remains: throw NoSieveValuesSuppliedException, or return `true == true` (every object passes)
   * or `true == false` (none does); a behaviour outside the enumeration throws.
   */
  function HandleEmptyAcceptableValuesList<T(!new), V(==)>(behavior: EmptyValuesListBehavior): (r: Result<Expr<T, V>>)
    ensures r.Err? <==> (behavior == ThrowSieveValuesNotFoundException || behavior == UndefinedEmptyValuesListBehavior)
    ensures behavior == ThrowSieveValuesNotFoundException ==> r == Err(NoSieveValuesSupplied)
    ensures behavior == UndefinedEmptyValuesListBehavior ==> r == Err(UndeterminedEmptyValuesListBehavior)
    ensures r.Ok? ==> forall item: T :: Eval(r.value, item) == (behavior == LetAllObjectsThrough)
  {
    match behavior
    case ThrowSieveValuesNotFoundException => Err(NoSieveValuesSupplied)
    case LetAllObjectsThrough => Ok(ConstantsEqual(true, true))
    case LetNoObjectsThrough => Ok(ConstantsEqual(true, false))
    case UndefinedEmptyValuesListBehavior => Err(UndeterminedEmptyValuesListBehavior)
  }
}
