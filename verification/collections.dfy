/**
 * The LINQ operators the sieves apply to their lists: Where (filtering), First, Distinct
 * (dropping repeated values, keeping each at its first occurrence), and a loop that converts
 * items one by one until one fails.
 */
module Collections {
  import opened Errors

  predicate NoDuplicates<X(==)>(s: seq<X>) {
    forall i, j | 0 <= i < j < |s| :: s[i] != s[j]
  }

  /** `n` copies of `s`, one after the other. */
  function Repeated<X>(s: seq<X>, n: nat): seq<X> {
    if n == 0 then [] else Repeated(s, n - 1) + s
  }

  /** One more copy of `s` after `prefix` and `n` copies makes `n + 1` copies. */
  lemma RepeatedStep<X>(prefix: seq<X>, s: seq<X>, n: nat)
    ensures prefix + Repeated(s, n) + s == prefix + Repeated(s, n + 1)
  {
    assert prefix + Repeated(s, n) + s == prefix + (Repeated(s, n) + s);
  }

  /** Enumerable.Where: the elements that pass `keep`, in their original order. */
  function Where<X>(xs: seq<X>, keep: X -> bool): (r: seq<X>)
    ensures |r| <= |xs|
    ensures forall i | 0 <= i < |r| :: keep(r[i])
    ensures forall x | x in r :: x in xs && keep(x)
    ensures forall x | x in xs && keep(x) :: x in r
  {
    if xs == [] then []
    else
      assert xs == [xs[0]] + xs[1..];
      (if keep(xs[0]) then [xs[0]] else []) + Where(xs[1..], keep)
  }

  /** Where keeps nothing when no element passes the filter. */
  lemma {:induction false} WhereNothing<X>(xs: seq<X>, keep: X -> bool)
    requires forall i | 0 <= i < |xs| :: !keep(xs[i])
    ensures Where(xs, keep) == []
  {
    if xs != [] {
      WhereNothing(xs[1..], keep);
    }
  }

  /** Where(...).First(): the first element of `xs` that passes `keep`. */
  lemma {:induction false} WhereHead<X>(xs: seq<X>, keep: X -> bool)
    requires Where(xs, keep) != []
    ensures exists i | 0 <= i < |xs| ::
      xs[i] == Where(xs, keep)[0] && keep(xs[i]) && (forall j | 0 <= j < i :: !keep(xs[j]))
  {
    if keep(xs[0]) {
      assert Where(xs, keep)[0] == xs[0];
    } else {
      var tail := xs[1..];
      assert Where(xs, keep) == Where(tail, keep);
      WhereHead(tail, keep);
      var i :| 0 <= i < |tail| &&
        tail[i] == Where(tail, keep)[0] && keep(tail[i]) && (forall j | 0 <= j < i :: !keep(tail[j]));
      forall j | 0 <= j < i + 1
        ensures !keep(xs[j])
      {
        if j > 0 {
          assert xs[j] == tail[j - 1];
        }
      }
      assert xs[i + 1] == tail[i];
    }
  }

  /** Items converted one by one: the values obtained before the first failure, and where it happened. */
  datatype Conversion<V> = Conversion(values: seq<V>, failedAt: Option<nat>)

  /**
   * A loop that converts each item and stops at the first that does not convert: the values
   * are the conversions of the items before that one, in order; without a failure, of all.
   */
  function ConvertUntilFailure<X, V>(items: seq<X>, tryConvert: X -> Option<V>): (r: Conversion<V>)
    ensures |r.values| <= |items|
    ensures r.failedAt.None? ==> |r.values| == |items|
    ensures r.failedAt.Some? ==> r.failedAt.value == |r.values| < |items|
  {
    if items == [] then Conversion([], None)
    else
      var c := ConvertUntilFailure(items[..|items| - 1], tryConvert);
      if c.failedAt.Some? then c
      else
        match tryConvert(items[|items| - 1])
        case Some(v) => Conversion(c.values + [v], None)
        case None => Conversion(c.values, Some(|items| - 1))
  }

  /**
   * The values are the conversions of the items before the failure, in order, and the item
   * where it stopped is one that does not convert.
   */
  lemma {:induction false} ConvertUntilFailureMeaning<X, V>(items: seq<X>, tryConvert: X -> Option<V>)
    ensures var r := ConvertUntilFailure(items, tryConvert);
      && (forall i | 0 <= i < |r.values| :: tryConvert(items[i]) == Some(r.values[i]))
      && (r.failedAt.Some? ==> tryConvert(items[|r.values|]).None?)
    decreases |items|
  {
    if items != [] {
      var init := items[..|items| - 1];
      ConvertUntilFailureMeaning(init, tryConvert);
      assert forall i | 0 <= i < |init| :: init[i] == items[i];
    }
  }

  /** Once an item has failed, later items are not looked at. */
  lemma {:induction false} ConvertUntilFailureStops<X, V>(items: seq<X>, k: nat, tryConvert: X -> Option<V>)
    requires k <= |items| && ConvertUntilFailure(items[..k], tryConvert).failedAt.Some?
    ensures ConvertUntilFailure(items, tryConvert) == ConvertUntilFailure(items[..k], tryConvert)
    decreases |items|
  {
    if k == |items| {
      assert items[..k] == items;
    } else {
      var init := items[..|items| - 1];
      assert init[..k] == items[..k];
      ConvertUntilFailureStops(init, k, tryConvert);
    }
  }

  /** One more item converted: the prefix grows by its value. */
  lemma ConvertUntilFailureStep<X, V>(items: seq<X>, i: nat, values: seq<V>, tryConvert: X -> Option<V>)
    requires i < |items| && ConvertUntilFailure(items[..i], tryConvert) == Conversion(values, None)
    requires tryConvert(items[i]).Some?
    ensures ConvertUntilFailure(items[..i + 1], tryConvert) == Conversion(values + [tryConvert(items[i]).value], None)
  {
    assert items[..i + 1][..i] == items[..i];
  }

  /** An item that does not convert, after a prefix that did, ends the conversion there. */
  lemma ConvertUntilFailureFails<X, V>(items: seq<X>, i: nat, values: seq<V>, tryConvert: X -> Option<V>)
    requires i < |items| && ConvertUntilFailure(items[..i], tryConvert) == Conversion(values, None)
    requires tryConvert(items[i]).None?
    ensures ConvertUntilFailure(items[..i + 1], tryConvert) == Conversion(values, Some(i))
  {
    assert items[..i + 1][..i] == items[..i];
  }

  /** The first item that does not convert decides the outcome for the whole sequence. */
  lemma ConvertUntilFailureAt<X, V>(items: seq<X>, i: nat, values: seq<V>, tryConvert: X -> Option<V>)
    requires i < |items| && ConvertUntilFailure(items[..i], tryConvert) == Conversion(values, None)
    requires tryConvert(items[i]).None?
    ensures ConvertUntilFailure(items, tryConvert) == Conversion(values, Some(i))
  {
    ConvertUntilFailureFails(items, i, values, tryConvert);
    ConvertUntilFailureStops(items, i + 1, tryConvert);
  }

  /** Enumerable.Distinct: every value once, at the position of its first occurrence. */
  function Distinct<X(==)>(s: seq<X>): (r: seq<X>)
    ensures NoDuplicates(r)
    ensures forall x | x in r :: x in s
    ensures forall x | x in s :: x in r
    ensures |r| <= |s|
  {
    if s == [] then []
    else
      var d := Distinct(s[..|s| - 1]);
      assert s == s[..|s| - 1] + [s[|s| - 1]];
      if s[|s| - 1] in d then d else d + [s[|s| - 1]]
  }

  /** One step of Distinct: a further element is appended exactly when it is new. */
  lemma DistinctSnoc<X>(s: seq<X>, x: X)
    ensures Distinct(s + [x]) == if x in s then Distinct(s) else Distinct(s) + [x]
  {
    assert (s + [x])[..|s + [x]| - 1] == s;
  }

  /** Values already present further on never reorder the result: Distinct(s) is a prefix of Distinct(s + t). */
  lemma {:induction false} DistinctExtends<X>(s: seq<X>, t: seq<X>)
    ensures Distinct(s) <= Distinct(s + t)
    decreases |t|
  {
    if t == [] {
      assert s + t == s;
    } else {
      var t' := t[..|t| - 1];
      var x := t[|t| - 1];
      assert s + t == (s + t') + [x];
      DistinctExtends(s, t');
      DistinctSnoc(s + t', x);
    }
  }

  /** Appending values that are all already present leaves the result unchanged. */
  lemma {:induction false} DistinctAbsorbs<X>(s: seq<X>, t: seq<X>)
    requires forall i | 0 <= i < |t| :: t[i] in s
    ensures Distinct(s + t) == Distinct(s)
    decreases |t|
  {
    if t == [] {
      assert s + t == s;
    } else {
      var t' := t[..|t| - 1];
      var x := t[|t| - 1];
      assert s + t == (s + t') + [x];
      DistinctAbsorbs(s, t');
      DistinctSnoc(s + t', x);
    }
  }

  /** A repeat of an earlier value can be dropped without changing the result. */
  lemma {:induction false} DistinctSkipsRepeat<X>(a: seq<X>, v: X, b: seq<X>)
    requires v in a
    ensures Distinct(a + [v] + b) == Distinct(a + b)
    decreases |b|
  {
    if b == [] {
      assert a + [v] + b == a + [v];
      assert a + b == a;
      DistinctSnoc(a, v);
    } else {
      var b' := b[..|b| - 1];
      var x := b[|b| - 1];
      assert a + [v] + b == (a + [v] + b') + [x];
      assert a + b == (a + b') + [x];
      DistinctSkipsRepeat(a, v, b');
      DistinctSnoc(a + [v] + b', x);
      DistinctSnoc(a + b', x);
    }
  }

  /** A list without repeats passes through Distinct unchanged. */
  lemma {:induction false} DistinctOfDistinct<X>(s: seq<X>)
    requires NoDuplicates(s)
    ensures Distinct(s) == s
    decreases |s|
  {
    if s != [] {
      var s' := s[..|s| - 1];
      assert s == s' + [s[|s| - 1]];
      DistinctOfDistinct(s');
      DistinctSnoc(s', s[|s| - 1]);
    }
  }
}
