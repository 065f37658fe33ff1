/**
 * The .NET string operations the sieves depend on: Char.IsWhiteSpace, string.IsNullOrWhiteSpace,
 * string.Trim, String.Split with a list of separator strings, and the invariant-culture
 * case-insensitive comparison of names.
 */
module Text {
  import opened Errors
  import opened Collections

  /** A .NET string reference: null, or a sequence of characters. */
  type NullableString = Option<string>

  /**
   * Char.IsWhiteSpace: the Unicode space, line and paragraph separators (categories Zs, Zl, Zp)
   * and the control characters U+0009 to U+000D and U+0085.
   */
  predicate IsWhiteSpace(c: char) {
    || c == ' '
    || ('\t' <= c <= '\r')
    || c == '\U{85}'
    || c == '\U{A0}'
    || c == '\U{1680}'
    || ('\U{2000}' <= c <= '\U{200A}')
    || c == '\U{2028}'
    || c == '\U{2029}'
    || c == '\U{202F}'
    || c == '\U{205F}'
    || c == '\U{3000}'
  }

  /** Empty, or white space only. */
  predicate IsBlank(s: string) {
    forall i | 0 <= i < |s| :: IsWhiteSpace(s[i])
  }

  /** string.IsNullOrWhiteSpace */
  predicate IsNullOrWhiteSpace(s: NullableString) {
    s.None? || IsBlank(s.value)
  }

  /** The filter `x => !string.IsNullOrWhiteSpace(x)`. */
  predicate HasText(s: NullableString) {
    !IsNullOrWhiteSpace(s)
  }

  /** The number of white-space characters at the start of `s`. */
  function LeadingWhiteSpace(s: string): (n: nat)
    ensures n <= |s|
    ensures forall i | 0 <= i < n :: IsWhiteSpace(s[i])
    ensures n < |s| ==> !IsWhiteSpace(s[n])
  {
    if s != [] && IsWhiteSpace(s[0]) then
      var n := 1 + LeadingWhiteSpace(s[1..]);
      assert forall i | 1 <= i < n :: s[i] == s[1..][i - 1];
      n
    else 0
  }

  /** The number of white-space characters at the end of `s`. */
  function TrailingWhiteSpace(s: string): (n: nat)
    ensures n <= |s|
    ensures forall i | |s| - n <= i < |s| :: IsWhiteSpace(s[i])
    ensures n < |s| ==> !IsWhiteSpace(s[|s| - n - 1])
  {
    if s != [] && IsWhiteSpace(s[|s| - 1]) then 1 + TrailingWhiteSpace(s[..|s| - 1]) else 0
  }

  /**
   * string.Trim(): what lies between the leading and the trailing white space. It is empty
   * exactly when `s` is blank, and otherwise neither starts nor ends with white space.
   */
  function Trim(s: string): (r: string)
    ensures r == [] <==> IsBlank(s)
    ensures r != [] ==> LeadingWhiteSpace(s) < |s| - TrailingWhiteSpace(s) &&
                        r == s[LeadingWhiteSpace(s)..|s| - TrailingWhiteSpace(s)]
    ensures r != [] ==> !IsWhiteSpace(r[0]) && !IsWhiteSpace(r[|r| - 1])
  {
    var lo := LeadingWhiteSpace(s);
    if lo == |s| then []
    else
      var hi := |s| - TrailingWhiteSpace(s);
      assert !IsWhiteSpace(s[lo]);
      assert lo < hi;
      s[lo..hi]
  }

  /** Trimming twice trims nothing more. */
  lemma TrimIdempotent(s: string)
    ensures Trim(Trim(s)) == Trim(s)
  {
    var r := Trim(s);
    if r != [] {
      assert LeadingWhiteSpace(r) == 0;
      assert TrailingWhiteSpace(r) == 0;
      assert r[0..|r|] == r;
    }
  }

  /** `sep` occurs at the start of `s`; an empty separator never matches. */
  predicate StartsWith(s: string, sep: string) {
    sep != [] && sep <= s
  }

  /** `sep` occurs somewhere inside `s`. */
  predicate Occurs(sep: string, s: string) {
    exists p | 0 <= p <= |s| :: StartsWith(s[p..], sep)
  }

  /** The first separator, in list order, that occurs at the start of `s`. */
  function SeparatorAt(s: string, separators: seq<string>): (r: Option<nat>)
    ensures r.Some? ==> r.value < |separators| && StartsWith(s, separators[r.value])
    ensures r.Some? ==> forall j | 0 <= j < r.value :: !StartsWith(s, separators[j])
    ensures r.None? ==> forall j | 0 <= j < |separators| :: !StartsWith(s, separators[j])
  {
    if separators == [] then None
    else if StartsWith(s, separators[0]) then Some(0)
    else match SeparatorAt(s, separators[1..])
      case Some(j) => Some(j + 1)
      case None => None
  }

  /** Some listed separator is non-empty. */
  predicate HasSeparator(separators: seq<string>) {
    exists j | 0 <= j < |separators| :: separators[j] != []
  }

  /**
   * The length of the separator match at the start of `s`, 0 for none. Empty separators never
   * match, so a list holding only empty strings matches nowhere. (String.Split falls back to
   * white space only for a null or zero-length array, which the sieves never pass.)
   */
  function MatchLength(s: string, separators: seq<string>): (n: nat)
    ensures n <= |s|
    ensures n == 0 <==> SeparatorAt(s, separators).None?
    ensures n > 0 ==> s[..n] == separators[SeparatorAt(s, separators).value]
  {
    match SeparatorAt(s, separators)
    case Some(j) => |separators[j]|
    case None => 0
  }

  /** Split of `s` when the piece being collected already holds `current`. */
  function SplitFrom(s: string, separators: seq<string>, current: string): (r: seq<string>)
    ensures r != []
    decreases |s|
  {
    if s == [] then [current]
    else
      var n := MatchLength(s, separators);
      if n > 0 then [current] + SplitFrom(s[n..], separators, [])
      else SplitFrom(s[1..], separators, current + [s[0]])
  }

  /**
   * String.Split(separators, StringSplitOptions.None): the pieces between separator matches,
   * scanning left to right; where several separators start at one position the first listed
   * one is taken. Empty separators are ignored, so a list without a non-empty separator
   * leaves the string whole.
   */
  function Split(s: string, separators: seq<string>): (r: seq<string>)
    ensures r != []
  {
    SplitFrom(s, separators, [])
  }

  /**
   * s.Split(separators, StringSplitOptions.RemoveEmptyEntries).Where(x => !string.IsNullOrWhiteSpace(x)):
   * the pieces that hold something other than white space.
   */
  function SplitNonBlank(s: string, separators: seq<string>): (r: seq<string>)
    ensures forall i | 0 <= i < |r| :: !IsBlank(r[i])
  {
    Where(Where(Split(s, separators), IsNonEmpty), IsNonBlank)
  }

  predicate IsNonEmpty(s: string) { s != [] }

  predicate IsNonBlank(s: string) { !IsBlank(s) }

  /** string.Join(sep, pieces) */
  function Join(pieces: seq<string>, sep: string): string {
    if pieces == [] then []
    else if |pieces| == 1 then pieces[0]
    else pieces[0] + sep + Join(pieces[1..], sep)
  }

  /** Joining a piece in front of non-empty pieces puts one separator between them. */
  lemma JoinCons(piece: string, rest: seq<string>, sep: string)
    requires rest != []
    ensures Join([piece] + rest, sep) == piece + sep + Join(rest, sep)
  {
    assert ([piece] + rest)[1..] == rest;
  }

  /** The scan with a single separator that starts the text: the piece is closed and the separator skipped. */
  lemma SplitFromSkipsSeparator(s: string, sep: string, current: string)
    requires sep != [] && sep <= s
    ensures SplitFrom(s, [sep], current) == [current] + SplitFrom(s[|sep|..], [sep], [])
  {
    assert SeparatorAt(s, [sep]) == Some(0);
  }

  /** The scan with a single separator that does not start the text: the first character joins the piece. */
  lemma SplitFromKeepsCharacter(s: string, sep: string, current: string)
    requires sep != [] && s != [] && !(sep <= s)
    ensures SplitFrom(s, [sep], current) == SplitFrom(s[1..], [sep], current + [s[0]])
  {
    assert SeparatorAt(s, [sep]).None? by { assert !StartsWith(s, [sep][0]); }
  }

  lemma {:induction false} SplitFromJoin(s: string, sep: string, current: string)
    requires sep != []
    ensures Join(SplitFrom(s, [sep], current), sep) == current + s
    decreases |s|, 1
  {
    if s == [] {
      assert current + s == current;
    } else if sep <= s {
      SplitFromJoinAtSeparator(s, sep, current);
    } else {
      SplitFromJoinInPiece(s, sep, current);
    }
  }

  lemma {:induction false} SplitFromJoinAtSeparator(s: string, sep: string, current: string)
    requires sep != [] && sep <= s
    ensures Join(SplitFrom(s, [sep], current), sep) == current + s
    decreases |s|, 0
  {
    var tail := s[|sep|..];
    var rest := SplitFrom(tail, [sep], []);
    SplitFromSkipsSeparator(s, sep, current);
    JoinCons(current, rest, sep);
    SplitFromJoin(tail, sep, []);
    AppendAfterPrefix(current, sep, s);
  }

  /** Text that starts with `sep` is `sep` followed by the rest, also behind any `current`. */
  lemma AppendAfterPrefix(current: string, sep: string, s: string)
    requires sep <= s
    ensures current + s == current + sep + ([] + s[|sep|..])
  {
    assert s == sep + s[|sep|..];
  }

  lemma {:induction false} SplitFromJoinInPiece(s: string, sep: string, current: string)
    requires sep != [] && s != [] && !(sep <= s)
    ensures Join(SplitFrom(s, [sep], current), sep) == current + s
    decreases |s|, 0
  {
    SplitFromKeepsCharacter(s, sep, current);
    SplitFromJoin(s[1..], sep, current + [s[0]]);
    AppendAfterPrefix(current, [s[0]], s);
  }

  /** With one separator, joining the pieces with that separator gives back the original string. */
  lemma SplitJoinRoundTrip(s: string, sep: string)
    requires sep != []
    ensures Join(Split(s, [sep]), sep) == s
  {
    SplitFromJoin(s, sep, []);
  }

  lemma NoSeparatorInPiece(piece: string, rest: string, separators: seq<string>)
    requires forall p | 0 <= p < |piece| :: SeparatorAt(piece[p..] + rest, separators).None?
    ensures forall j | 0 <= j < |separators| :: !Occurs(separators[j], piece)
  {
    forall j | 0 <= j < |separators| ensures !Occurs(separators[j], piece) {
      if Occurs(separators[j], piece) {
        var p :| 0 <= p <= |piece| && StartsWith(piece[p..], separators[j]);
        assert StartsWith(piece[p..] + rest, separators[j]);
        assert false;
      }
    }
  }

  lemma {:induction false} SplitFromAvoidsSeparators(s: string, separators: seq<string>, current: string)
    requires forall p | 0 <= p < |current| :: SeparatorAt(current[p..] + s, separators).None?
    ensures forall piece | piece in SplitFrom(s, separators, current) ::
      forall j | 0 <= j < |separators| :: !Occurs(separators[j], piece)
    decreases |s|
  {
    if s == [] {
      assert forall p | 0 <= p < |current| :: current[p..] + s == current[p..];
      NoSeparatorInPiece(current, [], separators);
    } else if MatchLength(s, separators) > 0 {
      NoSeparatorInPiece(current, s, separators);
      SplitFromAvoidsSeparators(s[MatchLength(s, separators)..], separators, []);
    } else {
      var next := current + [s[0]];
      forall p | 0 <= p < |next| ensures SeparatorAt(next[p..] + s[1..], separators).None? {
        if p < |current| {
          assert next[p..] + s[1..] == current[p..] + s;
        } else {
          assert next[p..] + s[1..] == s;
        }
      }
      SplitFromAvoidsSeparators(s[1..], separators, next);
    }
  }

  /** No piece produced by Split contains any (non-empty) separator. */
  lemma SplitAvoidsSeparators(s: string, separators: seq<string>)
    ensures forall piece | piece in Split(s, separators) ::
      forall j | 0 <= j < |separators| :: !Occurs(separators[j], piece)
  {
    SplitFromAvoidsSeparators(s, separators, []);
  }

  lemma {:induction false} SplitFromOfBlank(s: string, separators: seq<string>, current: string)
    requires IsBlank(s) && IsBlank(current)
    ensures forall piece | piece in SplitFrom(s, separators, current) :: IsBlank(piece)
    decreases |s|
  {
    if s != [] {
      var n := MatchLength(s, separators);
      if n > 0 {
        SplitFromOfBlank(s[n..], separators, []);
      } else {
        SplitFromOfBlank(s[1..], separators, current + [s[0]]);
      }
    }
  }

  /** A blank string yields no pieces, so the IsNullOrWhiteSpace guard before splitting changes nothing for non-null text. */
  lemma SplitNonBlankOfBlank(s: string, separators: seq<string>)
    requires IsBlank(s)
    ensures SplitNonBlank(s, separators) == []
  {
    SplitFromOfBlank(s, separators, []);
    var pieces := Where(Split(s, separators), IsNonEmpty);
    assert forall i | 0 <= i < |pieces| :: pieces[i] in pieces;
    WhereNothing(pieces, IsNonBlank);
  }

  /** Where no listed separator can match, the scan only collects characters. */
  lemma {:induction false} SplitFromWithoutSeparators(s: string, separators: seq<string>, current: string)
    requires !HasSeparator(separators)
    ensures SplitFrom(s, separators, current) == [current + s]
    decreases |s|
  {
    if s == [] {
      assert current + s == current;
    } else {
      assert SeparatorAt(s, separators).None?;
      SplitFromWithoutSeparators(s[1..], separators, current + [s[0]]);
      assert current + [s[0]] + s[1..] == current + s by {
        assert [s[0]] + s[1..] == s;
      }
    }
  }

  /** A separator list of empty strings only (WithSeparators([""]), say) leaves the string whole. */
  lemma SplitWithoutSeparators(s: string, separators: seq<string>)
    requires !HasSeparator(separators)
    ensures Split(s, separators) == [s]
  {
    SplitFromWithoutSeparators(s, separators, []);
    assert [] + s == s;
  }

  /** The ASCII letters folded to upper case; every other character is left as is. */
  function FoldCase(c: char): char {
    if 'a' <= c <= 'z' then (c as int - 32) as char else c
  }

  /** Name comparison with StringComparison.InvariantCultureIgnoreCase, restricted to ASCII case folding. */
  predicate EqualsIgnoreCase(a: string, b: string) {
    |a| == |b| && forall i | 0 <= i < |a| :: FoldCase(a[i]) == FoldCase(b[i])
  }

  /** Comparing names ignoring case is an equivalence: reflexive, symmetric and transitive. */
  lemma EqualsIgnoreCaseIsEquivalence(a: string, b: string, c: string)
    ensures EqualsIgnoreCase(a, a)
    ensures EqualsIgnoreCase(a, b) ==> EqualsIgnoreCase(b, a)
    ensures EqualsIgnoreCase(a, b) && EqualsIgnoreCase(b, c) ==> EqualsIgnoreCase(a, c)
  {
  }
}
