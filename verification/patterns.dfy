/**
  Executable stand-ins for the three regular expressions of the form, each proved
  equal to a declarative description of the strings the expression matches.

    ^[a-zA-Z ]*$        MatchesName
    ^\d{10}$            MatchesTenDigits
    ^\S+@\S+\.\S+$      MatchesEmail
 */
module Patterns {
  import opened Wrappers
  import opened Text

  /** The character classes that occur in the form's expressions. */
  datatype CharClass = NameChar | Digit | NonSpace

  predicate InClass(c: char, k: CharClass) {
    match k
    case NameChar => IsAsciiLetter(c) || c == ' '
    case Digit => IsDigit(c)
    case NonSpace => !IsSpace(c)
  }

  /** An anchored `^[k]*$`, consumed one character at a time. */
  function StarMatch(s: string, k: CharClass): (b: bool)
    ensures b <==> forall i :: 0 <= i < |s| ==> InClass(s[i], k)
  {
    |s| == 0 || (InClass(s[0], k) && StarMatch(s[1..], k))
  }

  /** Position of the first `c` in `s` at or after `from`. */
  function FindFrom(s: string, c: char, from: nat): (r: Option<nat>)
    ensures r.Some? ==> from <= r.value < |s| && s[r.value] == c
    ensures r.Some? ==> forall k :: from <= k < r.value ==> s[k] != c
    ensures r.None? ==> forall k :: from <= k < |s| ==> s[k] != c
    decreases |s| - from
  {
    if from >= |s| then None
    else if s[from] == c then Some(from)
    else FindFrom(s, c, from + 1)
  }

  /** Position of the last `c` in `s` strictly before `upto`. */
  function FindLastBefore(s: string, c: char, upto: nat): (r: Option<nat>)
    requires upto <= |s|
    ensures r.Some? ==> r.value < upto && s[r.value] == c
    ensures r.Some? ==> forall k :: r.value < k < upto ==> s[k] != c
    ensures r.None? ==> forall k :: 0 <= k < upto ==> s[k] != c
  {
    if upto == 0 then None
    else if s[upto - 1] == c then Some(upto - 1)
    else FindLastBefore(s, c, upto - 1)
  }

  // ---------------------------------------------------------------------------
  // ^[a-zA-Z ]*$

  /** What `^[a-zA-Z ]*$` accepts: ASCII letters and spaces only, the empty string included. */
  ghost predicate NameShape(s: string) {
    forall i :: 0 <= i < |s| ==> IsAsciiLetter(s[i]) || s[i] == ' '
  }

  function MatchesName(s: string): (b: bool)
    ensures b <==> NameShape(s)
  {
    StarMatch(s, NameChar)
  }

  // ---------------------------------------------------------------------------
  // ^\d{10}$

  /** What `^\d{10}$` accepts: exactly ten characters, each in `0`-`9`. */
  ghost predicate TenDigitShape(s: string) {
    |s| == 10 && forall i :: 0 <= i < |s| ==> IsDigit(s[i])
  }

  function MatchesTenDigits(s: string): (b: bool)
    ensures b <==> TenDigitShape(s)
  {
    |s| == 10 && StarMatch(s, Digit)
  }

  /** A string of digits has no whitespace, so trimming leaves it alone. */
  lemma TenDigitsAreTrimmed(s: string)
    requires TenDigitShape(s)
    ensures Trim(s) == s
    ensures !IsBlank(s)
  {
    assert NoSpace(s) by {
      forall i | 0 <= i < |s| ensures !IsSpace(s[i]) {
        assert IsDigit(s[i]);
      }
    }
    assert !IsSpace(s[0]);
  }

  // ---------------------------------------------------------------------------
  // ^\S+@\S+\.\S+$

  /** `s` has an `@` at position `i` and a `.` at position `j` with at least one
      character before the `@`, between the two, and after the `.`. */
  ghost predicate SeparatorsAt(s: string, i: int, j: int) {
    0 < i && i + 1 < j && j + 1 < |s| && s[i] == '@' && s[j] == '.'
  }

  /** What `^\S+@\S+\.\S+$` accepts. `\S` also matches `@` and `.`, so the only
      constraints are: no whitespace anywhere, and separators placed as above. */
  ghost predicate EmailShape(s: string) {
    NoSpace(s) && exists i, j :: SeparatorsAt(s, i, j)
  }

  /** `s` is `a + "@" + b + "." + c` with `a`, `b` and `c` non-empty and free of
      whitespace. */
  ghost predicate EmailSplit(s: string, a: string, b: string, c: string) {
    && s == a + "@" + b + "." + c
    && |a| > 0 && |b| > 0 && |c| > 0
    && NoSpace(a) && NoSpace(b) && NoSpace(c)
  }

  /** The backtracking of the expression resolved in advance: the whole string is
      free of whitespace, and some `@` after the first character comes at least two
      places before some `.` that is not the last character. Taking the first such
      `@` and the last such `.` is enough. */
  function MatchesEmail(s: string): bool {
    && StarMatch(s, NonSpace)
    && 0 < |s|
    && match (FindFrom(s, '@', 1), FindLastBefore(s, '.', |s| - 1))
       case (Some(i), Some(j)) => i + 2 <= j
       case _ => false
  }

  /** The scanner accepts exactly the strings the expression describes. */
  lemma MatchesEmailIff(s: string)
    ensures MatchesEmail(s) <==> EmailShape(s)
  {
    if MatchesEmail(s) {
      var i := FindFrom(s, '@', 1).value;
      var j := FindLastBefore(s, '.', |s| - 1).value;
      assert SeparatorsAt(s, i, j);
    }
    if EmailShape(s) {
      var i, j :| SeparatorsAt(s, i, j);
      var at := FindFrom(s, '@', 1);
      var dot := FindLastBefore(s, '.', |s| - 1);
      assert at.Some? && at.value <= i;
      assert dot.Some? && j <= dot.value;
    }
  }

  /** Cutting `s` at two positions and keeping the two characters found there. */
  lemma SplitAround(s: string, i: nat, j: nat)
    requires i < j < |s|
    ensures s == s[..i] + [s[i]] + s[i + 1..j] + [s[j]] + s[j + 1..]
  {
    assert s[i..] == [s[i]] + s[i + 1..];
    assert s[i + 1..] == s[i + 1..j] + [s[j]] + s[j + 1..];
    assert s == s[..i] + s[i..];
  }

  lemma EmailShapeSplits(s: string)
    requires EmailShape(s)
    ensures exists a, b, c :: EmailSplit(s, a, b, c)
  {
    var i, j :| SeparatorsAt(s, i, j);
    var a, b, c := s[..i], s[i + 1..j], s[j + 1..];
    SplitAround(s, i, j);
    assert "@" == [s[i]] && "." == [s[j]];
    assert EmailSplit(s, a, b, c);
  }

  lemma SplitIsEmailShape(s: string, a: string, b: string, c: string)
    requires EmailSplit(s, a, b, c)
    ensures EmailShape(s)
  {
    var i, j := |a|, |a| + 1 + |b|;
    assert SeparatorsAt(s, i, j);
    forall k | 0 <= k < |s| ensures !IsSpace(s[k]) {
      if k < i {
        assert s[k] == a[k];
      } else if i < k < j {
        assert s[k] == b[k - i - 1];
      } else if j < k {
        assert s[k] == c[k - j - 1];
      }
    }
  }

  /** The shape is exactly "three whitespace-free, non-empty parts joined by `@` and `.`". */
  lemma EmailShapeIffSplit(s: string)
    ensures EmailShape(s) <==> exists a, b, c :: EmailSplit(s, a, b, c)
  {
    if EmailShape(s) {
      EmailShapeSplits(s);
    }
    if exists a, b, c :: EmailSplit(s, a, b, c) {
      var a, b, c :| EmailSplit(s, a, b, c);
      SplitIsEmailShape(s, a, b, c);
    }
  }

  /** An address of the accepted shape is never blank. */
  lemma EmailShapeNotBlank(s: string)
    requires EmailShape(s)
    ensures !IsBlank(s)
  {
    assert !IsSpace(s[0]);
  }
}
