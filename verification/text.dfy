/**
  Characters and whitespace trimming as the form's handlers see them.

  ECMAScript uses one notion of whitespace for `String.prototype.trim` and for the
  regular-expression class `\s` (whose complement is `\S`): the WhiteSpace and
  LineTerminator code points. `IsSpace` is that finite set, so trimming and `\S`
  agree by construction.
 */
module Text {

  /** ECMAScript WhiteSpace (TAB, VT, FF, SP, NBSP, ZWNBSP and the category Zs)
      together with LineTerminator (LF, CR, LS, PS). */
  predicate IsSpace(c: char) {
    || c == '\t' || c == '\U{B}' || c == '\U{C}' || c == ' '
    || c == '\U{A0}' || c == '\U{FEFF}' || c == '\U{1680}'
    || ('\U{2000}' <= c <= '\U{200A}')
    || c == '\U{202F}' || c == '\U{205F}' || c == '\U{3000}'
    || c == '\n' || c == '\r' || c == '\U{2028}' || c == '\U{2029}'
  }

  /** The class `[a-zA-Z]`. */
  predicate IsAsciiLetter(c: char) {
    ('a' <= c <= 'z') || ('A' <= c <= 'Z')
  }

  /** The class `\d`, which in ECMAScript is exactly `[0-9]`. */
  predicate IsDigit(c: char) {
    '0' <= c <= '9'
  }

  /** Every character of `s` is whitespace (vacuously true of the empty string). */
  ghost predicate AllSpace(s: string) {
    forall i :: 0 <= i < |s| ==> IsSpace(s[i])
  }

  /** No character of `s` is whitespace. */
  ghost predicate NoSpace(s: string) {
    forall i :: 0 <= i < |s| ==> !IsSpace(s[i])
  }

  /** `s` with its leading whitespace removed. */
  function TrimStart(s: string): (r: string)
    ensures |r| <= |s| && r == s[|s| - |r|..]
    ensures forall i :: 0 <= i < |s| - |r| ==> IsSpace(s[i])
    ensures r == [] || !IsSpace(r[0])
  {
    if |s| > 0 && IsSpace(s[0]) then
      var r := TrimStart(s[1..]);
      assert s[1..][|s| - 1 - |r|..] == s[|s| - |r|..];
      r
    else
      s
  }

  /** `s` with its trailing whitespace removed. */
  function TrimEnd(s: string): (r: string)
    ensures |r| <= |s| && r == s[..|r|]
    ensures forall i :: |r| <= i < |s| ==> IsSpace(s[i])
    ensures r == [] || !IsSpace(r[|r| - 1])
  {
    if |s| > 0 && IsSpace(s[|s| - 1]) then
      var r := TrimEnd(s[..|s| - 1]);
      assert s[..|s| - 1][..|r|] == s[..|r|];
      r
    else
      s
  }

  /** `r` is the piece of `s` starting at `a`, and everything of `s` on either side
      of it is whitespace. */
  ghost predicate TrimmedFrom(s: string, r: string, a: nat) {
    a + |r| <= |s| && r == s[a..a + |r|] && AllSpace(s[..a]) && AllSpace(s[a + |r|..])
  }

  /** Cutting whitespace off the front and then off the back of `s` leaves the piece
      of `s` starting at `a`, with whitespace on both sides of it. */
  lemma TrimCuts(s: string, t: string, r: string, a: nat)
    requires a == |s| - |t| && t == s[a..]
    requires forall i :: 0 <= i < a ==> IsSpace(s[i])
    requires |r| <= |t| && r == t[..|r|]
    requires forall i :: |r| <= i < |t| ==> IsSpace(t[i])
    ensures TrimmedFrom(s, r, a)
  {
    forall i | 0 <= i < |r| ensures r[i] == s[a..a + |r|][i] {
      assert r[i] == t[i] == s[a + i];
    }
    forall i | 0 <= i < a ensures IsSpace(s[..a][i]) {
      assert s[..a][i] == s[i];
    }
    var tail := s[a + |r|..];
    forall i | 0 <= i < |tail| ensures IsSpace(tail[i]) {
      assert tail[i] == t[|r| + i];
    }
  }

  /** A piece of `s` with whitespace cut off on both sides and none left at its ends
      is empty exactly when `s` is all whitespace. */
  lemma TrimmedPiece(s: string, r: string, a: nat)
    requires TrimmedFrom(s, r, a)
    requires r == [] || !IsSpace(r[0])
    ensures r == [] <==> AllSpace(s)
  {
    if r == [] {
      forall i | 0 <= i < |s| ensures IsSpace(s[i]) {
        if i < a {
          assert s[..a][i] == s[i];
        } else {
          assert s[a..][i - a] == s[i];
        }
      }
    } else {
      assert s[a] == r[0];
    }
  }

  /** The facts about trimming both ends that follow from the one-sided trims'
      contracts alone. */
  lemma TrimBothEnds(s: string, t: string, r: string)
    requires |t| <= |s| && t == s[|s| - |t|..]
    requires forall i :: 0 <= i < |s| - |t| ==> IsSpace(s[i])
    requires t == [] || !IsSpace(t[0])
    requires |r| <= |t| && r == t[..|r|]
    requires forall i :: |r| <= i < |t| ==> IsSpace(t[i])
    requires r == [] || !IsSpace(r[|r| - 1])
    ensures |r| <= |s|
    ensures r == [] || (!IsSpace(r[0]) && !IsSpace(r[|r| - 1]))
    ensures r == [] <==> AllSpace(s)
    ensures exists a: nat :: TrimmedFrom(s, r, a)
  {
    var a := |s| - |t|;
    TrimCuts(s, t, r, a);
    assert r != [] ==> r[0] == t[0];
    TrimmedPiece(s, r, a);
  }

  /** A string without whitespace has nothing to cut at either end. */
  lemma NothingToTrim(s: string)
    requires NoSpace(s)
    ensures TrimEnd(TrimStart(s)) == s
  {
    if |s| > 0 {
      assert !IsSpace(s[0]) && !IsSpace(s[|s| - 1]);
    }
  }

  /** `String.prototype.trim`: both ends stripped of whitespace. The result is a
      contiguous piece of `s`, everything cut off on either side is whitespace, it
      neither starts nor ends with whitespace, and it is empty exactly when `s` is
      all whitespace. */
  function Trim(s: string): (r: string)
    ensures |r| <= |s|
    ensures r == [] || (!IsSpace(r[0]) && !IsSpace(r[|r| - 1]))
    ensures r == [] <==> AllSpace(s)
    ensures NoSpace(s) ==> r == s
    ensures exists a: nat :: TrimmedFrom(s, r, a)
  {
    var t := TrimStart(s);
    var r := TrimEnd(t);
    TrimBothEnds(s, t, r);
    assert NoSpace(s) ==> r == s by {
      if NoSpace(s) {
        NothingToTrim(s);
      }
    }
    r
  }

  /** The JavaScript test `!s.trim()`: the trimmed string is empty. */
  predicate IsBlank(s: string)
    ensures IsBlank(s) <==> AllSpace(s)
  {
    Trim(s) == []
  }
}
