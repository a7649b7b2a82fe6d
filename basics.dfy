/**
 * Small shared vocabulary: optional values, results, and the ASCII character
 * classes that the names of variables and cells are built from.
 */
module Basics {

  datatype Option<T> = None | Some(value: T)

  datatype Result<T, E> = Success(value: T) | Failure(error: E)

  predicate IsLetter(c: char) {
    'a' <= c <= 'z' || 'A' <= c <= 'Z'
  }

  /** `\d` restricted to ASCII; .NET's `\d` also matches the other Unicode decimal digits. */
  predicate IsDigit(c: char) {
    '0' <= c <= '9'
  }

  /**
   * The white space that `double.TryParse` trims: tab to carriage return and
   * the space.  The scanner of formulas uses the wider `\s` class instead.
   */
  predicate IsWhitespace(c: char) {
    c == ' ' || c == '\t' || c == '\n' || c == '\r' || c == 12 as char || c == 11 as char
  }

  /**
   * `char.ToUpper` restricted to ASCII: lower-case letters map to upper case.
   * The culture-dependent mappings of other letters are not modelled.
   */
  function UpperChar(c: char): char {
    if 'a' <= c <= 'z' then (c as int - 32) as char else c
  }

  /** `string.ToUpper`, character by character (ASCII only). */
  function Upper(s: string): string {
    seq(|s|, i requires 0 <= i < |s| => UpperChar(s[i]))
  }

  /** Number of letters at the front of `s`. */
  function LetterPrefix(s: string): (k: nat)
    ensures k <= |s|
    ensures k < |s| ==> !IsLetter(s[k])
  {
    if s != [] && IsLetter(s[0]) then 1 + LetterPrefix(s[1..]) else 0
  }

  /** Everything before the letter prefix's end is a letter. */
  lemma {:induction false} LetterPrefixLetters(s: string)
    ensures forall i :: 0 <= i < LetterPrefix(s) ==> IsLetter(s[i])
    decreases |s|
  {
    if s != [] && IsLetter(s[0]) {
      LetterPrefixLetters(s[1..]);
      forall i | 0 < i < LetterPrefix(s) ensures IsLetter(s[i]) {
        assert s[i] == s[1..][i - 1];
      }
    }
  }

  predicate AllDigits(s: string) {
    forall i :: 0 <= i < |s| ==> IsDigit(s[i])
  }

  /**
   * The whole-string match of the variable pattern `[a-zA-Z]+\d+`: one or more
   * letters followed by one or more digits, and nothing else.
   */
  predicate IsVar(s: string) {
    var k := LetterPrefix(s);
    0 < k < |s| && AllDigits(s[k..])
  }

  /** `s` is letters before position `k` and digits from `k` on, both non-empty. */
  ghost predicate SplitsAt(s: string, k: int) {
    0 < k < |s| && (forall i :: 0 <= i < k ==> IsLetter(s[i]))
                && (forall i :: k <= i < |s| ==> IsDigit(s[i]))
  }

  /** IsVar agrees with the declarative reading of the pattern. */
  lemma IsVarMeansLettersThenDigits(s: string)
    ensures IsVar(s) <==> exists k :: SplitsAt(s, k)
  {
    var k := LetterPrefix(s);
    LetterPrefixLetters(s);
    if IsVar(s) {
      forall i | k <= i < |s| ensures IsDigit(s[i]) {
        assert s[k..][i - k] == s[i];
      }
      assert SplitsAt(s, k);
    }
    if exists j :: SplitsAt(s, j) {
      var j :| SplitsAt(s, j);
      assert !IsLetter(s[j]);
      assert k == j;
      assert AllDigits(s[k..]);
    }
  }

  /**
   * What `Regex.IsMatch(s, "^[a-zA-Z]+\d+$")` accepts: the .NET anchor `$` also
   * matches just before a final newline, so "A1\n" passes as well.
   */
  predicate IsVarAsWritten(s: string) {
    IsVar(s) || (|s| > 0 && s[|s| - 1] == '\n' && IsVar(s[..|s| - 1]))
  }

  /** The anchored pattern as written lets a trailing newline through. */
  lemma TrailingNewlineAccepted()
    ensures IsVarAsWritten("A1\n") && !IsVar("A1\n")
  {
    assert "A1\n"[..2] == "A1";
    assert LetterPrefix("A1") == 1 by {
      assert "A1"[1..] == "1";
    }
    assert LetterPrefix("A1\n") == 1 by {
      assert "A1\n"[1..] == "1\n";
    }
    assert "A1\n"[1..] == "1\n";
    assert !IsDigit("1\n"[1]);
  }

  /** A variable name never contains anything but letters and digits. */
  lemma VarIsAlphanumeric(s: string)
    requires IsVar(s)
    ensures forall i :: 0 <= i < |s| ==> IsLetter(s[i]) || IsDigit(s[i])
    ensures IsLetter(s[0]) && IsDigit(s[|s| - 1])
  {
    var k := LetterPrefix(s);
    LetterPrefixLetters(s);
    forall i | k <= i < |s| ensures IsDigit(s[i]) {
      assert s[k..][i - k] == s[i];
    }
  }

  /** Upper-casing keeps a string a variable name exactly when it was one. */
  lemma {:induction false} UpperPreservesVar(s: string)
    ensures IsVar(Upper(s)) <==> IsVar(s)
  {
    UpperPreservesLetterPrefix(s);
    var k := LetterPrefix(s);
    assert Upper(s)[k..] == Upper(s[k..]) by { UpperSlice(s, k); }
    assert forall i :: 0 <= i < |s| ==> (IsDigit(Upper(s)[i]) <==> IsDigit(s[i]));
    assert AllDigits(Upper(s)[k..]) <==> AllDigits(s[k..]) by {
      assert forall i :: 0 <= i < |s| - k ==> Upper(s)[k..][i] == UpperChar(s[k..][i]);
    }
  }

  lemma {:induction false} UpperPreservesLetterPrefix(s: string)
    ensures LetterPrefix(Upper(s)) == LetterPrefix(s)
    decreases |s|
  {
    if s != [] {
      assert Upper(s)[1..] == Upper(s[1..]);
      UpperPreservesLetterPrefix(s[1..]);
    }
  }

  lemma UpperSlice(s: string, k: nat)
    requires k <= |s|
    ensures Upper(s)[k..] == Upper(s[k..])
  {
  }

  /** Upper-casing twice is upper-casing once. */
  lemma UpperIdempotent(s: string)
    ensures Upper(Upper(s)) == Upper(s)
  {
  }
}
