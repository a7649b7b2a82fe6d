/**
 * The tokens of a formula, the scanner that splits a formula's text into
 * them, and the canonical text a token sequence is written back as.
 *
 * The scanner follows the token classes of the formula pattern: a left
 * parenthesis, a right parenthesis, one of the operators + - * /, a variable
 * (letters then digits), a number literal, or a run of white space (which
 * separates tokens and is dropped).  Characters at which none of these
 * starts are gathered, as they come, into `Other` tokens.  Letters and
 * digits are ASCII; white space is the whole `\s` class of .NET.
 */
module Tokens {
  import opened Basics
  import opened Numbers

  datatype Token =
    | LParen
    | RParen
    | Op(op: char)
    | Var(name: string)
    | Num(literal: Decimal)
    | Other(text: string)

  predicate IsOperator(c: char) {
    c == '+' || c == '-' || c == '*' || c == '/'
  }

  /**
   * The regular-expression class `\s` of .NET: the ASCII controls tab to
   * carriage return, U+0085, and the Unicode separators (the space, the
   * no-break space, U+1680, U+2000 to U+200A, the line and paragraph
   * separators, U+202F, U+205F and the ideographic space).
   */
  predicate IsSpace(c: char) {
    IsWhitespace(c) || c as int == 0x85 || c as int == 0xA0 || c as int == 0x1680
    || 0x2000 <= c as int <= 0x200A || c as int == 0x2028 || c as int == 0x2029
    || c as int == 0x202F || c as int == 0x205F || c as int == 0x3000
  }

  /** The shapes of token the scanner produces. */
  predicate Shaped(t: Token) {
    match t
    case Op(c) => IsOperator(c)
    case Var(name) => IsVar(name)
    case Num(d) => d.mantissa >= 0
    case Other(text) => text != [] && forall i :: 0 <= i < |text| ==> !IsSpace(text[i])
    case _ => true
  }

  predicate AllShaped(ts: seq<Token>) {
    forall i :: 0 <= i < |ts| ==> Shaped(ts[i])
  }

  // ---------------------------------------------------------------------------
  // Canonical text

  /** The normalised text of one token: variables upper-cased, numbers re-rendered. */
  function Text(t: Token): string {
    match t
    case LParen => "("
    case RParen => ")"
    case Op(c) => [c]
    case Var(name) => Upper(name)
    case Num(d) => Render(d)
    case Other(text) => text
  }

  /** The canonical text of a token sequence: the texts of its tokens, in order, with nothing between. */
  function Canonical(ts: seq<Token>): string {
    Join(Texts(ts))
  }

  function Texts(ts: seq<Token>): seq<string> {
    seq(|ts|, i requires 0 <= i < |ts| => Text(ts[i]))
  }

  /** The strings of `ss` concatenated in order. */
  function Join(ss: seq<string>): string {
    if ss == [] then "" else Join(ss[..|ss| - 1]) + ss[|ss| - 1]
  }

  lemma {:induction false} JoinCons(s: string, ss: seq<string>)
    ensures Join([s] + ss) == s + Join(ss)
    decreases |ss|
  {
    if ss == [] {
      assert [s] + ss == [s];
      assert [s][..0] == [];
    } else {
      var front, last := ss[..|ss| - 1], ss[|ss| - 1];
      var whole := [s] + ss;
      assert whole[..|whole| - 1] == [s] + front;
      assert whole[|whole| - 1] == last;
      JoinCons(s, front);
      calc {
        Join(whole);
        Join([s] + front) + last;
        (s + Join(front)) + last;
        s + (Join(front) + last);
      }
    }
  }

  lemma CanonicalCons(t: Token, ts: seq<Token>)
    ensures Canonical([t] + ts) == Text(t) + Canonical(ts)
  {
    assert Texts([t] + ts) == [Text(t)] + Texts(ts);
    JoinCons(Text(t), Texts(ts));
  }

  /** Extending a token sequence by one token extends its text by that token's. */
  lemma CanonicalSnoc(ts: seq<Token>, t: Token)
    ensures Canonical(ts + [t]) == Canonical(ts) + Text(t)
  {
    var ss := Texts(ts + [t]);
    assert ss[..|ss| - 1] == Texts(ts);
  }

  /** A token with its variable name upper-cased and its number in lowest terms. */
  function Normal(t: Token): Token {
    match t
    case Var(name) => Var(Upper(name))
    case Num(d) => Num(Normalize(d))
    case _ => t
  }

  function NormalAll(ts: seq<Token>): (r: seq<Token>)
    ensures |r| == |ts| && forall i :: 0 <= i < |ts| ==> r[i] == Normal(ts[i])
  {
    if ts == [] then [] else [Normal(ts[0])] + NormalAll(ts[1..])
  }

  lemma TextOfNormal(t: Token)
    ensures Text(Normal(t)) == Text(t)
  {
    match t
    case Var(name) => UpperIdempotent(name);
    case Num(d) => NormalizeNormal(Normalize(d));
    case _ =>
  }

  /** Tokens that agree up to normalisation have the same canonical text. */
  lemma CanonicalOfNormal(ts: seq<Token>, us: seq<Token>)
    requires NormalAll(ts) == NormalAll(us)
    ensures Canonical(ts) == Canonical(us)
  {
    forall i | 0 <= i < |ts| ensures Text(ts[i]) == Text(us[i]) {
      assert Normal(ts[i]) == Normal(us[i]);
      TextOfNormal(ts[i]);
      TextOfNormal(us[i]);
    }
    assert Texts(ts) == Texts(us);
  }

  // ---------------------------------------------------------------------------
  // Scanning

  datatype Match =
    | NoMatch
    | Blank(length: nat)
    | Matched(length: nat, token: Token)

  /** Length of the run of white space at the front of `s`. */
  function BlankRun(s: string): (k: nat)
    ensures k <= |s|
    ensures s != [] && IsSpace(s[0]) ==> k > 0
  {
    if s != [] && IsSpace(s[0]) then 1 + BlankRun(s[1..]) else 0
  }

  /** The token-class match that starts at the front of a non-empty `s`, if any. */
  function MatchAt(s: string): (m: Match)
    requires s != []
    ensures m.Blank? || m.Matched? ==> 0 < m.length <= |s|
    ensures m.Matched? ==> Shaped(m.token)
  {
    var c := s[0];
    if c == '(' then Matched(1, LParen)
    else if c == ')' then Matched(1, RParen)
    else if IsOperator(c) then Matched(1, Op(c))
    else if IsLetter(c) then MatchVar(s)
    else if IsDigit(c) || c == '.' then MatchNumber(s)
    else if IsSpace(c) then Blank(BlankRun(s))
    else NoMatch
  }

  /** A variable: the letters at the front, then at least one digit. */
  function MatchVar(s: string): (m: Match)
    requires s != [] && IsLetter(s[0])
    ensures m.Matched? ==> 0 < m.length <= |s| && m.token.Var? && IsVar(m.token.name)
  {
    var k := LetterPrefix(s);
    var d := DigitRun(s[k..]);
    if d > 0 then
      assert IsVar(s[..k + d]) by { VarPrefix(s, k, d); }
      Matched(k + d, Var(s[..k + d]))
    else NoMatch
  }

  /** A number literal of the double pattern. */
  function MatchNumber(s: string): (m: Match)
    ensures m.Matched? ==> 0 < m.length <= |s| && m.token.Num? && m.token.literal.mantissa >= 0
  {
    match ScanNumber(s)
    case Number(len, d) => Matched(len, Num(d))
    case NoNumber => NoMatch
  }

  lemma VarPrefix(s: string, k: nat, d: nat)
    requires k == LetterPrefix(s) && 0 < k < |s|
    requires d == DigitRun(s[k..]) && d > 0
    ensures IsVar(s[..k + d])
  {
    var v := s[..k + d];
    assert LetterPrefix(v) == k by {
      LetterPrefixOfPrefix(s, k + d);
    }
    assert AllDigits(v[k..]) by {
      assert v[k..] == s[k..][..d];
    }
  }

  lemma {:induction false} LetterPrefixOfPrefix(s: string, n: nat)
    requires LetterPrefix(s) < n <= |s|
    ensures LetterPrefix(s[..n]) == LetterPrefix(s)
    decreases n
  {
    if s != [] && IsLetter(s[0]) {
      assert s[..n][1..] == s[1..][..n - 1];
      LetterPrefixOfPrefix(s[1..], n - 1);
    }
  }

  /** An `Other` token for the characters gathered so far, if there are any. */
  function Flush(pending: string): seq<Token> {
    if pending == [] then [] else [Other(pending)]
  }

  /**
   * Splits `s` into tokens; `pending` holds the characters already gathered
   * for an `Other` token.
   */
  function Tokenize(s: string, pending: string): (ts: seq<Token>)
    decreases |s|
  {
    if s == [] then Flush(pending)
    else
      match MatchAt(s)
      case NoMatch => Tokenize(s[1..], pending + [s[0]])
      case Blank(n) => Flush(pending) + Tokenize(s[n..], "")
      case Matched(n, t) => Flush(pending) + [t] + Tokenize(s[n..], "")
  }

  /**
   * `GetTokens`: the tokens of a formula's text, white space dropped.  No
   * token is empty, so there are at most as many tokens as characters.
   */
  function GetTokens(s: string): (ts: seq<Token>)
    ensures |ts| <= |s|
  {
    TokenizeLength(s, "");
    Tokenize(s, "")
  }

  lemma {:induction false} TokenizeLength(s: string, pending: string)
    ensures |Tokenize(s, pending)| <= |s| + |Flush(pending)|
    decreases |s|
  {
    if s != [] {
      match MatchAt(s)
      case NoMatch =>
        TokenizeLength(s[1..], pending + [s[0]]);
      case Blank(n) =>
        TokenizeLength(s[n..], "");
      case Matched(n, t) =>
        TokenizeLength(s[n..], "");
    }
  }

  lemma {:induction false} TokenizeShaped(s: string, pending: string)
    requires forall i :: 0 <= i < |pending| ==> !IsSpace(pending[i])
    ensures AllShaped(Tokenize(s, pending))
    decreases |s|
  {
    if s != [] {
      match MatchAt(s)
      case NoMatch =>
        assert !IsSpace(s[0]);
        TokenizeShaped(s[1..], pending + [s[0]]);
      case Blank(n) =>
        TokenizeShaped(s[n..], "");
      case Matched(n, t) =>
        TokenizeShaped(s[n..], "");
    }
  }

  /** Every token the scanner produces has one of the scanner's shapes. */
  lemma GetTokensShaped(s: string)
    ensures AllShaped(GetTokens(s))
  {
    TokenizeShaped(s, "");
  }

  lemma MatchAtSpace(s: string)
    requires s != [] && IsSpace(s[0])
    ensures MatchAt(s) == Blank(BlankRun(s))
  {
  }

  lemma BlankRunSpace(c: char, rest: string)
    requires IsSpace(c)
    ensures BlankRun([c] + rest) == 1 + BlankRun(rest)
  {
    assert ([c] + rest)[1..] == rest;
  }

  /**
   * A white-space character of the `\s` class ends the `Other` text gathered
   * so far and is dropped: the rest is scanned as if it were not there.
   */
  lemma SpaceSeparates(c: char, rest: string, pending: string)
    requires IsSpace(c)
    ensures Tokenize([c] + rest, pending) == Flush(pending) + Tokenize(rest, "")
  {
    var s := [c] + rest;
    MatchAtSpace(s);
    BlankRunSpace(c, rest);
    if rest != [] && IsSpace(rest[0]) {
      MatchAtSpace(rest);
      assert s[BlankRun(s)..] == rest[BlankRun(rest)..];
    } else {
      assert s[BlankRun(s)..] == rest;
    }
  }

  /** A token matched at the front is emitted, and scanning goes on after it. */
  lemma TokenizeMatched(s: string, n: nat, t: Token)
    requires s != [] && MatchAt(s) == Matched(n, t)
    ensures Tokenize(s, "") == [t] + Tokenize(s[n..], "")
  {
  }

  /** "1", a no-break space, "+2": the source reads the formula 1+2. */
  lemma NoBreakSpaceFormula()
    ensures GetTokens("1" + [0xA0 as char] + "+2")
         == [Num(Decimal(1, 0)), Op('+'), Num(Decimal(2, 0))]
  {
    var rest := [0xA0 as char] + "+2";
    assert "1" + [0xA0 as char] + "+2" == "1" + rest;
    LeadingDigit("1", rest);
    assert ParseDigits("1") == 1 by { assert "1"[..0] == ""; }
    SpaceSeparates(0xA0 as char, "+2", "");
    PlusTwo();
    assert Tokenize(rest, "") == [Op('+'), Num(Decimal(2, 0))];
  }

  /** A one-digit number followed by a non-continuation is emitted first. */
  lemma LeadingDigit(a: string, rest: string)
    requires a == "1" || a == "2"
    requires rest == [] || !ExtendsNumber(rest[0])
    ensures Tokenize(a + rest, "") == [Num(Decimal(ParseDigits(a), 0))] + Tokenize(rest, "")
  {
    var s := a + rest;
    ScanIntegerShape(a, rest);
    assert MatchNumber(s) == Matched(1, Num(Decimal(ParseDigits(a), 0)));
    TokenizeMatched(s, 1, Num(Decimal(ParseDigits(a), 0)));
    assert s[1..] == rest;
  }

  lemma PlusTwo()
    ensures Tokenize("+2", "") == [Op('+'), Num(Decimal(2, 0))]
  {
    TokenizeMatched("+2", 1, Op('+'));
    assert "+2"[1..] == "2" + "";
    LeadingDigit("2", "");
    assert ParseDigits("2") == 2 by { assert "2"[..0] == ""; }
  }

  // ---------------------------------------------------------------------------
  // Scanning canonical text back

  /**
   * Token sequences whose canonical text scans back into the same tokens:
   * scanner-shaped, with no `Other` token, and with every variable or number
   * followed by a parenthesis or an operator (or by nothing).
   */
  predicate Rescannable(ts: seq<Token>) {
    AllShaped(ts)
    && (forall i :: 0 <= i < |ts| ==> !ts[i].Other?)
    && (forall i :: 0 <= i < |ts| - 1 ==> SeparatedAt(ts, i))
  }

  /** A variable or number at position `i` is followed by a parenthesis or an operator. */
  predicate SeparatedAt(ts: seq<Token>, i: nat)
    requires i + 1 < |ts|
  {
    (ts[i].Var? || ts[i].Num?) ==> ts[i + 1].LParen? || ts[i + 1].RParen? || ts[i + 1].Op?
  }

  /** A text that starts with a parenthesis or an operator, or is empty. */
  predicate StartsWithPunctuation(s: string) {
    s == [] || s[0] == '(' || s[0] == ')' || IsOperator(s[0])
  }

  lemma CanonicalStart(ts: seq<Token>)
    requires ts == [] || ts[0].LParen? || ts[0].RParen? || (ts[0].Op? && IsOperator(ts[0].op))
    ensures StartsWithPunctuation(Canonical(ts))
  {
    if ts != [] {
      CanonicalCons(ts[0], ts[1..]);
      assert [ts[0]] + ts[1..] == ts;
    }
  }

  /** The canonical text of one token, followed by punctuation, matches as that token. */
  lemma MatchText(t: Token, rest: string)
    requires Shaped(t) && !t.Other?
    requires (t.Var? || t.Num?) ==> StartsWithPunctuation(rest)
    ensures Text(t) != []
    ensures MatchAt(Text(t) + rest).Matched?
    ensures MatchAt(Text(t) + rest).length == |Text(t)|
    ensures Normal(MatchAt(Text(t) + rest).token) == Normal(t)
  {
    match t
    case Var(name) => MatchVarText(name, rest);
    case Num(d) => MatchNumText(d, rest);
    case _ =>
  }

  lemma MatchVarText(name: string, rest: string)
    requires IsVar(name)
    requires StartsWithPunctuation(rest)
    ensures Upper(name) != []
    ensures MatchAt(Upper(name) + rest) == Matched(|Upper(name)|, Var(Upper(name)))
    ensures Normal(Var(Upper(name))) == Normal(Var(name))
  {
    var u := Upper(name);
    UpperPreservesVar(name);
    UpperIdempotent(name);
    VarIsAlphanumeric(u);
    var s := u + rest;
    assert s[0] == u[0];
    assert MatchAt(s) == MatchVar(s);
    MatchVarOfName(u, rest);
  }

  lemma MatchVarOfName(u: string, rest: string)
    requires IsVar(u)
    requires StartsWithPunctuation(rest)
    requires IsLetter(u[0])
    ensures MatchVar(u + rest) == Matched(|u|, Var(u))
  {
    var s := u + rest;
    var k := LetterPrefix(u);
    assert LetterPrefix(s) == k by { LetterPrefixExtends(u, rest); }
    assert s[k..] == u[k..] + rest;
    DigitRunAppend(u[k..], rest);
    assert s[..k + |u[k..]|] == u;
  }

  lemma {:induction false} LetterPrefixExtends(u: string, rest: string)
    requires LetterPrefix(u) < |u|
    ensures LetterPrefix(u + rest) == LetterPrefix(u)
    decreases |u|
  {
    if IsLetter(u[0]) {
      assert (u + rest)[1..] == u[1..] + rest;
      LetterPrefixExtends(u[1..], rest);
    }
  }

  lemma MatchNumText(d: Decimal, rest: string)
    requires d.mantissa >= 0
    requires StartsWithPunctuation(rest)
    ensures Render(d) != []
    ensures MatchAt(Render(d) + rest).Matched?
    ensures MatchAt(Render(d) + rest).length == |Render(d)|
    ensures Normal(MatchAt(Render(d) + rest).token) == Num(Normalize(d))
  {
    var r := Render(d);
    RenderScansBack(d, rest);
    RenderStartsWithDigit(d);
    MatchAtDigit(r + rest);
  }

  lemma MatchAtDigit(s: string)
    requires s != [] && IsDigit(s[0])
    ensures MatchAt(s) == MatchNumber(s)
  {
  }

  lemma RenderStartsWithDigit(d: Decimal)
    requires d.mantissa >= 0
    ensures Render(d) != [] && IsDigit(Render(d)[0])
  {
    var n := Normalize(d);
    NormalizeSign(d);
    PositionalStartsWithDigit(n.mantissa, n.exponent);
  }

  /**
   * The canonical text of a rescannable token sequence scans back into the
   * same tokens, up to normalisation.
   */
  lemma {:induction false} RescanCanonical(ts: seq<Token>)
    requires Rescannable(ts)
    ensures NormalAll(GetTokens(Canonical(ts))) == NormalAll(ts)
    decreases |ts|
  {
    if ts != [] {
      var t, rest := ts[0], ts[1..];
      assert ts == [t] + rest;
      CanonicalCons(t, rest);
      var tail := Canonical(rest);
      RescannableTail(ts);
      MatchText(t, tail);
      var u := MatchAt(Text(t) + tail).token;
      RescanFront(t, tail);
      RescanCanonical(rest);
      NormalAllCons(u, GetTokens(tail));
      NormalAllCons(t, rest);
    }
  }

  /** The tail of a rescannable sequence is rescannable, and its text can follow the head's. */
  lemma RescannableTail(ts: seq<Token>)
    requires Rescannable(ts) && ts != []
    ensures Rescannable(ts[1..])
    ensures (ts[0].Var? || ts[0].Num?) ==> StartsWithPunctuation(Canonical(ts[1..]))
  {
    var rest := ts[1..];
    forall i | 0 <= i < |rest| - 1
      ensures SeparatedAt(rest, i)
    {
      assert SeparatedAt(ts, i + 1);
      assert rest[i] == ts[i + 1] && rest[i + 1] == ts[i + 2];
    }
    if (ts[0].Var? || ts[0].Num?) && rest != [] {
      assert SeparatedAt(ts, 0);
      assert ts[1] == rest[0];
      assert Shaped(rest[0]);
    }
    if ts[0].Var? || ts[0].Num? {
      CanonicalStart(rest);
    }
  }

  /** Scanning a token's text followed by more text yields the token matched at the front, then the tokens of the rest. */
  lemma RescanFront(t: Token, tail: string)
    requires Text(t) != [] && MatchAt(Text(t) + tail).Matched? && MatchAt(Text(t) + tail).length == |Text(t)|
    ensures GetTokens(Text(t) + tail) == [MatchAt(Text(t) + tail).token] + GetTokens(tail)
  {
    var s := Text(t) + tail;
    assert s[|Text(t)|..] == tail;
    assert Flush("") == [];
  }

  lemma NormalAllCons(t: Token, ts: seq<Token>)
    ensures NormalAll([t] + ts) == [Normal(t)] + NormalAll(ts)
  {
    assert ([t] + ts)[1..] == ts;
  }
}
