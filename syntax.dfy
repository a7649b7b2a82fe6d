/**
 * The syntax rules a formula's token sequence must meet, and the
 * one-pass validator that checks them while building the canonical text.
 */
module FormulaSyntax {
  import opened Basics
  import opened Tokens
  import opened Numbers

  const InvalidMessage := "Formula is Invalid"
  /** The message for an invalid formula of exactly one token (lower-case "invalid"). */
  const InvalidSingleMessage := "Formula is invalid"

  predicate IsOperand(t: Token) {
    t.Var? || t.Num?
  }

  predicate IsOpToken(t: Token) {
    t.Op? && IsOperator(t.op)
  }

  /** Tokens a formula may start with, and tokens that may follow an operator or `(`. */
  predicate OpensOperand(t: Token) {
    IsOperand(t) || t.LParen?
  }

  /** Tokens that may follow an operand or `)`. */
  predicate ClosesOperand(t: Token) {
    IsOpToken(t) || t.RParen?
  }

  /** `ValidFollowing`: whether token `b` may come directly after token `a`. */
  predicate Follows(a: Token, b: Token) {
    if a.LParen? || IsOpToken(a) then OpensOperand(b)
    else if IsOperand(a) || a.RParen? then ClosesOperand(b)
    else false
  }

  /** Number of `(` tokens. */
  function Opens(ts: seq<Token>): (n: nat)
    ensures n <= |ts|
  {
    if ts == [] then 0 else Opens(ts[..|ts| - 1]) + (if ts[|ts| - 1].LParen? then 1 else 0)
  }

  /** Number of `)` tokens. */
  function Closes(ts: seq<Token>): (n: nat)
    ensures n <= |ts|
  {
    if ts == [] then 0 else Closes(ts[..|ts| - 1]) + (if ts[|ts| - 1].RParen? then 1 else 0)
  }

  /** The first `n` tokens close no more parentheses than they open. */
  predicate BalancedAt(ts: seq<Token>, n: nat)
    requires n <= |ts|
  {
    Closes(ts[..n]) <= Opens(ts[..n])
  }

  /** No prefix closes more parentheses than it has opened. */
  predicate NeverOverClosed(ts: seq<Token>) {
    forall n :: 0 < n <= |ts| ==> BalancedAt(ts, n)
  }

  /** The token after position `i` may follow the token at `i`. */
  predicate FollowsAt(ts: seq<Token>, i: nat)
    requires i + 1 < |ts|
  {
    Follows(ts[i], ts[i + 1])
  }

  predicate AdjacentOk(ts: seq<Token>) {
    forall i :: 0 <= i < |ts| - 1 ==> FollowsAt(ts, i)
  }

  /** A token that may not end a formula. */
  predicate BadLast(t: Token) {
    t.LParen? || IsOpToken(t)
  }

  /** The syntax rules: what the constructor accepts. */
  predicate WellFormed(ts: seq<Token>) {
    |ts| >= 1
    && OpensOperand(ts[0])
    && !BadLast(ts[|ts| - 1])
    && AdjacentOk(ts)
    && NeverOverClosed(ts)
    && Opens(ts) == Closes(ts)
  }

  /** Extending a prefix by one token extends its text and its counts by that token's. */
  lemma PrefixNext(ts: seq<Token>, i: nat)
    requires i < |ts|
    ensures Canonical(ts[..i + 1]) == Canonical(ts[..i]) + Text(ts[i])
    ensures Opens(ts[..i + 1]) == Opens(ts[..i]) + (if ts[i].LParen? then 1 else 0)
    ensures Closes(ts[..i + 1]) == Closes(ts[..i]) + (if ts[i].RParen? then 1 else 0)
  {
    assert ts[..i + 1][..i] == ts[..i];
    assert ts[..i + 1] == ts[..i] + [ts[i]];
    CanonicalSnoc(ts[..i], ts[i]);
  }

  lemma CanonicalSingle(t: Token)
    ensures Canonical([t]) == Text(t)
  {
    CanonicalSnoc([], t);
    assert [] + [t] == [t];
  }

  /** A one-token formula is well formed exactly when the token is a variable or a number. */
  lemma SingleTokenRule(t: Token)
    ensures WellFormed([t]) <==> IsOperand(t)
  {
    assert [t][..1] == [t];
    assert [t][..0] == [];
    if IsOperand(t) {
      assert Opens([t]) == 0 && Closes([t]) == 0;
    }
  }

  /** The first `i` tokens pass every check the validator makes token by token. */
  predicate ValidPrefix(ts: seq<Token>, i: nat)
    requires i <= |ts|
  {
    (i > 0 ==> OpensOperand(ts[0]))
    && (forall n :: 0 < n <= i ==> BalancedAt(ts, n))
    && (forall k :: 0 <= k < i - 1 ==> FollowsAt(ts, k))
  }

  lemma ValidPrefixNext(ts: seq<Token>, i: nat)
    requires i < |ts| && ValidPrefix(ts, i)
    requires i == 0 ==> OpensOperand(ts[0])
    requires BalancedAt(ts, i + 1)
    requires i > 0 ==> FollowsAt(ts, i - 1)
    ensures ValidPrefix(ts, i + 1)
  {
  }

  /** A formula whose tokens all pass the token-by-token checks is well formed exactly when the final checks pass. */
  lemma ValidPrefixComplete(ts: seq<Token>)
    requires |ts| >= 1 && ValidPrefix(ts, |ts|)
    ensures WellFormed(ts) <==> Opens(ts) == Closes(ts) && !BadLast(ts[|ts| - 1])
  {
  }

  /** The validation of a one-token formula, which must be a variable or a number. */
  method ValidateSingle(t: Token) returns (r: Result<string, string>)
    ensures r.Success? <==> WellFormed([t])
    ensures r.Success? ==> r.value == Canonical([t])
    ensures r.Failure? ==> r.error == InvalidSingleMessage
  {
    SingleTokenRule(t);
    CanonicalSingle(t);
    if IsOperand(t) {
      return Success(Text(t));
    }
    return Failure(InvalidSingleMessage);
  }

  /**
   * The constructor's validation: one pass over the tokens that counts the
   * parentheses, checks each token against the one before it, and appends
   * each token's canonical text.  On success the result is the formula's
   * canonical string.
   */
  method Validate(ts: seq<Token>) returns (r: Result<string, string>)
    ensures r.Success? <==> WellFormed(ts)
    ensures r.Success? ==> r.value == Canonical(ts)
    ensures r.Failure? ==> r.error == (if |ts| == 1 then InvalidSingleMessage else InvalidMessage)
  {
    if |ts| == 0 {
      return Failure(InvalidMessage);
    }
    if |ts| == 1 {
      r := ValidateSingle(ts[0]);
      assert [ts[0]] == ts;
      return;
    }
    var previous := ts[0];
    var openParens, endParens := 0, 0;
    var text := "";
    for i := 0 to |ts|
      invariant text == Canonical(ts[..i])
      invariant openParens == Opens(ts[..i]) && endParens == Closes(ts[..i])
      invariant ValidPrefix(ts, i)
      invariant previous == ts[if i == 0 then 0 else i - 1]
    {
      var token := ts[i];
      if i == 0 && !OpensOperand(token) {
        return Failure(InvalidMessage);
      }
      PrefixNext(ts, i);
      text := text + Text(token);
      if token.LParen? {
        openParens := openParens + 1;
      } else if token.RParen? {
        endParens := endParens + 1;
      }
      if endParens > openParens {
        assert !BalancedAt(ts, i + 1);
        return Failure(InvalidMessage);
      }
      if i == 0 {
        ValidPrefixNext(ts, i);
        continue;
      }
      if !Follows(previous, token) {
        assert !FollowsAt(ts, i - 1);
        return Failure(InvalidMessage);
      }
      ValidPrefixNext(ts, i);
      previous := token;
    }
    assert ts[..|ts|] == ts;
    ValidPrefixComplete(ts);
    if openParens != endParens {
      return Failure(InvalidMessage);
    }
    if BadLast(previous) {
      return Failure(InvalidMessage);
    }
    return Success(text);
  }

  // ---------------------------------------------------------------------------
  // The rules look only at the kind of each token

  /** A token with its name or number forgotten: all the syntax rules look at. */
  function Kind(t: Token): Token {
    match t
    case Var(_) => Var("")
    case Num(_) => Num(Decimal(0, 0))
    case Other(_) => Other("")
    case _ => t
  }

  predicate SameKinds(ts: seq<Token>, us: seq<Token>) {
    |ts| == |us| && forall i :: 0 <= i < |ts| ==> Kind(ts[i]) == Kind(us[i])
  }

  lemma NormalKind(t: Token)
    ensures Kind(Normal(t)) == Kind(t)
  {
  }

  lemma {:induction false} CountsOfKinds(ts: seq<Token>, us: seq<Token>)
    requires SameKinds(ts, us)
    ensures Opens(ts) == Opens(us) && Closes(ts) == Closes(us)
    decreases |ts|
  {
    if ts != [] {
      var n := |ts| - 1;
      assert Kind(ts[n]) == Kind(us[n]);
      CountsOfKinds(ts[..n], us[..n]);
    }
  }

  /** Token sequences of the same kinds are well formed together. */
  lemma WellFormedOfKinds(ts: seq<Token>, us: seq<Token>)
    requires SameKinds(ts, us) && WellFormed(ts)
    ensures WellFormed(us)
  {
    assert Kind(ts[0]) == Kind(us[0]);
    assert Kind(ts[|ts| - 1]) == Kind(us[|us| - 1]);
    forall i | 0 <= i < |us| - 1 ensures FollowsAt(us, i) {
      assert FollowsAt(ts, i);
      assert Kind(ts[i]) == Kind(us[i]) && Kind(ts[i + 1]) == Kind(us[i + 1]);
    }
    forall n | 0 < n <= |us| ensures BalancedAt(us, n) {
      assert BalancedAt(ts, n);
      CountsOfKinds(ts[..n], us[..n]);
    }
    CountsOfKinds(ts, us);
  }

  /** Scanner-shaped well-formed tokens hold no unknown token and separate every operand from the next. */
  lemma WellFormedRescannable(ts: seq<Token>)
    requires AllShaped(ts) && WellFormed(ts)
    ensures Rescannable(ts)
  {
    forall i | 0 <= i < |ts| ensures !ts[i].Other? {
      if i > 0 {
        assert FollowsAt(ts, i - 1);
      }
    }
    forall i | 0 <= i < |ts| - 1 ensures SeparatedAt(ts, i) {
      assert FollowsAt(ts, i);
    }
  }
}
