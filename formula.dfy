/**
 * The formula object: its tokens and canonical text, fixed at construction,
 * and the two evaluation stacks, which are fields of the object and so
 * survive from one evaluation to the next.
 */
module Formulas {
  import opened Basics
  import opened Numbers
  import opened Tokens
  import opened FormulaSyntax
  import opened FormulaMachine
  import FormulaReference

  /** The normalised names of the variables among `ts`. */
  function VariablesOf(ts: seq<Token>): set<string> {
    set i | 0 <= i < |ts| && ts[i].Var? :: Upper(ts[i].name)
  }

  lemma VariablesOfSnoc(ts: seq<Token>, i: nat)
    requires i < |ts|
    ensures VariablesOf(ts[..i + 1]) == VariablesOf(ts[..i]) + (if ts[i].Var? then {Upper(ts[i].name)} else {})
  {
    var a, b := ts[..i + 1], ts[..i];
    forall v | v in VariablesOf(a) ensures v in VariablesOf(b) + (if ts[i].Var? then {Upper(ts[i].name)} else {}) {
      var j :| 0 <= j < |a| && a[j].Var? && v == Upper(a[j].name);
      if j < i {
        assert b[j] == a[j];
      }
    }
    forall v | v in VariablesOf(b) ensures v in VariablesOf(a) {
      var j :| 0 <= j < |b| && b[j].Var? && v == Upper(b[j].name);
      assert a[j] == b[j];
    }
    if ts[i].Var? {
      assert a[i] == ts[i];
    }
  }

  /** The variables of scanner-shaped tokens are all variable names. */
  lemma VariablesAreNames(ts: seq<Token>)
    requires AllShaped(ts)
    ensures forall v :: v in VariablesOf(ts) ==> IsVar(v)
  {
    forall v | v in VariablesOf(ts) ensures IsVar(v) {
      var j :| 0 <= j < |ts| && ts[j].Var? && v == Upper(ts[j].name);
      assert Shaped(ts[j]);
      UpperPreservesVar(ts[j].name);
    }
  }

  /** A deterministic stand-in for the string hash: a polynomial hash wrapped to 32 bits. */
  function StringHash(seed: int, s: string): (h: int)
    ensures 0 <= h < 0x1_0000_0000
  {
    if s == [] then seed % 0x1_0000_0000
    else (StringHash(seed, s[..|s| - 1]) * 31 + s[|s| - 1] as int) % 0x1_0000_0000
  }

  class Formula {
    /** The tokens of the text the formula was built from. */
    const tokens: seq<Token>
    /** The canonical text, built during validation. */
    const formulaString: string
    /** The value stack (top last); it persists between evaluations. */
    var values: seq<real>
    /** The operator stack (top last); it persists between evaluations. */
    var operators: seq<char>

    /** What construction establishes: scanner-shaped, well-formed tokens and their canonical text. */
    predicate Valid() {
      AllShaped(tokens) && WellFormed(tokens) && formulaString == Canonical(tokens)
    }

    /** Stores validated tokens and their text, with empty stacks. */
    constructor (ts: seq<Token>, text: string)
      ensures tokens == ts && formulaString == text
      ensures values == [] && operators == []
    {
      tokens := ts;
      formulaString := text;
      values := [];
      operators := [];
    }

    /** The two stacks as a machine. */
    function Stacks(): Machine
      reads this
    {
      Machine(values, operators)
    }

    /** The machine state the stacks stand for, halted with `h` when there is one. */
    function Now(h: Option<Outcome>): State
      reads this
    {
      if h.Some? then Halted(h.value, Stacks()) else Running(Stacks())
    }

    /** `ToString`: the canonical text. */
    function ToString(): (s: string)
      requires Valid()
      ensures s == Canonical(tokens)
    {
      formulaString
    }

    /** `Equals`: another formula with the same canonical text. */
    function Equals(other: Formula?): (r: bool)
      requires Valid() && (other != null ==> other.Valid())
      ensures r <==> other != null && Canonical(other.tokens) == Canonical(tokens)
    {
      other != null && other.ToString() == ToString()
    }

    /** `GetHashCode`: the hash of the canonical text, for the process's hash seed. */
    function GetHashCode(seed: int): (h: int)
      requires Valid()
      ensures h == StringHash(seed, Canonical(tokens))
    {
      StringHash(seed, ToString())
    }

    /** `GetVariables`: each token in turn; a variable adds its upper-cased name. */
    method GetVariables() returns (variables: set<string>)
      requires Valid()
      ensures variables == VariablesOf(tokens)
    {
      variables := {};
      for i := 0 to |tokens|
        invariant variables == VariablesOf(tokens[..i])
      {
        VariablesOfSnoc(tokens, i);
        var t := tokens[i];
        if t.Var? {
          var norm := Upper(t.name);
          assert Shaped(t);
          UpperPreservesVar(t.name);
          if IsVarAsWritten(norm) && norm !in variables {
            variables := variables + {norm};
          }
        }
      }
      assert tokens[..|tokens|] == tokens;
    }

    /** Pops the top operator and two values, and pushes their combination by `o`. */
    method ReduceTop(o: char) returns (h: Option<Outcome>)
      requires operators != []
      modifies this
      ensures Now(h) == Reduce(o, old(Stacks()))
    {
      operators := operators[..|operators| - 1];
      if values == [] {
        return Some(EmptyStack);
      }
      var second := values[|values| - 1];
      values := values[..|values| - 1];
      if values == [] {
        return Some(EmptyStack);
      }
      var first := values[|values| - 1];
      values := values[..|values| - 1];
      values := values + [Apply(o, first, second)];
      return None;
    }

    /** Pops `/` and two values, and pushes their quotient unless the divisor is zero. */
    method DivideTopValues() returns (h: Option<Outcome>)
      requires operators != []
      modifies this
      ensures Now(h) == DivideTop(old(Stacks()))
    {
      operators := operators[..|operators| - 1];
      if values == [] {
        return Some(EmptyStack);
      }
      var secondVal := values[|values| - 1];
      values := values[..|values| - 1];
      if values == [] {
        return Some(EmptyStack);
      }
      var firstVal := values[|values| - 1];
      values := values[..|values| - 1];
      if secondVal == 0.0 {
        return Some(FormulaError(DivideByZero));
      }
      values := values + [Quotient(firstVal, secondVal)];
      return None;
    }

    /** A number or a variable's value arriving as an operand. */
    method PushValue(x: real) returns (h: Option<Outcome>)
      modifies this
      ensures Now(h) == PushOperand(old(Stacks()), x)
    {
      if IsOnTop('*', operators) {
        operators := operators[..|operators| - 1];
        if values == [] {
          return Some(EmptyStack);
        }
        var top := values[|values| - 1];
        values := values[..|values| - 1];
        values := values + [Apply('*', top, x)];
      } else if IsOnTop('/', operators) {
        if x == 0.0 {
          return Some(FormulaError(DivideByZero));
        }
        operators := operators[..|operators| - 1];
        if values == [] {
          return Some(EmptyStack);
        }
        var top := values[|values| - 1];
        values := values[..|values| - 1];
        values := values + [Quotient(top, x)];
      } else {
        values := values + [x];
      }
      return None;
    }

    /** A `+` or `-` token. */
    method Additive(c: char) returns (h: Option<Outcome>)
      modifies this
      ensures Now(h) == PushAdditive(old(Stacks()), c)
    {
      h := None;
      if IsOnTop('+', operators) || IsOnTop('-', operators) {
        h := ReduceTop(operators[|operators| - 1]);
        if h.Some? {
          return;
        }
      }
      operators := operators + [c];
    }

    /** A `)` token. */
    method Close() returns (h: Option<Outcome>)
      modifies this
      ensures Now(h) == CloseParen(old(Stacks()))
    {
      h := None;
      if IsOnTop('+', operators) {
        h := ReduceTop('+');
      } else if operators == [] {
        return Some(EmptyStack);
      } else if IsOnTop('-', operators) {
        h := ReduceTop('-');
      }
      if h.Some? {
        return;
      }
      if operators == [] {
        return Some(EmptyStack);
      }
      operators := operators[..|operators| - 1];
      if IsOnTop('*', operators) {
        h := ReduceTop('*');
      } else if IsOnTop('/', operators) {
        h := DivideTopValues();
      }
    }

    /** The effect of one token. */
    method StepToken(t: Token, lookup: Lookup) returns (h: Option<Outcome>)
      modifies this
      ensures Now(h) == Step(old(Stacks()), t, lookup)
    {
      h := None;
      match t
      case Num(d) =>
        h := PushValue(Value(d));
      case Var(name) =>
        var v := lookup(Upper(name));
        if v.None? {
          return Some(FormulaError(NoValue));
        }
        h := PushValue(v.value);
      case Op(c) =>
        if c == '+' || c == '-' {
          h := Additive(c);
        } else if c == '*' || c == '/' {
          operators := operators + [c];
        }
      case LParen =>
        operators := operators + ['('];
      case RParen =>
        h := Close();
      case Other(_) =>
    }

    /** The reduction after the last token, which yields the formula's outcome. */
    method FinishStacks() returns (o: Outcome)
      modifies this
      ensures Halted(o, Stacks()) == Finish(old(Stacks()))
    {
      if operators == [] {
        if values == [] {
          return EmptyStack;
        }
        var v := values[|values| - 1];
        values := values[..|values| - 1];
        return Computed(v);
      }
      var op := if IsOnTop('+', operators) then '+' else '-';
      operators := operators[..|operators| - 1];
      if values == [] {
        return EmptyStack;
      }
      var second := values[|values| - 1];
      values := values[..|values| - 1];
      if values == [] {
        return EmptyStack;
      }
      var first := values[|values| - 1];
      values := values[..|values| - 1];
      return Computed(Apply(op, first, second));
    }

    /**
     * `ProcessFormula`: every token in turn on the stacks as they are, then
     * the final reduction.  It stops at the first formula error or failed
     * pop, leaving the stacks as they are at that point.
     */
    method ProcessFormula(lookup: Lookup) returns (o: Outcome)
      modifies this
      ensures Halted(o, Stacks()) == Process(tokens, old(Stacks()), lookup)
    {
      ghost var start := Stacks();
      for i := 0 to |tokens|
        invariant Steps(tokens, 0, i, start, lookup) == Running(Stacks())
      {
        var h := StepToken(tokens[i], lookup);
        if h.Some? {
          StepsHalted(tokens, 0, i + 1, |tokens|, start, lookup);
          return h.value;
        }
      }
      o := FinishStacks();
    }

    /** `Evaluate` as written: `ProcessFormula` on whatever the stacks hold from earlier calls. */
    method Evaluate(lookup: Lookup) returns (o: Outcome)
      modifies this
      ensures Halted(o, Stacks()) == Process(tokens, old(Stacks()), lookup)
    {
      o := ProcessFormula(lookup);
    }

    /**
     * `Evaluate` as intended: on empty stacks, the value of the formula
     * under standard precedence with left association, or the first formula
     * error; never a failed pop, and a value leaves both stacks empty.
     */
    method EvaluateFresh(lookup: Lookup) returns (o: Outcome)
      requires Valid()
      modifies this
      ensures FormulaReference.Evaluate(tokens, lookup) == Some(o)
      ensures !o.EmptyStack?
      ensures o.Computed? ==> values == [] && operators == []
    {
      values, operators := [], [];
      FormulaReference.FreshProcessIsReference(tokens, lookup);
      o := ProcessFormula(lookup);
    }
  }

  /**
   * The constructor: scans the text, validates the tokens in one pass and
   * keeps the canonical text; an invalid formula is a format error with the
   * constructor's message.
   */
  method NewFormula(formula: string) returns (r: Result<Formula, string>)
    ensures r.Success? <==> WellFormed(GetTokens(formula))
    ensures r.Success? ==> fresh(r.value) && r.value.Valid() && r.value.tokens == GetTokens(formula)
                           && r.value.values == [] && r.value.operators == []
    ensures r.Failure? ==> r.error == (if |GetTokens(formula)| == 1 then InvalidSingleMessage else InvalidMessage)
  {
    var ts := GetTokens(formula);
    GetTokensShaped(formula);
    var text := Validate(ts);
    if text.Failure? {
      return Failure(text.error);
    }
    var f := new Formula(ts, text.value);
    return Success(f);
  }

  /** The `==` operator: `Equals` on the left operand. */
  function Same(f1: Formula, f2: Formula?): (r: bool)
    requires f1.Valid() && (f2 != null ==> f2.Valid())
    ensures r <==> f2 != null && f1.ToString() == f2.ToString()
  {
    f1.Equals(f2)
  }

  /** The `!=` operator: the negation of `==`. */
  function Differ(f1: Formula, f2: Formula?): (r: bool)
    requires f1.Valid() && (f2 != null ==> f2.Valid())
    ensures r <==> !(f2 != null && f1.ToString() == f2.ToString())
  {
    !Same(f1, f2)
  }

  /** Equal formulas have equal hash codes. */
  lemma EqualHashes(f1: Formula, f2: Formula, seed: int)
    requires f1.Valid() && f2.Valid() && f1.Equals(f2)
    ensures f1.GetHashCode(seed) == f2.GetHashCode(seed)
  {
  }

  /**
   * The canonical text of a formula is a formula again: it scans back into
   * the same tokens up to normalisation, so it is well formed, has the same
   * canonical text (the two formulas are equal) and is processed alike.
   */
  lemma CanonicalReparses(ts: seq<Token>, m: Machine, lookup: Lookup)
    requires AllShaped(ts) && WellFormed(ts)
    ensures var us := GetTokens(Canonical(ts));
            WellFormed(us) && Canonical(us) == Canonical(ts) && Process(us, m, lookup) == Process(ts, m, lookup)
  {
    var us := GetTokens(Canonical(ts));
    WellFormedRescannable(ts);
    RescanCanonical(ts);
    forall i | 0 <= i < |ts| ensures Kind(ts[i]) == Kind(us[i]) {
      assert NormalAll(ts)[i] == NormalAll(us)[i];
      NormalKind(ts[i]);
      NormalKind(us[i]);
    }
    WellFormedOfKinds(ts, us);
    CanonicalOfNormal(us, ts);
    ProcessNormal(us, ts, m, lookup);
  }

  /** Built from its own `ToString`, a formula gives an equal formula. */
  method Reparse(f: Formula) returns (g: Formula)
    requires f.Valid()
    ensures g.Valid() && f.Equals(g)
  {
    CanonicalReparses(f.tokens, Fresh, _ => None);
    var r := NewFormula(f.ToString());
    g := r.value;
  }

  /** A formula's value depends on the lookup only at the formula's variables. */
  lemma EvaluateLocal(ts: seq<Token>, lookup: Lookup, other: Lookup)
    requires WellFormed(ts)
    requires forall v :: v in VariablesOf(ts) ==> lookup(v) == other(v)
    ensures FormulaReference.Evaluate(ts, lookup) == FormulaReference.Evaluate(ts, other)
  {
    forall k | 0 <= k < |ts| && ts[k].Var? ensures lookup(Upper(ts[k].name)) == other(Upper(ts[k].name)) {
      assert Upper(ts[k].name) in VariablesOf(ts);
    }
    ProcessLocal(ts, Fresh, lookup, other);
    FormulaReference.FreshProcessIsReference(ts, lookup);
    FormulaReference.FreshProcessIsReference(ts, other);
  }

  // ---------------------------------------------------------------------------
  // Evaluating twice on the same stacks

  /** A1 has the value 1, B1 none. */
  function OnlyA1(n: string): Option<real> {
    if n == "A1" then Some(1.0) else None
  }

  /** A1 has the value 1, B1 the value `b`. */
  function A1AndB1(b: real): Lookup {
    n => if n == "A1" then Some(1.0) else if n == "B1" then Some(b) else None
  }

  lemma UpperOfNames()
    ensures Upper("A1") == "A1" && Upper("B1") == "B1"
  {
    assert Upper("A1") == [UpperChar('A'), UpperChar('1')];
    assert Upper("B1") == [UpperChar('B'), UpperChar('1')];
  }

  /**
   * `A1+B1` evaluated while B1 has no value stops with a formula error and
   * leaves 1 and `+` on the stacks; evaluated again once B1 is 2, the same
   * object yields 4 where the formula's value is 3.
   */
  lemma StaleStacksWrongValue()
    ensures var ts := [Var("A1"), Op('+'), Var("B1")];
            var first := Process(ts, Fresh, OnlyA1);
            first.outcome == FormulaError(NoValue)
            && Process(ts, first.m, A1AndB1(2.0)).outcome == Computed(4.0)
            && FormulaReference.Evaluate(ts, A1AndB1(2.0)) == Some(Computed(3.0))
  {
    var ts := [Var("A1"), Op('+'), Var("B1")];
    SumFirstRun(ts);
    SumSecondRun(ts);
    SumReference(ts);
  }

  lemma SumFirstRun(ts: seq<Token>)
    requires ts == [Var("A1"), Op('+'), Var("B1")]
    ensures Process(ts, Fresh, OnlyA1) == Halted(FormulaError(NoValue), Machine([1.0], ['+']))
  {
    UpperOfNames();
    assert Steps(ts, 0, 1, Fresh, OnlyA1) == Running(Machine([1.0], []));
    assert Steps(ts, 0, 2, Fresh, OnlyA1) == Running(Machine([1.0], ['+']));
    assert Steps(ts, 0, 3, Fresh, OnlyA1) == Halted(FormulaError(NoValue), Machine([1.0], ['+']));
  }

  lemma SumSecondRun(ts: seq<Token>)
    requires ts == [Var("A1"), Op('+'), Var("B1")]
    ensures Process(ts, Machine([1.0], ['+']), A1AndB1(2.0)).outcome == Computed(4.0)
  {
    UpperOfNames();
    var l := A1AndB1(2.0);
    var m := Machine([1.0], ['+']);
    assert Steps(ts, 0, 1, m, l) == Running(Machine([1.0, 1.0], ['+']));
    assert Steps(ts, 0, 2, m, l) == Running(Machine([2.0], ['+']));
    assert Steps(ts, 0, 3, m, l) == Running(Machine([2.0, 2.0], ['+']));
  }

  lemma SumReference(ts: seq<Token>)
    requires ts == [Var("A1"), Op('+'), Var("B1")]
    ensures FormulaReference.Evaluate(ts, A1AndB1(2.0)) == Some(Computed(3.0))
  {
    UpperOfNames();
    var l := A1AndB1(2.0);
    assert FormulaReference.Term(ts, 0, l) == FormulaReference.Parsed(Computed(1.0), 1);
    assert FormulaReference.Term(ts, 2, l) == FormulaReference.Parsed(Computed(2.0), 3);
    assert FormulaReference.ExprRest(ts, 3.0, 3, l) == FormulaReference.Parsed(Computed(3.0), 3);
    assert FormulaReference.ExprRest(ts, 1.0, 1, l) == FormulaReference.Parsed(Computed(3.0), 3);
  }

  /**
   * `(A1/B1)` evaluated while B1 is 0 stops with the divide-by-zero error
   * and leaves 1, `(` and `/` on the stacks; evaluated again once B1 is 2,
   * the final reduction pops an empty value stack.
   */
  lemma StaleStacksEmptyPop()
    ensures var ts := [LParen, Var("A1"), Op('/'), Var("B1"), RParen];
            var first := Process(ts, Fresh, A1AndB1(0.0));
            first.outcome == FormulaError(DivideByZero)
            && Process(ts, first.m, A1AndB1(2.0)).outcome == EmptyStack
            && FormulaReference.Evaluate(ts, A1AndB1(2.0)) == Some(Computed(0.5))
  {
    var ts := [LParen, Var("A1"), Op('/'), Var("B1"), RParen];
    DivisionFirstRun(ts);
    DivisionSecondRun(ts);
    DivisionReference(ts);
  }

  lemma DivisionFirstRun(ts: seq<Token>)
    requires ts == [LParen, Var("A1"), Op('/'), Var("B1"), RParen]
    ensures Process(ts, Fresh, A1AndB1(0.0)) == Halted(FormulaError(DivideByZero), Machine([1.0], ['(', '/']))
  {
    UpperOfNames();
    var l := A1AndB1(0.0);
    assert Steps(ts, 0, 1, Fresh, l) == Running(Machine([], ['(']));
    assert Steps(ts, 0, 2, Fresh, l) == Running(Machine([1.0], ['(']));
    assert Steps(ts, 0, 3, Fresh, l) == Running(Machine([1.0], ['(', '/']));
    assert Steps(ts, 0, 4, Fresh, l) == Halted(FormulaError(DivideByZero), Machine([1.0], ['(', '/']));
    assert Steps(ts, 0, 5, Fresh, l) == Steps(ts, 0, 4, Fresh, l);
  }

  lemma DivisionSecondRun(ts: seq<Token>)
    requires ts == [LParen, Var("A1"), Op('/'), Var("B1"), RParen]
    ensures Process(ts, Machine([1.0], ['(', '/']), A1AndB1(2.0)).outcome == EmptyStack
  {
    UpperOfNames();
    var l := A1AndB1(2.0);
    var m := Machine([1.0], ['(', '/']);
    assert Steps(ts, 0, 1, m, l) == Running(Machine([1.0], ['(', '/', '(']));
    assert Steps(ts, 0, 2, m, l) == Running(Machine([1.0, 1.0], ['(', '/', '(']));
    assert Steps(ts, 0, 3, m, l) == Running(Machine([1.0, 1.0], ['(', '/', '(', '/']));
    assert Steps(ts, 0, 4, m, l) == Running(Machine([1.0, 0.5], ['(', '/', '(']));
    assert Steps(ts, 0, 5, m, l) == Running(Machine([2.0], ['(']));
  }

  lemma DivisionReference(ts: seq<Token>)
    requires ts == [LParen, Var("A1"), Op('/'), Var("B1"), RParen]
    ensures FormulaReference.Evaluate(ts, A1AndB1(2.0)) == Some(Computed(0.5))
  {
    UpperOfNames();
    var l := A1AndB1(2.0);
    assert FormulaReference.Factor(ts, 1, l) == FormulaReference.Parsed(Computed(1.0), 2);
    assert FormulaReference.Factor(ts, 3, l) == FormulaReference.Parsed(Computed(2.0), 4);
    assert FormulaReference.TermRest(ts, 0.5, 4, l) == FormulaReference.Parsed(Computed(0.5), 4);
    assert FormulaReference.TermRest(ts, 1.0, 2, l) == FormulaReference.Parsed(Computed(0.5), 4) by {
      assert Quotient(1.0, 2.0) == 0.5;
    }
    assert FormulaReference.Term(ts, 1, l) == FormulaReference.Parsed(Computed(0.5), 4);
    assert FormulaReference.Expr(ts, 1, l) == FormulaReference.Parsed(Computed(0.5), 4);
    assert FormulaReference.Factor(ts, 0, l) == FormulaReference.Parsed(Computed(0.5), 5);
    assert FormulaReference.Term(ts, 0, l) == FormulaReference.Parsed(Computed(0.5), 5);
    assert FormulaReference.Expr(ts, 0, l) == FormulaReference.Parsed(Computed(0.5), 5);
  }
}
