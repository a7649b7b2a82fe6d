/**
 * A reference semantics for formulas: a recursive-descent evaluator with the
 * usual precedence (`*` and `/` bind tighter than `+` and `-`) and left
 * associativity, which reports the first error met from left to right.
 *
 * The theorem at the end says that the two-stack machine, started on empty
 * stacks, computes exactly this on every well-formed formula: the same
 * number or the same formula error, never the empty-stack exception, and on
 * success both stacks end empty.
 *
 *   Expr   ::= Term (('+' | '-') Term)*
 *   Term   ::= Factor (('*' | '/') Factor)*
 *   Factor ::= number | variable | '(' Expr ')'
 */
module FormulaReference {
  import opened Basics
  import opened Numbers
  import opened Tokens
  import opened FormulaSyntax
  import opened FormulaMachine

  /** What a parsing function returns: an outcome and the position after the tokens it used. */
  datatype Parsed = Parsed(outcome: Outcome, pos: nat) | Malformed

  predicate Good(p: Parsed) {
    p.Parsed? && !p.outcome.EmptyStack?
  }

  function Factor(ts: seq<Token>, i: nat, lookup: Lookup): (p: Parsed)
    requires i <= |ts|
    ensures p.Parsed? ==> Good(p) && i < p.pos <= |ts|
    decreases |ts| - i, 1
  {
    if i == |ts| then Malformed
    else
      match ts[i]
      case Num(d) => Parsed(Computed(Value(d)), i + 1)
      case Var(name) =>
        (match lookup(Upper(name))
         case None => Parsed(FormulaError(NoValue), i + 1)
         case Some(x) => Parsed(Computed(x), i + 1))
      case LParen =>
        (match Expr(ts, i + 1, lookup)
         case Malformed => Malformed
         case Parsed(o, k) =>
           if !o.Computed? then Parsed(o, k)
           else if k < |ts| && ts[k].RParen? then Parsed(o, k + 1)
           else Malformed)
      case _ => Malformed
  }

  /** The rest of a term whose factors so far have the value `acc`. */
  function TermRest(ts: seq<Token>, acc: real, j: nat, lookup: Lookup): (p: Parsed)
    requires j <= |ts|
    ensures p.Parsed? ==> Good(p) && j <= p.pos <= |ts|
    decreases |ts| - j, 0
  {
    if j < |ts| && (ts[j] == Op('*') || ts[j] == Op('/')) then
      match Factor(ts, j + 1, lookup)
      case Malformed => Malformed
      case Parsed(o, k) =>
        if !o.Computed? then Parsed(o, k)
        else if ts[j] == Op('/') && o.value == 0.0 then Parsed(FormulaError(DivideByZero), k)
        else TermRest(ts, if ts[j] == Op('*') then Apply('*', acc, o.value) else Quotient(acc, o.value), k, lookup)
    else Parsed(Computed(acc), j)
  }

  function Term(ts: seq<Token>, i: nat, lookup: Lookup): (p: Parsed)
    requires i <= |ts|
    ensures p.Parsed? ==> Good(p) && i < p.pos <= |ts|
    decreases |ts| - i, 2
  {
    match Factor(ts, i, lookup)
    case Malformed => Malformed
    case Parsed(o, j) =>
      if !o.Computed? then Parsed(o, j) else TermRest(ts, o.value, j, lookup)
  }

  /** The rest of an expression whose terms so far have the value `acc`. */
  function ExprRest(ts: seq<Token>, acc: real, j: nat, lookup: Lookup): (p: Parsed)
    requires j <= |ts|
    ensures p.Parsed? ==> Good(p) && j <= p.pos <= |ts|
    decreases |ts| - j, 0
  {
    if j < |ts| && (ts[j] == Op('+') || ts[j] == Op('-')) then
      match Term(ts, j + 1, lookup)
      case Malformed => Malformed
      case Parsed(o, k) =>
        if !o.Computed? then Parsed(o, k)
        else ExprRest(ts, Apply(ts[j].op, acc, o.value), k, lookup)
    else Parsed(Computed(acc), j)
  }

  function Expr(ts: seq<Token>, i: nat, lookup: Lookup): (p: Parsed)
    requires i <= |ts|
    ensures p.Parsed? ==> Good(p) && i < p.pos <= |ts|
    decreases |ts| - i, 3
  {
    match Term(ts, i, lookup)
    case Malformed => Malformed
    case Parsed(o, j) =>
      if !o.Computed? then Parsed(o, j) else ExprRest(ts, o.value, j, lookup)
  }

  /**
   * The value of a whole formula: `None` when the tokens do not form an
   * expression; otherwise the value, or the first error from the left.
   */
  function Evaluate(ts: seq<Token>, lookup: Lookup): Option<Outcome> {
    match Expr(ts, 0, lookup)
    case Malformed => None
    case Parsed(o, k) => if o.Computed? && k != |ts| then None else Some(o)
  }

  // ---------------------------------------------------------------------------
  // Well-formed token sequences are expressions

  /** Parenthesis depth after the first `n` tokens. */
  function Depth(ts: seq<Token>, n: nat): int
    requires n <= |ts|
  {
    Opens(ts[..n]) - Closes(ts[..n])
  }

  lemma DepthNext(ts: seq<Token>, n: nat)
    requires n < |ts|
    ensures Depth(ts, n + 1) == Depth(ts, n) + (if ts[n].LParen? then 1 else 0) - (if ts[n].RParen? then 1 else 0)
  {
    assert ts[..n + 1][..n] == ts[..n];
  }

  lemma DepthBounds(ts: seq<Token>, n: nat)
    requires WellFormed(ts) && n <= |ts|
    ensures Depth(ts, n) >= 0
    ensures n == |ts| ==> Depth(ts, n) == 0
  {
    assert ts[..0] == [];
    assert ts[..|ts|] == ts;
    if n > 0 {
      assert BalancedAt(ts, n);
    }
  }

  predicate EndsOperand(t: Token) {
    IsOperand(t) || t.RParen?
  }

  /** The token at `i` is followed by another: an operator or `(` is never last. */
  lemma NotLast(ts: seq<Token>, i: nat)
    requires WellFormed(ts) && i < |ts| && (ts[i].LParen? || IsOpToken(ts[i]))
    ensures i + 1 < |ts| && OpensOperand(ts[i + 1])
  {
    assert FollowsAt(ts, i);
  }

  lemma {:induction false} FactorParses(ts: seq<Token>, i: nat, lookup: Lookup)
    requires WellFormed(ts) && i < |ts| && OpensOperand(ts[i])
    ensures var p := Factor(ts, i, lookup);
            p.Parsed? && (p.outcome.Computed? ==> EndsOperand(ts[p.pos - 1]) && Depth(ts, p.pos) == Depth(ts, i))
    decreases |ts| - i, 1
  {
    DepthNext(ts, i);
    if ts[i].LParen? {
      NotLast(ts, i);
      ExprParses(ts, i + 1, lookup);
      var e := Expr(ts, i + 1, lookup);
      if e.outcome.Computed? {
        var k := e.pos;
        DepthBounds(ts, i);
        DepthBounds(ts, |ts|);
        assert Depth(ts, k) >= 1;
        assert k != |ts|;
        assert ts[k].RParen?;
        DepthNext(ts, k);
      }
    }
  }

  /** What a well-formed formula guarantees of the rest of a term that starts after an operand at `j`. */
  predicate TermRestOk(ts: seq<Token>, j: nat, p: Parsed)
    requires j <= |ts|
  {
    p.Parsed? && (p.outcome.Computed? ==>
      0 < p.pos <= |ts| && EndsOperand(ts[p.pos - 1]) && Depth(ts, p.pos) == Depth(ts, j)
      && !(p.pos < |ts| && (ts[p.pos] == Op('*') || ts[p.pos] == Op('/'))))
  }

  lemma {:induction false} TermRestParses(ts: seq<Token>, j: nat, acc: real, lookup: Lookup)
    requires WellFormed(ts) && 0 < j <= |ts| && EndsOperand(ts[j - 1])
    ensures TermRestOk(ts, j, TermRest(ts, acc, j, lookup))
    decreases |ts| - j, 0
  {
    if j < |ts| && (ts[j] == Op('*') || ts[j] == Op('/')) {
      NotLast(ts, j);
      DepthNext(ts, j);
      FactorParses(ts, j + 1, lookup);
      var f := Factor(ts, j + 1, lookup);
      if f.outcome.Computed? && !(ts[j] == Op('/') && f.outcome.value == 0.0) {
        var acc' := if ts[j] == Op('*') then Apply('*', acc, f.outcome.value) else Quotient(acc, f.outcome.value);
        TermRestParses(ts, f.pos, acc', lookup);
      }
      TermRestFinish(ts, j, acc, lookup);
    } else {
      assert TermRest(ts, acc, j, lookup) == Parsed(Computed(acc), j);
    }
  }

  /** The step of `TermRestParses` past one `*` or `/` and its factor, given the facts about the rest. */
  lemma TermRestFinish(ts: seq<Token>, j: nat, acc: real, lookup: Lookup)
    requires j < |ts| && (ts[j] == Op('*') || ts[j] == Op('/')) && j + 1 < |ts|
    requires Depth(ts, j + 1) == Depth(ts, j)
    requires var f := Factor(ts, j + 1, lookup);
             f.Parsed? && (f.outcome.Computed? ==> EndsOperand(ts[f.pos - 1]) && Depth(ts, f.pos) == Depth(ts, j + 1))
    requires var f := Factor(ts, j + 1, lookup);
             f.outcome.Computed? && !(ts[j] == Op('/') && f.outcome.value == 0.0) ==>
               TermRestOk(ts, f.pos, TermRest(ts, if ts[j] == Op('*') then Apply('*', acc, f.outcome.value) else Quotient(acc, f.outcome.value), f.pos, lookup))
    ensures TermRestOk(ts, j, TermRest(ts, acc, j, lookup))
  {
    var f := Factor(ts, j + 1, lookup);
    if f.outcome.Computed? && !(ts[j] == Op('/') && f.outcome.value == 0.0) {
      var acc' := if ts[j] == Op('*') then Apply('*', acc, f.outcome.value) else Quotient(acc, f.outcome.value);
      assert TermRest(ts, acc, j, lookup) == TermRest(ts, acc', f.pos, lookup);
    } else if f.outcome.Computed? {
      assert TermRest(ts, acc, j, lookup) == Parsed(FormulaError(DivideByZero), f.pos);
    } else {
      assert TermRest(ts, acc, j, lookup) == f;
    }
  }

  lemma {:induction false} TermParses(ts: seq<Token>, i: nat, lookup: Lookup)
    requires WellFormed(ts) && i < |ts| && OpensOperand(ts[i])
    ensures var p := Term(ts, i, lookup);
            p.Parsed? && (p.outcome.Computed? ==>
              EndsOperand(ts[p.pos - 1]) && Depth(ts, p.pos) == Depth(ts, i)
              && !(p.pos < |ts| && (ts[p.pos] == Op('*') || ts[p.pos] == Op('/'))))
    decreases |ts| - i, 2
  {
    FactorParses(ts, i, lookup);
    var f := Factor(ts, i, lookup);
    if f.outcome.Computed? {
      TermRestParses(ts, f.pos, f.outcome.value, lookup);
    }
  }

  lemma {:induction false} ExprRestParses(ts: seq<Token>, j: nat, acc: real, lookup: Lookup)
    requires WellFormed(ts) && 0 < j <= |ts| && EndsOperand(ts[j - 1])
    requires !(j < |ts| && (ts[j] == Op('*') || ts[j] == Op('/')))
    ensures var p := ExprRest(ts, acc, j, lookup);
            p.Parsed? && (p.outcome.Computed? ==>
              Depth(ts, p.pos) == Depth(ts, j) && (p.pos == |ts| || ts[p.pos].RParen?))
    decreases |ts| - j, 0
  {
    if j < |ts| && (ts[j] == Op('+') || ts[j] == Op('-')) {
      NotLast(ts, j);
      DepthNext(ts, j);
      TermParses(ts, j + 1, lookup);
      var t := Term(ts, j + 1, lookup);
      if t.outcome.Computed? {
        var acc' := Apply(ts[j].op, acc, t.outcome.value);
        ExprRestParses(ts, t.pos, acc', lookup);
      }
    } else if j < |ts| {
      assert FollowsAt(ts, j - 1);
    }
  }

  lemma {:induction false} ExprParses(ts: seq<Token>, i: nat, lookup: Lookup)
    requires WellFormed(ts) && i < |ts| && OpensOperand(ts[i])
    ensures var p := Expr(ts, i, lookup);
            p.Parsed? && (p.outcome.Computed? ==>
              Depth(ts, p.pos) == Depth(ts, i) && (p.pos == |ts| || ts[p.pos].RParen?))
    decreases |ts| - i, 3
  {
    TermParses(ts, i, lookup);
    var t := Term(ts, i, lookup);
    if t.outcome.Computed? {
      ExprRestParses(ts, t.pos, t.outcome.value, lookup);
    }
  }

  /** At depth zero the next token of a well-formed formula is not `)`. */
  lemma NoStrayClose(ts: seq<Token>, k: nat)
    requires WellFormed(ts) && k < |ts| && Depth(ts, k) == 0
    ensures !ts[k].RParen?
  {
    DepthNext(ts, k);
    DepthBounds(ts, k + 1);
  }

  /** Every well-formed formula is an expression of the grammar, used to its last token. */
  lemma WellFormedEvaluates(ts: seq<Token>, lookup: Lookup)
    requires WellFormed(ts)
    ensures Evaluate(ts, lookup).Some?
  {
    ExprParses(ts, 0, lookup);
    var e := Expr(ts, 0, lookup);
    if e.outcome.Computed? {
      var k := e.pos;
      DepthBounds(ts, 0);
      if k < |ts| {
        NoStrayClose(ts, k);
      }
    }
  }

  // ---------------------------------------------------------------------------
  // The machine simulates the reference evaluator

  /** Two states that agree: both running in the same machine, or both halted for the same reason. */
  predicate Agree(r: State, s: State) {
    r.Running? == s.Running? && (r.Running? ==> r == s) && (r.Halted? ==> r.outcome == s.outcome)
  }

  /** A pending `*` or `/` has its left operand on the value stack. */
  predicate Ready(m: Machine) {
    (IsOnTop('*', m.operators) || IsOnTop('/', m.operators)) ==> m.values != []
  }

  predicate Neutral(ops: seq<char>) {
    !IsOnTop('*', ops) && !IsOnTop('/', ops)
  }

  /** The bottom of an expression's operators: the stack is empty or has `(` on top. */
  predicate Base(ops: seq<char>) {
    ops == [] || IsOnTop('(', ops)
  }

  /**
   * The machine after an expression of value `v` begun on stacks `vs` and
   * `ops`: either `v` was pushed, or two values wait above `vs` with one `+`
   * or `-` above `ops` that combines them into `v`.
   */
  predicate Pending(st: State, vs: seq<real>, ops: seq<char>, v: real) {
    st.Running? &&
    var w, p := st.m.values, st.m.operators;
    (st.m == Machine(vs + [v], ops)
     || (|w| == |vs| + 2 && w[..|vs|] == vs && |p| == |ops| + 1 && p[..|ops|] == ops
         && (p[|ops|] == '+' || p[|ops|] == '-') && Apply(p[|ops|], w[|vs|], w[|vs| + 1]) == v))
  }

  /** Halted with the given outcome. */
  predicate HaltedWith(st: State, o: Outcome) {
    st.Halted? && st.outcome == o
  }

  /** Applying the pending operator of `Pending` leaves the expression's value pushed. */
  lemma Settle(st: State, vs: seq<real>, ops: seq<char>, v: real)
    requires Pending(st, vs, ops, v) && st.m != Machine(vs + [v], ops)
    ensures st.m.operators != []
    ensures Reduce(st.m.operators[|st.m.operators| - 1], st.m) == Running(Machine(vs + [v], ops))
  {
    var w, p := st.m.values, st.m.operators;
    assert w == vs + [w[|vs|], w[|vs| + 1]];
    assert p == ops + [p[|ops|]];
    assert w[..|w| - 2] == vs;
  }

  lemma CloseSim(st: State, vs: seq<real>, ops: seq<char>, v: real)
    requires Pending(st, vs, ops + ['('], v)
    requires Ready(Machine(vs, ops))
    ensures Agree(CloseParen(st.m), PushOperand(Machine(vs, ops), v))
  {
    var inner := Machine(vs + [v], ops + ['(']);
    if st.m != inner {
      Settle(st, vs, ops + ['('], v);
      var p := st.m.operators;
      assert IsOnTop('+', p) || IsOnTop('-', p);
    }
    var m2 := Machine(vs + [v], ops);
    assert Pop(ops + ['(']) == ops;
    assert CloseParen(st.m) == (if IsOnTop('*', ops) then Reduce('*', m2)
                                else if IsOnTop('/', ops) then DivideTop(m2)
                                else Running(m2));
    if IsOnTop('*', ops) {
      CloseMul(vs, ops, v);
    } else if IsOnTop('/', ops) {
      CloseDiv(vs, ops, v);
    }
  }

  lemma CloseMul(vs: seq<real>, ops: seq<char>, v: real)
    requires IsOnTop('*', ops) && vs != []
    ensures Reduce('*', Machine(vs + [v], ops)) == PushOperand(Machine(vs, ops), v)
  {
    var w := vs + [v];
    assert w[..|w| - 2] == Pop(vs);
    assert w[|w| - 2] == vs[|vs| - 1];
  }

  lemma CloseDiv(vs: seq<real>, ops: seq<char>, v: real)
    requires IsOnTop('/', ops) && vs != []
    ensures Agree(DivideTop(Machine(vs + [v], ops)), PushOperand(Machine(vs, ops), v))
  {
    var w := vs + [v];
    assert w[..|w| - 2] == Pop(vs);
    assert w[|w| - 2] == vs[|vs| - 1];
  }

  lemma AdditiveSim(st: State, vs: seq<real>, ops: seq<char>, acc: real, c: char)
    requires Base(ops) && Pending(st, vs, ops, acc) && (c == '+' || c == '-')
    ensures PushAdditive(st.m, c) == Running(Machine(vs + [acc], ops + [c]))
  {
    if st.m != Machine(vs + [acc], ops) {
      Settle(st, vs, ops, acc);
    }
  }

  lemma FinishSim(st: State, v: real)
    requires Pending(st, [], [], v)
    ensures Finish(st.m) == Halted(Computed(v), Fresh)
  {
    var w, p := st.m.values, st.m.operators;
    if st.m != Machine([v], []) {
      assert |w| == 2 && |p| == 1;
      assert w[..0] == [] && Pop(p) == [];
    }
  }

  /** A factor's value arriving after `acc` and a `*` or `/`. */
  lemma MulOperand(vs: seq<real>, ops: seq<char>, acc: real, c: char, x: real)
    requires c == '*' || c == '/'
    ensures var r := PushOperand(Machine(vs + [acc], ops + [c]), x);
            if c == '/' && x == 0.0 then HaltedWith(r, FormulaError(DivideByZero))
            else r == Running(Machine(vs + [if c == '*' then Apply('*', acc, x) else Quotient(acc, x)], ops))
  {
    assert Pop(vs + [acc]) == vs;
    assert Pop(ops + [c]) == ops;
    assert IsOnTop(c, ops + [c]);
  }

  lemma NeutralOperand(vs: seq<real>, ops: seq<char>, x: real)
    requires Neutral(ops)
    ensures PushOperand(Machine(vs, ops), x) == Running(Machine(vs + [x], ops))
  {
  }

  /** A number or a variable as a factor. */
  lemma AtomSim(ts: seq<Token>, i: nat, m: Machine, lookup: Lookup)
    requires i < |ts| && (ts[i].Num? || ts[i].Var?) && Factor(ts, i, lookup).Parsed?
    ensures var p := Factor(ts, i, lookup);
            var r := Steps(ts, i, p.pos, m, lookup);
            p.pos == i + 1
            && (p.outcome.Computed? ==> r == PushOperand(m, p.outcome.value))
            && (!p.outcome.Computed? ==> HaltedWith(r, p.outcome))
  {
    StepsOne(ts, i, m, lookup);
  }

  lemma {:induction false} FactorSim(ts: seq<Token>, i: nat, m: Machine, lookup: Lookup)
    requires i <= |ts| && Factor(ts, i, lookup).Parsed? && Ready(m)
    ensures var p := Factor(ts, i, lookup);
            var r := Steps(ts, i, p.pos, m, lookup);
            (p.outcome.Computed? ==> Agree(r, PushOperand(m, p.outcome.value)))
            && (!p.outcome.Computed? ==> HaltedWith(r, p.outcome))
    decreases |ts| - i, 1
  {
    if ts[i].LParen? {
      ParenSim(ts, i, m, lookup);
    } else {
      AtomSim(ts, i, m, lookup);
    }
  }

  /** How a parenthesised factor is made of the expression inside it. */
  lemma ParenShape(ts: seq<Token>, i: nat, lookup: Lookup)
    requires i < |ts| && ts[i].LParen? && Factor(ts, i, lookup).Parsed?
    ensures var e := Expr(ts, i + 1, lookup);
            e.Parsed?
            && (e.outcome.Computed? ==>
                  e.pos < |ts| && ts[e.pos].RParen? && Factor(ts, i, lookup) == Parsed(e.outcome, e.pos + 1))
            && (!e.outcome.Computed? ==> Factor(ts, i, lookup) == e)
  {
  }

  /** The `)` closing an expression that was begun on `m` with a `(`. */
  lemma CloseStep(ts: seq<Token>, i: nat, k: nat, m: Machine, st: State, v: real, lookup: Lookup)
    requires i < k < |ts| && ts[k].RParen?
    requires Steps(ts, i, k, m, lookup) == st
    requires Pending(st, m.values, m.operators + ['('], v) && Ready(m)
    ensures Agree(Steps(ts, i, k + 1, m, lookup), PushOperand(m, v))
  {
    StepsSplit(ts, i, k, k + 1, m, lookup);
    StepsOne(ts, k, st.m, lookup);
    CloseSim(st, m.values, m.operators, v);
    assert Machine(m.values, m.operators) == m;
  }

  /** A parenthesised expression as a factor. */
  lemma {:induction false} ParenSim(ts: seq<Token>, i: nat, m: Machine, lookup: Lookup)
    requires i < |ts| && ts[i].LParen? && Factor(ts, i, lookup).Parsed? && Ready(m)
    ensures var p := Factor(ts, i, lookup);
            var r := Steps(ts, i, p.pos, m, lookup);
            (p.outcome.Computed? ==> Agree(r, PushOperand(m, p.outcome.value)))
            && (!p.outcome.Computed? ==> HaltedWith(r, p.outcome))
    decreases |ts| - i, 0
  {
    ParenShape(ts, i, lookup);
    ExprSim(ts, i + 1, m.values, m.operators + ['('], lookup);
    ParenFinish(ts, i, m, lookup);
  }

  /** The factor `( e )` from what the machine does with the expression `e` inside it. */
  lemma ParenFinish(ts: seq<Token>, i: nat, m: Machine, lookup: Lookup)
    requires i < |ts| && ts[i].LParen? && Factor(ts, i, lookup).Parsed? && Ready(m)
    requires var e := Expr(ts, i + 1, lookup);
             var r := Steps(ts, i + 1, e.pos, Machine(m.values, m.operators + ['(']), lookup);
             e.Parsed?
             && (e.outcome.Computed? ==> Pending(r, m.values, m.operators + ['('], e.outcome.value))
             && (!e.outcome.Computed? ==> HaltedWith(r, e.outcome))
    ensures var p := Factor(ts, i, lookup);
            var r := Steps(ts, i, p.pos, m, lookup);
            (p.outcome.Computed? ==> Agree(r, PushOperand(m, p.outcome.value)))
            && (!p.outcome.Computed? ==> HaltedWith(r, p.outcome))
  {
    ParenShape(ts, i, lookup);
    var e := Expr(ts, i + 1, lookup);
    if e.outcome.Computed? {
      ParenClosed(ts, i, e.pos, m, e.outcome.value, lookup);
      assert Factor(ts, i, lookup) == Parsed(e.outcome, e.pos + 1);
    } else {
      ParenSteps(ts, i, e.pos, m, lookup);
      assert Factor(ts, i, lookup) == e;
    }
  }

  /** A parenthesised expression of value `v` whose `)` is at `k`. */
  lemma ParenClosed(ts: seq<Token>, i: nat, k: nat, m: Machine, v: real, lookup: Lookup)
    requires i < k < |ts| && ts[i].LParen? && ts[k].RParen? && Ready(m)
    requires Pending(Steps(ts, i + 1, k, Machine(m.values, m.operators + ['(']), lookup), m.values, m.operators + ['('], v)
    ensures Agree(Steps(ts, i, k + 1, m, lookup), PushOperand(m, v))
  {
    var m1 := Machine(m.values, m.operators + ['(']);
    ParenSteps(ts, i, k, m, lookup);
    CloseStep(ts, i, k, m, Steps(ts, i + 1, k, m1, lookup), v, lookup);
  }

  /** After a `(` the machine runs on with `(` pushed. */
  lemma ParenSteps(ts: seq<Token>, i: nat, k: nat, m: Machine, lookup: Lookup)
    requires i < k <= |ts| && ts[i].LParen?
    ensures Steps(ts, i, k, m, lookup) == Steps(ts, i + 1, k, Machine(m.values, m.operators + ['(']), lookup)
  {
    var m1 := Machine(m.values, m.operators + ['(']);
    assert Steps(ts, i, i + 1, m, lookup) == Running(m1) by {
      StepsOne(ts, i, m, lookup);
    }
    StepsSplit(ts, i, i + 1, k, m, lookup);
  }

  /** One `*` or `/` and the factor after it, following a factor of value `acc`. */
  lemma {:induction false} MulFactorSim(ts: seq<Token>, j: nat, vs: seq<real>, ops: seq<char>, acc: real, lookup: Lookup)
    requires j + 1 <= |ts| && (ts[j] == Op('*') || ts[j] == Op('/')) && Factor(ts, j + 1, lookup).Parsed?
    ensures var f := Factor(ts, j + 1, lookup);
            var c := ts[j].op;
            var r := Steps(ts, j, f.pos, Machine(vs + [acc], ops), lookup);
            (f.outcome.Computed? ==>
               if c == '/' && f.outcome.value == 0.0 then HaltedWith(r, FormulaError(DivideByZero))
               else r == Running(Machine(vs + [if c == '*' then Apply('*', acc, f.outcome.value) else Quotient(acc, f.outcome.value)], ops)))
            && (!f.outcome.Computed? ==> HaltedWith(r, f.outcome))
    decreases |ts| - j, 1
  {
    var c := ts[j].op;
    var m0 := Machine(vs + [acc], ops);
    var m1 := Machine(vs + [acc], ops + [c]);
    StepsOne(ts, j, m0, lookup);
    assert Step(m0, ts[j], lookup) == Running(m1);
    FactorSim(ts, j + 1, m1, lookup);
    var f := Factor(ts, j + 1, lookup);
    StepsSplit(ts, j, j + 1, f.pos, m0, lookup);
    if f.outcome.Computed? {
      MulOperand(vs, ops, acc, c, f.outcome.value);
    }
  }

  lemma {:induction false} TermRestSim(ts: seq<Token>, j: nat, vs: seq<real>, ops: seq<char>, acc: real, lookup: Lookup)
    requires j <= |ts| && Neutral(ops) && TermRest(ts, acc, j, lookup).Parsed?
    ensures var p := TermRest(ts, acc, j, lookup);
            var r := Steps(ts, j, p.pos, Machine(vs + [acc], ops), lookup);
            (p.outcome.Computed? ==> r == Running(Machine(vs + [p.outcome.value], ops)))
            && (!p.outcome.Computed? ==> HaltedWith(r, p.outcome))
    decreases |ts| - j, 2
  {
    if j < |ts| && (ts[j] == Op('*') || ts[j] == Op('/')) {
      var f := Factor(ts, j + 1, lookup);
      assert f.Parsed?;
      MulFactorSim(ts, j, vs, ops, acc, lookup);
      var k := f.pos;
      if f.outcome.Computed? && !(ts[j] == Op('/') && f.outcome.value == 0.0) {
        var acc' := if ts[j] == Op('*') then Apply('*', acc, f.outcome.value) else Quotient(acc, f.outcome.value);
        assert TermRest(ts, acc, j, lookup) == TermRest(ts, acc', k, lookup);
        TermRestSim(ts, k, vs, ops, acc', lookup);
        StepsSplit(ts, j, k, TermRest(ts, acc', k, lookup).pos, Machine(vs + [acc], ops), lookup);
      }
    }
  }

  lemma {:induction false} TermSim(ts: seq<Token>, i: nat, vs: seq<real>, ops: seq<char>, lookup: Lookup)
    requires i <= |ts| && Neutral(ops) && Term(ts, i, lookup).Parsed?
    ensures var p := Term(ts, i, lookup);
            var r := Steps(ts, i, p.pos, Machine(vs, ops), lookup);
            (p.outcome.Computed? ==> r == Running(Machine(vs + [p.outcome.value], ops)))
            && (!p.outcome.Computed? ==> HaltedWith(r, p.outcome))
    decreases |ts| - i, 3
  {
    FactorSim(ts, i, Machine(vs, ops), lookup);
    var f := Factor(ts, i, lookup);
    if f.outcome.Computed? {
      var x := f.outcome.value;
      NeutralOperand(vs, ops, x);
      TermRestSim(ts, f.pos, vs, ops, x, lookup);
      StepsSplit(ts, i, f.pos, Term(ts, i, lookup).pos, Machine(vs, ops), lookup);
    }
  }

  /** One `+` or `-` and the term after it, following terms of value `acc`. */
  lemma {:induction false} AddTermSim(ts: seq<Token>, j: nat, vs: seq<real>, ops: seq<char>, st: State, acc: real, lookup: Lookup)
    requires j + 1 <= |ts| && (ts[j] == Op('+') || ts[j] == Op('-'))
    requires Base(ops) && Pending(st, vs, ops, acc) && Term(ts, j + 1, lookup).Parsed?
    ensures var t := Term(ts, j + 1, lookup);
            var c := ts[j].op;
            var r := Steps(ts, j, t.pos, st.m, lookup);
            (t.outcome.Computed? ==> r == Running(Machine(vs + [acc, t.outcome.value], ops + [c])))
            && (!t.outcome.Computed? ==> HaltedWith(r, t.outcome))
    decreases |ts| - j, 1
  {
    var c := ts[j].op;
    StepsOne(ts, j, st.m, lookup);
    AdditiveSim(st, vs, ops, acc, c);
    TermSim(ts, j + 1, vs + [acc], ops + [c], lookup);
    var t := Term(ts, j + 1, lookup);
    StepsSplit(ts, j, j + 1, t.pos, st.m, lookup);
    if t.outcome.Computed? {
      assert vs + [acc] + [t.outcome.value] == vs + [acc, t.outcome.value];
    }
  }

  lemma PendingPair(vs: seq<real>, ops: seq<char>, a: real, b: real, c: char)
    requires c == '+' || c == '-'
    ensures Pending(Running(Machine(vs + [a, b], ops + [c])), vs, ops, Apply(c, a, b))
  {
    assert (vs + [a, b])[..|vs|] == vs;
    assert (ops + [c])[..|ops|] == ops;
  }

  lemma {:induction false} ExprRestSim(ts: seq<Token>, j: nat, vs: seq<real>, ops: seq<char>, st: State, acc: real, lookup: Lookup)
    requires j <= |ts| && Base(ops) && Pending(st, vs, ops, acc) && ExprRest(ts, acc, j, lookup).Parsed?
    ensures var p := ExprRest(ts, acc, j, lookup);
            var r := Steps(ts, j, p.pos, st.m, lookup);
            (p.outcome.Computed? ==> Pending(r, vs, ops, p.outcome.value))
            && (!p.outcome.Computed? ==> HaltedWith(r, p.outcome))
    decreases |ts| - j, 2
  {
    if j < |ts| && (ts[j] == Op('+') || ts[j] == Op('-')) {
      var c := ts[j].op;
      var t := Term(ts, j + 1, lookup);
      assert t.Parsed?;
      AddTermSim(ts, j, vs, ops, st, acc, lookup);
      var k := t.pos;
      if t.outcome.Computed? {
        var v := t.outcome.value;
        var acc' := Apply(c, acc, v);
        assert ExprRest(ts, acc, j, lookup) == ExprRest(ts, acc', k, lookup);
        var st' := Running(Machine(vs + [acc, v], ops + [c]));
        PendingPair(vs, ops, acc, v, c);
        ExprRestSim(ts, k, vs, ops, st', acc', lookup);
        StepsSplit(ts, j, k, ExprRest(ts, acc', k, lookup).pos, st.m, lookup);
      }
    }
  }

  lemma {:induction false} ExprSim(ts: seq<Token>, i: nat, vs: seq<real>, ops: seq<char>, lookup: Lookup)
    requires i <= |ts| && Base(ops) && Expr(ts, i, lookup).Parsed?
    ensures var p := Expr(ts, i, lookup);
            var r := Steps(ts, i, p.pos, Machine(vs, ops), lookup);
            (p.outcome.Computed? ==> Pending(r, vs, ops, p.outcome.value))
            && (!p.outcome.Computed? ==> HaltedWith(r, p.outcome))
    decreases |ts| - i, 4
  {
    TermSim(ts, i, vs, ops, lookup);
    var t := Term(ts, i, lookup);
    if t.outcome.Computed? {
      var st := Running(Machine(vs + [t.outcome.value], ops));
      ExprRestSim(ts, t.pos, vs, ops, st, t.outcome.value, lookup);
      StepsSplit(ts, i, t.pos, Expr(ts, i, lookup).pos, Machine(vs, ops), lookup);
    }
  }

  /**
   * On empty stacks the machine evaluates every well-formed formula as the
   * reference does: the same number or the same formula error, never the
   * empty-stack exception, and a number leaves both stacks empty.
   */
  lemma FreshProcessIsReference(ts: seq<Token>, lookup: Lookup)
    requires WellFormed(ts)
    ensures Evaluate(ts, lookup).Some?
    ensures Process(ts, Fresh, lookup).outcome == Evaluate(ts, lookup).value
    ensures !Process(ts, Fresh, lookup).outcome.EmptyStack?
    ensures Process(ts, Fresh, lookup).outcome.Computed? ==> Process(ts, Fresh, lookup).m == Fresh
  {
    WellFormedEvaluates(ts, lookup);
    ExprSim(ts, 0, [], [], lookup);
    var e := Expr(ts, 0, lookup);
    StepsSplit(ts, 0, e.pos, |ts|, Fresh, lookup);
    if e.outcome.Computed? {
      FinishSim(Steps(ts, 0, |ts|, Fresh, lookup), e.outcome.value);
    }
  }
}
