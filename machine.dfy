/**
 * The two-stack infix evaluator of a formula, one token at a time.
 *
 * A `Machine` is the pair of stacks a formula object keeps between
 * evaluations (the top of each stack is the last element).  `Step` is the
 * effect of one token, `Steps` of a run of tokens, and `Process` of a whole
 * formula followed by the final reduction.  An evaluation stops early with a
 * formula error (an undefined variable, a zero divisor) or with `EmptyStack`,
 * the exception a pop or peek on an empty stack raises; either way the stacks
 * are left exactly as they were at that point.
 */
module FormulaMachine {
  import opened Basics
  import opened Numbers
  import opened Tokens

  const DivideByZero := "Cannot divide by zero"
  const NoValue := "Variable has no value"

  datatype Machine = Machine(values: seq<real>, operators: seq<char>)

  /** What an evaluation produces: a number, a formula error, or the empty-stack exception. */
  datatype Outcome = Computed(value: real) | FormulaError(reason: string) | EmptyStack

  datatype State = Running(m: Machine) | Halted(outcome: Outcome, m: Machine)

  /** The variable lookup: the value of a (normalised) variable, or `None` where it has none. */
  type Lookup = string -> Option<real>

  const Fresh := Machine([], [])

  predicate IsOnTop(c: char, ops: seq<char>) {
    ops != [] && ops[|ops| - 1] == c
  }

  function Pop<T>(s: seq<T>): seq<T>
    requires s != []
  {
    s[..|s| - 1]
  }

  /** The result of combining two operands with `+`, `-` or `*`. */
  function Apply(o: char, first: real, second: real): real {
    if o == '+' then first + second
    else if o == '-' then first - second
    else first * second
  }

  function Quotient(first: real, second: real): real
    requires second != 0.0
  {
    first / second
  }

  /**
   * Pops the operator `o` from the top of the operator stack, pops two
   * values, and pushes their combination.  With fewer than two values the
   * second pop raises, the first having already emptied the value stack.
   */
  function Reduce(o: char, m: Machine): State
    requires m.operators != []
  {
    var ops := Pop(m.operators);
    var vs := m.values;
    if |vs| < 2 then Halted(EmptyStack, Machine([], ops))
    else Running(Machine(vs[..|vs| - 2] + [Apply(o, vs[|vs| - 2], vs[|vs| - 1])], ops))
  }

  /** Like `Reduce` for `/`, which checks the divisor after both pops. */
  function DivideTop(m: Machine): State
    requires m.operators != []
  {
    var ops := Pop(m.operators);
    var vs := m.values;
    if |vs| < 2 then Halted(EmptyStack, Machine([], ops))
    else if vs[|vs| - 1] == 0.0 then Halted(FormulaError(DivideByZero), Machine(vs[..|vs| - 2], ops))
    else Running(Machine(vs[..|vs| - 2] + [Quotient(vs[|vs| - 2], vs[|vs| - 1])], ops))
  }

  /**
   * A number, or a variable's value, arriving as an operand: it is
   * multiplied into or divides the top value when `*` or `/` is on top,
   * and is pushed otherwise.  A zero divisor is rejected before anything is
   * popped.
   */
  function PushOperand(m: Machine, x: real): State {
    var vs, ops := m.values, m.operators;
    if IsOnTop('*', ops) then
      if vs == [] then Halted(EmptyStack, Machine(vs, Pop(ops)))
      else Running(Machine(Pop(vs) + [Apply('*', vs[|vs| - 1], x)], Pop(ops)))
    else if IsOnTop('/', ops) then
      if x == 0.0 then Halted(FormulaError(DivideByZero), m)
      else if vs == [] then Halted(EmptyStack, Machine(vs, Pop(ops)))
      else Running(Machine(Pop(vs) + [Quotient(vs[|vs| - 1], x)], Pop(ops)))
    else Running(Machine(vs + [x], ops))
  }

  /** A `+` or `-` token: a pending `+` or `-` on top is applied first, then the token is pushed. */
  function PushAdditive(m: Machine, c: char): State {
    if IsOnTop('+', m.operators) || IsOnTop('-', m.operators) then
      var r := Reduce(m.operators[|m.operators| - 1], m);
      if r.Halted? then r else Running(Machine(r.m.values, r.m.operators + [c]))
    else Running(Machine(m.values, m.operators + [c]))
  }

  /**
   * A `)` token: apply a pending `+` or `-` (the check for `-` peeks without
   * testing for an empty stack), pop the `(`, then apply a pending `*` or `/`.
   */
  function CloseParen(m: Machine): State {
    var r1 :=
      if IsOnTop('+', m.operators) then Reduce('+', m)
      else if m.operators == [] then Halted(EmptyStack, m)
      else if IsOnTop('-', m.operators) then Reduce('-', m)
      else Running(m);
    if r1.Halted? then r1
    else if r1.m.operators == [] then Halted(EmptyStack, r1.m)
    else
      var m2 := Machine(r1.m.values, Pop(r1.m.operators));
      if IsOnTop('*', m2.operators) then Reduce('*', m2)
      else if IsOnTop('/', m2.operators) then DivideTop(m2)
      else Running(m2)
  }

  /** The effect of one token on the stacks. */
  function Step(m: Machine, t: Token, lookup: Lookup): State {
    match t
    case Num(d) => PushOperand(m, Value(d))
    case Var(name) =>
      (match lookup(Upper(name))
       case None => Halted(FormulaError(NoValue), m)
       case Some(x) => PushOperand(m, x))
    case Op(c) =>
      if c == '+' || c == '-' then PushAdditive(m, c)
      else if c == '*' || c == '/' then Running(Machine(m.values, m.operators + [c]))
      else Running(m)
    case LParen => Running(Machine(m.values, m.operators + ['(']))
    case RParen => CloseParen(m)
    case Other(_) => Running(m)
  }

  /** The tokens `ts[i..j]` processed in order from `m`; processing stops at the first halt. */
  function Steps(ts: seq<Token>, i: nat, j: nat, m: Machine, lookup: Lookup): State
    requires i <= j <= |ts|
    decreases j
  {
    if j == i then Running(m)
    else
      var r := Steps(ts, i, j - 1, m, lookup);
      if r.Halted? then r else Step(r.m, ts[j - 1], lookup)
  }

  /** The reduction after the last token: at most one pending `+` or `-` is applied. */
  function Finish(m: Machine): State {
    var vs, ops := m.values, m.operators;
    if ops == [] then
      if vs == [] then Halted(EmptyStack, m)
      else Halted(Computed(vs[|vs| - 1]), Machine(Pop(vs), ops))
    else
      var o := if IsOnTop('+', ops) then '+' else '-';
      if |vs| < 2 then Halted(EmptyStack, Machine([], Pop(ops)))
      else Halted(Computed(Apply(o, vs[|vs| - 2], vs[|vs| - 1])), Machine(vs[..|vs| - 2], Pop(ops)))
  }

  /** `ProcessFormula`: every token, then the final reduction, starting from the stacks `m`. */
  function Process(ts: seq<Token>, m: Machine, lookup: Lookup): (s: State)
    ensures s.Halted?
  {
    var r := Steps(ts, 0, |ts|, m, lookup);
    if r.Halted? then r else Finish(r.m)
  }

  // ---------------------------------------------------------------------------
  // Running in pieces

  /** Processing `ts[i..k]` is processing `ts[i..j]` and then, unless halted, `ts[j..k]`. */
  lemma {:induction false} StepsSplit(ts: seq<Token>, i: nat, j: nat, k: nat, m: Machine, lookup: Lookup)
    requires i <= j <= k <= |ts|
    ensures var r := Steps(ts, i, j, m, lookup);
            Steps(ts, i, k, m, lookup) == if r.Halted? then r else Steps(ts, j, k, r.m, lookup)
    decreases k
  {
    if k > j {
      StepsSplit(ts, i, j, k - 1, m, lookup);
      var q := Steps(ts, i, k - 1, m, lookup);
      assert Steps(ts, i, k, m, lookup) == if q.Halted? then q else Step(q.m, ts[k - 1], lookup);
    }
  }

  lemma StepsOne(ts: seq<Token>, i: nat, m: Machine, lookup: Lookup)
    requires i < |ts|
    ensures Steps(ts, i, i + 1, m, lookup) == Step(m, ts[i], lookup)
  {
  }

  /** Once halted, processing more tokens changes nothing. */
  lemma StepsHalted(ts: seq<Token>, i: nat, j: nat, k: nat, m: Machine, lookup: Lookup)
    requires i <= j <= k <= |ts|
    requires Steps(ts, i, j, m, lookup).Halted?
    ensures Steps(ts, i, k, m, lookup) == Steps(ts, i, j, m, lookup)
  {
    StepsSplit(ts, i, j, k, m, lookup);
  }

  // ---------------------------------------------------------------------------
  // Normalised tokens

  /** A token and its normal form have the same effect. */
  lemma StepNormal(m: Machine, t: Token, lookup: Lookup)
    ensures Step(m, Normal(t), lookup) == Step(m, t, lookup)
  {
    match t
    case Var(name) => UpperIdempotent(name);
    case Num(d) => NormalizeKeepsValue(d);
    case _ =>
  }

  /** Two tokens with the same normal form. */
  predicate SameNormal(t: Token, u: Token) {
    Normal(t) == Normal(u)
  }

  lemma {:induction false} StepsNormal(ts: seq<Token>, us: seq<Token>, i: nat, j: nat, m: Machine, lookup: Lookup)
    requires |ts| == |us| && i <= j <= |ts|
    requires forall k {:trigger SameNormal(ts[k], us[k])} :: 0 <= k < |ts| ==> SameNormal(ts[k], us[k])
    ensures Steps(ts, i, j, m, lookup) == Steps(us, i, j, m, lookup)
    decreases j
  {
    if j > i {
      StepsNormal(ts, us, i, j - 1, m, lookup);
      StepsNormalNext(ts, us, i, j, m, lookup);
    }
  }

  /** The last step of two runs that agree so far, on tokens with the same normal form. */
  lemma StepsNormalNext(ts: seq<Token>, us: seq<Token>, i: nat, j: nat, m: Machine, lookup: Lookup)
    requires |ts| == |us| && i < j <= |ts|
    requires SameNormal(ts[j - 1], us[j - 1])
    requires Steps(ts, i, j - 1, m, lookup) == Steps(us, i, j - 1, m, lookup)
    ensures Steps(ts, i, j, m, lookup) == Steps(us, i, j, m, lookup)
  {
    var r := Steps(ts, i, j - 1, m, lookup);
    if r.Running? {
      StepNormal(r.m, ts[j - 1], lookup);
      StepNormal(r.m, us[j - 1], lookup);
      assert Steps(ts, i, j, m, lookup) == Step(r.m, ts[j - 1], lookup);
      assert Steps(us, i, j, m, lookup) == Step(r.m, us[j - 1], lookup);
    }
  }

  /** Token sequences equal up to normalisation are processed alike. */
  lemma ProcessNormal(ts: seq<Token>, us: seq<Token>, m: Machine, lookup: Lookup)
    requires NormalAll(ts) == NormalAll(us)
    ensures Process(ts, m, lookup) == Process(us, m, lookup)
  {
    forall k | 0 <= k < |ts|
      ensures SameNormal(ts[k], us[k])
    {
      assert Normal(ts[k]) == NormalAll(ts)[k];
    }
    StepsNormal(ts, us, 0, |ts|, m, lookup);
  }

  // ---------------------------------------------------------------------------
  // Dependence on the lookup

  /** The lookup agrees with `other` on every variable among the tokens. */
  ghost predicate AgreeOn(ts: seq<Token>, lookup: Lookup, other: Lookup) {
    forall k :: 0 <= k < |ts| && ts[k].Var? ==> lookup(Upper(ts[k].name)) == other(Upper(ts[k].name))
  }

  /** A run consults the lookup only for the variables among its tokens. */
  lemma {:induction false} StepsLocal(ts: seq<Token>, i: nat, j: nat, m: Machine, lookup: Lookup, other: Lookup)
    requires i <= j <= |ts| && AgreeOn(ts, lookup, other)
    ensures Steps(ts, i, j, m, lookup) == Steps(ts, i, j, m, other)
    decreases j
  {
    if j > i {
      StepsLocal(ts, i, j - 1, m, lookup, other);
      var r := Steps(ts, i, j - 1, m, lookup);
      if r.Running? && ts[j - 1].Var? {
        assert lookup(Upper(ts[j - 1].name)) == other(Upper(ts[j - 1].name));
      }
    }
  }

  lemma ProcessLocal(ts: seq<Token>, m: Machine, lookup: Lookup, other: Lookup)
    requires AgreeOn(ts, lookup, other)
    ensures Process(ts, m, lookup) == Process(ts, m, other)
  {
    StepsLocal(ts, 0, |ts|, m, lookup, other);
  }
}
