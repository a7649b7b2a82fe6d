/**
 * The spreadsheet: a map from normalised cell names to cells, the dependency
 * graph between them, and the flag recording unsaved changes.
 *
 * An edge (a, b) of the graph means that the formula in cell `b` mentions
 * `a`, so that `b` must be recomputed when `a` changes.  Setting a cell
 * computes the list of cells to recompute by a depth-first search over the
 * dependents, refuses a formula that would close a cycle (restoring the
 * cell and its edges), and then recomputes the formula cells in that list,
 * in order, against the sheet as it stands at each step.
 *
 * The sheet recomputes a formula on empty stacks (`EvaluateCell`).  The
 * source evaluates it on the stacks its formula object kept from earlier
 * evaluations; `EvaluateCellAsWritten` and `StaleRecalculation` model that,
 * and show the wrong values and the exception it leads to.
 */
module Spreadsheets {
  import opened Basics
  import opened Numbers
  import opened Tokens
  import opened FormulaSyntax
  import opened FormulaMachine
  import opened Formulas
  import opened DependencyGraphs
  import opened Reachability
  import FormulaReference

  // ---------------------------------------------------------------------------
  // The depth-first search behind GetCellsToRecalculate

  /**
   * The `i`-th finished node: all its direct dependents have been visited,
   * none of them is the start, and (when every cycle passes through the
   * start) each of them finished before it, so it is listed after it.
   */
  ghost predicate FinishedAt(g: Adjacency, start: string, visited: set<string>, done: seq<string>, i: nat)
    requires i < |done|
  {
    forall b :: b in Get(g, done[i]) ==>
      b in visited && b != start && (!CycleAvoiding(g, start) ==> b in done[i + 1..])
  }

  /**
   * The search state: `stack` holds the nodes being visited (the start at its
   * bottom), `done` the finished ones, most recently finished first, and
   * `visited` exactly the two together, all reachable from the start.
   */
  ghost predicate Explored(g: Adjacency, start: string, stack: seq<string>, visited: set<string>, done: seq<string>) {
    Distinct(stack) && Distinct(done)
    && (forall i :: 0 <= i < |stack| ==> stack[i] in visited)
    && (forall i :: 0 <= i < |done| ==> done[i] in visited && done[i] !in stack)
    && (forall v :: v in visited ==> v in stack || v in done)
    && (forall v :: v in visited ==> Reaches(g, start, v))
    && (forall i :: 0 <= i < |done| ==> FinishedAt(g, start, visited, done, i))
  }

  /**
   * What GetCellsToRecalculate promises of its list: it starts with the
   * changed cell, lists each cell once, lists exactly the changed cell and
   * its transitive dependents, and, when no cycle avoids the changed cell,
   * lists every cell before all of its direct dependents.
   */
  ghost predicate Recalculation(g: Adjacency, name: string, order: seq<string>) {
    order != [] && order[0] == name && Distinct(order)
    && (forall n :: n in order <==> Reaches(g, name, n))
    && (!CycleAvoiding(g, name) ==>
          forall i :: 0 <= i < |order| ==> forall b :: b in Get(g, order[i]) ==> b in order[i + 1..])
  }

  lemma FinishedGrow(g: Adjacency, start: string, visited: set<string>, more: set<string>, done: seq<string>)
    requires visited <= more
    requires forall i :: 0 <= i < |done| ==> FinishedAt(g, start, visited, done, i)
    ensures forall i :: 0 <= i < |done| ==> FinishedAt(g, start, more, done, i)
  {
    forall i | 0 <= i < |done| ensures FinishedAt(g, start, more, done, i) {
      assert FinishedAt(g, start, visited, done, i);
    }
  }

  /** Visiting `name` pushes it on the stack. */
  lemma ExploredEnter(g: Adjacency, start: string, stack: seq<string>, visited: set<string>, done: seq<string>, name: string)
    requires Explored(g, start, stack, visited, done)
    requires name !in visited && IsPath(g, stack + [name]) && (stack + [name])[0] == start
    ensures Explored(g, start, stack + [name], visited + {name}, done)
  {
    var gray := stack + [name];
    assert Distinct(gray) by {
      forall i, j | 0 <= i < j < |gray| ensures gray[i] != gray[j] {
        if j < |stack| {
          assert gray[i] == stack[i] && gray[j] == stack[j];
        } else {
          assert gray[i] == stack[i] && stack[i] in visited;
        }
      }
    }
    forall i | 0 <= i < |gray| ensures gray[i] in visited + {name} {
      if i < |stack| {
        assert gray[i] == stack[i];
      }
    }
    forall i | 0 <= i < |done| ensures done[i] !in gray {
      assert done[i] != name;
    }
    ReachesPath(g, gray);
    FinishedGrow(g, start, visited, visited + {name}, done);
  }

  /** Finishing `name` pops it from the stack and lists it first. */
  lemma ExploredLeave(g: Adjacency, start: string, stack: seq<string>, name: string, visited: set<string>, done: seq<string>)
    requires Explored(g, start, stack + [name], visited, done)
    requires forall n :: n in Get(g, name) ==>
      n in visited && n != start && (!CycleAvoiding(g, start) ==> n !in stack + [name])
    ensures Explored(g, start, stack, visited, [name] + done)
  {
    LeaveShape(g, start, stack, name, visited, done);
    LeaveFinished(g, start, stack, name, visited, done);
  }

  lemma LeaveShape(g: Adjacency, start: string, stack: seq<string>, name: string, visited: set<string>, done: seq<string>)
    requires Explored(g, start, stack + [name], visited, done)
    ensures Distinct(stack) && Distinct([name] + done)
    ensures forall i :: 0 <= i < |stack| ==> stack[i] in visited
    ensures forall i :: 0 <= i < |[name] + done| ==> ([name] + done)[i] in visited && ([name] + done)[i] !in stack
    ensures forall v :: v in visited ==> v in stack || v in [name] + done
  {
    var gray := stack + [name];
    var done' := [name] + done;
    assert gray[|stack|] == name;
    assert name !in done;
    assert forall k :: 0 <= k < |stack| ==> stack[k] == gray[k];
    assert name !in stack by {
      forall i | 0 <= i < |stack| ensures stack[i] != name {
        assert gray[i] == stack[i];
      }
    }
    assert Distinct(stack) by {
      forall i, j | 0 <= i < j < |stack| ensures stack[i] != stack[j] {
        assert gray[i] == stack[i] && gray[j] == stack[j];
      }
    }
    assert Distinct(done') by {
      forall i, j | 0 <= i < j < |done'| ensures done'[i] != done'[j] {
        if i > 0 {
          assert done'[i] == done[i - 1] && done'[j] == done[j - 1];
        } else {
          assert done'[j] == done[j - 1];
        }
      }
    }
    forall i | 0 <= i < |done'| ensures done'[i] in visited && done'[i] !in stack {
      if i > 0 {
        assert done'[i] == done[i - 1];
      }
    }
    forall v | v in visited ensures v in stack || v in done' {
      if v !in done && v != name {
        assert v in gray;
        var k :| 0 <= k < |gray| && gray[k] == v;
        assert stack[k] == v;
      }
    }
  }

  lemma LeaveFinished(g: Adjacency, start: string, stack: seq<string>, name: string, visited: set<string>, done: seq<string>)
    requires Explored(g, start, stack + [name], visited, done)
    requires forall n :: n in Get(g, name) ==>
      n in visited && n != start && (!CycleAvoiding(g, start) ==> n !in stack + [name])
    ensures forall i :: 0 <= i < |[name] + done| ==> FinishedAt(g, start, visited, [name] + done, i)
  {
    var gray := stack + [name];
    var done' := [name] + done;
    forall i | 0 <= i < |done'| ensures FinishedAt(g, start, visited, done', i) {
      if i == 0 {
        assert done'[1..] == done;
        forall b | b in Get(g, name) ensures !CycleAvoiding(g, start) ==> b in done {
          if !CycleAvoiding(g, start) {
            assert b in visited && b !in gray;
          }
        }
      } else {
        assert FinishedAt(g, start, visited, done, i - 1);
        assert done'[i] == done[i - 1] && done'[i + 1..] == done[i..];
      }
    }
  }

  /** The finished search of the whole graph from `name`. */
  lemma RecalculationOfExplored(g: Adjacency, name: string, visited: set<string>, done: seq<string>)
    requires Explored(g, name, [], visited, done) && done != [] && done[0] == name
    ensures Recalculation(g, name, done) && !OnCycle(g, name)
  {
    VisitedClosed(g, name, visited, done);
    assert forall n :: n in done <==> Reaches(g, name, n) by {
      forall n | Reaches(g, name, n) ensures n in done {
        ClosedHoldsReaches(g, visited, name, n);
      }
    }
    assert !OnCycle(g, name) by {
      forall a | a in visited ensures name !in Get(g, a) {
        var i :| 0 <= i < |done| && done[i] == a;
        assert FinishedAt(g, name, visited, done, i);
      }
      ClosedNoReturn(g, visited, name);
    }
    assert !CycleAvoiding(g, name) ==>
      forall i :: 0 <= i < |done| ==> forall b :: b in Get(g, done[i]) ==> b in done[i + 1..]
    by {
      forall i | 0 <= i < |done| && !CycleAvoiding(g, name)
        ensures forall b :: b in Get(g, done[i]) ==> b in done[i + 1..]
      {
        assert FinishedAt(g, name, visited, done, i);
      }
    }
  }

  /** With nothing left on the stack, the visited nodes are the finished ones, and they are closed. */
  lemma VisitedClosed(g: Adjacency, name: string, visited: set<string>, done: seq<string>)
    requires Explored(g, name, [], visited, done)
    ensures forall v :: v in visited <==> v in done
    ensures Closed(g, visited)
  {
    forall a, b | a in visited && b in Get(g, a) ensures b in visited {
      var i :| 0 <= i < |done| && done[i] == a;
      assert FinishedAt(g, name, visited, done, i);
    }
  }

  lemma SmallerRest(universe: set<string>, visited: set<string>, more: set<string>, name: string)
    requires name in universe && name !in visited && visited + {name} <= more
    ensures |universe - more| < |universe - visited|
  {
    var small, large := universe - more, universe - visited;
    assert small <= large && name in large - small;
    assert large == small + (large - small) && small * (large - small) == {};
    assert |large - small| >= 1 by {
      assert large - small == (large - small - {name}) + {name};
    }
  }

  // ---------------------------------------------------------------------------
  // Cells

  /** What a cell holds: a string, a number, or a formula object. */
  datatype Content = TextContent(text: string) | NumberContent(number: Decimal) | FormulaContent(formula: Formula)

  /** What a cell shows: a string, a number, or a formula error with its reason. */
  datatype CellValue = TextValue(text: string) | NumberValue(number: real) | ErrorValue(reason: string)

  /** A cell: its content, its value, and the text it is saved as. */
  datatype Cell = Cell(content: Content, value: CellValue, stringForm: string)

  /** The exceptions the sheet throws. */
  datatype SheetError = InvalidName | FormulaFormat(message: string) | Circular | ReadWrite(message: string)

  const LoadError := "Error loading file into spreadsheet"
  const SaveError := "The spreadsheet failed to be written, opened, or closed"

  /** A text cell: the text is its content, value and saved form. */
  function TextCell(s: string): (c: Cell)
    ensures c.content == TextContent(s)
    ensures c.value == TextValue(c.content.text) && c.stringForm == c.content.text
  {
    Cell(TextContent(s), TextValue(s), s)
  }

  /** A number cell, held in normal form, saved as the number's text. */
  function NumberCell(d: Decimal): (c: Cell)
    ensures c.content.NumberContent? && Value(c.content.number) == Value(d)
    ensures c.value == NumberValue(Value(c.content.number))
  {
    NormalizeKeepsValue(d);
    Cell(NumberContent(Normalize(d)), NumberValue(Value(d)), Render(d))
  }

  /** A formula cell: no value until it is recomputed; saved as "=" and the formula's text. */
  function FormulaCell(f: Formula): (c: Cell)
    requires f.Valid()
    ensures c.content == FormulaContent(f) && c.value == TextValue("")
    ensures Classify(c.stringForm) == FormulaInput(f.ToString())
  {
    var saved := "=" + f.ToString();
    assert saved[1..] == f.ToString();
    FormulaTextNotNumber(f.ToString());
    Cell(FormulaContent(f), TextValue(""), saved)
  }

  /** How `SetContentsOfCell` reads its text: a number, then a formula after "=", then plain text. */
  datatype Input = NumberInput(number: Decimal) | FormulaInput(formulaText: string) | TextInput(text: string)

  function Classify(content: string): (r: Input)
    ensures r.NumberInput? <==> ParseDouble(content).Some?
    ensures r.NumberInput? ==> ParseDouble(content) == Some(r.number)
    ensures StartsWithEquals(content) ==> r == FormulaInput(content[1..])
    ensures r.FormulaInput? ==> content == "=" + r.formulaText
    ensures r.TextInput? ==> r.text == content
  {
    match ParseDouble(content)
    case Some(d) =>
      assert !StartsWithEquals(content) by {
        if StartsWithEquals(content) { EqualsTextNotNumber(content); }
      }
      NumberInput(d)
    case None => if StartsWithEquals(content) then FormulaInput(content[1..]) else TextInput(content)
  }

  /** A cell name: one or more letters followed by one or more digits, and nothing else. */
  function IsCellName(name: string): (r: bool)
    ensures r ==> forall i :: 0 <= i < |name| ==> IsLetter(name[i]) || IsDigit(name[i])
    ensures r ==> |name| >= 2 && IsLetter(name[0]) && IsDigit(name[|name| - 1])
  {
    if IsVar(name) then VarIsAlphanumeric(name); true else false
  }

  /**
   * The name check as the anchored pattern matches it: `$` also matches in
   * front of a final line feed.
   */
  predicate IsCellNameAsWritten(name: string) {
    IsVarAsWritten(name)
  }

  /** The pattern lets through a name ending in a line feed. */
  lemma NewlineNameAccepted()
    ensures IsCellNameAsWritten("A1\n") && !IsCellName("A1\n")
  {
    TrailingNewlineAccepted();
  }

  /** `List.Remove`: drops the first occurrence of `x`, if any. */
  function RemoveFirst(s: seq<string>, x: string): (r: seq<string>)
    ensures multiset(r) == multiset(s) - multiset{x}
  {
    if s == [] then []
    else if s[0] == x then
      assert s == [s[0]] + s[1..];
      s[1..]
    else
      assert s == [s[0]] + s[1..];
      [s[0]] + RemoveFirst(s[1..], x)
  }

  // ---------------------------------------------------------------------------
  // Values

  /** `LookupValue`: the number a cell shows; any other value, or no cell, is an error in the formula. */
  function LookupIn(cells: map<string, Cell>): (lookup: Lookup)
    ensures forall s :: lookup(s).Some? ==> Upper(s) in cells && cells[Upper(s)].value == NumberValue(lookup(s).value)
    ensures forall s :: lookup(s).None? ==> Upper(s) !in cells || !cells[Upper(s)].value.NumberValue?
  {
    s => var n := Upper(s);
         if n in cells && cells[n].value.NumberValue? then Some(cells[n].value.number) else None
  }

  /**
   * The value a formula shows over a lookup: the outcome of evaluating it on
   * empty stacks, a number or a formula error.  (The empty-stack case is
   * never reached for a well-formed formula; see `FormulaValueOfValid`.)
   */
  function FormulaValue(f: Formula, lookup: Lookup): CellValue {
    match Process(f.tokens, Fresh, lookup).outcome
    case Computed(x) => NumberValue(x)
    case FormulaError(reason) => ErrorValue(reason)
    case EmptyStack => ErrorValue("")
  }

  /** The value a formula cell gets over the sheet `cells`. */
  function SheetValue(f: Formula, cells: map<string, Cell>): CellValue {
    FormulaValue(f, LookupIn(cells))
  }

  /** For a well-formed formula this is the value the grammar gives it: a number or a formula error. */
  lemma FormulaValueOfValid(f: Formula, lookup: Lookup)
    requires f.Valid()
    ensures FormulaReference.Evaluate(f.tokens, lookup).Some?
    ensures FormulaValue(f, lookup) == match FormulaReference.Evaluate(f.tokens, lookup).value
                                       case Computed(x) => NumberValue(x)
                                       case FormulaError(reason) => ErrorValue(reason)
                                       case EmptyStack => ErrorValue("")
    ensures !FormulaReference.Evaluate(f.tokens, lookup).value.EmptyStack?
  {
    FormulaReference.FreshProcessIsReference(f.tokens, lookup);
  }

  predicate FormulasValid(cells: map<string, Cell>) {
    forall n :: n in cells && cells[n].content.FormulaContent? ==> cells[n].content.formula.Valid()
  }

  /** One step of `RecalculateCellValues`: a formula cell takes the value its formula has now. */
  function Recompute(cells: map<string, Cell>, n: string): map<string, Cell> {
    if n in cells && cells[n].content.FormulaContent? then
      cells[n := cells[n].(value := SheetValue(cells[n].content.formula, cells))]
    else cells
  }

  /** The cells after recomputing those of `order`, in order; only values change. */
  function Recalculated(cells: map<string, Cell>, order: seq<string>): (r: map<string, Cell>)
    ensures r.Keys == cells.Keys
    ensures forall n :: n in cells ==> r[n].content == cells[n].content && r[n].stringForm == cells[n].stringForm
    decreases |order|
  {
    if order == [] then cells
    else Recompute(Recalculated(cells, order[..|order| - 1]), order[|order| - 1])
  }

  /** Recomputing one more name of the order. */
  lemma RecalculatedNext(cells: map<string, Cell>, order: seq<string>, i: nat)
    requires i < |order|
    ensures Recalculated(cells, order[..i + 1]) == Recompute(Recalculated(cells, order[..i]), order[i])
  {
    assert order[..i + 1][..i] == order[..i];
  }

  /** Recomputation touches only the values of formula cells. */
  lemma {:induction false} RecalculatedKeepsOthers(cells: map<string, Cell>, order: seq<string>)
    ensures forall n :: n in cells && !cells[n].content.FormulaContent? ==> Recalculated(cells, order)[n] == cells[n]
    decreases |order|
  {
    if order != [] {
      RecalculatedKeepsOthers(cells, order[..|order| - 1]);
    }
  }

  /** How many names at the front of `order` name cells of the map. */
  function Present(cells: map<string, Cell>, order: seq<string>): (k: nat)
    ensures k <= |order| && (forall i :: 0 <= i < k ==> order[i] in cells)
    ensures k < |order| ==> order[k] !in cells
  {
    if order == [] || order[0] !in cells then 0
    else
      var k := 1 + Present(cells, order[1..]);
      assert forall i :: 1 <= i < k ==> order[i] == order[1..][i - 1];
      k
  }

  /** The cell `n`, if it holds a formula, shows the value its formula has over `cells`. */
  ghost predicate Settled(cells: map<string, Cell>, n: string) {
    n in cells && cells[n].content.FormulaContent? ==>
      cells[n].value == FormulaValue(cells[n].content.formula, LookupIn(cells))
  }

  /** Every formula cell shows the value its formula has over the sheet as it stands. */
  ghost predicate Consistent(cells: map<string, Cell>) {
    forall n :: Settled(cells, n)
  }

  /**
   * A stored cell: its name is a normalised cell name, text is non-empty
   * and would be read back as text, and value and saved form are those its
   * constructor gives.
   */
  ghost predicate GoodCell(n: string, c: Cell) {
    IsCellName(n) && Upper(n) == n
    && match c.content
       case TextContent(s) => s != "" && Classify(s) == TextInput(s) && c.value == TextValue(s) && c.stringForm == s
       case NumberContent(d) => IsNormal(d) && c.value == NumberValue(Value(d)) && c.stringForm == Render(d)
       case FormulaContent(f) => f.Valid() && c.stringForm == "=" + Canonical(f.tokens)
  }

  /** The names a cell's formula mentions, the cells it depends on directly. */
  function References(cells: map<string, Cell>, b: string): set<string> {
    if b in cells && cells[b].content.FormulaContent? then VariablesOf(cells[b].content.formula.tokens) else {}
  }

  /** The graph has an edge (a, b) exactly when the formula in `b` mentions `a`. */
  ghost predicate EdgesMatch(g: Adjacency, cells: map<string, Cell>) {
    forall a, b :: b in Get(g, a) <==> a in References(cells, b)
  }

  /** Every listed cell comes before all of its direct dependents. */
  ghost predicate Topological(g: Adjacency, order: seq<string>) {
    forall i :: 0 <= i < |order| ==> forall b :: b in Get(g, order[i]) ==> b in order[i + 1..]
  }

  /** The two sheets hold the same cells, except perhaps at `t`. */
  ghost predicate SameExcept(c0: map<string, Cell>, c1: map<string, Cell>, t: string) {
    forall m :: m != t ==> (m in c1 <==> m in c0) && (m in c1 ==> c1[m] == c0[m])
  }

  /** Writing cell `t` changes the sheet only at `t`. */
  lemma WriteChangesOne(c0: map<string, Cell>, t: string, c: Cell)
    ensures SameExcept(c0, c0[t := c], t)
  {
  }

  /** Writing cell `t` and then removing it leaves the sheet without `t`. */
  lemma WriteThenErase(c0: map<string, Cell>, t: string, c: Cell)
    ensures SameExcept(c0, c0 - {t}, t)
    ensures c0[t := c] - {t} == c0 - {t}
  {
  }

  /** Putting back what was at `t` restores a sheet that differed only at `t`. */
  lemma PutBack(c0: map<string, Cell>, c1: map<string, Cell>, t: string)
    requires SameExcept(c0, c1, t) && t in c1
    ensures t in c0 ==> c1[t := c0[t]] == c0
    ensures t !in c0 ==> c1 - {t} == c0
  {
  }

  /** Reading both maps at `v` gives the same answer. */
  ghost predicate SameAt(c: map<string, Cell>, d: map<string, Cell>, v: string) {
    (v in c <==> v in d) && (v in c ==> c[v].value == d[v].value)
  }

  // ---------------------------------------------------------------------------
  // Recomputation keeps the sheet consistent

  lemma LookupAgrees(c: map<string, Cell>, d: map<string, Cell>, f: Formula)
    requires forall v :: v in VariablesOf(f.tokens) ==> SameAt(c, d, v)
    ensures FormulaValue(f, LookupIn(c)) == FormulaValue(f, LookupIn(d))
  {
    var ts := f.tokens;
    forall k | 0 <= k < |ts| && ts[k].Var?
      ensures LookupIn(c)(Upper(ts[k].name)) == LookupIn(d)(Upper(ts[k].name))
    {
      assert Upper(ts[k].name) in VariablesOf(ts);
      UpperIdempotent(ts[k].name);
    }
    ProcessLocal(ts, Fresh, LookupIn(c), LookupIn(d));
  }

  lemma {:induction false} RecalculatedOutside(c: map<string, Cell>, order: seq<string>, m: string)
    requires m in c && m !in order
    ensures Recalculated(c, order)[m] == c[m]
    decreases |order|
  {
    if order != [] {
      RecalculatedOutside(c, order[..|order| - 1], m);
    }
  }

  /** No cell of `order` mentions a cell listed after it, nor itself. */
  ghost predicate ReadsEarlier(cells: map<string, Cell>, order: seq<string>) {
    forall i, j :: 0 <= i <= j < |order| ==> order[j] !in References(cells, order[i])
  }

  lemma ReferencesKept(c: map<string, Cell>, order: seq<string>)
    ensures forall b :: References(Recalculated(c, order), b) == References(c, b)
  {
  }

  /** Where a listed cell's direct dependent `b` sits in the order. */
  lemma LaterIndex(g: Adjacency, order: seq<string>, j: int, b: string) returns (k: int)
    requires Topological(g, order) && 0 <= j < |order| && b in Get(g, order[j])
    ensures j < k < |order| && order[k] == b
  {
    assert b in order[j + 1..];
    var q :| 0 <= q < |order| - j - 1 && order[j + 1..][q] == b;
    k := j + 1 + q;
  }

  /** An order listing each cell before its direct dependents lists no cell after one it mentions. */
  lemma TopologicalReadsEarlier(c: map<string, Cell>, g: Adjacency, order: seq<string>)
    requires forall a, b :: a in References(c, b) ==> b in Get(g, a)
    requires Distinct(order) && Topological(g, order)
    ensures ReadsEarlier(c, order)
  {
    forall i, j | 0 <= i <= j < |order| ensures order[j] !in References(c, order[i]) {
      if order[j] in References(c, order[i]) {
        var k := LaterIndex(g, order, j, order[i]);
        assert false;
      }
    }
  }

  /** A cell outside the order mentions neither a listed cell nor the changed cell `t`. */
  lemma ReadsOutside(c: map<string, Cell>, g: Adjacency, order: seq<string>, t: string, n: string)
    requires forall a, b :: a in References(c, b) ==> b in Get(g, a)
    requires Topological(g, order) && (forall b :: b in Get(g, t) ==> b in order)
    requires n !in order
    ensures forall v :: v in References(c, n) ==> v !in order && v != t
  {
    forall v | v in References(c, n) ensures v !in order && v != t {
      assert n in Get(g, v);
      if k :| 0 <= k < |order| && order[k] == v {
        var j := LaterIndex(g, order, k, n);
        assert false;
      }
    }
  }

  /**
   * Recomputing `m` settles it, and keeps settled the cells of `front`
   * that do not mention it, as long as `m` does not mention itself.
   */
  lemma RecomputeSettles(c: map<string, Cell>, m: string, front: seq<string>)
    requires m !in References(c, m)
    requires forall n :: n in front ==> Settled(c, n) && m !in References(c, n)
    ensures forall n :: n in front + [m] ==> Settled(Recompute(c, m), n)
  {
    var d := Recompute(c, m);
    if m in c && c[m].content.FormulaContent? {
      forall n | n in front + [m] && n in d && d[n].content.FormulaContent?
        ensures Settled(d, n)
      {
        var f := d[n].content.formula;
        forall v | v in VariablesOf(f.tokens) ensures SameAt(c, d, v) {
          assert v in References(c, n);
        }
        LookupAgrees(c, d, f);
      }
    }
  }

  /** Recomputing, in order, cells that mention only cells listed before them settles them all. */
  lemma {:induction false} RecalculatedSettles(c: map<string, Cell>, order: seq<string>)
    requires ReadsEarlier(c, order)
    ensures forall n :: n in order ==> Settled(Recalculated(c, order), n)
    decreases |order|
  {
    if order != [] {
      var front, m := order[..|order| - 1], order[|order| - 1];
      assert ReadsEarlier(c, front) by {
        forall i, j | 0 <= i <= j < |front| ensures front[j] !in References(c, front[i]) {
          assert front[i] == order[i] && front[j] == order[j];
        }
      }
      RecalculatedSettles(c, front);
      var e := Recalculated(c, front);
      ReferencesKept(c, front);
      forall n | n in front ensures m !in References(e, n) {
        var i :| 0 <= i < |front| && front[i] == n;
        assert order[i] == n;
      }
      RecomputeSettles(e, m, front);
      assert order == front + [m];
    }
  }

  /** A cell outside the order keeps its cell and stays settled: nothing it mentions changed. */
  lemma UntouchedSettled(c0: map<string, Cell>, c1: map<string, Cell>, g: Adjacency, t: string, order: seq<string>, n: string)
    requires Consistent(c0)
    requires SameExcept(c0, c1, t)
    requires forall a, b :: a in References(c1, b) ==> b in Get(g, a)
    requires Topological(g, order) && (forall b :: b in Get(g, t) ==> b in order)
    requires n in c1 && n !in order && n != t
    ensures Settled(Recalculated(c1, order), n)
  {
    var c2 := Recalculated(c1, order);
    ReadsOutside(c1, g, order, t, n);
    RecalculatedOutside(c1, order, n);
    if c1[n].content.FormulaContent? {
      var f := c1[n].content.formula;
      assert Settled(c0, n);
      forall v | v in VariablesOf(f.tokens) ensures SameAt(c0, c2, v) {
        assert v in References(c1, n);
        if v in c1 {
          RecalculatedOutside(c1, order, v);
        }
      }
      LookupAgrees(c0, c2, f);
    }
  }

  /**
   * What recomputation needs after cell `t` is written: only `t` differs,
   * every mention is an edge, and `order` lists without repeats, each
   * before its direct dependents, the present cells among `t` and its
   * direct dependents.
   */
  ghost predicate ReadyToRecompute(c0: map<string, Cell>, c1: map<string, Cell>, g: Adjacency, t: string, order: seq<string>) {
    SameExcept(c0, c1, t)
    && (forall a, b :: a in References(c1, b) ==> b in Get(g, a))
    && Distinct(order) && (forall i :: 0 <= i < |order| ==> order[i] in c1) && Topological(g, order)
    && (forall b :: b in Get(g, t) ==> b in order)
    && (t in c1 ==> t in order)
  }

  /**
   * Recomputing, in an order that lists every cell before its dependents,
   * the changed cell's dependents (and the changed cell, when it holds a
   * formula) leaves the whole sheet consistent.
   */
  lemma RecalculatedConsistent(c0: map<string, Cell>, c1: map<string, Cell>, g: Adjacency, t: string, order: seq<string>)
    requires Consistent(c0) && ReadyToRecompute(c0, c1, g, t, order)
    ensures Consistent(Recalculated(c1, order))
  {
    var c2 := Recalculated(c1, order);
    TopologicalReadsEarlier(c1, g, order);
    RecalculatedSettles(c1, order);
    forall n ensures Settled(c2, n) {
      if n in c1 && n !in order {
        UntouchedSettled(c0, c1, g, t, order, n);
      }
    }
  }

  /** Recomputing a consistent sheet changes nothing: every value is already the one recomputed. */
  lemma {:induction false} RecalculatedConsistentUnchanged(c: map<string, Cell>, order: seq<string>)
    requires Consistent(c)
    ensures Recalculated(c, order) == c
    decreases |order|
  {
    if order != [] {
      RecalculatedConsistentUnchanged(c, order[..|order| - 1]);
      var n := order[|order| - 1];
      assert Settled(c, n);
    }
  }

  // ---------------------------------------------------------------------------
  // Writing a cell rewires the edges into it

  /** `h` is `g` with the edges into `t` replaced by one edge from each of `sources`. */
  ghost predicate Rewired(g: Adjacency, h: Adjacency, t: string, sources: set<string>) {
    forall a, b :: b in Get(h, a) <==> if b == t then a in sources else b in Get(g, a)
  }

  /** Replacing the dependees of `t`, read edge by edge. */
  lemma RewiredPairs(g: Adjacency, h: Adjacency, t: string, ds: set<string>, sources: set<string>)
    requires PairsOf(h) == (PairsOf(g) - FanIn(ds, t)) + FanIn(sources, t)
    requires forall s :: s in ds <==> (s, t) in PairsOf(g)
    ensures Rewired(g, h, t, sources)
  {
    forall a, b ensures b in Get(h, a) <==> if b == t then a in sources else b in Get(g, a) {
      InPairsOf(h, a, b);
      InPairsOf(g, a, b);
      assert (a, b) in FanIn(sources, t) <==> a in sources && b == t;
      assert (a, b) in FanIn(ds, t) <==> a in ds && b == t;
    }
  }

  /** Adjacency maps with the same edges have the same pairs. */
  lemma SameEdgesSamePairs(g: Adjacency, h: Adjacency)
    requires forall a, b :: b in Get(g, a) <==> b in Get(h, a)
    ensures PairsOf(g) == PairsOf(h)
  {
    forall p | p in PairsOf(g) ensures p in PairsOf(h) {
      InPairsOf(g, p.0, p.1);
      InPairsOf(h, p.0, p.1);
    }
    forall p | p in PairsOf(h) ensures p in PairsOf(g) {
      InPairsOf(g, p.0, p.1);
      InPairsOf(h, p.0, p.1);
    }
  }

  /** Rewiring that adds no edge from a cell reached from `t` keeps the graph acyclic. */
  lemma RewiredAcyclic(g: Adjacency, h: Adjacency, t: string, sources: set<string>)
    requires Rewired(g, h, t, sources) && Acyclic(g)
    requires forall v :: v in sources ==> !Reaches(g, t, v)
    ensures Acyclic(h)
  {
    assert SameExceptInto(g, h, t);
    if CycleAvoiding(h, t) {
      AvoidingCycleKept(g, h, t);
      assert false;
    }
    CycleThroughRewired(g, h, t, sources);
    AcyclicFromParts(h, t);
  }

  /** The order found before the rewiring still lists every cell before its dependents after it. */
  lemma RewiredOrder(g: Adjacency, h: Adjacency, t: string, sources: set<string>, order: seq<string>)
    requires Rewired(g, h, t, sources) && Acyclic(g) && Recalculation(g, t, order)
    requires forall v :: v in sources ==> !Reaches(g, t, v)
    ensures Topological(h, order) && forall b :: b in Get(h, t) ==> b in order[1..]
  {
    AcyclicAvoidsNothing(g, t);
    forall i | 0 <= i < |order| ensures order[i] !in sources {
      assert order[i] in order;
    }
    ReachesSelf(g, t);
  }

  /** A direct or indirect dependent of `t` other than `t` is a cell that mentions something. */
  lemma OrderInCells(g: Adjacency, cells: map<string, Cell>, t: string, order: seq<string>)
    requires EdgesMatch(g, cells) && Recalculation(g, t, order)
    ensures forall i :: 0 < i < |order| ==> order[i] in cells && order[i] != t
  {
    forall i | 0 < i < |order| ensures order[i] in cells && order[i] != t {
      assert order[0] == t;
      ReachedHasEdge(g, t, order[i]);
      var x :| order[i] in Get(g, x);
      assert x in References(cells, order[i]);
    }
  }

  /**
   * The shape of a sheet: the graph is acyclic, its edges are exactly the
   * mentions in the formula cells, and every cell is well formed.
   */
  ghost predicate SheetShape(g: Adjacency, cells: map<string, Cell>) {
    Acyclic(g) && EdgesMatch(g, cells) && forall n :: n in cells ==> GoodCell(n, cells[n])
  }

  /** After writing cell `t`, whose mentions are `sources`, and rewiring the graph to match, the sheet keeps its shape. */
  lemma WrittenShape(c0: map<string, Cell>, c1: map<string, Cell>, g: Adjacency, h: Adjacency, t: string, sources: set<string>)
    requires SheetShape(g, c0)
    requires Rewired(g, h, t, sources) && forall v :: v in sources ==> !Reaches(g, t, v)
    requires SameExcept(c0, c1, t)
    requires References(c1, t) == sources && (t in c1 ==> GoodCell(t, c1[t]))
    ensures SheetShape(h, c1)
  {
    RewiredAcyclic(g, h, t, sources);
    RewiredEdgesMatch(c0, c1, g, h, t, sources);
    WrittenGood(c0, c1, t);
  }

  /** The rewired graph's edges are the mentions once `t` mentions `sources`. */
  lemma RewiredEdgesMatch(c0: map<string, Cell>, c1: map<string, Cell>, g: Adjacency, h: Adjacency, t: string, sources: set<string>)
    requires EdgesMatch(g, c0) && Rewired(g, h, t, sources)
    requires SameExcept(c0, c1, t)
    requires References(c1, t) == sources
    ensures EdgesMatch(h, c1)
  {
    forall a, b ensures b in Get(h, a) <==> a in References(c1, b) {
      if b != t {
        assert References(c1, b) == References(c0, b);
      }
    }
  }

  /** Writing a well-formed cell `t` keeps every cell well formed. */
  lemma WrittenGood(c0: map<string, Cell>, c1: map<string, Cell>, t: string)
    requires forall n :: n in c0 ==> GoodCell(n, c0[n])
    requires SameExcept(c0, c1, t)
    requires t in c1 ==> GoodCell(t, c1[t])
    ensures forall n :: n in c1 ==> GoodCell(n, c1[n])
  {
    forall m | m in c1 ensures GoodCell(m, c1[m]) {
      if m != t {
        assert GoodCell(m, c0[m]);
      }
    }
  }

  /**
   * After such a write the sheet is ready for recomputation in the order
   * found before the rewiring (without `t` when the cell was emptied).
   */
  lemma WrittenReady(c0: map<string, Cell>, c1: map<string, Cell>, g: Adjacency, h: Adjacency, t: string,
                     sources: set<string>, order: seq<string>)
    requires EdgesMatch(g, c0) && Acyclic(g) && Recalculation(g, t, order)
    requires Rewired(g, h, t, sources) && forall v :: v in sources ==> !Reaches(g, t, v)
    requires SameExcept(c0, c1, t)
    requires References(c1, t) == sources
    ensures t in c1 ==> ReadyToRecompute(c0, c1, h, t, order)
    ensures t !in c1 ==> ReadyToRecompute(c0, c1, h, t, order[1..])
  {
    forall a, b | a in References(c1, b) ensures b in Get(h, a) {
      if b != t {
        assert References(c1, b) == References(c0, b);
      }
    }
    RewiredOrder(g, h, t, sources, order);
    OrderInCells(g, c0, t, order);
    if t !in c1 {
      var rest := order[1..];
      forall i | 0 <= i < |rest| ensures forall b :: b in Get(h, rest[i]) ==> b in rest[i + 1..] {
        assert rest[i] == order[i + 1] && rest[i + 1..] == order[i + 2..];
      }
      assert Distinct(rest) by {
        forall i, j | 0 <= i < j < |rest| ensures rest[i] != rest[j] {
          assert rest[i] == order[i + 1] && rest[j] == order[j + 1];
        }
      }
    }
  }

  /** A number written to a normalised cell name makes a well-formed cell. */
  lemma NumberCellGood(n: string, d: Decimal)
    requires IsCellName(n) && Upper(n) == n
    ensures GoodCell(n, NumberCell(d))
  {
    NormalizeKeepsValue(d);
    NormalizeNormal(Normalize(d));
  }


  /** Writing a number to cell `t` and dropping the edges into it. */
  lemma NumberWritten(c0: map<string, Cell>, g: Adjacency, h: Adjacency, t: string, d: Decimal, order: seq<string>)
    requires SheetShape(g, c0) && IsCellName(t) && Upper(t) == t
    requires Recalculation(g, t, order) && Rewired(g, h, t, {})
    ensures SheetShape(h, c0[t := NumberCell(d)]) && ReadyToRecompute(c0, c0[t := NumberCell(d)], h, t, order)
  {
    WriteChangesOne(c0, t, NumberCell(d));
    NumberCellGood(t, d);
    WrittenShape(c0, c0[t := NumberCell(d)], g, h, t, {});
    WrittenReady(c0, c0[t := NumberCell(d)], g, h, t, {}, order);
  }

  /** Writing text to cell `t` (removing it for empty text) and dropping the edges into it. */
  lemma TextWritten(c0: map<string, Cell>, g: Adjacency, h: Adjacency, t: string, text: string, order: seq<string>)
    requires SheetShape(g, c0) && IsCellName(t) && Upper(t) == t && Classify(text) == TextInput(text)
    requires Recalculation(g, t, order) && Rewired(g, h, t, {})
    ensures text == "" ==> SheetShape(h, c0 - {t}) && ReadyToRecompute(c0, c0 - {t}, h, t, RemoveFirst(order, t))
                           && [t] + RemoveFirst(order, t) == order
    ensures text != "" ==> SheetShape(h, c0[t := TextCell(text)]) && ReadyToRecompute(c0, c0[t := TextCell(text)], h, t, order)
  {
    if text == "" {
      WriteThenErase(c0, t, TextCell(text));
      WrittenShape(c0, c0 - {t}, g, h, t, {});
      WrittenReady(c0, c0 - {t}, g, h, t, {}, order);
      assert order == [order[0]] + order[1..];
    } else {
      WriteChangesOne(c0, t, TextCell(text));
      WrittenShape(c0, c0[t := TextCell(text)], g, h, t, {});
      WrittenReady(c0, c0[t := TextCell(text)], g, h, t, {}, order);
    }
  }

  /** Writing a formula to cell `t` and rewiring the edges into it to the formula's variables. */
  lemma FormulaWritten(c0: map<string, Cell>, g: Adjacency, h: Adjacency, t: string, f: Formula, order: seq<string>)
    requires SheetShape(g, c0) && IsCellName(t) && Upper(t) == t && f.Valid()
    requires Recalculation(g, t, order) && Rewired(g, h, t, VariablesOf(f.tokens))
    requires forall v :: v in VariablesOf(f.tokens) ==> !Reaches(g, t, v)
    ensures SheetShape(h, c0[t := FormulaCell(f)]) && ReadyToRecompute(c0, c0[t := FormulaCell(f)], h, t, order)
  {
    var c1 := c0[t := FormulaCell(f)];
    WriteChangesOne(c0, t, FormulaCell(f));
    assert References(c1, t) == VariablesOf(f.tokens);
    WrittenShape(c0, c1, g, h, t, VariablesOf(f.tokens));
    WrittenReady(c0, c1, g, h, t, VariablesOf(f.tokens), order);
  }

  /** Rewiring the edges into `t` and then back to its former dependees restores the graph. */
  lemma RewiredBack(c0: map<string, Cell>, g: Adjacency, h: Adjacency, k: Adjacency, t: string,
                    sources: set<string>, ds: set<string>)
    requires SheetShape(g, c0) && Rewired(g, h, t, sources) && Rewired(h, k, t, ds)
    requires forall s :: s in ds <==> (s, t) in PairsOf(g)
    ensures SheetShape(k, c0) && PairsOf(k) == PairsOf(g)
  {
    forall a, b ensures b in Get(k, a) <==> b in Get(g, a) {
      InPairsOf(g, a, b);
    }
    SameEdgesSamePairs(g, k);
    FewerEdgesAcyclic(g, k);
  }


  /** The formula objects held by the cells. */
  ghost function FormulasOf(cells: map<string, Cell>): set<Formula> {
    set n | n in cells && cells[n].content.FormulaContent? :: cells[n].content.formula
  }

  /** Writing or removing one cell adds at most the formula written. */
  lemma FormulasOfWrite(c0: map<string, Cell>, t: string, c: Cell)
    ensures FormulasOf(c0[t := c]) <= FormulasOf(c0) + (if c.content.FormulaContent? then {c.content.formula} else {})
    ensures FormulasOf(c0 - {t}) <= FormulasOf(c0)
  {
    var written, erased := c0[t := c], c0 - {t};
    var extra := if c.content.FormulaContent? then {c.content.formula} else {};
    forall o | o in FormulasOf(written) ensures o in FormulasOf(c0) + extra {
      var m :| m in written && written[m].content.FormulaContent? && written[m].content.formula == o;
      if m != t {
        assert m in c0 && c0[m].content.formula == o;
      }
    }
    forall o | o in FormulasOf(erased) ensures o in FormulasOf(c0) {
      var m :| m in erased && erased[m].content.FormulaContent? && erased[m].content.formula == o;
      assert m in c0 && c0[m].content.formula == o;
    }
  }

  /** Every listed name is a cell, so the whole order is recomputed. */
  lemma PresentAll(cells: map<string, Cell>, order: seq<string>)
    requires forall i :: 0 <= i < |order| ==> order[i] in cells
    ensures Present(cells, order) == |order| && order[..Present(cells, order)] == order
  {
  }

  /** Recomputation keeps the shape of the sheet and its formula objects. */
  lemma RecalculatedShape(g: Adjacency, cells: map<string, Cell>, order: seq<string>)
    requires SheetShape(g, cells)
    ensures SheetShape(g, Recalculated(cells, order)) && FormulasOf(Recalculated(cells, order)) == FormulasOf(cells)
  {
    var r := Recalculated(cells, order);
    ReferencesKept(cells, order);
    RecalculatedKeepsOthers(cells, order);
    forall n | n in r ensures GoodCell(n, r[n]) {
      assert GoodCell(n, cells[n]);
    }
    forall o | o in FormulasOf(r) ensures o in FormulasOf(cells) {
      var m :| m in r && r[m].content.FormulaContent? && r[m].content.formula == o;
      assert cells[m].content == r[m].content;
    }
    forall o | o in FormulasOf(cells) ensures o in FormulasOf(r) {
      var m :| m in cells && cells[m].content.FormulaContent? && cells[m].content.formula == o;
      assert cells[m].content == r[m].content;
    }
  }

  /** Well-formed formula cells hold valid formulas. */
  lemma ShapeFormulasValid(g: Adjacency, cells: map<string, Cell>)
    requires SheetShape(g, cells)
    ensures FormulasValid(cells)
  {
    forall n | n in cells && cells[n].content.FormulaContent? ensures cells[n].content.formula.Valid() {
      assert GoodCell(n, cells[n]);
    }
  }

  // ---------------------------------------------------------------------------
  // The sheet

  /** What a saved sheet holds: the text each cell is saved as, by name. */
  function SavedForm(cells: map<string, Cell>): (file: map<string, string>)
    ensures file.Keys == cells.Keys
  {
    map n | n in cells :: cells[n].stringForm
  }

  /** Trailing white space is all `TrimEnd` removes: a text that starts with something else still does. */
  lemma {:induction false} TrimEndKeepsFirst(s: string)
    requires s != [] && !IsWhitespace(s[0])
    ensures TrimEnd(s) != [] && TrimEnd(s)[0] == s[0]
    decreases |s|
  {
    if IsWhitespace(s[|s| - 1]) {
      TrimEndKeepsFirst(s[..|s| - 1]);
    }
  }

  /** A text that starts with "=" is never read as a number. */
  lemma FormulaTextNotNumber(x: string)
    ensures ParseDouble("=" + x).None?
  {
    var s := "=" + x;
    assert TrimStart(s) == s;
    TrimEndKeepsFirst(s);
  }

  /** `StartsWith('=')`. */
  predicate StartsWithEquals(s: string) {
    |s| > 0 && s[0] == '='
  }

  lemma EqualsTextNotNumber(s: string)
    requires StartsWithEquals(s)
    ensures ParseDouble(s).None?
  {
    assert s == "=" + s[1..];
    FormulaTextNotNumber(s[1..]);
  }

  /** A text that `SetContentsOfCell` accepts whatever the sheet holds: a cell name, and a well-formed formula if it is one. */
  ghost predicate Loadable(name: string, content: string) {
    IsCellName(Upper(name))
    && (Classify(content).FormulaInput? ==> WellFormed(GetTokens(Classify(content).formulaText)))
  }

  /**
   * A cell's saved text reads back as the same contents: a number as the same
   * number, text as the same text, and a formula as one with the same
   * canonical text and the same evaluation.
   */
  lemma SavedCellReadsBack(n: string, c: Cell, lookup: Lookup)
    requires GoodCell(n, c)
    ensures Loadable(n, c.stringForm)
    ensures match c.content
      case NumberContent(_) =>
        Classify(c.stringForm).NumberInput? && NumberCell(Classify(c.stringForm).number) == c
      case TextContent(s) => Classify(c.stringForm) == TextInput(s) && TextCell(s) == c
      case FormulaContent(f) =>
        Classify(c.stringForm) == FormulaInput(Canonical(f.tokens))
        && var us := GetTokens(Canonical(f.tokens));
           WellFormed(us) && Canonical(us) == Canonical(f.tokens)
           && Process(us, Fresh, lookup) == Process(f.tokens, Fresh, lookup)
  {
    match c.content
    case NumberContent(d) =>
      RenderParsesBack(d);
      var e := ParseDouble(Render(d)).value;
      NormalizeNormal(d);
      NormalizeKeepsValue(e);
      NormalizeKeepsValue(d);
    case TextContent(s) =>
    case FormulaContent(f) =>
      var text := Canonical(f.tokens);
      FormulaTextNotNumber(text);
      assert ("=" + text)[1..] == text;
      CanonicalReparses(f.tokens, Fresh, lookup);
  }

  /** Every entry of a well-shaped sheet's saved form is one `SetContentsOfCell` accepts. */
  lemma SavedFormLoadable(cells: map<string, Cell>)
    requires forall n :: n in cells ==> GoodCell(n, cells[n])
    ensures forall n :: n in SavedForm(cells) ==> Loadable(n, SavedForm(cells)[n])
  {
    forall n | n in SavedForm(cells) ensures Loadable(n, SavedForm(cells)[n]) {
      SavedCellReadsBack(n, cells[n], LookupIn(cells));
    }
  }

  /**
   * A formula cell's new value: its formula evaluated on fresh stacks, as a
   * number or an error.  This is the corrected recomputation; the source's is
   * `EvaluateCellAsWritten`.
   */
  method EvaluateCell(f: Formula, cells: map<string, Cell>) returns (v: CellValue)
    requires f.Valid()
    modifies f
    ensures v == SheetValue(f, cells)
  {
    var lookup := LookupIn(cells);
    var o := f.EvaluateFresh(lookup);
    FormulaValueOfValid(f, lookup);
    v := if o.Computed? then NumberValue(o.value) else ErrorValue(o.reason);
  }

  // ---------------------------------------------------------------------------
  // The recomputation as written

  /**
   * `f.Evaluate(LookupValue)` as `RecalculateCellValues` calls it, on the
   * stacks the formula object kept from its earlier evaluations.  A number
   * or a formula error becomes the cell's value; `None` is the exception
   * that a pop on an empty stack raises, which leaves `SetContentsOfCell`.
   */
  method EvaluateCellAsWritten(f: Formula, cells: map<string, Cell>) returns (v: Option<CellValue>)
    modifies f
    ensures f.Stacks() == Process(f.tokens, old(f.Stacks()), LookupIn(cells)).m
    ensures v == match Process(f.tokens, old(f.Stacks()), LookupIn(cells)).outcome
                 case Computed(x) => Some(NumberValue(x))
                 case FormulaError(reason) => Some(ErrorValue(reason))
                 case EmptyStack => None
  {
    var o := f.Evaluate(LookupIn(cells));
    v := match o
         case Computed(x) => Some(NumberValue(x))
         case FormulaError(reason) => Some(ErrorValue(reason))
         case EmptyStack => None;
  }

  /**
   * Two sheets recomputed as written, the formula cell keeping its formula
   * object, and so its stacks, from one recomputation to the next; beside
   * each, the value the same formula has on empty stacks.
   */
  method StaleRecalculation() returns (staleSum: Option<CellValue>, sum: CellValue,
                                       staleQuotient: Option<CellValue>, quotient: CellValue)
    ensures staleSum == Some(NumberValue(4.0)) && sum == NumberValue(3.0)
    ensures staleQuotient == None && quotient == NumberValue(0.5)
  {
    staleSum, sum := StaleSum();
    staleQuotient, quotient := StaleQuotient();
  }

  /**
   * With A1 = 1, setting C1 to `A1+B1` evaluates it while B1 is empty: an
   * error that leaves 1 and `+` on the stacks.  Setting B1 to 2 then
   * recomputes C1 as 4, where its value on empty stacks is 3.
   */
  method StaleSum() returns (stale: Option<CellValue>, intended: CellValue)
    ensures stale == Some(NumberValue(4.0)) && intended == NumberValue(3.0)
  {
    var ts := [Var("A1"), Op('+'), Var("B1")];
    ScenarioNumbers();
    ScenarioTokensValid(ts);
    var f := new Formula(ts, Canonical(ts));
    var s1 := map["A1" := NumberCell(Decimal(1, 0)), "C1" := FormulaCell(f)];
    var first := EvaluateCellAsWritten(f, s1);
    var c1 := s1["C1"].(value := if first.Some? then first.value else s1["C1"].value);
    var s2 := s1["C1" := c1]["B1" := NumberCell(Decimal(2, 0))];
    SumSheets(ts, FormulaCell(f), c1, s1, s2);
    stale := EvaluateCellAsWritten(f, s2);
    intended := EvaluateCell(f, s2);
  }

  /**
   * With A1 = 1 and B1 = 0, setting C1 to `(A1/B1)` evaluates it to the
   * divide-by-zero error, leaving 1, `(` and `/`.  Setting B1 to 2 then makes
   * the recomputation pop an empty stack, where its value is 0.5.
   */
  method StaleQuotient() returns (stale: Option<CellValue>, intended: CellValue)
    ensures stale == None && intended == NumberValue(0.5)
  {
    var ts := [LParen, Var("A1"), Op('/'), Var("B1"), RParen];
    ScenarioNumbers();
    ScenarioTokensValid(ts);
    var f := new Formula(ts, Canonical(ts));
    var s1 := map["A1" := NumberCell(Decimal(1, 0)), "B1" := NumberCell(Decimal(0, 0)), "C1" := FormulaCell(f)];
    var first := EvaluateCellAsWritten(f, s1);
    var c1 := s1["C1"].(value := if first.Some? then first.value else s1["C1"].value);
    var s2 := s1["C1" := c1]["B1" := NumberCell(Decimal(2, 0))];
    QuotientSheets(ts, FormulaCell(f), c1, s1, s2);
    stale := EvaluateCellAsWritten(f, s2);
    intended := EvaluateCell(f, s2);
  }

  lemma ScenarioNumbers()
    ensures NumberCell(Decimal(0, 0)).value == NumberValue(0.0)
    ensures NumberCell(Decimal(1, 0)).value == NumberValue(1.0)
    ensures NumberCell(Decimal(2, 0)).value == NumberValue(2.0)
  {
  }

  lemma ScenarioTokensValid(ts: seq<Token>)
    requires ts == [Var("A1"), Op('+'), Var("B1")] || ts == [LParen, Var("A1"), Op('/'), Var("B1"), RParen]
    ensures AllShaped(ts) && WellFormed(ts)
  {
    ScenarioNames();
    if |ts| == 3 {
      SumBalanced(ts);
    } else {
      QuotientBalanced(ts);
    }
  }

  /** The parenthesis counts of one more token. */
  lemma CountsNext(ts: seq<Token>, i: nat)
    requires i < |ts|
    ensures Opens(ts[..i + 1]) == Opens(ts[..i]) + (if ts[i].LParen? then 1 else 0)
    ensures Closes(ts[..i + 1]) == Closes(ts[..i]) + (if ts[i].RParen? then 1 else 0)
  {
    assert ts[..i + 1][..i] == ts[..i];
  }

  lemma SumBalanced(ts: seq<Token>)
    requires ts == [Var("A1"), Op('+'), Var("B1")]
    ensures NeverOverClosed(ts) && Opens(ts) == Closes(ts) == 0
  {
    assert ts[..0] == [] && ts[..3] == ts;
    CountsNext(ts, 0);
    CountsNext(ts, 1);
    CountsNext(ts, 2);
  }

  lemma QuotientBalanced(ts: seq<Token>)
    requires ts == [LParen, Var("A1"), Op('/'), Var("B1"), RParen]
    ensures NeverOverClosed(ts) && Opens(ts) == Closes(ts) == 1
  {
    assert ts[..0] == [] && ts[..5] == ts;
    CountsNext(ts, 0);
    CountsNext(ts, 1);
    CountsNext(ts, 2);
    CountsNext(ts, 3);
    CountsNext(ts, 4);
  }

  lemma ScenarioNames()
    ensures IsVar("A1") && IsVar("B1")
  {
    assert LetterPrefix("A1") == 1 by {
      assert "A1"[1..] == "1";
    }
    assert LetterPrefix("B1") == 1 by {
      assert "B1"[1..] == "1";
    }
    assert "A1"[1..] == "1" && "B1"[1..] == "1";
  }

  /** What the formula of a scenario reads from a sheet: the numbers in A1 and B1. */
  lemma ScenarioLookup(ts: seq<Token>, cells: map<string, Cell>, other: Lookup)
    requires ts == [Var("A1"), Op('+'), Var("B1")] || ts == [LParen, Var("A1"), Op('/'), Var("B1"), RParen]
    requires other("A1") == (if "A1" in cells && cells["A1"].value.NumberValue? then Some(cells["A1"].value.number) else None)
    requires other("B1") == (if "B1" in cells && cells["B1"].value.NumberValue? then Some(cells["B1"].value.number) else None)
    ensures AgreeOn(ts, LookupIn(cells), other)
  {
    UpperOfNames();
  }

  /** The two sheets of `StaleSum`, whatever cell C1 holds. */
  lemma SumSheets(ts: seq<Token>, c: Cell, c': Cell, s1: map<string, Cell>, s2: map<string, Cell>)
    requires ts == [Var("A1"), Op('+'), Var("B1")]
    requires s1 == map["A1" := NumberCell(Decimal(1, 0)), "C1" := c]
    requires s2 == s1["C1" := c']["B1" := NumberCell(Decimal(2, 0))]
    ensures Process(ts, Fresh, LookupIn(s1)) == Halted(FormulaError(NoValue), Machine([1.0], ['+']))
    ensures Process(ts, Machine([1.0], ['+']), LookupIn(s2)).outcome == Computed(4.0)
    ensures Process(ts, Fresh, LookupIn(s2)).outcome == Computed(3.0)
  {
    ScenarioNumbers();
    SumOnSheets(ts, s1, s2);
  }

  /** The two sheets of `StaleQuotient`, whatever cell C1 holds. */
  lemma QuotientSheets(ts: seq<Token>, c: Cell, c': Cell, s1: map<string, Cell>, s2: map<string, Cell>)
    requires ts == [LParen, Var("A1"), Op('/'), Var("B1"), RParen]
    requires s1 == map["A1" := NumberCell(Decimal(1, 0)), "B1" := NumberCell(Decimal(0, 0)), "C1" := c]
    requires s2 == s1["C1" := c']["B1" := NumberCell(Decimal(2, 0))]
    ensures Process(ts, Fresh, LookupIn(s1)) == Halted(FormulaError(DivideByZero), Machine([1.0], ['(', '/']))
    ensures Process(ts, Machine([1.0], ['(', '/']), LookupIn(s2)).outcome == EmptyStack
    ensures Process(ts, Fresh, LookupIn(s2)).outcome == Computed(0.5)
  {
    ScenarioNumbers();
    QuotientOnSheets(ts, s1, s2);
  }

  lemma SumOnSheets(ts: seq<Token>, s1: map<string, Cell>, s2: map<string, Cell>)
    requires ts == [Var("A1"), Op('+'), Var("B1")]
    requires "A1" in s1 && s1["A1"].value == NumberValue(1.0) && "B1" !in s1
    requires "A1" in s2 && s2["A1"].value == NumberValue(1.0) && "B1" in s2 && s2["B1"].value == NumberValue(2.0)
    ensures Process(ts, Fresh, LookupIn(s1)) == Halted(FormulaError(NoValue), Machine([1.0], ['+']))
    ensures Process(ts, Machine([1.0], ['+']), LookupIn(s2)).outcome == Computed(4.0)
    ensures Process(ts, Fresh, LookupIn(s2)).outcome == Computed(3.0)
  {
    ScenarioLookup(ts, s1, OnlyA1);
    ScenarioLookup(ts, s2, A1AndB1(2.0));
    ProcessLocal(ts, Fresh, LookupIn(s1), OnlyA1);
    ProcessLocal(ts, Machine([1.0], ['+']), LookupIn(s2), A1AndB1(2.0));
    ProcessLocal(ts, Fresh, LookupIn(s2), A1AndB1(2.0));
    SumFirstRun(ts);
    SumSecondRun(ts);
    SumReference(ts);
    ScenarioTokensValid(ts);
    FormulaReference.FreshProcessIsReference(ts, A1AndB1(2.0));
  }

  lemma QuotientOnSheets(ts: seq<Token>, t1: map<string, Cell>, t2: map<string, Cell>)
    requires ts == [LParen, Var("A1"), Op('/'), Var("B1"), RParen]
    requires "A1" in t1 && t1["A1"].value == NumberValue(1.0) && "B1" in t1 && t1["B1"].value == NumberValue(0.0)
    requires "A1" in t2 && t2["A1"].value == NumberValue(1.0) && "B1" in t2 && t2["B1"].value == NumberValue(2.0)
    ensures Process(ts, Fresh, LookupIn(t1)) == Halted(FormulaError(DivideByZero), Machine([1.0], ['(', '/']))
    ensures Process(ts, Machine([1.0], ['(', '/']), LookupIn(t2)).outcome == EmptyStack
    ensures Process(ts, Fresh, LookupIn(t2)).outcome == Computed(0.5)
  {
    ScenarioLookup(ts, t1, A1AndB1(0.0));
    ScenarioLookup(ts, t2, A1AndB1(2.0));
    ProcessLocal(ts, Fresh, LookupIn(t1), A1AndB1(0.0));
    ProcessLocal(ts, Machine([1.0], ['(', '/']), LookupIn(t2), A1AndB1(2.0));
    ProcessLocal(ts, Fresh, LookupIn(t2), A1AndB1(2.0));
    DivisionFirstRun(ts);
    DivisionSecondRun(ts);
    DivisionReference(ts);
    ScenarioTokensValid(ts);
    FormulaReference.FreshProcessIsReference(ts, A1AndB1(2.0));
  }

  /** One iteration of `RecalculateCellValues`, on the cell `order[i]`. */
  method RecomputeNext(ghost c0: map<string, Cell>, order: seq<string>, i: nat, cs: map<string, Cell>)
    returns (next: map<string, Cell>)
    requires FormulasValid(c0) && i < |order| && order[i] in cs
    requires cs == Recalculated(c0, order[..i])
    modifies FormulasOf(c0)
    ensures next == Recalculated(c0, order[..i + 1])
  {
    var n := order[i];
    RecalculatedNext(c0, order, i);
    match cs[n].content {
      case FormulaContent(f) =>
        assert f == c0[n].content.formula;
        var v := EvaluateCell(f, cs);
        next := cs[n := cs[n].(value := v)];
      case _ =>
        next := cs;
    }
  }

  class Spreadsheet {
    /** The non-empty cells, by normalised name. */
    var cells: map<string, Cell>
    /** The dependency graph between the cells. */
    const graph: DependencyGraph
    /** Whether the sheet changed since it was created or last saved. */
    var changed: bool

    /**
     * The graph is well formed and acyclic, its edges are exactly the
     * mentions in the formula cells, and every cell is well formed.
     */
    ghost predicate Structured()
      reads this, graph
    {
      graph.Valid() && SheetShape(graph.dependents, cells)
    }

    /** In addition, every formula cell shows the value of its formula. */
    ghost predicate Valid()
      reads this, graph
    {
      Structured() && Consistent(cells)
    }

    /** The formula objects held by the cells. */
    ghost function FormulaObjects(): set<Formula>
      reads this
    {
      FormulasOf(cells)
    }

    /** An empty sheet, unchanged. */
    constructor ()
      ensures Valid() && fresh(graph) && cells == map[] && !changed && graph.Pairs() == {}
    {
      cells := map[];
      graph := new DependencyGraph();
      changed := false;
      new;
      EmptyAcyclic();
    }

    /** The names of the non-empty cells. */
    function GetNamesOfAllNonemptyCells(): (names: set<string>)
      requires Valid()
      reads this, graph
      ensures forall n :: n in names <==>
        IsCellName(n) && Upper(n) == n && GetCellContents(n) != Success(TextContent(""))
    {
      cells.Keys
    }

    /** The contents of a cell, "" for an empty one; the name is checked and normalised first. */
    function GetCellContents(name: string): (r: Result<Content, SheetError>)
      reads this
      ensures r.Failure? <==> !IsCellName(Upper(name))
      ensures r.Failure? ==> r.error == InvalidName
      ensures r.Success? && Upper(name) in cells ==> r.value == cells[Upper(name)].content
      ensures r.Success? && Upper(name) !in cells ==> r.value == TextContent("")
    {
      var n := Upper(name);
      if !IsCellName(n) then Failure(InvalidName)
      else if n in cells then Success(cells[n].content)
      else Success(TextContent(""))
    }

    /** The value of a cell, "" for an empty one; the name is checked and normalised first. */
    function GetCellValue(name: string): (r: Result<CellValue, SheetError>)
      reads this
      ensures r.Failure? <==> !IsCellName(Upper(name))
      ensures r.Failure? ==> r.error == InvalidName
      ensures r.Success? && Upper(name) in cells ==> r.value == cells[Upper(name)].value
      ensures r.Success? && Upper(name) !in cells ==> r.value == TextValue("")
    {
      var n := Upper(name);
      if !IsCellName(n) then Failure(InvalidName)
      else if n in cells then Success(cells[n].value)
      else Success(TextValue(""))
    }

    /** Names are read without regard to case. */
    lemma CaseInsensitive(name: string)
      ensures GetCellContents(name) == GetCellContents(Upper(name))
      ensures GetCellValue(name) == GetCellValue(Upper(name))
    {
      UpperIdempotent(name);
    }

    /**
     * What a cell shows follows from what it holds: text shows itself, a
     * number its value, a formula its value over the sheet.
     */
    lemma ValueOfContents(name: string)
      requires Valid()
      ensures GetCellContents(name).Failure? <==> GetCellValue(name).Failure?
      ensures match GetCellContents(name)
              case Failure(e) => GetCellValue(name) == Failure(e)
              case Success(TextContent(s)) => GetCellValue(name) == Success(TextValue(s))
              case Success(NumberContent(d)) => GetCellValue(name) == Success(NumberValue(Value(d)))
              case Success(FormulaContent(f)) => GetCellValue(name) == Success(FormulaValue(f, LookupIn(cells)))
    {
      var n := Upper(name);
      if IsCellName(n) && n in cells {
        assert GoodCell(n, cells[n]) && Settled(cells, n);
      }
    }

    /** `LookupValue`: a formula reads a cell's number, and nothing else. */
    lemma LookupIsCellValue(name: string)
      requires IsCellName(Upper(name))
      ensures LookupIn(cells)(name) == match GetCellValue(name)
                                     case Success(NumberValue(x)) => Some(x)
                                     case _ => None
    {
    }

    /** The indexer: the value of a cell, looked up by the name exactly as given. */
    function Item(name: string): (r: Result<CellValue, SheetError>)
      requires Valid()
      reads this, graph
      ensures r.Success? <==> name in cells
      ensures r.Success? ==> r == GetCellValue(name)
    {
      if name !in cells then Failure(InvalidName)
      else
        assert GoodCell(name, cells[name]);
        GetCellValue(name)
    }

    /**
     * Visits `name`, then, in some order, each of its direct dependents not
     * yet visited, failing when a dependent is the start; `name` is added to
     * the front of the list once all of them are done.
     */
    method Visit(start: string, name: string, visited: set<string>, done: seq<string>, ghost stack: seq<string>)
      returns (ok: bool, visitedOut: set<string>, doneOut: seq<string>)
      requires Explored(graph.dependents, start, stack, visited, done)
      requires name !in visited && IsPath(graph.dependents, stack + [name]) && (stack + [name])[0] == start
      requires visited <= Nodes(graph.dependents) + {start} && name in Nodes(graph.dependents) + {start}
      ensures visitedOut <= Nodes(graph.dependents) + {start}
      ensures ok ==> Explored(graph.dependents, start, stack, visitedOut, doneOut)
      ensures ok ==> visited + {name} <= visitedOut && doneOut != [] && doneOut[0] == name
      ensures !ok ==> OnCycle(graph.dependents, start)
      decreases |Nodes(graph.dependents) + {start} - visited|
    {
      ghost var g := graph.dependents;
      ghost var gray := stack + [name];
      ghost var universe := Nodes(g) + {start};
      ExploredEnter(g, start, stack, visited, done, name);
      visitedOut, doneOut := visited + {name}, done;
      var todo := graph.GetDependents(name);
      SuccessorsAreNodes(g, name);
      while todo != {}
        invariant todo <= Get(g, name)
        invariant Explored(g, start, gray, visitedOut, doneOut)
        invariant visited + {name} <= visitedOut <= universe
        invariant forall n :: n in Get(g, name) && n !in todo ==>
          n in visitedOut && n != start && (!CycleAvoiding(g, start) ==> n !in gray)
        decreases |todo|
      {
        var n :| n in todo;
        todo := todo - {n};
        if n == start {
          ReachesPath(g, gray);
          CycleThrough(g, start, name);
          return false, visitedOut, doneOut;
        }
        if n !in visitedOut {
          PathSnoc(g, gray, n);
          SmallerRest(universe, visited, visitedOut, name);
          ok, visitedOut, doneOut := Visit(start, n, visitedOut, doneOut, gray);
          if !ok {
            return;
          }
        } else if !CycleAvoiding(g, start) && n in gray {
          ghost var k :| 0 <= k < |gray| && gray[k] == n;
          BackEdgeCycle(g, gray, k, n);
          assert false;
        }
      }
      ExploredLeave(g, start, stack, name, visitedOut, doneOut);
      doneOut := [name] + doneOut;
      ok := true;
    }

    /**
     * The cells to recompute after `name` changes, or failure when `name`
     * is its own transitive dependent.
     */
    method GetCellsToRecalculate(name: string) returns (ok: bool, order: seq<string>)
      ensures ok <==> !OnCycle(graph.dependents, name)
      ensures ok ==> Recalculation(graph.dependents, name, order)
    {
      ghost var g := graph.dependents;
      assert Explored(g, name, [], {}, []);
      assert IsPath(g, [name]);
      var visited;
      ok, visited, order := Visit(name, name, {}, [], []);
      if ok {
        RecalculationOfExplored(g, name, visited, order);
      }
    }

    /**
     * `RecalculateCellValues`: gives each formula cell of `order`, in turn,
     * the value its formula has over the sheet as it stands; stops at the
     * first name that is not a cell, as the dictionary lookup would throw.
     */
    method RecalculateCellValues(order: seq<string>) returns (ok: bool)
      requires FormulasValid(cells)
      modifies this, FormulaObjects()
      ensures ok <==> Present(old(cells), order) == |order|
      ensures cells == Recalculated(old(cells), order[..Present(old(cells), order)])
      ensures changed == old(changed)
    {
      ghost var c0 := cells;
      ghost var k := Present(c0, order);
      ghost var objects := FormulaObjects();
      var cs := cells;
      var i := 0;
      ok := true;
      while ok && i < |order|
        invariant 0 <= i <= k
        invariant cs == Recalculated(c0, order[..i])
        invariant !ok ==> i == k < |order|
        modifies objects
      {
        var n := order[i];
        if n !in cs {
          ok := false;
          continue;
        }
        cs := RecomputeNext(c0, order, i, cs);
        i := i + 1;
      }
      cells := cs;
      assert order[..|order|] == order;
    }

    /**
     * `ReplaceDependees(name, sources)` on the graph, read edge by edge:
     * the edges into `t` become one from each of `sources`.
     */
    method RewireInto(t: string, sources: set<string>)
      requires graph.Valid()
      modifies graph
      ensures graph.Valid() && Rewired(old(graph.dependents), graph.dependents, t, sources)
    {
      ghost var g := graph.dependents;
      ghost var ds := graph.GetDependees(t);
      graph.ReplaceDependees(t, sources);
      RewiredPairs(g, graph.dependents, t, ds, sources);
    }

    /**
     * The search repeated after the edges into `n` were rewired to come
     * from `sources`: it fails exactly when `n` now lies on a cycle, that
     * is, when `n` reached one of `sources` before.
     */
    method CheckNoCycle(n: string, ghost g: Adjacency, ghost sources: set<string>) returns (ok: bool)
      requires Rewired(g, graph.dependents, n, sources)
      ensures ok <==> forall v :: v in sources ==> !Reaches(g, n, v)
    {
      var order;
      ok, order := GetCellsToRecalculate(n);
      CycleThroughRewired(g, graph.dependents, n, sources);
    }

    /**
     * The rollback after a cycle: the cell is put back as it was (removed
     * when it was the empty placeholder) and so are the edges into it.
     */
    method RestoreCell(n: string, initialCell: Cell, oldDependees: set<string>,
                       ghost c0: map<string, Cell>, ghost g: Adjacency, ghost sources: set<string>)
      requires graph.Valid() && SheetShape(g, c0) && Rewired(g, graph.dependents, n, sources)
      requires SameExcept(c0, cells, n) && n in cells
      requires initialCell == if n in c0 then c0[n] else TextCell("")
      requires forall s :: s in oldDependees <==> (s, n) in PairsOf(g)
      modifies this, graph
      ensures Structured() && cells == c0 && graph.Pairs() == PairsOf(g) && changed == old(changed)
    {
      ghost var h := graph.dependents;
      if n in c0 {
        assert GoodCell(n, c0[n]);
      }
      PutBack(c0, cells, n);
      if initialCell.content == TextContent("") {
        cells := cells - {n};
      } else {
        cells := cells[n := initialCell];
      }
      RewireInto(n, oldDependees);
      RewiredBack(c0, g, h, graph.dependents, n, sources, oldDependees);
    }

    /**
     * `SetCellContents(name, number)`: stores the number, finds the cells
     * to recompute, then drops the edges into the cell.
     */
    method SetNumberContents(n: string, d: Decimal) returns (order: seq<string>)
      requires Structured() && IsCellName(n) && Upper(n) == n
      modifies this, graph
      ensures Structured() && changed == old(changed)
      ensures cells == old(cells)[n := NumberCell(d)]
      ensures Recalculation(old(graph.dependents), n, order)
      ensures ReadyToRecompute(old(cells), cells, graph.dependents, n, order)
    {
      ghost var c0, g := cells, graph.dependents;
      cells := cells[n := NumberCell(d)];
      var ok;
      ok, order := GetCellsToRecalculate(n);
      if !ok {
        assert false;
      }
      RewireInto(n, {});
      NumberWritten(c0, g, graph.dependents, n, d, order);
    }

    /**
     * `SetCellContents(name, text)`: stores the text, finds the cells to
     * recompute, and, for empty text, removes the cell and drops it from the
     * list; then drops the edges into the cell.
     */
    method SetTextContents(n: string, text: string) returns (order: seq<string>)
      requires Structured() && IsCellName(n) && Upper(n) == n && Classify(text) == TextInput(text)
      modifies this, graph
      ensures Structured() && changed == old(changed)
      ensures cells == if text == "" then old(cells) - {n} else old(cells)[n := TextCell(text)]
      ensures Recalculation(old(graph.dependents), n, if text == "" then [n] + order else order)
      ensures ReadyToRecompute(old(cells), cells, graph.dependents, n, order)
    {
      ghost var c0, g := cells, graph.dependents;
      cells := cells[n := TextCell(text)];
      var ok;
      ok, order := GetCellsToRecalculate(n);
      if !ok {
        assert false;
      }
      ghost var found := order;
      if text == "" {
        WriteThenErase(c0, n, TextCell(text));
        cells := cells - {n};
        order := RemoveFirst(order, n);
      }
      RewireInto(n, {});
      TextWritten(c0, g, graph.dependents, n, text, found);
    }

    /**
     * `SetCellContents(name, formula)`: stores the formula, finds the cells
     * to recompute, rewires the edges into the cell to the formula's
     * variables, and searches again; when that search meets a cycle, the
     * cell and its edges are put back as they were.
     */
    method SetFormulaContents(n: string, f: Formula) returns (ok: bool, order: seq<string>)
      requires Structured() && IsCellName(n) && Upper(n) == n && f.Valid()
      modifies this, graph
      ensures changed == old(changed)
      ensures ok <==> forall v :: v in VariablesOf(f.tokens) ==> !Reaches(old(graph.dependents), n, v)
      ensures ok ==> Structured() && cells == old(cells)[n := FormulaCell(f)]
      ensures ok ==> Recalculation(old(graph.dependents), n, order)
      ensures ok ==> ReadyToRecompute(old(cells), cells, graph.dependents, n, order)
      ensures !ok ==> Structured() && cells == old(cells) && graph.Pairs() == old(graph.Pairs())
    {
      ghost var c0, g := cells, graph.dependents;
      var initialCell := if n in cells then cells[n] else TextCell("");
      cells := cells[n := FormulaCell(f)];
      var oldDependees := graph.GetDependees(n);
      var found;
      found, order := GetCellsToRecalculate(n);
      if !found {
        assert false;
      }
      var variables := f.GetVariables();
      RewireInto(n, variables);
      ghost var h := graph.dependents;
      ok := CheckNoCycle(n, g, variables);
      if !ok {
        WriteChangesOne(c0, n, FormulaCell(f));
        RestoreCell(n, initialCell, oldDependees, c0, g, variables);
        return;
      }
      FormulaWritten(c0, g, h, n, f, order);
    }

    /**
     * The recomputation at the end of `SetContentsOfCell`, after one of the
     * `SetCellContents` overloads wrote cell `t` and returned `order`.
     */
    method RecalculateAfterWrite(ghost c0: map<string, Cell>, ghost t: string, order: seq<string>)
      requires Structured() && Consistent(c0) && ReadyToRecompute(c0, cells, graph.dependents, t, order)
      modifies this, FormulaObjects()
      ensures Valid() && cells == Recalculated(old(cells), order) && changed == old(changed)
      ensures FormulaObjects() == old(FormulaObjects())
    {
      ghost var c1 := cells;
      ShapeFormulasValid(graph.dependents, cells);
      var ok := RecalculateCellValues(order);
      PresentAll(c1, order);
      RecalculatedConsistent(c0, c1, graph.dependents, t, order);
      RecalculatedShape(graph.dependents, c1, order);
    }

    /** `SetContentsOfCell` for a number: the cell is written, the sheet marked changed, and the list recomputed. */
    method WriteNumber(n: string, d: Decimal) returns (order: seq<string>)
      requires Valid() && IsCellName(n) && Upper(n) == n
      modifies this, graph, FormulaObjects()
      ensures Valid() && changed
      ensures Recalculation(old(graph.dependents), n, order)
      ensures cells == Recalculated(old(cells)[n := NumberCell(d)], order)
      ensures FormulaObjects() <= old(FormulaObjects())
    {
      ghost var c0 := cells;
      order := SetNumberContents(n, d);
      FormulasOfWrite(c0, n, NumberCell(d));
      changed := true;
      RecalculateAfterWrite(c0, n, order);
    }

    /** `SetContentsOfCell` for text: as for a number, except that empty text removes the cell. */
    method WriteText(n: string, text: string) returns (order: seq<string>)
      requires Valid() && IsCellName(n) && Upper(n) == n && Classify(text) == TextInput(text)
      modifies this, graph, FormulaObjects()
      ensures Valid() && changed
      ensures Recalculation(old(graph.dependents), n, if text == "" then [n] + order else order)
      ensures cells == Recalculated(if text == "" then old(cells) - {n} else old(cells)[n := TextCell(text)], order)
      ensures FormulaObjects() <= old(FormulaObjects())
    {
      ghost var c0 := cells;
      order := SetTextContents(n, text);
      FormulasOfWrite(c0, n, TextCell(text));
      assert FormulaObjects() <= FormulasOf(c0);
      changed := true;
      ghost var c1 := cells;
      RecalculateAfterWrite(c0, n, order);
      assert cells == Recalculated(c1, order);
    }

    /** A parsed formula written to a cell unless it would close a cycle, then as for a number. */
    method WriteParsed(n: string, f: Formula) returns (ok: bool, order: seq<string>)
      requires Valid() && IsCellName(n) && Upper(n) == n && f.Valid()
      modifies this, graph, FormulaObjects(), f
      ensures Valid()
      ensures ok <==> forall v :: v in VariablesOf(f.tokens) ==> !Reaches(old(graph.dependents), n, v)
      ensures ok ==> changed && Recalculation(old(graph.dependents), n, order)
                     && cells == Recalculated(old(cells)[n := FormulaCell(f)], order)
      ensures ok ==> FormulaObjects() <= old(FormulaObjects()) + {f}
      ensures !ok ==> cells == old(cells) && changed == old(changed) && graph.Pairs() == old(graph.Pairs())
    {
      ghost var c0 := cells;
      ok, order := SetFormulaContents(n, f);
      if !ok {
        return;
      }
      FormulasOfWrite(c0, n, FormulaCell(f));
      changed := true;
      RecalculateAfterWrite(c0, n, order);
    }

    /**
     * `SetContentsOfCell` for a formula: the text after "=" is parsed into a
     * formula, which is written unless it would close a cycle.
     */
    method WriteFormula(n: string, text: string) returns (r: Result<seq<string>, SheetError>)
      requires Valid() && IsCellName(n) && Upper(n) == n
      modifies this, graph, FormulaObjects()
      ensures Valid()
      ensures var ts := GetTokens(text);
        if !WellFormed(ts) then
          r == Failure(FormulaFormat(if |ts| == 1 then InvalidSingleMessage else InvalidMessage))
        else if exists v :: v in VariablesOf(ts) && Reaches(old(graph.dependents), n, v) then
          r == Failure(Circular)
        else
          r.Success? && Recalculation(old(graph.dependents), n, r.value)
          && n in cells && cells[n].content.FormulaContent?
          && fresh(cells[n].content.formula) && cells[n].content.formula.tokens == ts
          && cells == Recalculated(old(cells)[n := FormulaCell(cells[n].content.formula)], r.value)
      ensures r.Success? ==> changed
      ensures r.Failure? ==> cells == old(cells) && changed == old(changed) && graph.Pairs() == old(graph.Pairs())
      ensures forall f :: f in FormulaObjects() ==> f in old(FormulaObjects()) || fresh(f)
    {
      var parsed := NewFormula(text);
      if parsed.Failure? {
        return Failure(FormulaFormat(parsed.error));
      }
      var f := parsed.value;
      ghost var c0 := cells;
      var ok, order := WriteParsed(n, f);
      if !ok {
        return Failure(Circular);
      }
      assert c0[n := FormulaCell(f)][n] == FormulaCell(f);
      return Success(order);
    }

    /**
     * `SetContentsOfCell`: a number, a formula after "=", or text is written
     * to the named cell, and the cells returned (the cell and its direct and
     * indirect dependents, each before its dependents) are recomputed in
     * that order.  An invalid name, an invalid formula and a formula that
     * would close a cycle are errors that leave the sheet as it was.
     */
    method SetContentsOfCell(name: string, content: string) returns (r: Result<seq<string>, SheetError>)
      requires Valid()
      modifies this, graph, FormulaObjects()
      ensures Valid()
      ensures !IsCellName(Upper(name)) ==> r == Failure(InvalidName)
      ensures var n := Upper(name);
        IsCellName(n) && Classify(content).NumberInput? ==>
          r.Success? && Recalculation(old(graph.dependents), n, r.value)
          && cells == Recalculated(old(cells)[n := NumberCell(Classify(content).number)], r.value)
      ensures var n := Upper(name);
        IsCellName(n) && Classify(content).TextInput? ==>
          r.Success? && Recalculation(old(graph.dependents), n, if content == "" then [n] + r.value else r.value)
          && cells == Recalculated(if content == "" then old(cells) - {n} else old(cells)[n := TextCell(content)], r.value)
      ensures var n := Upper(name);
        IsCellName(n) && Classify(content).FormulaInput? ==>
          var ts := GetTokens(Classify(content).formulaText);
          if !WellFormed(ts) then
            r == Failure(FormulaFormat(if |ts| == 1 then InvalidSingleMessage else InvalidMessage))
          else if exists v :: v in VariablesOf(ts) && Reaches(old(graph.dependents), n, v) then
            r == Failure(Circular)
          else
            r.Success? && Recalculation(old(graph.dependents), n, r.value)
            && n in cells && cells[n].content.FormulaContent?
            && fresh(cells[n].content.formula) && cells[n].content.formula.tokens == ts
            && cells == Recalculated(old(cells)[n := FormulaCell(cells[n].content.formula)], r.value)
      ensures r.Success? ==> changed
      ensures r.Failure? ==> cells == old(cells) && changed == old(changed) && graph.Pairs() == old(graph.Pairs())
      ensures forall f :: f in FormulaObjects() ==> f in old(FormulaObjects()) || fresh(f)
    {
      var n := Upper(name);
      if !IsCellName(n) {
        return Failure(InvalidName);
      }
      UpperIdempotent(name);
      match Classify(content) {
        case NumberInput(d) =>
          var order := WriteNumber(n, d);
          r := Success(order);
        case FormulaInput(text) =>
          r := WriteFormula(n, text);
        case TextInput(text) =>
          var order := WriteText(n, text);
          r := Success(order);
      }
    }

    /**
     * `Save`: the sheet is marked unchanged and then written; `writeSucceeds`
     * stands for whether the file could be opened, written and closed.  What
     * is written is each cell's saved text by name.
     */
    method Save(writeSucceeds: bool) returns (r: Result<map<string, string>, SheetError>)
      requires Valid()
      modifies this
      ensures Valid() && cells == old(cells) && !changed
      ensures writeSucceeds ==> r == Success(SavedForm(cells))
      ensures !writeSucceeds ==> r == Failure(ReadWrite(SaveError))
    {
      var text := SavedForm(cells);
      changed := false;
      if !writeSucceeds {
        return Failure(ReadWrite(SaveError));
      }
      return Success(text);
    }
  }

  /** One saved entry written into a sheet being loaded; `false` when `SetContentsOfCell` refuses it. */
  method LoadEntry(sheet: Spreadsheet, name: string, content: string) returns (ok: bool)
    requires sheet.Valid()
    modifies sheet, sheet.graph, sheet.FormulaObjects()
    ensures sheet.Valid()
    ensures ok ==> sheet.changed && Loadable(name, content)
    ensures !ok ==> !Loadable(name, content) || Classify(content).FormulaInput?
    ensures forall f :: f in sheet.FormulaObjects() ==> f in old(sheet.FormulaObjects()) || fresh(f)
  {
    var written := sheet.SetContentsOfCell(name, content);
    ok := written.Success?;
  }

  /**
   * The loading constructor: a new sheet into which every saved cell's text
   * is written with `SetContentsOfCell`, in no particular order.  `file` is
   * the saved map, or `None` when the file cannot be read or parsed; any
   * failure, reading or writing, is reported as a load error.
   */
  method Load(file: Option<map<string, string>>) returns (r: Result<Spreadsheet, SheetError>)
    ensures r.Failure? ==> r.error == ReadWrite(LoadError)
    ensures r.Success? ==> file.Some? && fresh(r.value) && fresh(r.value.graph) && r.value.Valid()
    ensures r.Success? ==> r.value.changed == (file.value != map[])
    ensures r.Success? ==> forall k :: k in file.value ==> Loadable(k, file.value[k])
    ensures file == Some(map[]) ==> r.Success? && r.value.cells == map[]
  {
    if file.None? {
      return Failure(ReadWrite(LoadError));
    }
    var contents := file.value;
    var sheet := new Spreadsheet();
    var keys := contents.Keys;
    while keys != {}
      invariant keys <= contents.Keys
      invariant fresh(sheet) && fresh(sheet.graph) && sheet.Valid()
      invariant forall f :: f in sheet.FormulaObjects() ==> fresh(f)
      invariant sheet.changed == (keys != contents.Keys)
      invariant forall k :: k in contents && k !in keys ==> Loadable(k, contents[k])
      invariant contents == map[] ==> sheet.cells == map[]
      decreases keys
    {
      var k :| k in keys;
      var ok := LoadEntry(sheet, k, contents[k]);
      if !ok {
        return Failure(ReadWrite(LoadError));
      }
      keys := keys - {k};
    }
    assert contents != map[] <==> contents.Keys != {};
    return Success(sheet);
  }
}
