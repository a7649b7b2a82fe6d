# A verified model of a spreadsheet's recalculation engine

This project models the core of a small spreadsheet engine written in C#.
It has three parts: a dependency graph between cell names, a formula type
with a one-pass validator and a two-stack infix evaluator, and the
spreadsheet itself, whose single mutation entry point `SetContentsOfCell`
writes a cell, rewires the graph, rejects cycles with a depth-first search
and recomputes the affected formula cells in dependency order.

The model follows the source in the source's own form:

- `DependencyGraph` (`graph.dfy`) is a class whose two fields are the two
  dictionaries of sets, indexed by dependee and by dependent. Its methods
  update them in place, with the same remove-then-add loops as
  `ReplaceDependents` and `ReplaceDependees`. The invariant `Valid()` says
  that the two indices mirror each other, and every method states its effect
  on the abstract set of pairs `Pairs()`.
- `Formula` (`formula.dfy`) is a class whose token list and canonical string
  are constants. Its value stack and operator stack are fields that persist
  between calls to `Evaluate`, as in the source, and `Evaluate` runs on them
  as they are. `EvaluateFresh` is the corrected evaluation, which empties
  the stacks first (see "## Findings"). Beside it:
  - tokens and the scanner are in `tokens.dfy`;
  - the syntax rules and the validating loop are in `syntax.dfy`;
  - the evaluator's step function, one token at a time, is in `machine.dfy`;
  - a recursive-descent reference semantics is in `reference.dfy`. The
    stack machine, started on empty stacks, is proved to compute exactly the
    reference's value.
- `Spreadsheet` (`spreadsheet.dfy`) is a class with the cell map, the graph
  and the changed flag as fields. It has:
  - the three private `SetCellContents` overloads, with the rollback on a
    cycle;
  - the recursive `Visit` search;
  - the `RecalculateCellValues` loop, which re-reads the current cells at
    every step;
  - `Save`, and `Load` for the loading constructor.

  The sheet uses the corrected halves of both findings below:
  - it recomputes a formula cell with `EvaluateFresh`, where the source calls
    `Evaluate` on the formula's persistent stacks;
  - it accepts a cell name by `IsCellName`, where the source's pattern also
    lets a final line feed through.

  `EvaluateCellAsWritten` and `StaleRecalculation` model the recomputation as
  written, on cell maps the sheet would hold.

  The class invariant `Valid()` says four things:
  - the graph is acyclic;
  - its edges are exactly the references in the formula cells;
  - every cell is well formed;
  - every formula cell shows its formula's value over the sheet as it
    stands.

  Every mutation is proved to keep the invariant. The last point holds
  because recomputation starts from empty stacks; with the source's
  `Evaluate` it does not ("## Left out" lists the members this affects).

Numbers are exact decimals `Decimal(mantissa, exponent)` whose value is a
`real` (`numbers.dfy`). The source's `double.ToString` is modelled as a
canonical positional rendering, and `double.TryParse` as optional white
space, an optional sign and one number literal. Names are upper-cased in
ASCII (`basics.dfy`). The file system is a parameter:
- `Save` takes whether the write succeeds;
- `Load` takes the saved map of names to saved texts, or `None` when the
  file cannot be read or parsed.

Where the source's documentation comments and its code disagree, the model
follows the code:
- In `ProcessFormula` the check for a pending `-` before a `)` peeks at the
  operator stack without testing that it is empty. The model reports that
  case as the empty-stack exception.
- A loaded sheet that had at least one saved cell reports itself as changed,
  although the comment on `Changed` says it is true only after a change
  since the sheet was created or saved. The loading constructor replays
  every cell through `SetContentsOfCell`, which sets the flag, and nothing
  clears it.

## Model

| member | source | states |
|---|---|---|
| DependencyGraphs.DependencyGraph.constructor | DependencyGraph/DependencyGraph.cs:46-51 | the new graph has empty indices, holds no pair, and its indices mirror each other |
| DependencyGraphs.DependencyGraph.Size | DependencyGraph/DependencyGraph.cs:56-67 | the getter's loop returns, and stores in `size`, exactly the number of distinct pairs, leaving both indices unchanged |
| DependencyGraphs.DependencyGraph.HasDependents | DependencyGraph/DependencyGraph.cs:74-78 | true exactly when some pair starts at the node, even when an emptied set remains as a key |
| DependencyGraphs.DependencyGraph.InPairsFor | DependencyGraph/DependencyGraph.cs:74-78 | a pair starts at `s` exactly when `s` is a key of the dependents index with a non-empty set |
| DependencyGraphs.DependencyGraph.HasDependees | DependencyGraph/DependencyGraph.cs:85-89 | true exactly when some pair ends at the node |
| DependencyGraphs.DependencyGraph.InPairsTo | DependencyGraph/DependencyGraph.cs:85-89 | a pair ends at `t` exactly when `t` is a key of the dependees index with a non-empty set |
| DependencyGraphs.DependencyGraph.GetDependents | DependencyGraph/DependencyGraph.cs:98-109 | the result is exactly the second components of the pairs starting at the node, and empty for a node never mentioned |
| DependencyGraphs.DependencyGraph.GetDependees | DependencyGraph/DependencyGraph.cs:118-127 | the result is exactly the first components of the pairs ending at the node, and empty for a node never mentioned |
| DependencyGraphs.DependencyGraph.AddDependency | DependencyGraph/DependencyGraph.cs:138-156 | the pair set gains exactly the pair (an existing pair changes nothing, so the size is unchanged), and both indices still mirror each other |
| DependencyGraphs.DependencyGraph.RemoveDependency | DependencyGraph/DependencyGraph.cs:165-178 | the pair set loses exactly that pair; an absent pair is a no-op; emptied sets stay as keys |
| DependencyGraphs.DependencyGraph.ReplaceDependents | DependencyGraph/DependencyGraph.cs:186-203 | the pairs starting at the node become exactly the node with each new dependent; every other pair is unchanged |
| DependencyGraphs.DependencyGraph.RemoveDependents | DependencyGraph/DependencyGraph.cs:189-196 | the removal loop drops exactly the pairs starting at the node |
| DependencyGraphs.DependencyGraph.AddDependents | DependencyGraph/DependencyGraph.cs:198-201 | the adding loop adds exactly the node with each new dependent |
| DependencyGraphs.DependencyGraph.ReplaceDependees | DependencyGraph/DependencyGraph.cs:213-230 | the pairs ending at the node become exactly each new dependee with the node; every other pair is unchanged |
| DependencyGraphs.DependencyGraph.RemoveDependees | DependencyGraph/DependencyGraph.cs:216-223 | the removal loop drops exactly the pairs ending at the node |
| DependencyGraphs.DependencyGraph.AddDependees | DependencyGraph/DependencyGraph.cs:225-228 | the adding loop adds exactly each new dependee with the node |
| DependencyGraphs.PairsOfAdd | DependencyGraph/DependencyGraph.cs:151-155 | adding a dependent to the set held for a dependee adds exactly that one pair |
| DependencyGraphs.PairsOfRemove | DependencyGraph/DependencyGraph.cs:173-176 | removing a dependent from the set held for a dependee removes exactly that one pair |
| DependencyGraphs.MirrorAdd | DependencyGraph/DependencyGraph.cs:138-156 | adding a pair to both indices keeps them mirrored |
| DependencyGraphs.MirrorRemove | DependencyGraph/DependencyGraph.cs:165-178 | removing a pair from both indices keeps them mirrored |
| Basics.IsVarMeansLettersThenDigits | Formula/Formula.cs:237-242 | the variable check holds exactly when the text is one or more letters followed by one or more digits and nothing else |
| Basics.UpperPreservesVar | Formula/Formula.cs:124-125 | upper-casing keeps a text a variable name exactly when it was one |
| Basics.UpperIdempotent | Formula/Formula.cs:206-208 | upper-casing an upper-cased name changes nothing |
| Basics.VarIsAlphanumeric | Spreadsheet/Spreadsheet.cs:405-416 | a variable or cell name holds only letters and digits, starting with a letter and ending with a digit |
| Basics.TrailingNewlineAccepted | Formula/Formula.cs:237-242 | the anchored pattern as written accepts "A1" followed by a line feed, which the letters-then-digits rule rejects |
| Tokens.GetTokensShaped | Formula/Formula.cs:265-295 | every token produced by the scanner has one of the token classes of the split pattern (a variable name, a non-negative number literal, an operator, a parenthesis, or a run of other text holding no character of .NET's `\s` class) |
| Tokens.GetTokens | Formula/Formula.cs:265-295 | no token is empty, so a formula's text yields at most as many tokens as it has characters; its other promises are stated by `GetTokensShaped`, `SpaceSeparates` and `RescanCanonical` |
| Tokens.SpaceSeparates | Formula/Formula.cs:273-292 | any character of `\s` (the ASCII tab to carriage return, U+0085 and every Unicode space separator, line separator and paragraph separator) ends the text gathered so far and is dropped, the rest being scanned as if it were absent |
| Tokens.NoBreakSpaceFormula | Formula/Formula.cs:265-295 | "1", a no-break space (U+00A0), "+2" scans as the three tokens 1, `+`, 2 |
| Tokens.CanonicalOfNormal | Formula/Formula.cs:123-132 | token sequences that agree after upper-casing variables and normalising numbers have the same canonical text |
| Tokens.RescanCanonical | Formula/Formula.cs:123-132 | the canonical text of a valid formula scans back into the same tokens, up to normalisation |
| FormulaSyntax.SingleTokenRule | Formula/Formula.cs:92-107 | a one-token formula is accepted exactly when its token is a variable or a number |
| FormulaSyntax.ValidateSingle | Formula/Formula.cs:92-107 | the one-token branch succeeds exactly when the token is a variable or a number, with that token's canonical text, and otherwise fails with the lower-case message |
| FormulaSyntax.ValidPrefixNext | Formula/Formula.cs:110-151 | one more iteration of the validating loop keeps the checked prefix valid: first-token rule, parenthesis counts, adjacency rule |
| FormulaSyntax.ValidPrefixComplete | Formula/Formula.cs:152-158 | once every token has passed the loop, the formula is accepted exactly when the parentheses balance and the last token is not an operator or `(` |
| FormulaSyntax.Validate | Formula/Formula.cs:80-158 | the validation succeeds exactly when the tokens satisfy all syntax rules (non-empty, first token, never more `)` than `(` so far, balanced at the end, every adjacent pair allowed, last token), returning the canonical text; otherwise it fails with the constructor's message |
| FormulaSyntax.WellFormedOfKinds | Formula/Formula.cs:176-191 | the syntax rules look only at token classes: sequences with the same classes are accepted together |
| Formulas.NewFormula | Formula/Formula.cs:74-160 | the constructor succeeds exactly when the scanned tokens are well formed, giving a fresh formula with those tokens, empty stacks and its canonical text; otherwise it fails with the format message |
| Formulas.VariablesAreNames | Formula/Formula.cs:199-214 | every variable a formula reports is a variable name |
| Formulas.Formula.GetVariables | Formula/Formula.cs:199-214 | the loop returns exactly the upper-cased names of the variable tokens, as a set |
| Formulas.Formula.ToString | Formula/Formula.cs:226-229 | the result is the canonical text of the tokens |
| Formulas.Formula.Equals | Formula/Formula.cs:342-352 | true exactly when the other object is a formula with the same canonical text |
| Formulas.Same | Formula/Formula.cs:306-309 | `==` holds exactly when the two formulas' `ToString` texts are equal |
| Formulas.Differ | Formula/Formula.cs:320-323 | `!=` holds exactly when `==` does not |
| Formulas.Formula.GetHashCode | Formula/Formula.cs:591-595 | the hash is the string hash of the canonical text |
| Formulas.EqualHashes | Formula/Formula.cs:591-595 | equal formulas have equal hash codes |
| Formulas.CanonicalReparses | Formula/Formula.cs:123-132 | the canonical text of a valid formula is again a valid formula, equal to it and evaluated alike |
| Formulas.Reparse | Formula/Formula.cs:226-229 | a formula rebuilt from its own `ToString` is valid and equal to the original |
| Formulas.Formula.PushValue | Formula/Formula.cs:414-430 | an operand on the field stacks: multiplied into the top value under `*`, divides it under `/` (a zero divisor is an error before any pop), pushed otherwise |
| Formulas.Formula.Additive | Formula/Formula.cs:468-487 | a `+` or `-` applies a pending `+` or `-` first, then is pushed |
| Formulas.Formula.ReduceTop | Formula/Formula.cs:505-527 | pops the operator and two values and pushes their combination; with fewer than two values the pop fails |
| Formulas.Formula.DivideTopValues | Formula/Formula.cs:528-540 | after a `)` under `/`: both values are popped, then a zero divisor is an error, otherwise their quotient is pushed |
| Formulas.Formula.Close | Formula/Formula.cs:502-541 | a `)` applies a pending `+` or `-`, pops the `(` and then applies a pending `*` or `/` |
| Formulas.Formula.StepToken | Formula/Formula.cs:406-542 | the effect of one token on the field stacks is the machine's step for that token under the lookup |
| Formulas.Formula.FinishStacks | Formula/Formula.cs:544-563 | after the last token: the last value when no operator is left, otherwise the one pending `+` or `-` applied |
| Formulas.Formula.ProcessFormula | Formula/Formula.cs:399-564 | the loop over the tokens on the stacks as they are, then the final reduction, stopping at the first error and leaving the stacks as they are at that point |
| Formulas.Formula.Evaluate | Formula/Formula.cs:388-393 | as written: `ProcessFormula` on whatever the stacks hold from earlier calls |
| Formulas.Formula.EvaluateFresh | Formula/Formula.cs:388-393 | evaluated on empty stacks, a valid formula gives the standard-precedence, left-associative value or the first formula error from the left, never a failed pop; a value leaves both stacks empty |
| FormulaReference.WellFormedEvaluates | Formula/Formula.cs:74-160 | every formula the constructor accepts is an expression of the grammar that uses up all its tokens |
| FormulaReference.FreshProcessIsReference | Formula/Formula.cs:406-563 | on empty stacks the two-stack loop computes exactly the reference value of every valid formula, never raises the empty-stack exception, and leaves both stacks empty after a value |
| FormulaMachine.ProcessNormal | Formula/Formula.cs:406-465 | tokens equal up to upper-casing and number normalisation are evaluated alike |
| Formulas.EvaluateLocal | Formula/Formula.cs:433-447 | a formula's value depends on the lookup only at its variables |
| Formulas.StaleStacksWrongValue | Formula/Formula.cs:439-446 | `A1+B1` evaluated while B1 is undefined leaves 1 and `+` on the stacks, so the next evaluation with B1 = 2 returns 4 where the formula's value is 3 |
| Formulas.StaleStacksEmptyPop | Formula/Formula.cs:555-561 | `(A1/B1)` evaluated with B1 = 0 leaves entries on the stacks, (the zero check of the variable branch returns after `(`, `/` and the 1 are pushed), so the next evaluation with B1 = 2 ends in the final subtraction, whose second pop finds the value stack empty, where the formula's value is 0.5 |
| Numbers.NormalFormUnique | Formula/Formula.cs:126-129 | two decimals in lowest terms with the same value are the same |
| Numbers.RenderCanonical | Formula/Formula.cs:126-129 | two numbers render to the same text exactly when they have the same value |
| Numbers.RenderParsesBack | Spreadsheet/Spreadsheet.cs:166-171 | a number's rendered text parses back to the same number |
| Spreadsheets.IsCellName | Spreadsheet/Spreadsheet.cs:405-416 | an accepted name is letters then digits, nothing else |
| Spreadsheets.NewlineNameAccepted | Spreadsheet/Spreadsheet.cs:405-416 | the name pattern as written accepts "A1" followed by a line feed, which is not a cell name |
| Spreadsheets.RemoveFirst | Spreadsheet/Spreadsheet.cs:312 | removing a name from the list drops exactly one occurrence of it, if any |
| Spreadsheets.TextCell | Spreadsheet/Spreadsheet.cs:153-158 | a text cell holds the text, shows it and is saved as it; `SavedCellReadsBack` reads it back |
| Spreadsheets.NumberCell | Spreadsheet/Spreadsheet.cs:166-171 | a number cell holds a number of the same value as the one given and shows the value it holds; `NumberCellGood` and `RenderParsesBack` state its normal form and saved text |
| Spreadsheets.FormulaCell | Spreadsheet/Spreadsheet.cs:179-185 | a formula cell holds the formula, shows "" until it is recomputed, and its saved text is read back by `SetContentsOfCell` as that formula's text |
| Spreadsheets.NumberCellGood | Spreadsheet/Spreadsheet.cs:166-171 | a number cell holds the number in lowest terms, shows its value and is saved as its rendered text |
| Spreadsheets.Spreadsheet.constructor | Spreadsheet/Spreadsheet.cs:192-197 | a new sheet is empty, unchanged, has an empty fresh graph and satisfies the invariant |
| Spreadsheets.Spreadsheet.GetNamesOfAllNonemptyCells | Spreadsheet/Spreadsheet.cs:206-210 | a name is listed exactly when it is a normalised cell name whose contents are not the empty string |
| Spreadsheets.Spreadsheet.GetCellContents | Spreadsheet/Spreadsheet.cs:225-237 | fails, with the invalid-name error, exactly when the upper-cased name is not a cell name; otherwise gives the contents of the upper-cased name's cell, or "" for a cell not in the sheet; `CaseInsensitive` and `ValueOfContents` relate it to `GetCellValue` |
| Spreadsheets.Spreadsheet.GetCellValue | Spreadsheet/Spreadsheet.cs:694-709 | fails, with the invalid-name error, exactly when the upper-cased name is not a cell name; otherwise gives the value of the upper-cased name's cell, or "" for a cell not in the sheet |
| Spreadsheets.Spreadsheet.CaseInsensitive | Spreadsheet/Spreadsheet.cs:225-237 | looking up a cell's contents or value by a name or by its upper-cased form gives the same answer |
| Spreadsheets.Spreadsheet.ValueOfContents | Spreadsheet/Spreadsheet.cs:694-709 | an invalid name fails for contents and value alike; text shows itself, a number its value (an empty cell shows ""), and a formula its value over the current sheet |
| Spreadsheets.LookupIn | Spreadsheet/Spreadsheet.cs:718-730 | the lookup gives a number only when the upper-cased name's cell shows exactly that number, and fails when there is no such cell or its value is not a number |
| Spreadsheets.Spreadsheet.LookupIsCellValue | Spreadsheet/Spreadsheet.cs:718-730 | the lookup a formula sees gives a cell's number when its value is a number, and fails for anything else |
| Spreadsheets.Spreadsheet.Item | Spreadsheet/Spreadsheet.cs:546-556 | the indexer succeeds exactly when the name as given, not upper-cased, is a stored cell, and then gives that cell's value |
| Spreadsheets.FormulaValueOfValid | Spreadsheet/Spreadsheet.cs:852-856 | the value a formula cell gets is the reference value of its formula: a number or a formula error, never the empty-stack case |
| Spreadsheets.Spreadsheet.Visit | Spreadsheet/Spreadsheet.cs:511-530 | the search visits every transitive dependent once, fails only when the start is its own transitive dependent, and puts each finished cell in front of all the cells that depend on it |
| Spreadsheets.Spreadsheet.GetCellsToRecalculate | Spreadsheet/Spreadsheet.cs:492-498 | succeeds exactly when the cell is not its own transitive dependent; the list starts with the cell, has no repeats, holds exactly the cell and its transitive dependents, and lists every cell before its dependents |
| Spreadsheets.RecalculationOfExplored | Spreadsheet/Spreadsheet.cs:492-498 | a finished search from the cell gives a list with those properties and shows the cell is on no cycle |
| Reachability.CycleThrough | Spreadsheet/Spreadsheet.cs:519-522 | meeting the start among a visited cell's dependents means the start is its own transitive dependent |
| Reachability.BackEdgeCycle | Spreadsheet/Spreadsheet.cs:523-526 | a dependent already on the search path that is not the start closes a cycle avoiding the start |
| Reachability.CycleThroughRewired | Spreadsheet/Spreadsheet.cs:371-377 | after the cell's dependees are replaced by a formula's variables, the search from the cell fails exactly when one of the variables was the cell itself or one of its transitive dependents |
| Spreadsheets.Recalculated | Spreadsheet/Spreadsheet.cs:844-858 | recomputing a list keeps the set of cells, every cell's contents and saved text |
| Spreadsheets.RecalculatedKeepsOthers | Spreadsheet/Spreadsheet.cs:852-856 | recomputing leaves text and number cells as they were |
| Spreadsheets.RecalculatedSettles | Spreadsheet/Spreadsheet.cs:847-857 | recomputing, in order, formula cells that read only cells listed before them leaves each showing its formula's value |
| Spreadsheets.RecalculatedConsistent | Spreadsheet/Spreadsheet.cs:825-833 | after writing a cell, recomputing the list from the search leaves every formula cell of the sheet showing its formula's value over the sheet |
| Spreadsheets.RecalculatedConsistentUnchanged | Spreadsheet/Spreadsheet.cs:844-858 | recomputing a sheet where every formula already shows its value changes nothing |
| Spreadsheets.EvaluateCell | Spreadsheet/Spreadsheet.cs:852-856 | the new value of a formula cell is its formula evaluated on empty stacks over the current cells, as a number or an error |
| Spreadsheets.Spreadsheet.RecalculateCellValues | Spreadsheet/Spreadsheet.cs:844-858 | the loop gives each formula cell of the list, in turn, the value its formula has over the cells as they stand at that step; it stops at the first name that is not a cell |
| Spreadsheets.RecomputeNext | Spreadsheet/Spreadsheet.cs:847-856 | one iteration of the loop: the next cell of the list, if it holds a formula, takes its formula's value over the cells as they stand, extending the recomputation by that one name |
| Spreadsheets.EvaluateCellAsWritten | Spreadsheet/Spreadsheet.cs:852-856 | as written: the recompute step evaluates the cell's formula on the stacks its object kept from earlier evaluations, leaves them where that run stops, and ends in the empty-stack exception where a pop fails |
| Spreadsheets.StaleRecalculation | Spreadsheet/Spreadsheet.cs:844-858 | recomputed as written on the sheet's cells, `A1+B1` shows 4 once B1 is set to 2 after an evaluation while B1 was empty (its value is 3), and `(A1/B1)` with B1 changed from 0 to 2 raises the empty-stack exception (its value is 0.5) |
| Spreadsheets.StaleSum | Spreadsheet/Spreadsheet.cs:852-856 | with A1 = 1, C1 = `A1+B1` evaluated while B1 is empty, then B1 = 2: recomputed as written C1 shows 4; on empty stacks it shows 3 |
| Spreadsheets.StaleQuotient | Spreadsheet/Spreadsheet.cs:852-856 | with A1 = 1, B1 = 0, C1 = `(A1/B1)`, then B1 = 2: recomputed as written C1 raises the empty-stack exception; on empty stacks it shows 0.5 |
| Spreadsheets.RewiredAcyclic | Spreadsheet/Spreadsheet.cs:371-377 | replacing a cell's dependees keeps the graph acyclic when none of the new dependees is the cell or one of its transitive dependents |
| Spreadsheets.RewiredOrder | Spreadsheet/Spreadsheet.cs:368-371 | the list found before the dependees are replaced still lists every cell before its dependents afterwards |
| Spreadsheets.WrittenShape | Spreadsheet/Spreadsheet.cs:341-395 | a cell written and rewired to match keeps the graph acyclic, its edges equal to the formulas' references, and every cell well formed |
| Spreadsheets.NumberWritten | Spreadsheet/Spreadsheet.cs:261-280 | writing a number and dropping the cell's dependees keeps the sheet's shape and prepares the found list for recomputation |
| Spreadsheets.TextWritten | Spreadsheet/Spreadsheet.cs:294-321 | writing text does the same; empty text removes the cell, and the list, which starts with the cell, loses it |
| Spreadsheets.FormulaWritten | Spreadsheet/Spreadsheet.cs:341-395 | writing a formula and rewiring the cell's dependees to its variables does the same when it closes no cycle |
| Spreadsheets.PutBack | Spreadsheet/Spreadsheet.cs:380-388 | putting back the initial cell, or removing a cell that was absent, restores the sheet exactly |
| Spreadsheets.RewiredBack | Spreadsheet/Spreadsheet.cs:389-390 | replacing the dependees again by the old dependees restores exactly the old set of pairs |
| Spreadsheets.Spreadsheet.RewireInto | Spreadsheet/Spreadsheet.cs:371 | the cell's dependees become exactly the given names; every other edge is unchanged |
| Spreadsheets.Spreadsheet.CheckNoCycle | Spreadsheet/Spreadsheet.cs:374-377 | the second search succeeds exactly when no new dependee was the cell or one of its transitive dependents |
| Spreadsheets.Spreadsheet.RestoreCell | Spreadsheet/Spreadsheet.cs:378-393 | the rollback restores exactly the cells and the pairs of the graph from before the write, and the sheet's shape |
| Spreadsheets.Spreadsheet.SetNumberContents | Spreadsheet/Spreadsheet.cs:261-280 | the cell holds the number, its dependees are dropped, the list is the cell and its dependents in order, and the sheet keeps its shape |
| Spreadsheets.Spreadsheet.SetTextContents | Spreadsheet/Spreadsheet.cs:294-321 | the cell holds the text, or is removed for empty text along with its name from the list; dependees are dropped |
| Spreadsheets.Spreadsheet.SetFormulaContents | Spreadsheet/Spreadsheet.cs:341-395 | succeeds exactly when no variable of the formula is the cell or one of its transitive dependents; then the cell holds the formula and its dependees are its variables; otherwise cells and graph are exactly as before |
| Spreadsheets.Spreadsheet.RecalculateAfterWrite | Spreadsheet/Spreadsheet.cs:831-832 | recomputing the list after a write restores the invariant, and changes only values |
| Spreadsheets.Spreadsheet.WriteNumber | Spreadsheet/Spreadsheet.cs:806-810 | a number is written, the sheet marked changed, and the list recomputed |
| Spreadsheets.Spreadsheet.WriteText | Spreadsheet/Spreadsheet.cs:819-823 | text is written (or the cell removed), the sheet marked changed, and the list recomputed |
| Spreadsheets.Spreadsheet.WriteParsed | Spreadsheet/Spreadsheet.cs:816-817 | a parsed formula is written and recomputed unless it closes a cycle, in which case nothing changes |
| Spreadsheets.Spreadsheet.WriteFormula | Spreadsheet/Spreadsheet.cs:811-818 | the text after "=" is parsed: a format error, a cycle, or the formula written and recomputed |
| Spreadsheets.Spreadsheet.SetContentsOfCell | Spreadsheet/Spreadsheet.cs:797-835 | an invalid name, an invalid formula and a cycle are errors that leave cells, graph and flag as they were; otherwise the number, text or formula is written (empty text removes the cell), the flag is set, the returned list is the cell and its transitive dependents in dependency order, and the cells are recomputed in that order; the invariant holds throughout |
| Spreadsheets.Spreadsheet.Save | Spreadsheet/Spreadsheet.cs:659-677 | the flag is cleared before the write, so even a failed write leaves it cleared; a successful write saves each cell's saved text by name |
| Spreadsheets.SavedForm | Spreadsheet/Spreadsheet.cs:669-671 | the saved map has exactly the sheet's cell names |
| Numbers.ParseDouble | Spreadsheet/Spreadsheet.cs:807 | leading white space is skipped, and a text of white space alone is not a number; `RenderParsesBack` is its round trip with the number rendering |
| Spreadsheets.Classify | Spreadsheet/Spreadsheet.cs:807-823 | a text is read as a number exactly when it parses as one, and then as that number; any text starting with "=" is a formula whose text follows the "="; anything else is kept as text |
| Spreadsheets.FormulaTextNotNumber | Spreadsheet/Spreadsheet.cs:807-812 | a text that starts with "=" is never read as a number |
| Spreadsheets.SavedCellReadsBack | Spreadsheet/Spreadsheet.cs:140-185 | a cell's saved text reads back as the same contents: a number as the same number cell, text as the same text cell, a formula as an equal valid formula with the same evaluation |
| Spreadsheets.SavedFormLoadable | Spreadsheet/Spreadsheet.cs:578-583 | every saved entry of a sheet has a cell name and, if a formula, a valid one |
| Spreadsheets.LoadEntry | Spreadsheet/Spreadsheet.cs:580-583 | replaying one entry keeps the invariant; it fails only for an invalid name, an invalid formula, or a formula whose cycle is refused |
| Spreadsheets.Load | Spreadsheet/Spreadsheet.cs:568-591 | any failure, of reading or of replaying an entry, is the load error; on success the new sheet satisfies the invariant, every saved entry had a valid name and formula, the flag is set exactly when some entry was replayed, and an empty file gives an empty sheet |

## Left out

- File and JSON input and output are parameters. `Save` takes whether the
  write succeeds. `Load` takes the saved map, or `None` for a file that
  cannot be read or parsed. A saved document of `null` loads like an empty
  map.
- .NET number parsing and printing are not modelled with their culture
  rules. Numbers are exact decimals. `double.ToString` is a canonical
  positional rendering, and `double.TryParse` accepts white space, one
  optional sign and one literal. Thousands separators, the names of NaN and
  infinity, and the rounding of binary doubles are left out.
- Floating point rounding, NaN, infinities and signed zero are left out:
  values are `real`, and a divisor is compared with zero.
- `GetTokens` is a hand-written scanner over the token classes of the split
  pattern, not a model of the regular-expression engine on arbitrary text.
  Its blank class is the whole `\s` class of .NET (`IsSpace`), Unicode
  separators included; its digits are ASCII, as the names line below says.
- Exception classes are error values (`SheetError`, `Outcome`): the format
  messages are kept, and the other exception messages are not.
- The three `SetCellContents` overloads take names that the caller has
  already upper-cased and checked. That is how `SetContentsOfCell` calls
  them, so their own name check is not repeated.
- A cell is a value in the cell map, not a shared object. Recomputation
  replaces the cell in the map rather than assigning its `Value` property.
- `Visit` takes the dependents of a cell in an unspecified order. The source
  takes them in the hash-set enumeration order.
- The recursion depth of `Visit` and concurrency are left out; the source is
  single-threaded.
- Load: the save-then-load round trip is proved entry by entry
  (`SavedCellReadsBack`, `SavedFormLoadable`). It is not proved for a whole
  sheet replayed in an arbitrary order.
- The sheet never evaluates a formula on stale stacks. Every member below
  uses the corrected recomputation (`EvaluateCell`, on empty stacks).
  `EvaluateCellAsWritten` and `StaleRecalculation` model the source's
  recomputation, but the sheet does not run on them. So the model does not
  capture:
  - a formula cell showing a stale value;
  - the empty-stack exception escaping `SetContentsOfCell` after the cell is
    written and the flag set;
  - `Load` failing on a file that the sheet could have saved, replayed in an
    order that hits the stale stacks.
- ValueOfContents: a formula cell's value is proved to be its formula's value
  on empty stacks. The source shows whatever the last recomputation on the
  object's own stacks stored there.
- FormulaValueOfValid: "never the empty-stack case" holds for evaluation on
  empty stacks. The source's recomputation can raise it.
- RecalculatedSettles: proved for recomputation on empty stacks. With
  persistent stacks a cell recomputed after the cells it reads can still
  show a wrong value.
- RecalculatedConsistent: proved for recomputation on empty stacks. In the
  source, `A1+B1` can show 4 with A1 = 1 and B1 = 2.
- RecalculatedConsistentUnchanged: proved for recomputation on empty stacks.
  In the source, recomputing an unchanged formula on stale stacks can change
  its value.
- EvaluateCell: evaluates on empty stacks, where the source calls `Evaluate`
  on the persistent ones (`EvaluateCellAsWritten`).
- RecomputeNext: one step with `EvaluateCell`, not the source's `Evaluate`.
- RecalculateCellValues: each step stores the value on empty stacks. The
  source's loop can store stale values or raise the empty-stack exception
  part way through the list.
- RecalculateAfterWrite: restoring the invariant relies on recomputation on
  empty stacks. The source's recompute can raise after the flag is set.
- WriteNumber: the recompute after the write is on empty stacks. The source
  can raise the empty-stack exception there, leaving the number written.
- WriteText: the same recompute on empty stacks.
- WriteParsed: the same recompute on empty stacks.
- WriteFormula: the format and cycle paths are as in the source. The
  recompute after the write is on empty stacks.
- SetContentsOfCell: a success is always `Valid()` with fresh values, and a
  name ending in a line feed is refused by the corrected `IsCellName`. The
  source stores stale values, can raise after writing, and stores "A1"
  followed by a line feed as a cell.
- LoadEntry: a replay fails only for an invalid name, an invalid formula or a
  cycle. In the source it can also fail through the empty-stack exception
  of a recompute on stale stacks, which the loading constructor turns into
  the load error.
- IsCellName: the sheet uses the corrected rule. Only
  `NewlineNameAccepted` models the pattern as written.
- Names are ASCII only: letters are `a`-`z` and `A`-`Z`, digits `0`-`9`, and
  upper-casing maps only `a`-`z`. The source differs in two ways:
  - .NET matches `\d` against every Unicode decimal digit, so "A" followed
    by an Arabic-Indic digit one is a variable and a cell name there and is
    refused here;
  - `ToUpper` follows the current culture, so "ſ1" becomes "S1", and under a
    Turkish culture "i1" becomes "İ1".
- `GetDependents` and `GetDependees` return sets as values, and the
  `Replace` methods take their new sets by value. The source returns the
  graph's live `HashSet` and enumerates its argument lazily, so
  `ReplaceDependents(s, GetDependents(s))` empties the dependents of `s`
  there: the removal loop clears the very set it then enumerates. The
  spreadsheet never passes an aliased set (it passes an empty list,
  `GetVariables()` or a `ToList` copy), so the model does not capture this
  aliasing.
- `GetHashCode` uses a fixed polynomial string hash that stands for the
  runtime's seeded string hash. The only property used is that equal texts
  have equal hashes.

## Findings

| source | as written | input that shows it | evidently intended | confidence | as-written member | corrected member |
|---|---|---|---|---|---|---|
| Formula/Formula.cs:388-393 | `Evaluate` runs `ProcessFormula` on the object's value and operator stacks as earlier calls left them. An early formula error leaves entries behind. | `A1+B1` evaluated while B1 has no value, then again with A1 = 1 and B1 = 2, gives 4 rather than 3. `(A1/B1)` evaluated with B1 = 0, then with B1 = 2, fails with a pop on an empty stack. | every evaluation starts from empty stacks | not executed | Formulas.Formula.Evaluate | Formulas.Formula.EvaluateFresh |
| Spreadsheet/Spreadsheet.cs:852-856 | `RecalculateCellValues` recomputes a formula cell with `f.Evaluate(LookupValue)`, on the stacks the cell's formula object kept from its earlier recomputations. | With A1 = 1, set C1 to "=A1+B1" while B1 is empty, then set B1 to "2": C1 shows 4, not 3. With A1 = 1 and B1 = 0, set C1 to "=(A1/B1)", then set B1 to "2": `SetContentsOfCell` throws the empty-stack exception after B1 is written and the sheet marked changed. | every formula cell shows its formula's value over the sheet, as `GetCellValue` documents | not executed | Spreadsheets.StaleRecalculation | Spreadsheets.EvaluateCell |
| Spreadsheet/Spreadsheet.cs:405-416 | The cell name check matches the anchored pattern `^[a-zA-Z]+\d+$`. There, `$` also matches just before a final line feed. | "a1" followed by a line feed is accepted, and stored as "A1" followed by a line feed. No formula can refer to that cell. | a name of letters then digits and nothing else | not executed | Spreadsheets.NewlineNameAccepted | Spreadsheets.IsCellName |
