# Lambda-calculus interpreter core in Dafny

This project models the core of a browser-hosted interpreter for the untyped
lambda calculus. The core has three parts:

- **The line editor** (`src/LineEditAddon.ts`). This is a terminal addon that
  reads one line at a time. It keeps per-slot drafts of the history, so that
  edits to a recalled line survive moving away from it. It binds the arrow
  keys, Backspace, Enter and `\` (which types λ). It shows raw control input
  in caret notation and keeps the cursor in step with a wrapping terminal by
  writing ANSI control sequences.
- **The evaluator** (`src/evaluator.ts`). It computes variable lists, renames
  binders, and substitutes. When a binder would capture a free name of the
  substituted term, it is renamed to a fresh `x_k` name; that renaming misses
  one case (see Findings). The evaluator takes leftmost-outermost
  (normal-order) reduction steps until a normal form is reached. `reduce` is
  modelled with the substitution exactly as written.
- **The printer** (`src/printer.ts`). It writes λ for the binder and puts
  parentheses around a function exactly when it is a lambda, and around an
  argument exactly when it is a lambda or an application. These parentheses
  are enough for the print to determine the term; they are not the fewest
  possible, since an argument lambda printed last is parenthesised too.

Each editor operation is a pure function. It takes the session (the addon's
fields), the terminal geometry it reads (cursor column and row, width,
height) and its input. It returns the next session, the exact text it writes
to the terminal, and the line handed to a waiting `readline`, if any.

Modules:

| file | module | contents |
|---|---|---|
| `wrappers.dfy` | `Wrappers` | `Option` and `Result` |
| `decimal.dfy` | `Decimal` | decimal rendering of numbers (template literals) |
| `text.dfy` | `Text` | `String.prototype.trim` with the JavaScript whitespace set |
| `ansi.dfy` | `Ansi` | the control sequences the editor writes |
| `keys.dfy` | `Keys` | key bindings and caret-notation escaping |
| `line_edit.dfy` | `LineEdit` | the addon's state and operations |
| `line_edit_runs.dfy` | `LineEditRuns` | event sequences and multi-step properties |
| `terms.dfy` | `Terms` | expressions, `vars`, `freeVars`, `changeVar` |
| `substitution.dfy` | `Substitution` | `freshVar` and `subst` |
| `reduction.dfy` | `Reduction` | `reduce` against a positional normal-order definition, and `evalExp` |
| `printer.dfy` | `Printer` | `printExp` |

Three behaviours of the code are easy to misread:

- `resolveRead` never clears the pending read. After Enter the read stays
  registered with its Promise already settled. A second Enter still commits
  the draft and opens a new line, but its `resolve` call has no effect, so
  nothing is delivered (`LineEditRuns.SecondSubmitDeliversNothing`).
- `insert` decides that a row has filled by testing whether the cursor
  column before writing, plus the inserted length, is a multiple of the
  width. Take a width of 10 and the prompt `> `. The eighth character is
  typed in column 9, and it is this character that takes the wrap move
  (`LineEditRuns.WrapScenario`).
- `resolveRead` writes `CSI <rows> E` even when `rows` is 0, as `CSI 0 E`.

## Model

| member | source | states |
|---|---|---|
| LineEdit.Init | src/LineEditAddon.ts:12-20 | a new addon has no history, an empty draft in slot 0 with the cursor at 0, no pending read, no terminal, and satisfies the session invariant |
| LineEdit.Activate | src/LineEditAddon.ts:22-23 | activation attaches the terminal, keeps the invariant, and changes nothing else |
| LineEdit.Readline | src/LineEditAddon.ts:95-119 | the call is rejected exactly when no terminal is attached; otherwise the prompt (empty when absent) is written and registered as an unanswered pending read, and nothing else changes |
| LineEdit.WrapMove | src/LineEditAddon.ts:270-276 | nothing is written unless the text ends on a row boundary; CR LF is written exactly when it does so on the bottom row, and CNL exactly when it does so on any other row |
| LineEdit.StepLeft | src/LineEditAddon.ts:159-160 | the step left is CUB exactly when the cursor is not in column 0; from column 0 it is CUU to the row above, then CHA to its last column |
| LineEdit.Redraw | src/LineEditAddon.ts:178-193 | with the old cursor still on the prompt's row, no cursor-up is written; otherwise CUU by the `k` with `k` whole rows at most, and `k+1` more than, prompt plus old cursor; then CHA past the prompt, erase, the draft, and the wrap move when prompt and draft end exactly on a row boundary |
| LineEdit.Insert | src/LineEditAddon.ts:260-283 | the text is spliced into the active draft at the cursor and the cursor moves past it; only the active draft changes; the output is the text, the wrap move, then the old remainder between save and restore; unattached, nothing happens |
| LineEdit.DeleteChar | src/LineEditAddon.ts:148-164 | at cursor 0 nothing happens; otherwise exactly the character before the cursor is removed (the characters before it are kept, the ones after it shift down by one), the cursor steps back, and the step-left, erase and remainder are written |
| LineEdit.CursorForward | src/LineEditAddon.ts:232-244 | at the end of the draft nothing happens; otherwise only the cursor advances, and CNL is written from the last column, CUF elsewhere |
| LineEdit.CursorBackward | src/LineEditAddon.ts:246-258 | at 0 nothing happens; otherwise only the cursor steps back, and the step left is written |
| LineEdit.PromptLength | src/LineEditAddon.ts:179 | the prompt's length; 0 exactly when there is no pending read or its prompt is empty |
| LineEdit.Recall | src/LineEditAddon.ts:171-193 | the recalled slot becomes active with the cursor at the end of its draft; only drafts, slot and cursor change; nothing is delivered; the session stays valid when the drafts cover every slot from the recalled one on |
| LineEdit.RowsFilled | src/LineEditAddon.ts:180 | the floor quotient: that many whole rows fit in `n` columns and one more row does not |
| LineEdit.RowsReached | src/LineEditAddon.ts:127 | the ceiling quotient: the least number of rows that holds `n` columns |
| LineEdit.HistoryBackward | src/LineEditAddon.ts:166-199 | at slot 0 nothing happens; otherwise the previous slot becomes active; the history entry is copied in only if that slot has no draft, and existing drafts are kept; the cursor goes to the end; history is never written |
| LineEdit.HistoryForward | src/LineEditAddon.ts:201-230 | at the new-line slot nothing happens; otherwise the next slot's existing draft becomes active with the cursor at its end; drafts and history are unchanged |
| LineEdit.Commit | src/LineEditAddon.ts:129-131 | a line is appended to history exactly when it is not blank under JavaScript's whitespace set |
| LineEdit.ResolveRead | src/LineEditAddon.ts:121-146 | without a terminal or a pending read, nothing happens; otherwise the reader receives the active draft unless its Promise was already settled, history gains the draft unless blank, every draft is discarded, an empty draft opens in the new-line slot, the pending read stays but is now answered, and CNL over the remaining rows is written, plus CR LF on the bottom row |
| LineEdit.NewLine | src/LineEditAddon.ts:133-137 | the reset after a submit is a valid session with exactly one draft, empty, in the new-line slot, and the cursor at 0 |
| LineEdit.Dispatch | src/LineEditAddon.ts:27-55 | every bound operation keeps the invariant and only extends history; only Submit delivers a line |
| LineEdit.OnKeydown | src/LineEditAddon.ts:25-58 | a key the handler lets through to the terminal changes nothing; only Enter delivers a line; history only grows |
| LineEdit.OnData | src/LineEditAddon.ts:77-90 | raw input is inserted in caret notation; the cursor advances by the input length plus one per control character; only the active draft changes |
| Keys.Classify | src/LineEditAddon.ts:27-57 | a key passes through exactly when it is not one of the seven bound keys; a bound key maps to the command bound to that very key |
| Keys.KeydownReturn | src/LineEditAddon.ts:26-58 | the handler returns true (lets the key through) exactly for the keys with no binding |
| Keys.ClassifyKeyOf | src/LineEditAddon.ts:27-57 | the key table is a bijection between the seven bound keys and the seven commands; every other key passes through |
| Keys.EscapeChar | src/LineEditAddon.ts:81-86 | a control character becomes `^` plus its code with bit 6 flipped, which is printable; any other character is kept |
| Keys.EscapeData | src/LineEditAddon.ts:80-87 | the escaped text contains no control character, is longer by one per control character, and is the input itself when the input has none |
| Keys.EscapeDataConcat | src/LineEditAddon.ts:80-87 | escaping works character by character, so it distributes over concatenation |
| Keys.EscapeDataLoop | src/LineEditAddon.ts:78-87 | the accumulating loop computes exactly the escaped text |
| Keys.XorFlipsBit6 | src/LineEditAddon.ts:82 | on 7-bit codes, XOR with 0x40 adds or subtracts 0x40 according to bit 6 |
| Keys.CaretPartnerInverse | src/LineEditAddon.ts:82 | flipping bit 6 of a control character's caret partner gives the character back |
| Keys.UnescapeEscapeData | src/LineEditAddon.ts:80-87 | for input without `^`, undoing the caret notation recovers the input |
| Text.TrimStart | src/LineEditAddon.ts:129 | the result is a suffix, what was dropped is blank, and the result does not start with whitespace |
| Text.TrimEnd | src/LineEditAddon.ts:129 | the result is a prefix, what was dropped is blank, and the result does not end with whitespace |
| Text.Trim | src/LineEditAddon.ts:129 | the result is a slice of the input with no whitespace at either end, everything before and after that slice is whitespace, and it is empty exactly when the input is blank |
| Text.TrimUnique | src/LineEditAddon.ts:129 | at most one slice without whitespace at its ends is surrounded only by whitespace, so the contract of `Trim` determines its result |
| Ansi.NumberedSequence | src/LineEditAddon.ts:185 | a numbered sequence such as `CSI n A` is a well-formed control sequence (section 5.4 of ECMA-48) whose parameter reads back as `n` |
| LineEditRuns.Step | src/LineEditAddon.ts:22-119 | every callback keeps the session invariant and only ever appends to history |
| LineEditRuns.Run | src/LineEditAddon.ts:12-119 | any sequence of callbacks keeps the invariant and only ever appends to history |
| LineEditRuns.InsertKeepsClean | src/LineEditAddon.ts:265-268 | inserting control-free text keeps every draft and history line free of control characters |
| LineEditRuns.DeleteKeepsClean | src/LineEditAddon.ts:153-157 | a backspace keeps drafts and history control-free and history free of blank lines |
| LineEditRuns.ResolveKeepsClean | src/LineEditAddon.ts:126-137 | a submit commits only non-blank, control-free lines |
| LineEditRuns.HistoryKeepsClean | src/LineEditAddon.ts:171-176 | copying a history entry into a draft keeps all text control-free |
| LineEditRuns.DispatchKeepsClean | src/LineEditAddon.ts:27-55 | every bound operation keeps the session clean when the text it inserts is control-free |
| LineEditRuns.StepKeepsClean | src/LineEditAddon.ts:25-90 | no callback lets a control character into a draft or a blank line into history |
| LineEditRuns.RunKeepsClean | src/LineEditAddon.ts:25-90 | the same holds across any sequence of callbacks |
| LineEditRuns.ReachableClean | src/LineEditAddon.ts:12-90 | from a new addon, history never holds a blank line and no draft holds a control character |
| LineEditRuns.DeleteTimesCuts | src/LineEditAddon.ts:153-157 | `n` backspaces, with `n` at most the cursor, remove exactly the `n` characters before the cursor |
| LineEditRuns.InsertThenDeleteAll | src/LineEditAddon.ts:148-164 | typing a text and then one backspace per character restores the session exactly |
| LineEditRuns.CursorRoundTrip | src/LineEditAddon.ts:232-258 | right then left, or left then right, returns to the same session |
| LineEditRuns.HistoryRoundTrip | src/LineEditAddon.ts:166-230 | up then down returns to the same slot, with the cursor at the end and only the visited draft added |
| LineEditRuns.SubmitBlank | src/LineEditAddon.ts:129-131 | submitting a blank draft to an unanswered read adds nothing to history but still delivers the draft |
| LineEditRuns.SecondSubmitDeliversNothing | src/LineEditAddon.ts:121-146 | after one Enter, a second Enter delivers nothing, keeps history, and leaves the settled read registered |
| LineEditRuns.InsertConcat | src/LineEditAddon.ts:265-268 | typing two pieces one after the other leaves the same session as inserting them together |
| LineEditRuns.WrapScenario | src/LineEditAddon.ts:270-278 | with width 10, one character typed in column 9 takes CNL before the save, redraw and restore; typed in column 8, it does not |
| LineEditRuns.SubmitTyped | src/LineEditAddon.ts:121-146 | typing `x` into an empty line and pressing Enter delivers `x` and appends exactly that entry to history |
| LineEditRuns.RecallScenario | src/LineEditAddon.ts:171-213 | with history `a`, `bb`: up, up, down shows `bb` with the cursor after it and leaves history unchanged |
| Terms.Vars | src/evaluator.ts:5-16 | one name per variable occurrence and per binder |
| Terms.Remove | src/evaluator.ts:24 | the filter keeps exactly the elements different from the removed name |
| Terms.FreeVars | src/evaluator.ts:18-29 | every free name is among the term's names |
| Terms.ChangeVar | src/evaluator.ts:31-46 | renaming keeps the term's shape and size, is the identity when the old name does not occur, and introduces no name but the new one |
| Terms.ChangeVarFreeVarsBound | src/evaluator.ts:31-46 | after renaming, every free name other than the new one was already free and is not the old one |
| Terms.ChangeVarFreeVarsExact | src/evaluator.ts:31-46 | with a new name that does not occur, renaming replaces the old name by the new one among the free names, and changes nothing else |
| Decimal.NatToString | src/evaluator.ts:54 | a template-literal number is a non-empty string of decimal digits without a leading zero |
| Decimal.NatToStringRoundTrip | src/evaluator.ts:54 | the decimal rendering of a count reads back as the count |
| Decimal.NatToStringInjective | src/evaluator.ts:54 | distinct counts render to distinct strings, so the candidates `x_k` are pairwise distinct |
| Decimal.NatToStringLength | src/evaluator.ts:52-55 | a count of at least 10^k renders to more than k digits |
| Substitution.Name | src/evaluator.ts:54 | the candidate `${id}_${k}` is `id`, an underscore, then only decimal digits |
| Substitution.UsedNameBound | src/evaluator.ts:52-55 | a candidate found in the used list has an index below 10^(longest used name), which bounds the search |
| Substitution.FreshIndex | src/evaluator.ts:52-55 | the search from index k stops at the first index whose candidate is not used |
| Substitution.FreshVar | src/evaluator.ts:48-58 | the result is not in the used list, and it is `id_k` for the least k >= 1 with that property |
| Substitution.FreshVarLoop | src/evaluator.ts:48-58 | the while loop terminates and returns that name |
| Substitution.FreshVarDiffers | src/evaluator.ts:48-58 | the fresh name always differs from the name it is derived from |
| Substitution.SubstAsWritten | src/evaluator.ts:60-82 | a variable other than the substituted name is kept; a lambda stays a lambda and is left alone when it binds the substituted name; an application stays an application |
| Substitution.Subst | src/evaluator.ts:60-82 | the same shape facts for the repaired substitution, whose fresh binder also avoids the substituted name |
| Substitution.SubstLeaves | src/evaluator.ts:62-68 | a variable is replaced exactly when it is the substituted name, and a binder of that name shields its body |
| Substitution.SubstAsWrittenFreeVarsBound | src/evaluator.ts:60-82 | even as written, every free name of the result is free in the substituted term, or free in the original term and different from the substituted name |
| Substitution.SubstAsWrittenCapture | src/evaluator.ts:69-74 | the substitution as written turns the closed term `λy.y` into `λy_1.y`, whose `y` is free |
| Substitution.SubstFreeVars | src/evaluator.ts:60-82 | with the repaired fresh-name list, the free names after substitution are exactly those of the term minus the substituted name, plus those of the substituted term when the name was free |
| Substitution.SubstNotFree | src/evaluator.ts:60-82 | with the repaired fresh-name list, substituting for a name that is not free leaves the free names unchanged; as written this fails (see Findings) |
| Reduction.PrecedesIrreflexive | src/evaluator.ts:98-113 | no position comes before itself in the leftmost-outermost order |
| Reduction.PrecedesAsymmetric | src/evaluator.ts:98-113 | of two positions, at most one comes first |
| Reduction.LeftmostOutermostUnique | src/evaluator.ts:98-113 | a term has at most one leftmost-outermost redex |
| Reduction.Reduce | src/evaluator.ts:84-117 | a variable takes no step; a redex at the root is contracted before anything inside it; a step inside a lambda keeps its binder |
| Reduction.ReduceCapture | src/evaluator.ts:98-100 | reducing `(λy_1.λy.y) y` gives `λy_1.y`, in which `y` is free, where the repaired substitution gives `λy_2.y_2` |
| Reduction.NoStepNoRedexAt | src/evaluator.ts:84-117 | when `reduce` finds no step, there is no redex at any position |
| Reduction.StepPosition | src/evaluator.ts:84-117 | when `reduce` steps, it contracts the leftmost-outermost redex in place, with `subst` as written, and nothing else changes |
| Reduction.ReduceNoneIffNormalForm | src/evaluator.ts:84-117 | `reduce` returns undefined exactly on normal forms |
| Reduction.ReduceIsNormalOrder | src/evaluator.ts:84-117 | every step `reduce` takes is the normal-order step, contracting with `subst` as written |
| Reduction.EvalExp | src/evaluator.ts:119-134 | when evaluation, with `subst` as written, finishes, its result admits no further step |
| Reduction.EvalExpFuelMonotone | src/evaluator.ts:122-131 | once evaluation finishes within some number of steps, any larger allowance gives the same result |
| Reduction.EvalExpNormal | src/evaluator.ts:128-129 | the returned term is a normal form: no position holds a redex |
| Printer.PrintExp | src/printer.ts:3-24 | an abstraction prints starting with λ, and an application always contains a space; the lemmas below state the rest |
| Printer.PrintBalanced | src/printer.ts:3-24 | the printed text has balanced parentheses |
| Printer.PrintStarts | src/printer.ts:3-24 | the text is non-empty; it starts with λ exactly for an abstraction, and with `(` exactly for an application whose head is an abstraction |
| Printer.PrintAppEnds | src/printer.ts:19-23 | an application ends in `)` exactly when its argument is not a variable |
| Printer.PrintAppNestsLambdas | src/printer.ts:12-23 | in a printed application, every λ sits inside parentheses |
| Printer.PrintAppSplit | src/printer.ts:11-23 | the space written between function and argument is the last space outside all parentheses |
| Printer.PrintAppParens | src/printer.ts:12-23 | split at its last top-level space, a printed application's function part is one parenthesised group exactly when the function is a lambda, and its argument part exactly when the argument is a lambda or an application |
| Printer.FunctionGroup | src/printer.ts:15-17 | a function's text in function position is one parenthesised group exactly when the function is a lambda; a bare application never is |
| Printer.PrintNameIff | src/printer.ts:3-24 | a print is a bare identifier exactly when the term is a variable |
| Printer.AppParts | src/printer.ts:11-23 | two applications that print alike have functions that print alike and arguments that print alike |
| Printer.PrintInjective | src/printer.ts:3-24 | two well-formed terms with the same print are the same term: the parentheses the printer writes (around a lambda function, and around a lambda or application argument) lose no structure |
| Printer.JoinSplit | src/printer.ts:23 | the joining space of a balanced function text and an argument whose spaces are all parenthesised is that last top-level space |
| Printer.PrintCounts | src/printer.ts:3-24 | the text holds exactly one space per application, and one λ and one `.` per abstraction |
| Printer.ParenthesizeBalanced | src/printer.ts:15-21 | wrapping a balanced text in parentheses keeps it balanced, nests all its characters, and leaves no proper prefix with every parenthesis closed |

## Left out

- `src/main.ts` and `src/parser.ts` are not part of this model. The parser
  and the prompt loop only call into the core.
- Writes are modelled as the exact text passed to `terminal.write`.
  Their completion callbacks are not modelled, and neither is the terminal's
  interpretation of the escape sequences. The cursor position and geometry
  the editor reads from the terminal are parameters of each operation.
- `cursorStart` and the `console.log` call in `readline`: the field is written
  but never read, so it cannot affect behaviour.
- The `keypress` branch (src/LineEditAddon.ts:61-74) and the final
  `return false` (src/LineEditAddon.ts:73). The `keypress` branch stops the
  terminal's default handling of Enter and `\`; the final `return false`
  stops default handling of every other event type, such as `keyup`, for
  every key. Neither changes any editor state.
- `dispose`, which does nothing.
- Promises: the `resolve` handle is not stored. A resolved read is the
  `delivered` field of a transition, and a rejected read is the `Failure` of
  `Readline`. The `answered` flag of a pending read stands for the Promise
  being settled: later `resolve` calls on it deliver nothing.
- JavaScript strings are UTF-16: `text.length` counts code units, while the
  spread into the draft array counts code points. The model uses one element
  per character throughout, so the two agree for characters outside the
  astral planes only. The λ that `\` inserts is the two-character string
  U+00CE U+00BB, exactly as the source file spells it.
- Reduction.EvalExp: the endless loop and its 10 ms pause become a step
  allowance (`fuel`). A term without a normal form makes the source loop
  forever and the model return `None`.
- LineEdit.Readline: writing the prompt is modelled as its output text; the
  position recorded after the write is not, as noted above.
- Terms and Substitution: no alpha-equivalence or beta-correctness theorem is
  proved. The free-name equations are the properties proved about
  substitution; the exact equation holds only for the repaired `Subst`, while
  `Reduce` and `EvalExp` use the substitution as written.
- Printer.PrintInjective, Printer.PrintBalanced and the other printer lemmas
  require every name to consist of letters, digits and `_`. Names that
  come from the lexer (src/parser.ts:25) or from `freshVar` always do. A
  name holding a space, a parenthesis or λ would make the print ambiguous,
  and the source does not guard against it.
- LineEditRuns.Step: a geometry is assumed to have at least one column and
  one row. The source would divide by a zero width.

## Findings

| source | as written | input that shows it | evidently intended | confidence | as-written member | corrected member |
|---|---|---|---|---|---|---|
| src/evaluator.ts:71 | the fresh binder is chosen to avoid only the names of the body and of the substituted term, not the name being substituted for | `subst("y_1", y, λy.y)` renames the binder to `y_1` and then replaces the bound `y_1` by `y`, giving `λy_1.y`: the closed term gains the free variable `y` | the fresh name also avoids `id`, so the renamed binder can never be the substituted name | high (proved; not executed) | Substitution.SubstAsWrittenCapture | Substitution.SubstFreeVars |
