# Yices session driver of jSMTLIB, modelled in Dafny

jSMTLIB drives external SMT solvers through the SMT-LIB v2 command language. This project
models the part of it that talks to the Yices 1 solver. It has three pieces:

- **Translator** (`Solver_yices.Translator`). It renders an SMT-LIB expression or sort in
  Yices concrete syntax. Operators that Yices does not take n-ary are rewritten:
  - chainable comparisons become a conjunction of adjacent pairs;
  - `xor` becomes left-nested `/=`;
  - `=>` is nested to the right;
  - `distinct` becomes one `/=` or a conjunction of all pairwise `/=`;
  - unary `-` becomes a subtraction from zero.

  Literals and constructs Yices cannot take make the translation fail. The failure
  carries a message and, where the source gives one, the node's position.
- **Command replies** (`Solver_yices`). For `exit`, `assert`, `check-sat`, `push`, `pop`,
  `set-logic`, `get-info` and `declare-fun`, the model covers:
  - the text written to the Yices process;
  - how a reply becomes a response;
  - the verdict kept for `get-info :status`.
- **Source lines** (`Pos` and `Pos.Source`). These compute a position's line beginning,
  its line terminator, the text of its line and its 1-based line number. The results
  decorate error messages.

Modules, in dependency order:

- `Wrappers`: `Option` and `Result`.
- `Text`: substring search, decimal rendering, and the join/concat helpers.
- `Positions`: `Pos.java`.
- `Syntax`: the expression and sort trees the translator consumes, with the positions their
  nodes were parsed at.
- `Terms`: reference shapes independent of the translator. These are binary term trees
  with their rendering, left and right combs, and the list of all distinct index pairs.
- `Translator`: the translator itself.
- `TranslatorFacts`: what it produces, stated against `Terms`.
- `TranslatorFailures`: where its failures come from.
- `Solver`: the command logic.

The model takes these things as inputs, because they lie outside it:

- **The Yices process.** A command's reply is an input: `Heard(text)` for the text read
  up to the prompt, or `IOFault(message)` for an I/O failure. `push`/`pop` take one reply
  per command they may send.
- **The superclass.** The generic checks of `Solver_test` run before the Yices-specific
  code. Their response arrives as the `status` parameter.
- **Other inputs.** These are:
  - whether a logic was set before `set-logic`;
  - the `relax` option;
  - the configured authors and version texts;
  - the system line separator.
- **Source text.** A source's characters end with the end-of-input marker that
  `CharSequenceInfinite` yields past the last character read. It is taken to be `U+FFFF`.

Some behaviours of the code are easy to miss, so each is proved:

- **Chainable operator with one argument.** SMT-LIB gives chainable operators at least
  two arguments. With one, the code renders `(and )` and never translates the argument,
  so even an untranslatable argument does not make it fail. `distinct` with one argument
  renders `(and)` the same way (`SoleArgumentIgnored`).
- **Unary minus.** The code writes `(- 0 a )`. A subtraction `(- 0 a)` written out in the
  input takes the generic rendering `( - 0 a )`, so the two texts differ in spacing
  (`UnaryMinusUnlikeSubtraction`).
- **Generic applications.** These render as `( head a1 … ak )`, with a space just inside
  each parenthesis (`NaryRendering`). The comment table in `Solver_yices.java` (lines
  403-426) writes them without those spaces.
- **`ite`.** That comment table maps `ite` to Yices `if`. No code performs the renaming,
  so `ite` is rendered generically.
- **`nextLineTermination`.** Its Java specification promises a result `>= pos`. The code
  returns `pos - 1` when `pos` holds the end marker. The model's contract states the
  code's behaviour, and `textLine` depends on it for an empty last line.

## Model

| member | source | states |
|---|---|---|
| Positions.ScanBack | SMT/src/org/smtlib/impl/Pos.java:116-118 | the backward scan stops just after the nearest line terminator at or below its start, or at 0, with no terminator in between |
| Positions.LineBeginning | SMT/src/org/smtlib/impl/Pos.java:113-119 | the line start is just after a terminator (or 0), with no terminator between it and the scan start; a lone terminator at `pos` gives `pos + 1`, the `\n` of `\r\n` gives `pos`, and a negative `pos` gives `pos + 1` |
| Positions.ScanForward | SMT/src/org/smtlib/impl/Pos.java:138 | the forward scan stops at the first terminator or end marker at or after its start |
| Positions.NextLineTermination | SMT/src/org/smtlib/impl/Pos.java:133-142 | characterises the answer uniquely: the last character of the terminator ending the line (the `\n` of a `\r\n`), or the index before the end marker; `pos - 1` exactly when `pos` holds the end marker, contrary to the method's own `\result >= pos` |
| Positions.TextLine | SMT/src/org/smtlib/impl/Pos.java:124-131 | the line text is one line, with no end marker and terminators only at its end; given a separator that ends in a terminator, it ends with a terminator, the separator being appended exactly when the raw text does not; an ordinary character at `pos` lies inside the cut range |
| Positions.LineNumber | SMT/src/org/smtlib/impl/Pos.java:145-157 | the line number is one more than the count of line breaks before `pos`, a `\r\n` pair counting once (loop invariants); a position at or before 0, negative ones included, is on line 1 |
| Text.NatToStringRoundTrip | SMT/src/org/smtlib/solvers/Solver_yices.java:451-453 | the decimal text of a numeral reads back as its value and has no leading zero: a text that starts with `0` is exactly `0` |
| Text.UnsatContainsSat | SMT/src/org/smtlib/solvers/Solver_yices.java:132-134 | every reply containing "unsat" also contains "sat", which is why the order of the two tests matters |
| Translator.TranslateIdentifier | SMT/src/org/smtlib/solvers/Solver_yices.java:596-619 | only a plain symbol translates, to its own name; indexed and `as` identifiers fail |
| Translator.TranslateSort | SMT/src/org/smtlib/solvers/Solver_yices.java:685-709 | a sort translates exactly when it is a parameterless sort expression over a plain symbol; the sort `Bool` is `bool`, `Int`/`Real` become `int`/`real`, other names are kept, and every failure is positionless |
| Translator.SortFailureUnpositioned | SMT/src/org/smtlib/solvers/Solver_yices.java:685-709 | a sort that fails does not fail with any message an expression node raises (a literal, keyword, error token or empty application message) |
| Translator.IdentifierFailureUnpositioned | SMT/src/org/smtlib/solvers/Solver_yices.java:596-619 | an identifier that fails does not fail with any message an expression node raises |
| TranslatorFacts.TranslateSucceedsIffSupported | SMT/src/org/smtlib/solvers/Solver_yices.java:440-709 | translation succeeds exactly on the expressions the independent predicate `Supported` admits: both directions, all node kinds |
| TranslatorFacts.TranslateAppOk | SMT/src/org/smtlib/solvers/Solver_yices.java:466-538 | an application translates exactly when all its arguments do, except that a chainable operator or `distinct` with a single argument always translates |
| TranslatorFacts.ArgumentsOk | SMT/src/org/smtlib/solvers/Solver_yices.java:477-480 | the argument loop succeeds exactly when every argument translates |
| TranslatorFacts.ChainPairsOk | SMT/src/org/smtlib/solvers/Solver_yices.java:579-594 | the chain loop succeeds when there is at most one argument or when all arguments translate |
| TranslatorFacts.LeftAssocOk | SMT/src/org/smtlib/solvers/Solver_yices.java:561-576 | the left fold succeeds exactly when all of its arguments translate |
| TranslatorFacts.RightAssocOk | SMT/src/org/smtlib/solvers/Solver_yices.java:542-557 | the right fold succeeds exactly when all of its arguments translate |
| TranslatorFacts.DistinctRowOk | SMT/src/org/smtlib/solvers/Solver_yices.java:509-515 | one row of the pairwise loop succeeds exactly when its arguments translate |
| TranslatorFacts.DistinctPairsUpToOk | SMT/src/org/smtlib/solvers/Solver_yices.java:504-518 | the pairwise loop over the first j arguments succeeds exactly when j <= 1 or all of them translate |
| TranslatorFacts.DeclarationsOk | SMT/src/org/smtlib/solvers/Solver_yices.java:625-630 | a binder list translates exactly when all of its sorts are supported |
| TranslatorFacts.BindingsOk | SMT/src/org/smtlib/solvers/Solver_yices.java:657-663 | a binding list translates exactly when all of its bound expressions translate |
| TranslatorFacts.ArgumentsValue | SMT/src/org/smtlib/solvers/Solver_yices.java:477-480 | the argument loop yields each argument's text preceded by a space, in order |
| TranslatorFacts.ChainPairsValue | SMT/src/org/smtlib/solvers/Solver_yices.java:579-594 | the chain loop yields the adjacent-pair terms of the reference `ChainTerms` |
| TranslatorFacts.LeftAssocValue | SMT/src/org/smtlib/solvers/Solver_yices.java:561-576 | the left fold renders every left comb over the argument texts |
| TranslatorFacts.RightAssocValue | SMT/src/org/smtlib/solvers/Solver_yices.java:542-557 | the right fold renders every right comb over the argument texts |
| TranslatorFacts.DistinctRowValue | SMT/src/org/smtlib/solvers/Solver_yices.java:509-515 | once every argument translates, row j over its first k partners yields ` (/= aj ai)` for i = 0 .. k-1, in that order |
| TranslatorFacts.RowTextValue | SMT/src/org/smtlib/solvers/Solver_yices.java:509-515 | the row text built term by term equals the concatenated inequality terms of the reference row `(j, 0) .. (j, k-1)` |
| TranslatorFacts.DistinctPairsUpToValue | SMT/src/org/smtlib/solvers/Solver_yices.java:504-518 | the outer loop over the first j arguments yields their rows concatenated in order, given what each row yields |
| TranslatorFacts.RowsValue | SMT/src/org/smtlib/solvers/Solver_yices.java:509-515 | once every argument translates, every row of the pairwise loop yields the inequality text of its reference row |
| TranslatorFacts.PairsTextValue | SMT/src/org/smtlib/solvers/Solver_yices.java:504-518 | the rows concatenated for the first j arguments are exactly the inequality terms of the reference pair list for j, whose entries name indices below j |
| TranslatorFacts.DeclarationsValue | SMT/src/org/smtlib/solvers/Solver_yices.java:625-630 | binders render as `x::S ` in declaration order |
| TranslatorFacts.BindingsValue | SMT/src/org/smtlib/solvers/Solver_yices.java:657-663 | bindings render as `(x e)` in binding order |
| TranslatorFacts.NaryRendering | SMT/src/org/smtlib/solvers/Solver_yices.java:473-538 | `and`, `or` and every operator without a rewrite render as `( op ` followed by the argument texts joined by spaces and then ` )` |
| TranslatorFacts.ChainableExpands | SMT/src/org/smtlib/solvers/Solver_yices.java:483-485 | a chainable comparison over k >= 2 arguments is the conjunction of exactly k - 1 adjacent pairs `(op ai ai+1)` in order |
| TranslatorFacts.SoleArgumentIgnored | SMT/src/org/smtlib/solvers/Solver_yices.java:483-520 | a chainable operator or `distinct` with one argument yields an empty conjunction without translating it |
| TranslatorFacts.XorNestsLeft | SMT/src/org/smtlib/solvers/Solver_yices.java:486-489 | `xor` over k arguments is the rendering of a left comb of `/=` with the arguments as leaves, and it has k - 1 applications |
| TranslatorFacts.ImpliesNestsRight | SMT/src/org/smtlib/solvers/Solver_yices.java:490-495 | `=>` over k arguments is the rendering of a right comb with the arguments as leaves, and it has k - 1 applications |
| TranslatorFacts.DistinctOfTwo | SMT/src/org/smtlib/solvers/Solver_yices.java:497-503 | `distinct` of two arguments is the single inequality `(/= a0 a1)` |
| TranslatorFacts.DistinctOfMany | SMT/src/org/smtlib/solvers/Solver_yices.java:504-518 | `distinct` of k >= 3 arguments is `(and` followed by one inequality `(/= aj ai)` per entry `(j, i)` of the reference pair list, in its order, and `)`; with Terms.DistinctPairsComplete this is every pair once, k(k-1)/2 of them |
| TranslatorFacts.UnaryMinus | SMT/src/org/smtlib/solvers/Solver_yices.java:521-527 | unary minus renders as `(- 0 a )` |
| TranslatorFacts.UnaryMinusUnlikeSubtraction | SMT/src/org/smtlib/solvers/Solver_yices.java:521-538 | the unary-minus rewrite differs from the generic rendering `( - 0 a )` of the subtraction it stands for |
| TranslatorFacts.QuantifierBinders | SMT/src/org/smtlib/solvers/Solver_yices.java:622-651 | `forall`/`exists` list their binders as `x::S ` in declaration order, then the body |
| TranslatorFacts.LetBindings | SMT/src/org/smtlib/solvers/Solver_yices.java:654-667 | `let` lists its bindings as `(x e)` in binding order, then the body |
| TranslatorFacts.NumeralRendering | SMT/src/org/smtlib/solvers/Solver_yices.java:451-453 | a numeral renders as digits reading back as its value, with no leading zero |
| TranslatorFacts.AttributesDropped | SMT/src/org/smtlib/solvers/Solver_yices.java:676-678 | an attributed expression renders exactly as the expression it wraps, its attributes dropped |
| TranslatorFailures.ArgumentsFailure | SMT/src/org/smtlib/solvers/Solver_yices.java:477-480 | when the argument loop fails, its failure is exactly that of one of the arguments it translated |
| TranslatorFailures.ChainPairsFailure | SMT/src/org/smtlib/solvers/Solver_yices.java:579-594 | when the chain loop fails, its failure is exactly that of one of the arguments it translated |
| TranslatorFailures.LeftAssocFailure | SMT/src/org/smtlib/solvers/Solver_yices.java:561-576 | when the left fold fails, its failure is exactly that of one of its arguments |
| TranslatorFailures.RightAssocFailure | SMT/src/org/smtlib/solvers/Solver_yices.java:542-557 | when the right fold fails, its failure is exactly that of one of the arguments from its start on |
| TranslatorFailures.DistinctRowFailure | SMT/src/org/smtlib/solvers/Solver_yices.java:509-515 | when a row of the pairwise loop fails, its failure is exactly that of the row's argument or of one of its partners |
| TranslatorFailures.DistinctPairsUpToFailure | SMT/src/org/smtlib/solvers/Solver_yices.java:504-518 | when the pairwise loop fails, its failure is exactly that of one of the arguments it translated |
| TranslatorFailures.BindingsFailure | SMT/src/org/smtlib/solvers/Solver_yices.java:657-663 | when the binding list fails, its failure is exactly that of one of the bound expressions |
| TranslatorFailures.DeclarationsFailure | SMT/src/org/smtlib/solvers/Solver_yices.java:625-630 | a binder list fails only without a position and with none of the messages an expression node raises, because unsupported sorts give neither |
| TranslatorFailures.TranslateAppFailure | SMT/src/org/smtlib/solvers/Solver_yices.java:466-538 | whatever the rewrite, a failing application with arguments fails with exactly the failure of one of its arguments |
| TranslatorFailures.FailureLocated | SMT/src/org/smtlib/solvers/Solver_yices.java:440-608 | every failure is either the one raised at a node of the translated expression, with that node's message and position (a literal, keyword or error token Yices cannot take, or an application without arguments), or comes from an unsupported identifier or sort and then has no position and none of those messages |
| Terms.DistinctPairsComplete | SMT/src/org/smtlib/solvers/Solver_yices.java:504-518 | the pair list of the pairwise loop has k(k-1)/2 entries `(j, i)` with i < j < k, every such pair occurs, and none repeats |
| Solver.Complaint | SMT/src/org/smtlib/solvers/Solver_yices.java:165-173 | a reply that is not clean becomes an error response without a position |
| Solver.Exit | SMT/src/org/smtlib/solvers/Solver_yices.java:89-101 | `(exit)` is sent; the response is success-exit exactly when the reply is clean and closing succeeds, and an error otherwise |
| Solver.AssertExpr | SMT/src/org/smtlib/solvers/Solver_yices.java:104-120 | a superclass failure is returned unchanged and sends nothing; otherwise `(assert+ e )` is sent exactly when the expression is supported, and the response is success exactly when it is supported and the reply clean; an unclean reply to a sent assertion is an error response: the reply text itself, or "Yices assert command failed: " and the I/O message |
| Solver.Verdict | SMT/src/org/smtlib/solvers/Solver_yices.java:133-135 | a clean check reply reads as sat, unsat or unknown |
| Solver.VerdictPrecedence | SMT/src/org/smtlib/solvers/Solver_yices.java:133-135 | unsat exactly when the reply contains "unsat"; sat exactly when it contains "sat" but not "unsat"; unknown exactly when it contains neither |
| Solver.CheckSat | SMT/src/org/smtlib/solvers/Solver_yices.java:123-141 | a superclass error sends nothing; otherwise `(check)` is sent, and a clean reply's verdict is both the response and the kept status, while a failed exchange leaves the kept status as the superclass call left it |
| Solver.GetInfo | SMT/src/org/smtlib/solvers/Solver_yices.java:212-231 | `:status` answers the kept verdict, or unsupported before any check; `:name` answers "yices"; no key other than `:status` gives an error |
| Solver.StatusReportsLastCheck | SMT/src/org/smtlib/solvers/Solver_yices.java:123-231 | after check-sat, `get-info :status` returns that check's verdict if its reply was clean, and otherwise what the status kept after the superclass call gives |
| Solver.SetLogic | SMT/src/org/smtlib/solvers/Solver_yices.java:178-199 | a repeated set-logic without relax fails with "Logic is already set" and sends nothing; `(reset)` is sent exactly when accepted, already set and relaxed, and then succeeds exactly when the reply is clean; otherwise it is an error response: the reply text at the command's position, or "set_logic command failed: " and the I/O message |
| Solver.SendRepeatedly | SMT/src/org/smtlib/solvers/Solver_yices.java:148-154 | the command is sent once per step until the first unclean reply; success exactly when all n replies are clean, and then exactly n commands are sent; otherwise the error is the complaint about the last reply sent, every earlier one being clean |
| Solver.Push | SMT/src/org/smtlib/solvers/Solver_yices.java:161-175 | a superclass error passes through unsent; otherwise `push n` sends `(push)` until the first unclean reply, whose complaint is the response, every earlier reply being clean, and succeeds exactly when all n replies are clean, having then sent exactly n commands |
| Solver.Pop | SMT/src/org/smtlib/solvers/Solver_yices.java:144-158 | a superclass error passes through unsent; otherwise `pop n` sends `(pop)` until the first unclean reply, whose complaint is the response, every earlier reply being clean, and succeeds exactly when all n replies are clean, having then sent exactly n commands |
| Solver.SortListOk | SMT/src/org/smtlib/solvers/Solver_yices.java:245-247 | the argument sorts translate exactly when each is supported |
| Solver.SortListValue | SMT/src/org/smtlib/solvers/Solver_yices.java:245-247 | the argument sorts render each preceded by a space, in declaration order |
| Solver.DefineCommandOk | SMT/src/org/smtlib/solvers/Solver_yices.java:239-248 | the `define` command is built exactly when all argument sorts and the result sort are supported |
| Solver.DefineCommandText | SMT/src/org/smtlib/solvers/Solver_yices.java:241-248 | a constant is `(define x::S)`; a function is `(define f::(-> S1 … Sk R))`, its sorts separated by single spaces |
| Solver.DeclareFun | SMT/src/org/smtlib/solvers/Solver_yices.java:234-261 | a superclass failure is returned unchanged; the `define` text is sent exactly when every sort translates, and the response is success exactly when the reply to it is clean; an unclean reply is an error response: the reply text itself, or "declare-fun command failed: " and the I/O message |
| Solver.SessionScenario | SMT/src/org/smtlib/solvers/Solver_yices.java:104-261 | a session that declares `x` of sort Int, asserts `(> x 0)` and checks sends `(define x::int)`, `(assert+ (and (> x 0)) )` and `(check)`; a "sat" reply answers sat, and `get-info :status` then answers sat without sending anything |

## Left out

- Starting the Yices process (`start`), the process transport and its log file: I/O. Replies
  are inputs instead.
- `Solver_test`, the superclass: its checks and bookkeeping are not modelled, and its
  response is the `status` input. This covers the scope-depth counter of `push`/`pop`,
  updating the logic-set flag and option storage.
- `set-option`, `get-option`, `define-fun`, `declare-sort`, `define-sort`, `get-proof`,
  `get-unsat-core`, `get-assignment` and `get-value`: these are outside the modelled core.
- Logging and verbosity output: these have no effect on any response.
- The two failure kinds of the translator: `VisitorException` carries the node's position,
  while `UnsupportedOperationException` escapes the command's handlers in Java. Both are one
  `Failure`, the latter without a position. For `assert` and `declare-fun` the model
  therefore reports both as error responses, where Java reports only the former that way.
- Translator.TranslateSort: the `ISort.IFamily` visit is folded into `TranslateSort`, because a
  sort's family is always an identifier.
- The `=> operation without arguments` failure in `Solver_yices.java` (lines 491-494) cannot
  be reached, because applications with no arguments fail earlier. The model has no such
  branch.
- Positions.LineBeginning: positions at or past the length of the text are not modelled.
- Positions.NextLineTermination: only positions from 0 up to the end marker are modelled;
  the method's own specification requires `pos >= 0`.
- Positions.TextLine: only positions from 0 up to the end marker are modelled, the range
  `nextLineTermination` takes.
- Positions.LineNumber: positions at or past the length of the text are not modelled.
- Positions.NextLineTermination: the end-of-input character is assumed to be `U+FFFF`,
  because `CharSequenceInfinite` is not part of this model.
- The `eol` text of `textLine` is the system property `line.separator`, a parameter here.
- Solver.CheckSat: the kept status (`checkSatStatus`) is a field of the superclass, whose
  own `check_sat` runs first and is not part of this model. `last` is the field's value
  after that call, and the contract promises nothing about how that call changes it.
- Translator.TranslateSort: `ISort.IExpression.isBool()` is not part of this model. It is
  taken to hold exactly for the sort expression `Bool`: the plain symbol with no parameters.
- Solver.Push / Solver.Pop: a negative count sends nothing, as the Java loop does. Whether
  the superclass rejects it first is not modelled.
- Solver.Exit: the model does not say that the session ends after `exit`.
