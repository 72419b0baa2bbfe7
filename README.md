# kati's macro-expression parser, modelled in Dafny

This project models `parseExpr`, the parser of kati (a reimplementation of
GNU make). It turns macro text into a tree of values:

- literal text;
- `Expr`, a sequence of two or more parts;
- variable references (`varref`);
- suffix-substitution references (`varsubst`, as in `$(foo:.c=.o)`);
- calls of built-in functions (`funcSubst`, `funcShell`).

The parser's observable behaviour is fixed by its test table, `TestParseExpr`
in `expr_test.go`. The table calls `parseExpr(input, nil)` and compares the
value structurally with the expected tree. The model is a set of pure Dafny
functions over `seq<char>`, mirroring the parser's single left-to-right pass.
Every case of the table is proved as a lemma. The shape of every result is
proved for all inputs, and the characterisation of literal results for every
input parsed with no terminators. The rules behind the other cases are proved for every input of the form the rule names:
reference names, fields and arguments of plain text (no `$`, and no bracket
of the closer's own family), escaped text, or `$`-free text whose
own-family brackets balance.

Files and modules:

- `registry.dfy` (`Registry`): the built-in functions and their arities. `subst` takes exactly three arguments; `shell` takes one unsplit "rest" argument. It also holds function-name detection at the start of a `$(`/`${` body.
- `values.dfy` (`Values`): the `Value` tree, the result and error types, and the builder that merges literal runs and returns a single part bare. It also defines `WellFormed`, the shape every parse result has.
- `parser.dfy` (`Parser`): the scanner and the reference, variable, call and argument parsers. They are mutually recursive; every one works on the whole input and a position in it. `ParseExpr` is the entry point.
- `lemmas.dfy` (`ParserLemmas`): properties for all inputs. These cover the escape round trip, the if-and-only-if characterisation of literal results, one-byte names, terminator backoff, reference bodies, comma splitting, rest arguments and bracket nesting to any depth.
- `table.dfy` (`ParseExprTable`): one lemma per row of the test table.

How the model reads the input:

- **No terminators.** The table always passes no terminators (`nil`). With none, a successful parse consumes the whole input.
- **Terminators.** Inside a reference the parser runs the same scanner with terminators: the closer, `:` and `=` for a variable body, and `,` and the closer for a fixed-arity argument.
- **Bracket families.** A bare bracket of the closer's own family opens a nesting level. While the level is open, no terminator is active. Brackets of the other family are ordinary text, and quotes are not special.

## Model

| member | source | states |
|---|---|---|
| Parser.ParseExpr | expr_test.go:159-171 | On success the value is well formed and at most the input's length is consumed. The parse stops at the end or at a terminator. With no terminators it consumes everything. An error names the `$` of a `$(`/`${` in the input. |
| Parser.Scan | expr_test.go:14-157 | The scanner stops only at the end of the input or at an active terminator, never before its start. A failure names the `$` of a `$(`/`${` at or after its start. |
| Parser.ScanDollar | expr_test.go:26-91 | Whatever follows a `$` (a second `$`, one byte, a bracket or an active terminator), the scan keeps the guarantees of `Parser.Scan`. |
| Parser.ParseFrom | expr_test.go:50-91 | A scan from a position inside the input has the same guarantees as `Scan`. Arguments and reference bodies are parsed this way. |
| Parser.ParseRef | expr_test.go:38-157 | A reference that parses ends just past a closer of its own opener's family. It yields one part that is neither a literal nor a sequence. The part is a call exactly when a registered function name starts the body, and then it is a call of that function with its arity's number of arguments. |
| Parser.ParseVar | expr_test.go:38-49 | A variable body gives a `VarRef` or a `VarSubst`, ended by the opener's closer. A failure names a `$(`/`${` at or after the reference's own `$`. |
| Parser.ParseSubst | expr_test.go:42-49 | The text after a variable body's first top-level `:` gives a `VarRef` or a `VarSubst`, ended by the opener's closer. A failure names a `$(`/`${` at or after the reference's own `$`. |
| Parser.ParseCall | expr_test.go:50-157 | A call of the registered function `f` gives a `Call` of `f` with exactly `f`'s arity's number of arguments, ended by the opener's closer. |
| Parser.ParseArgs | expr_test.go:50-91 | A fixed-arity call's remaining arguments give a `Call` of `f` that keeps the arguments already parsed as its prefix and adds exactly the `left` still to come, ended by the opener's closer past their start. A failure names a `$(`/`${` at or after the reference's own `$`. |
| Parser.Family | expr_test.go:92-147 | The tracked bracket family is always that of one of the terminators. |
| Parser.ScanWellFormed | expr_test.go:14-157 | Every value the scanner builds is well formed: no nested sequence, no sequence of fewer than two parts, no two adjacent literals, and calls with exactly their arity's number of arguments. |
| Parser.ScanDollarWellFormed | expr_test.go:26-91 | The same, for the scan that goes on after a `$`. |
| Parser.ParseFromWellFormed | expr_test.go:50-91 | The same, for an argument or a reference body. |
| Parser.ParseRefWellFormed | expr_test.go:38-157 | A reference that parses is well formed. |
| Parser.ParseVarWellFormed | expr_test.go:38-49 | A variable or substitution reference is well formed. |
| Parser.ParseSubstWellFormed | expr_test.go:42-49 | A substitution reference built from a well-formed name is well formed. |
| Parser.ParseCallWellFormed | expr_test.go:50-157 | A call is well formed, so its argument count is its arity's. |
| Parser.ParseArgsWellFormed | expr_test.go:50-91 | The arguments of a fixed-arity call, parsed after well-formed ones, give a well-formed call. |
| Values.WellFormed | expr_test.go:14-157 | The shape a parse result has: sequences of two or more merged parts, and calls of registered functions with their arity's number of arguments. |
| Values.BuildShape | expr_test.go:14-49 | With no reference among the parts the value is the literal run itself. It is the empty literal exactly when there is neither a part nor pending text. A sequence holds at least two merged parts and starts with the finished parts, so one part is never wrapped. |
| Values.BuildWellFormed | expr_test.go:34-49 | The builder's result is well formed whenever the parts are. |
| Values.AppendPending | expr_test.go:34-37 | Appending a reference after a flushed run keeps the parts merged. |
| Values.AppendWellFormed | expr_test.go:34-49 | Flushing a run and appending a well-formed part keeps every part well formed. |
| Registry.Builtins | expr_test.go:50-157 | The registry the table runs with: `subst` splits its text into three arguments, and `shell` keeps it whole as one. |
| Registry.FunctionAt | expr_test.go:50-157 | A detected function name is registered and made of name bytes. It starts the body and is followed by a space. |
| Registry.FunctionAtFinds | expr_test.go:50-157 | Conversely, a registered name followed by a space at the start of the body is detected. |
| Registry.FunctionAtNone | expr_test.go:38-49 | A body with no space in it is never a function call. |
| Registry.WordEnd | expr_test.go:50-157 | The function-name candidate is the maximal run of name bytes. |
| ParserLemmas.Escape | expr_test.go:26-33 | Escaping never shortens text. |
| ParserLemmas.EscapeOne | expr_test.go:26-29 | A byte's escape is never empty and starts with that byte. |
| ParserLemmas.EscapeSpelled | expr_test.go:26-33 | The escape of any text, wherever it stands in an input, spells that text one escaped byte at a time. |
| ParserLemmas.EscapeNoDollar | expr_test.go:14-25 | Text without `$` is its own escape. |
| ParserLemmas.EscapeRoundTrip | expr_test.go:14-33 | The escape of any text of inert bytes parses to exactly that text as one literal, consuming all of it. |
| ParserLemmas.NoDollarIsLiteral | expr_test.go:14-25 | Text without `$` parses to one literal equal to the input, bare brackets included. |
| ParserLemmas.LiteralIffEscaped | expr_test.go:14-33 | For every input parsed with no terminators, the result is the literal `x` if and only if the input is the escape of `x`. So `$$` merges with the text around it, and nothing else gives a literal. |
| ParserLemmas.ScanLiteralIsEscape | expr_test.go:26-33 | A scan that yields a literal has read the escape of that literal's remaining text. |
| ParserLemmas.ScanAfterPartNotLiteral | expr_test.go:34-37 | Once a reference is among the parts, the result is never a bare literal. |
| ParserLemmas.DollarNotLiteral | expr_test.go:34-49 | With no terminators, a `$` not followed by a second `$` always yields a reference, so the result is not a literal. |
| ParserLemmas.ScanEscaped | expr_test.go:26-33 | Scanning escaped text appends its unescaped text to the pending run and changes nothing else. |
| ParserLemmas.ScanPlain | expr_test.go:14-25 | Scanning plain text appends it to the pending run. |
| ParserLemmas.SingleByteName | expr_test.go:34-37 | `$x` followed by escaped text `t` gives `VarRef(x)` alone, or followed by the literal `t`. |
| ParserLemmas.Backoff | expr_test.go:71-91 | `$` followed by an active terminator gives the empty variable reference. The scan stops at the terminator, having consumed only the `$`. |
| ParserLemmas.PlainUpTo | expr_test.go:50-91 | Plain text up to a terminator parses to that text as one literal and stops at the terminator. |
| ParserLemmas.VarRefAt | expr_test.go:38-41 | `$(name)` with plain name text is a reference to that literal name, ending just past the closer. |
| ParserLemmas.VarSubstAt | expr_test.go:42-49 | `$(name:pat=repl)` with plain fields is a `VarSubst`. The fields are split at the first top-level `:` and the first `=` after it. |
| ParserLemmas.ColonWithoutEquals | expr_test.go:42-49 | With a `:` but no `=` after it, the whole body, colon included, is the variable's name. |
| ParserLemmas.UnclosedRef | expr_test.go:12 | A reference whose name runs to the end of the input is an error at that reference's `$`. |
| ParserLemmas.RestCallAt | expr_test.go:92-147 | A rest-arity call keeps its whole plain argument text as its one argument, commas included. Brackets of the other family are ordinary text in it. |
| ParserLemmas.PlainArgs | expr_test.go:50-91 | Plain fixed-arity arguments split at top-level commas. Each becomes one literal, and the call ends just past its closer. |
| ParserLemmas.PlainArgThenComma | expr_test.go:50-70 | A plain argument ended by a comma becomes one literal argument, and parsing resumes after the comma. |
| ParserLemmas.Segments | expr_test.go:50-91 | There is one literal argument per separator. |
| ParserLemmas.FixedCallAt | expr_test.go:50-91 | `$(f a1,…,an)` for a fixed-arity `f` with plain arguments is `Call(f, [a1, …, an])` with exactly the arity's number of arguments. |
| ParserLemmas.LoneRef | expr_test.go:38-49 | A reference that makes up the whole input is returned bare, not wrapped in a sequence. |
| ParserLemmas.RefThenText | expr_test.go:50-70 | A reference followed by plain text gives the sequence of the two. |
| ParserLemmas.RefBeforeTerminator | expr_test.go:50-70 | A reference right before an active terminator is the whole of that argument. |
| ParserLemmas.ScanGroup | expr_test.go:92-111 | A same-family bracket group of plain text is copied into the literal run whole. Its closer does not end the scan. |
| ParserLemmas.ScanNested | expr_test.go:92-111 | Inside a group of the tracked family, at any depth, `$`-free text whose brackets balance (`BalancedFrom`) joins the run whole, terminators and inner closers included. The scan returns to the group's own depth. |
| ParserLemmas.ScanNestedGroup | expr_test.go:92-111 | A same-family group whose inside balances, nested to any depth as in `((a))`, is copied into the literal run whole and leaves the depth unchanged. |
| ParserLemmas.RestCallNested | expr_test.go:92-111 | A rest call whose argument is `$`-free and balances its own family's brackets keeps the whole text as its one argument. Only an unmatched closer ends the call. |
| ParseExprTable.PlainWord | expr_test.go:14-17 | `foo` gives `literal("foo")`. |
| ParseExprTable.BareParens | expr_test.go:18-21 | `(foo)` gives `literal("(foo)")`. |
| ParseExprTable.BareBraces | expr_test.go:22-25 | `{foo}` gives `literal("{foo}")`. |
| ParseExprTable.EscapedDollar | expr_test.go:26-29 | `$$` gives `literal("$")`. |
| ParseExprTable.EscapeInsideText | expr_test.go:30-33 | `foo$$bar` gives the single literal `foo$bar`. |
| ParseExprTable.OneByteName | expr_test.go:34-37 | `$foo` gives `Expr{varref(f), literal(oo)}`. |
| ParseExprTable.ParenRef | expr_test.go:38-41 | `$(foo)` gives the bare `varref(foo)`. |
| ParseExprTable.SuffixSubstitution | expr_test.go:42-49 | `$(foo:.c=.o)` gives `varsubst(foo, .c, .o)`. |
| ParseExprTable.SubstWithTrailingText | expr_test.go:50-70 | The `subst` call with arguments `$(space)`, `$(,)` and `$(foo)` is followed by the sibling literal `/bar`. |
| ParseExprTable.SubstWithBackoff | expr_test.go:71-91 | `$(subst $(space),$,,$(foo))` gives arguments `varref(space)`, `varref("")` and `Expr{literal(","), varref(foo)}`. |
| ParseExprTable.ShellWithParens | expr_test.go:92-111 | `$(shell echo '()')` gives one argument, `echo '()'`. The nested group does not close the call. |
| ParseExprTable.ShellParenInQuotes | expr_test.go:112-124 | `$(shell echo ')')` closes at the quoted `)`. The rest, `')`, is a literal sibling. |
| ParseExprTable.ShellBraceWithParen | expr_test.go:125-134 | `${shell echo ')'}` gives one argument, `echo ')'`. |
| ParseExprTable.ShellBraceInQuotes | expr_test.go:135-147 | `${shell echo '}'}` closes at the quoted `}`. The rest, `'}`, is a literal sibling. |
| ParseExprTable.ShellWithEscapeAndGroup | expr_test.go:148-157 | The long `shell` call gives the one literal argument with `$$` unescaped to `$`. Its comma stays literal and its `( … )` group nests. |
| ParseExprTable.MissingCloser | expr_test.go:12 | `$(foo` is an error at offset 0. That is the kind of result the table's `isErr` field stands for; no row of the table sets it. |
| ParseExprTable.SubstHead | expr_test.go:51 | `$(subst ` opens a call of `subst` whose arguments start at byte 8. |
| ParseExprTable.SpaceArg | expr_test.go:51 | The first argument `$(space)` ends at the first comma. |
| ParseExprTable.CommaArg | expr_test.go:51 | `$(,)` is a reference to the variable named `,`. The comma inside it does not end the argument. |
| ParseExprTable.BackoffArg | expr_test.go:72 | `$` before the active comma is the empty reference, and that comma ends the second argument. |
| ParseExprTable.CommaThenFoo | expr_test.go:72 | The comma after the backoff is literal text in the last argument, in which commas are inert. |
| ParseExprTable.ShellCall | expr_test.go:92-157 | A `shell` call takes everything up to its closer as its one argument. |
| ParseExprTable.QuotedCloserAt | expr_test.go:112-147 | For either bracket family, `shell echo '` closed by its own closer, then `'` and the closer again, gives the call followed by the literal left over. |
| ParseExprTable.ShellMakeText | expr_test.go:149-153 | The argument text with `$$` unescaped is the expected literal. |

## Left out

- The behaviour is fixed by the test table and, where the table is silent, by the following choices, each as small as the table allows:
  - A lone `$` at the end of the input names the empty variable and is consumed.
  - A function name is a run of lower-case letters and `-` followed by exactly one space. Tabs and multiple spaces are not treated specially.
  - A fixed-arity call that meets its closer before all its commas gets its missing arguments as empty literals. Commas beyond the arity stay in the last argument.
  - `$(a:b)` with no `=` names the variable `a:b`.
  - A `$(`/`${` that never closes is one error, located at its `$`.
  - Inside a bare bracket group of the tracked family no terminator is active: `,`, `:` and `=` there are ordinary text, and only the group's own closer lowers the depth.
  - A `$` inside such a group keeps its meaning, so `$)` there is a one-byte reference to the variable `)`, and the closer after it does not close the group. `$(shell ($))` is therefore an unterminated reference, where a plain bracket count would close the call at the last `)`.
- Parser.ParseExpr: the error's offset is stated only to be a reference opener in the input. That it is the innermost unclosed one and the message text are not stated: the test harness only checks that an error occurs.
- Evaluating the tree is I/O outside the parser: running `shell` commands, performing `subst` substitutions and looking up variables.
- The Go test harness is not modelled: the loop, `testing.T`, the `%q`/`%#v` formatting and `reflect.DeepEqual`. Go's distinction between a pointer and a value for function closures does not arise with Dafny datatypes.
- Built-in functions other than `subst` and `shell` are left out. The registry is a name-to-arity map holding just these two.
- ParserLemmas.ScanNested: covers `$`-free groups only. A group holding a reference or `$$` splits into parts as the scanner goes, and no lemma states the result of such a group as a whole.
- A limit on nesting depth is not modelled, since nothing in the table exercises one. Nesting is unbounded.
- Input is modelled as a sequence of characters, one per byte of the table's ASCII inputs. Multi-byte encodings are not modelled.
