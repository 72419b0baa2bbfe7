/**
 * The parser's test table, case by case: each lemma states the value that
 * `parseExpr(input, nil)` must produce for one input, with the built-in
 * registry of `subst` (three arguments) and `shell` (one rest argument).
 * With no terminators a successful parse always consumes the whole input.
 */
module ParseExprTable {
  import opened Registry
  import opened Values
  import opened Parser
  import opened ParserLemmas

  /** `s` has the bytes of `t`, known one index at a time, so that the
      verifier works on `s` one step at a time instead of evaluating the
      whole parse of a literal. */
  predicate Spells(s: string, t: string)
  {
    |s| == |t| && forall k :: 0 <= k < |s| ==> s[k] == t[k]
  }


  lemma PlainWord()
    ensures ParseExpr(Builtins, "foo", {}) == Ok((Literal("foo"), 3))
  {
    NoDollarIsLiteral(Builtins, "foo");
  }

  lemma BareParens()
    ensures ParseExpr(Builtins, "(foo)", {}) == Ok((Literal("(foo)"), 5))
  {
    NoDollarIsLiteral(Builtins, "(foo)");
  }

  lemma BareBraces()
    ensures ParseExpr(Builtins, "{foo}", {}) == Ok((Literal("{foo}"), 5))
  {
    NoDollarIsLiteral(Builtins, "{foo}");
  }

  lemma EscapedDollar()
    ensures ParseExpr(Builtins, "$$", {}) == Ok((Literal("$"), 2))
  {
    assert Escape("$") == "$$";
    EscapeRoundTrip(Builtins, "$", {});
  }

  lemma EscapeInsideText()
    ensures ParseExpr(Builtins, "foo$$bar", {}) == Ok((Literal("foo$bar"), 8))
  {
    EscapeInsideTextAt("foo$$bar");
  }

  lemma EscapeInsideTextRun(s: string)
    requires Spells(s, "foo$$bar")
    ensures ParseExpr(Builtins, s, {}) == Scan(Builtins, s, 8, {}, 0, s[0..3] + "$" + s[5..8], [])
  {
    ScanPlain(Builtins, s, 0, 3, {}, 0, "", []);
    assert "" + s[0..3] == s[0..3];
    assert s[3] == '$' && s[4] == '$';
    ScanEscapedDollar(Builtins, s, 3, {}, 0, s[0..3], []);
    ScanPlain(Builtins, s, 5, 8, {}, 0, s[0..3] + "$", []);
  }

  lemma EscapeInsideTextAt(s: string)
    requires Spells(s, "foo$$bar")
    ensures ParseExpr(Builtins, s, {}) == Ok((Literal("foo$bar"), 8))
  {
    EscapeInsideTextRun(s);
    assert s[0..3] + "$" + s[5..8] == "foo$bar" by {
      assert s[0] == 'f'; assert s[1] == 'o'; assert s[2] == 'o'; assert s[5] == 'b'; assert s[6] == 'a'; assert s[7] == 'r';
    }
    ScanAtEnd(Builtins, s, 8, {}, 0, "foo$bar", []);
  }

  lemma OneByteName()
    ensures ParseExpr(Builtins, "$foo", {}) == Ok((Expr([VarRef(Literal("f")), Literal("oo")]), 4))
  {
    assert Escape("oo") == "oo";
    assert ['$', 'f'] + "oo" == "$foo";
    SingleByteName(Builtins, 'f', "oo");
  }

  lemma ParenRef()
    ensures ParseExpr(Builtins, "$(foo)", {}) == Ok((VarRef(Literal("foo")), 6))
  {
    var s := "$(foo)";
    NoSpaceNoFunction(Builtins, s, 2, 5);
    VarRefAt(Builtins, s, 0, 5);
    assert s[2..5] == "foo";
    LoneRef(Builtins, s);
  }

  const SuffixIn := "$(foo:.c=.o)"

  lemma SuffixFields(s: string)
    requires Spells(s, SuffixIn)
    ensures s[2..5] == "foo" && s[6..8] == ".c" && s[9..11] == ".o"
  {
    assert s[2..5] == "foo" by {
      assert s[2] == 'f'; assert s[3] == 'o'; assert s[4] == 'o';
    }
    assert s[6..8] == ".c" by {
      assert s[6] == '.'; assert s[7] == 'c';
    }
    assert s[9..11] == ".o" by {
      assert s[9] == '.'; assert s[10] == 'o';
    }
  }

  lemma SuffixRefAt(s: string)
    requires Spells(s, SuffixIn)
    ensures ParseRef(Builtins, s, 0) == Ok((VarSubst(Literal("foo"), Literal(".c"), Literal(".o")), 12))
  {
    NoSpaceNoFunction(Builtins, s, 2, 5);
    VarSubstAt(Builtins, s, 0, 5, 8, 11);
    SuffixFields(s);
  }

  lemma SuffixSubstitution()
    ensures ParseExpr(Builtins, SuffixIn, {}) == Ok((VarSubst(Literal("foo"), Literal(".c"), Literal(".o")), 12))
  {
    SuffixRefAt(SuffixIn);
    LoneRef(Builtins, SuffixIn);
  }

  lemma MissingCloser()
    ensures ParseExpr(Builtins, "$(foo", {}) == Err(Unterminated(0))
  {
    var s := "$(foo";
    FunctionAtNone(Builtins, s, 2);
    UnclosedRef(Builtins, s, 0);
    ScanRefFails(Builtins, s, 0, {}, 0, "", []);
  }

  const SubstTextIn := "$(subst $(space),$(,),$(foo))/bar"
  const SubstBackoffIn := "$(subst $(space),$,,$(foo))"

  /** `s` opens with `$(subst `. */
  predicate SubstHeadAt(s: string)
  {
    8 < |s| && s[0] == '$' && s[1] == '(' && s[2..7] == "subst" && s[7] == ' '
  }

  /** `s` continues with the first argument `$(space)` and a comma. */
  predicate SpaceArgAt(s: string)
  {
    16 < |s| && s[8] == '$' && s[9] == '(' && s[10..15] == "space" && s[15] == ')' && s[16] == ','
  }

  /** `$(subst ` opens a call of `subst`, its arguments from byte 8. */
  lemma SubstHead(s: string)
    requires SubstHeadAt(s)
    ensures ParseRef(Builtins, s, 0) == ParseArgs(Builtins, s, 0, ')', "subst", 3, 8, [])
  {
    FixedCallStart(Builtins, s, 0, "subst");
  }

  lemma SpaceValue(s: string)
    requires SubstHeadAt(s) && SpaceArgAt(s)
    ensures ParseFrom(Builtins, s, 8, {',', ')'}) == Ok((VarRef(Literal("space")), 16))
  {
    NoSpaceNoFunction(Builtins, s, 10, 15);
    VarRefAt(Builtins, s, 8, 15);
    RefBeforeTerminator(Builtins, s, 8, {',', ')'});
  }

  /** The first argument `$(space)`, ended by a comma. */
  lemma SpaceArg(s: string)
    requires SubstHeadAt(s) && SpaceArgAt(s)
    ensures ParseArgs(Builtins, s, 0, ')', "subst", 3, 8, []) ==
      ParseArgs(Builtins, s, 0, ')', "subst", 2, 17, [VarRef(Literal("space"))])
  {
    var space := VarRef(Literal("space"));
    SpaceValue(s);
    ArgThenComma(Builtins, s, 0, "subst", 3, 8, [], space, 16);
    assert [] + [space] == [space];
  }

  /** The bytes of `$(subst $(space),`, one by one. */
  predicate SubstHeadBytes(s: string)
  {
    && 16 < |s|
    && s[0] == '$' && s[1] == '(' && s[2] == 's' && s[3] == 'u' && s[4] == 'b' && s[5] == 's' && s[6] == 't' && s[7] == ' '
    && s[8] == '$' && s[9] == '(' && s[10] == 's' && s[11] == 'p' && s[12] == 'a' && s[13] == 'c' && s[14] == 'e' && s[15] == ')'
    && s[16] == ','
  }

  lemma SubstHeadFromBytes(s: string)
    requires SubstHeadBytes(s)
    ensures SubstHeadAt(s) && SpaceArgAt(s)
  {
    assert s[2..7] == "subst";
    assert s[10..15] == "space";
  }

  lemma SubstTextBytes(s: string)
    requires Spells(s, SubstTextIn)
    ensures SubstHeadBytes(s)
  {
  }

  lemma SubstBackoffBytes(s: string)
    requires Spells(s, SubstBackoffIn)
    ensures SubstHeadBytes(s)
  {
  }

  lemma HeadOfSubstText(s: string)
    requires Spells(s, SubstTextIn)
    ensures SubstHeadAt(s) && SpaceArgAt(s)
  {
    SubstTextBytes(s);
    SubstHeadFromBytes(s);
  }

  lemma HeadOfSubstBackoff(s: string)
    requires Spells(s, SubstBackoffIn)
    ensures SubstHeadAt(s) && SpaceArgAt(s)
  {
    SubstBackoffBytes(s);
    SubstHeadFromBytes(s);
  }

  /** `$(,)`: the variable named by a comma. */
  lemma CommaRef(s: string)
    requires Spells(s, SubstTextIn)
    ensures ParseRef(Builtins, s, 17) == Ok((VarRef(Literal(",")), 21))
  {
    NoSpaceNoFunction(Builtins, s, 19, 19);
    VarRefAt(Builtins, s, 17, 20);
    assert s[19..20] == "," by {
      assert s[19] == ',';
    }
  }

  lemma CommaValue(s: string)
    requires Spells(s, SubstTextIn)
    ensures ParseFrom(Builtins, s, 17, {',', ')'}) == Ok((VarRef(Literal(",")), 21))
  {
    CommaRef(s);
    RefBeforeTerminator(Builtins, s, 17, {',', ')'});
  }

  /** The second argument, ended by the second comma. */
  lemma CommaArg(s: string)
    requires Spells(s, SubstTextIn)
    ensures ParseArgs(Builtins, s, 0, ')', "subst", 2, 17, [VarRef(Literal("space"))]) ==
      ParseArgs(Builtins, s, 0, ')', "subst", 1, 22, [VarRef(Literal("space")), VarRef(Literal(","))])
  {
    var space, comma := VarRef(Literal("space")), VarRef(Literal(","));
    CommaValue(s);
    ArgThenComma(Builtins, s, 0, "subst", 2, 17, [space], comma, 21);
    assert [space] + [comma] == [space, comma];
  }

  lemma FooRef(s: string, j: nat)
    requires j + 5 < |s| && s[j] == '$' && s[j + 1] == '(' && s[j + 2..j + 5] == "foo" && s[j + 5] == ')'
    ensures ParseRef(Builtins, s, j) == Ok((VarRef(Literal("foo")), j + 6))
  {
    NoSpaceNoFunction(Builtins, s, j + 2, j + 5);
    VarRefAt(Builtins, s, j, j + 5);
  }

  lemma FooValue(s: string)
    requires Spells(s, SubstTextIn)
    ensures ParseFrom(Builtins, s, 22, {')'}) == Ok((VarRef(Literal("foo")), 28))
  {
    assert s[24..27] == "foo" by {
      assert s[24] == 'f'; assert s[25] == 'o'; assert s[26] == 'o';
    }
    FooRef(s, 22);
    RefBeforeTerminator(Builtins, s, 22, {')'});
  }

  /** `$(foo)`, ended by the call's closer. */
  lemma FooLastArg(s: string)
    requires Spells(s, SubstTextIn)
    ensures ParseArgs(Builtins, s, 0, ')', "subst", 1, 22, [VarRef(Literal("space")), VarRef(Literal(","))]) ==
      Ok((Call("subst", [VarRef(Literal("space")), VarRef(Literal(",")), VarRef(Literal("foo"))]), 29))
  {
    var space, comma, foo := VarRef(Literal("space")), VarRef(Literal(",")), VarRef(Literal("foo"));
    FooValue(s);
    LastArg(Builtins, s, 0, "subst", 22, [space, comma], foo, 28);
    assert [space, comma] + [foo] == [space, comma, foo];
  }

  lemma SubstCallAt(s: string)
    requires Spells(s, SubstTextIn)
    ensures ParseRef(Builtins, s, 0) ==
      Ok((Call("subst", [VarRef(Literal("space")), VarRef(Literal(",")), VarRef(Literal("foo"))]), 29))
  {
    HeadOfSubstText(s);
    SubstHead(s);
    SpaceArg(s);
    CommaArg(s);
    FooLastArg(s);
  }

  lemma SubstTextAt(s: string)
    requires Spells(s, SubstTextIn)
    ensures ParseExpr(Builtins, s, {}) ==
      Ok((Expr([Call("subst", [VarRef(Literal("space")), VarRef(Literal(",")), VarRef(Literal("foo"))]), Literal("/bar")]), 33))
  {
    SubstCallAt(s);
    assert s[29..] == "/bar" by {
      assert s[29] == '/' && s[30] == 'b' && s[31] == 'a' && s[32] == 'r';
    }
    RefThenText(Builtins, s);
  }

  /** A call of `subst` whose arguments are variable references, followed by
      plain text: the result is the call and the text, in order. */
  lemma SubstWithTrailingText()
    ensures ParseExpr(Builtins, SubstTextIn, {}) ==
      Ok((Expr([Call("subst", [VarRef(Literal("space")), VarRef(Literal(",")), VarRef(Literal("foo"))]), Literal("/bar")]), 33))
  {
    SubstTextAt(SubstTextIn);
  }

  lemma BackoffValue(s: string)
    requires Spells(s, SubstBackoffIn)
    ensures ParseFrom(Builtins, s, 17, {',', ')'}) == Ok((VarRef(Literal("")), 18))
  {
    ScanBackoff(Builtins, s, 17, {',', ')'}, "", []);
    assert Flush([], "") + [VarRef(Literal(""))] == [VarRef(Literal(""))];
  }

  /** `$` right before the active comma names the empty variable and leaves
      the comma to end the second argument. */
  lemma BackoffArg(s: string)
    requires Spells(s, SubstBackoffIn)
    ensures ParseArgs(Builtins, s, 0, ')', "subst", 2, 17, [VarRef(Literal("space"))]) ==
      ParseArgs(Builtins, s, 0, ')', "subst", 1, 19, [VarRef(Literal("space")), VarRef(Literal(""))])
  {
    var space, empty := VarRef(Literal("space")), VarRef(Literal(""));
    BackoffValue(s);
    ArgThenComma(Builtins, s, 0, "subst", 2, 17, [space], empty, 18);
    assert [space] + [empty] == [space, empty];
  }

  /** The last argument: the remaining comma is literal text before `$(foo)`. */
  lemma CommaThenFoo(s: string)
    requires Spells(s, SubstBackoffIn)
    ensures ParseFrom(Builtins, s, 19, {')'}) == Ok((Expr([Literal(","), VarRef(Literal("foo"))]), 26))
  {
    ScanInertByte(Builtins, s, 19, {')'}, 0, "", []);
    assert "" + [s[19]] == ",";
    FooAfterComma(s);
  }

  lemma FooAfterComma(s: string)
    requires Spells(s, SubstBackoffIn)
    ensures Scan(Builtins, s, 20, {')'}, 0, ",", []) == Ok((Expr([Literal(","), VarRef(Literal("foo"))]), 26))
  {
    var foo := VarRef(Literal("foo"));
    assert s[22..25] == "foo" by {
      assert s[22] == 'f'; assert s[23] == 'o'; assert s[24] == 'o';
    }
    FooRef(s, 20);
    ScanRef(Builtins, s, 20, {')'}, 0, ",", []);
    ScanAtTerminator(Builtins, s, 26, {')'}, "", [Literal(","), foo]);
    assert Flush([], ",") + [foo] == [Literal(","), foo];
  }

  lemma CommaThenFooLast(s: string)
    requires Spells(s, SubstBackoffIn)
    ensures ParseArgs(Builtins, s, 0, ')', "subst", 1, 19, [VarRef(Literal("space")), VarRef(Literal(""))]) ==
      Ok((Call("subst", [VarRef(Literal("space")), VarRef(Literal("")), Expr([Literal(","), VarRef(Literal("foo"))])]), 27))
  {
    var space, empty, last := VarRef(Literal("space")), VarRef(Literal("")), Expr([Literal(","), VarRef(Literal("foo"))]);
    CommaThenFoo(s);
    LastArg(Builtins, s, 0, "subst", 19, [space, empty], last, 26);
    assert [space, empty] + [last] == [space, empty, last];
  }

  lemma SubstBackoffAt(s: string)
    requires Spells(s, SubstBackoffIn)
    ensures ParseExpr(Builtins, s, {}) ==
      Ok((Call("subst", [VarRef(Literal("space")), VarRef(Literal("")), Expr([Literal(","), VarRef(Literal("foo"))])]), 27))
  {
    HeadOfSubstBackoff(s);
    SubstHead(s);
    SpaceArg(s);
    BackoffArg(s);
    CommaThenFooLast(s);
    LoneRef(Builtins, s);
  }

  /** A `$` followed by an active comma is an empty variable reference; the
      comma that ends the argument is the next one, not the one after `$`. */
  lemma SubstWithBackoff()
    ensures ParseExpr(Builtins, SubstBackoffIn, {}) ==
      Ok((Call("subst", [VarRef(Literal("space")), VarRef(Literal("")), Expr([Literal(","), VarRef(Literal("foo"))])]), 27))
  {
    SubstBackoffAt(SubstBackoffIn);
  }

  const ShellParensIn := "$(shell echo '()')"
  const ShellParenQuoteIn := "$(shell echo ')')"
  const ShellBraceQuoteIn := "${shell echo ')'}"
  const ShellBraceBraceIn := "${shell echo '}'}"
  // The long `shell` case, written in pieces: the command, the script up
  // to its `$`, and the regular expression after it.
  const MakeCommand := "make --version | "
  const MakeScript := "ruby -n0e 'puts "
  const MakeRegex := @"_[/Make (\d)/,1]'"
  const ShellMakeIn := "$(shell " + MakeCommand + MakeScript + "$$" + MakeRegex + ")"
  const ShellMakeOut := MakeCommand + MakeScript + "$" + MakeRegex

  /** `s` opens with `$(shell ` or `${shell `. */
  predicate ShellHeadAt(s: string)
  {
    8 < |s| && OpenerAt(s, 0) && s[2..7] == "shell" && s[7] == ' '
  }

  /** A `shell` call takes everything up to its closer as one argument. */
  lemma ShellCall(s: string, arg: Value, e: nat)
    requires ShellHeadAt(s)
    requires ParseFrom(Builtins, s, 8, {CloserOf(s[1])}) == Ok((arg, e)) && e < |s|
    ensures ParseRef(Builtins, s, 0) == Ok((Call("shell", [arg]), e + 1))
  {
    ShellIsCall(s);
    CallRest(Builtins, s, 0, "shell", arg, e);
  }

  lemma ShellIsCall(s: string)
    requires ShellHeadAt(s)
    ensures ParseRef(Builtins, s, 0) == ParseCall(Builtins, s, 0, CloserOf(s[1]), "shell")
  {
    FunctionAtFinds(Builtins, s, 2, "shell");
    RefIsCall(Builtins, s, 0, "shell");
  }

  /** `s` opens with `$(shell echo '` or `${shell echo '`. */
  lemma ShellEchoHead(s: string)
    requires 13 < |s| && (s[1] == '(' || s[1] == '{')
    requires s[0] == '$' && s[2] == 's' && s[3] == 'h' && s[4] == 'e' && s[5] == 'l' && s[6] == 'l' && s[7] == ' '
    requires s[8] == 'e' && s[9] == 'c' && s[10] == 'h' && s[11] == 'o' && s[12] == ' ' && s[13] == '\''
    ensures ShellHeadAt(s) && s[8..14] == "echo '"
  {
  }

  lemma ShellParensArg(s: string)
    requires Spells(s, ShellParensIn)
    ensures ParseFrom(Builtins, s, 8, {')'}) == Ok((Literal("echo '()'"), 17))
  {
    ShellEchoHead(s);
    ScanPlain(Builtins, s, 8, 14, {')'}, 0, "", []);
    ScanGroup(Builtins, s, 14, 15, {')'}, 0, "" + s[8..14], []);
    ScanPlain(Builtins, s, 16, 17, {')'}, 0, "" + s[8..14] + s[14..16], []);
    ScanAtTerminator(Builtins, s, 17, {')'}, "" + s[8..14] + s[14..16] + s[16..17], []);
    assert "" + s[8..14] + s[14..16] + s[16..17] == "echo '()'";
  }

  /** Brackets of the closer's own family nest inside a call's argument, so
      the `)` they enclose does not end the call. */
  lemma ShellWithParens()
    ensures ParseExpr(Builtins, ShellParensIn, {}) == Ok((Call("shell", [Literal("echo '()'")]), 18))
  {
    var s := ShellParensIn;
    ShellParensArg(s);
    ShellEchoHead(s);
    ShellCall(s, Literal("echo '()'"), 17);
    LoneRef(Builtins, s);
  }

  /** With `$(` the first `)` ends the call, even inside quotes; the rest
      of the input is plain text. */
  lemma ShellParenInQuotes()
    ensures ParseExpr(Builtins, ShellParenQuoteIn, {}) ==
      Ok((Expr([Call("shell", [Literal("echo '")]), Literal("')")]), 17))
  {
    QuotedCloserAt(ShellParenQuoteIn);
  }

  /** With `${` a `)` is ordinary text and only `}` ends the call. */
  lemma ShellBraceWithParen()
    ensures ParseExpr(Builtins, ShellBraceQuoteIn, {}) == Ok((Call("shell", [Literal("echo ')'")]), 17))
  {
    var s := ShellBraceQuoteIn;
    ShellEchoHead(s);
    PlainUpTo(Builtins, s, 8, 16, {'}'});
    assert s[8..16] == "echo ')'";
    ShellCall(s, Literal("echo ')'"), 16);
    LoneRef(Builtins, s);
  }

  /** With `${` the first `}` ends the call, even inside quotes. */
  lemma ShellBraceInQuotes()
    ensures ParseExpr(Builtins, ShellBraceBraceIn, {}) ==
      Ok((Expr([Call("shell", [Literal("echo '")]), Literal("'}")]), 17))
  {
    QuotedCloserAt(ShellBraceBraceIn);
  }

  /** `$(shell echo ')` or `${shell echo '}`: the call ends at the closer
      after the quote. */
  lemma QuotedCloserCall(s: string)
    requires 14 < |s| && (s[1] == '(' || s[1] == '{')
    requires s[0] == '$' && s[2] == 's' && s[3] == 'h' && s[4] == 'e' && s[5] == 'l' && s[6] == 'l' && s[7] == ' '
    requires s[8] == 'e' && s[9] == 'c' && s[10] == 'h' && s[11] == 'o' && s[12] == ' ' && s[13] == '\'' && s[14] == CloserOf(s[1])
    ensures ParseRef(Builtins, s, 0) == Ok((Call("shell", [Literal("echo '")]), 15))
  {
    ShellEchoHead(s);
    PlainUpTo(Builtins, s, 8, 14, {CloserOf(s[1])});
    ShellCall(s, Literal("echo '"), 14);
  }

  /** The same call followed by the quote and the closer it left over. */
  lemma QuotedCloserAt(s: string)
    requires |s| == 17 && (s[1] == '(' || s[1] == '{')
    requires s[0] == '$' && s[2] == 's' && s[3] == 'h' && s[4] == 'e' && s[5] == 'l' && s[6] == 'l' && s[7] == ' '
    requires s[8] == 'e' && s[9] == 'c' && s[10] == 'h' && s[11] == 'o' && s[12] == ' ' && s[13] == '\''
    requires s[14] == CloserOf(s[1]) && s[15] == '\'' && s[16] == CloserOf(s[1])
    ensures ParseExpr(Builtins, s, {}) ==
      Ok((Expr([Call("shell", [Literal("echo '")]), Literal(['\'', CloserOf(s[1])])]), 17))
  {
    QuotedCloserCall(s);
    assert s[15..] == ['\'', CloserOf(s[1])];
    RefThenText(Builtins, s);
  }

  /** The argument of the long `shell` call: plain text, one `$$` escape and
      one nested `( … )` group, ended by the call's closer at byte 60. */
  lemma ShellMakeHead(s: string)
    requires Spells(s, ShellMakeIn)
    ensures ShellHeadAt(s)
  {
    assert s[0] == '$'; assert s[1] == '(';
    assert s[2..7] == "shell" by {
      assert s[2] == 's'; assert s[3] == 'h'; assert s[4] == 'e'; assert s[5] == 'l'; assert s[6] == 'l';
    }
    assert s[7] == ' ';
  }

  lemma ShellMakeCommandPlain(s: string)
    requires Spells(s, ShellMakeIn)
    ensures PlainText(s, 8, 25, {')'})
  {
    assert PlainText(s, 8, 16, {')'});
    assert PlainText(s, 16, 25, {')'});
  }

  lemma ShellMakeScriptPlain(s: string)
    requires Spells(s, ShellMakeIn)
    ensures PlainText(s, 25, 41, {')'})
  {
    assert PlainText(s, 25, 33, {')'});
    assert PlainText(s, 33, 41, {')'});
  }

  lemma ShellMakeRegexPlain(s: string)
    requires Spells(s, ShellMakeIn)
    ensures PlainText(s, 43, 51, {')'}) && PlainText(s, 52, 54, {')'}) && PlainText(s, 55, 60, {')'})
    ensures s[51] == '(' && s[54] == ')' && s[60] == ')'
  {
  }

  /** The front of the long call's argument: plain text, then `$$`. */
  lemma ShellMakeFront(s: string)
    requires Spells(s, ShellMakeIn)
    ensures Scan(Builtins, s, 8, {')'}, 0, "", []) == Scan(Builtins, s, 43, {')'}, 0, s[8..41] + "$", [])
  {
    ShellMakeCommandPlain(s);
    ShellMakeScriptPlain(s);
    assert s[41] == '$' && s[42] == '$';
    ScanPlain(Builtins, s, 8, 41, {')'}, 0, "", []);
    assert "" + s[8..41] == s[8..41];
    ScanEscapedDollar(Builtins, s, 41, {')'}, 0, s[8..41], []);
  }

  /** The back of the long call's argument: a nested `( … )` group inside
      plain text, up to the call's closer at byte 60. */
  lemma ShellMakeBack(s: string, run: string)
    requires Spells(s, ShellMakeIn)
    ensures Scan(Builtins, s, 43, {')'}, 0, run, []) == Ok((Literal(run + s[43..60]), 60))
  {
    ShellMakeGroup(s, run);
    ShellMakeTail(s, run + s[43..55]);
    assert run + s[43..55] + s[55..60] == run + s[43..60];
  }

  lemma ShellMakeGroup(s: string, run: string)
    requires Spells(s, ShellMakeIn)
    ensures Scan(Builtins, s, 43, {')'}, 0, run, []) == Scan(Builtins, s, 55, {')'}, 0, run + s[43..55], [])
  {
    ShellMakeRegexPlain(s);
    ScanPlain(Builtins, s, 43, 51, {')'}, 0, run, []);
    ScanGroup(Builtins, s, 51, 54, {')'}, 0, run + s[43..51], []);
    assert run + s[43..51] + s[51..55] == run + s[43..55];
  }

  lemma ShellMakeTail(s: string, run: string)
    requires Spells(s, ShellMakeIn)
    ensures Scan(Builtins, s, 55, {')'}, 0, run, []) == Ok((Literal(run + s[55..60]), 60))
  {
    ShellMakeRegexPlain(s);
    ScanPlain(Builtins, s, 55, 60, {')'}, 0, run, []);
    ScanAtTerminator(Builtins, s, 60, {')'}, run + s[55..60], []);
  }

  lemma ShellMakeCommand(s: string)
    requires Spells(s, ShellMakeIn)
    ensures s[8..25] == MakeCommand
  {
    assert s[8] == 'm'; assert s[9] == 'a'; assert s[10] == 'k'; assert s[11] == 'e'; assert s[12] == ' ';
    assert s[13] == '-'; assert s[14] == '-'; assert s[15] == 'v'; assert s[16] == 'e'; assert s[17] == 'r';
    assert s[18] == 's'; assert s[19] == 'i'; assert s[20] == 'o'; assert s[21] == 'n'; assert s[22] == ' ';
    assert s[23] == '|'; assert s[24] == ' ';
  }

  lemma ShellMakeScript(s: string)
    requires Spells(s, ShellMakeIn)
    ensures s[25..41] == MakeScript
  {
    assert s[25] == 'r'; assert s[26] == 'u'; assert s[27] == 'b'; assert s[28] == 'y'; assert s[29] == ' ';
    assert s[30] == '-'; assert s[31] == 'n'; assert s[32] == '0'; assert s[33] == 'e'; assert s[34] == ' ';
    assert s[35] == '\''; assert s[36] == 'p'; assert s[37] == 'u'; assert s[38] == 't'; assert s[39] == 's';
    assert s[40] == ' ';
  }

  lemma ShellMakeRegex(s: string)
    requires Spells(s, ShellMakeIn)
    ensures s[43..60] == MakeRegex
  {
    assert s[43] == '_'; assert s[44] == '['; assert s[45] == '/'; assert s[46] == 'M'; assert s[47] == 'a';
    assert s[48] == 'k'; assert s[49] == 'e'; assert s[50] == ' '; assert s[51] == '('; assert s[52] == '\\';
    assert s[53] == 'd'; assert s[54] == ')'; assert s[55] == '/'; assert s[56] == ','; assert s[57] == '1';
    assert s[58] == ']'; assert s[59] == '\'';
  }

  lemma ShellMakeText(s: string)
    requires Spells(s, ShellMakeIn)
    ensures s[8..41] + "$" + s[43..60] == ShellMakeOut
  {
    ShellMakeCommand(s);
    ShellMakeScript(s);
    ShellMakeRegex(s);
    assert s[8..41] == s[8..25] + s[25..41];
  }

  lemma ShellMakeArg(s: string)
    requires Spells(s, ShellMakeIn)
    ensures ParseFrom(Builtins, s, 8, {')'}) == Ok((Literal(ShellMakeOut), 60))
  {
    ShellMakeFront(s);
    ShellMakeBack(s, s[8..41] + "$");
    ShellMakeText(s);
  }

  /** `$$` inside a call's argument is an escaped dollar, and the `( … )`
      group inside quotes nests, so the call ends at the last `)`. */
  lemma ShellWithEscapeAndGroup()
    ensures ParseExpr(Builtins, ShellMakeIn, {}) == Ok((Call("shell", [Literal(ShellMakeOut)]), 61))
  {
    ShellMakeAt(ShellMakeIn);
  }

  lemma ShellMakeAt(s: string)
    requires Spells(s, ShellMakeIn)
    ensures ParseExpr(Builtins, s, {}) == Ok((Call("shell", [Literal(ShellMakeOut)]), 61))
  {
    ShellMakeArg(s);
    ShellMakeHead(s);
    ShellCall(s, Literal(ShellMakeOut), 60);
    LoneRef(Builtins, s);
  }
}
