/**
 * Properties of the parser that hold for all inputs: which texts are
 * literal, what a `$`-escape, a one-byte name and the terminator backoff
 * produce, how reference bodies are classified, and how function
 * arguments are split.
 */
module ParserLemmas {
  import opened Registry
  import opened Values
  import opened Parser

  /** A byte the scanner copies into the literal run without further ado
      (apart from `$`, whose escaping is handled by `Escape`). */
  predicate Inert(ch: char, terms: set<char>) {
    ch !in terms && !(IsOpener(ch) && Family(terms) == Some(CloserOf(ch)))
  }

  /** `s[i..j]` is ordinary text for a scan with these terminators. */
  predicate PlainText(s: string, i: nat, j: nat, terms: set<char>)
    requires i <= j <= |s|
  {
    forall k :: i <= k < j ==> s[k] != '$' && Inert(s[k], terms)
  }

  /** The text that stands for the one literal byte `ch`. */
  function EscapeOne(ch: char): (r: string)
    ensures |r| >= 1 && r[0] == ch
  {
    if ch == '$' then "$$" else [ch]
  }

  /** The text that stands for the literal `t`: every `$` doubled. */
  function Escape(t: string): (r: string)
    ensures |r| >= |t|
  {
    if t == [] then [] else EscapeOne(t[0]) + Escape(t[1..])
  }

  lemma {:induction false} EscapeNoDollar(t: string)
    requires forall k :: 0 <= k < |t| ==> t[k] != '$'
    ensures Escape(t) == t
    decreases |t|
  {
    if t != [] {
      EscapeNoDollar(t[1..]);
      assert [t[0]] + t[1..] == t;
    }
  }

  /** One ordinary byte joins the pending run. */
  lemma ScanInertByte(reg: Registry, s: string, i: nat, terms: set<char>, depth: nat, run: string, parts: seq<Value>)
    requires i < |s| && s[i] != '$' && Inert(s[i], terms) && Pending(parts)
    ensures Scan(reg, s, i, terms, depth, run, parts) == Scan(reg, s, i + 1, terms, depth, run + [s[i]], parts)
  {
  }

  /** `$$` joins one `$` to the pending run. */
  lemma ScanEscapedDollar(reg: Registry, s: string, i: nat, terms: set<char>, depth: nat, run: string, parts: seq<Value>)
    requires i + 1 < |s| && s[i] == '$' && s[i + 1] == '$' && '$' !in terms && Pending(parts)
    ensures Scan(reg, s, i, terms, depth, run, parts) == Scan(reg, s, i + 2, terms, depth, run + "$", parts)
  {
  }

  /** The bytes of `s` from `i` on spell the escape of `t`, one escaped
      byte at a time. */
  predicate EscapedAt(s: string, i: nat, t: string)
    decreases |t|
  {
    && i + |Escape(t)| <= |s|
    && (t != [] ==>
         && s[i] == t[0] && (t[0] == '$' ==> s[i + 1] == '$')
         && EscapedAt(s, i + |EscapeOne(t[0])|, t[1..]))
  }

  /** The escape of `t`, wherever it stands in a text, spells `t`. */
  lemma {:induction false} EscapeSpelled(p: string, t: string, q: string)
    ensures EscapedAt(p + Escape(t) + q, |p|, t)
    decreases |t|
  {
    if t != [] {
      var h := EscapeOne(t[0]);
      assert p + Escape(t) + q == (p + h) + Escape(t[1..]) + q;
      EscapeSpelled(p + h, t[1..], q);
      var s := p + Escape(t) + q;
      assert s[|p|] == h[0];
      if t[0] == '$' {
        assert s[|p| + 1] == h[1];
      }
    }
  }

  /** The escape of one byte, whichever it is, joins that byte to the
      pending run. */
  lemma ScanEscapedOne(reg: Registry, s: string, i: nat, ch: char, terms: set<char>, depth: nat, run: string, parts: seq<Value>)
    requires i + |EscapeOne(ch)| <= |s| && s[i] == ch && (ch == '$' ==> s[i + 1] == '$')
    requires Inert(ch, terms) && Pending(parts)
    ensures Scan(reg, s, i, terms, depth, run, parts) == Scan(reg, s, i + |EscapeOne(ch)|, terms, depth, run + [ch], parts)
  {
    if ch == '$' {
      ScanEscapedDollar(reg, s, i, terms, depth, run, parts);
      assert run + "$" == run + [ch];
    } else {
      ScanInertByte(reg, s, i, terms, depth, run, parts);
    }
  }

  /** What one step over escaped text leaves: the first byte read, the
      rest still escaped, and the run grown by the first byte. */
  lemma EscapedStep(s: string, i: nat, t: string, run: string)
    requires EscapedAt(s, i, t)
    ensures t == [] ==> run + t == run
    ensures t != [] ==>
      && i + |EscapeOne(t[0])| <= |s| && s[i] == t[0] && (t[0] == '$' ==> s[i + 1] == '$')
      && EscapedAt(s, i + |EscapeOne(t[0])|, t[1..])
      && i + |EscapeOne(t[0])| + |Escape(t[1..])| == i + |Escape(t)|
      && run + [t[0]] + t[1..] == run + t
  {
    if t != [] {
      assert run + [t[0]] + t[1..] == run + ([t[0]] + t[1..]);
      assert [t[0]] + t[1..] == t;
    } else {
      assert run + t == run;
    }
  }

  /** The first step over escaped text: the first byte joins the run,
      and the rest is still escaped and ends where the whole did. */
  lemma EscapedHead(reg: Registry, s: string, i: nat, t: string, terms: set<char>, depth: nat, run: string, parts: seq<Value>)
    requires EscapedAt(s, i, t) && t != []
    requires Inert(t[0], terms) && Pending(parts)
    ensures EscapedAt(s, i + |EscapeOne(t[0])|, t[1..])
    ensures i + |EscapeOne(t[0])| + |Escape(t[1..])| == i + |Escape(t)|
    ensures run + [t[0]] + t[1..] == run + t
    ensures Scan(reg, s, i, terms, depth, run, parts) == Scan(reg, s, i + |EscapeOne(t[0])|, terms, depth, run + [t[0]], parts)
  {
    EscapedStep(s, i, t, run);
    ScanEscapedOne(reg, s, i, t[0], terms, depth, run, parts);
  }

  /** Scanning escaped text appends the unescaped text to the pending run
      and changes nothing else. */
  lemma {:induction false} ScanEscaped(reg: Registry, s: string, i: nat, t: string, terms: set<char>, depth: nat, run: string, parts: seq<Value>)
    requires EscapedAt(s, i, t)
    requires forall k :: 0 <= k < |t| ==> Inert(t[k], terms)
    requires Pending(parts)
    ensures Scan(reg, s, i, terms, depth, run, parts) == Scan(reg, s, i + |Escape(t)|, terms, depth, run + t, parts)
    decreases |t|
  {
    if t != [] {
      EscapedHead(reg, s, i, t, terms, depth, run, parts);
      ScanEscaped(reg, s, i + |EscapeOne(t[0])|, t[1..], terms, depth, run + [t[0]], parts);
    } else {
      assert run + t == run;
    }
  }

  /** The same, for a stretch of the input with no `$` in it. */
  lemma {:induction false} ScanPlain(reg: Registry, s: string, i: nat, j: nat, terms: set<char>, depth: nat, run: string, parts: seq<Value>)
    requires i <= j <= |s| && PlainText(s, i, j, terms)
    requires Pending(parts)
    ensures Scan(reg, s, i, terms, depth, run, parts) == Scan(reg, s, j, terms, depth, run + s[i..j], parts)
    decreases j - i
  {
    if i < j {
      ScanInertByte(reg, s, i, terms, depth, run, parts);
      ScanPlain(reg, s, i + 1, j, terms, depth, run + [s[i]], parts);
      assert run + [s[i]] + s[i + 1..j] == run + s[i..j];
    } else {
      assert run + s[i..j] == run;
    }
  }

  /** Escaping round-trips: the escaped text of `t` parses to the single
      literal `t`, consuming all of it.  Bare brackets are ordinary text
      when no terminator closes them. */
  lemma EscapeRoundTrip(reg: Registry, t: string, terms: set<char>)
    requires forall k :: 0 <= k < |t| ==> Inert(t[k], terms)
    ensures ParseExpr(reg, Escape(t), terms) == Ok((Literal(t), |Escape(t)|))
  {
    var s := Escape(t);
    EscapeSpelled([], t, []);
    assert [] + s + [] == s;
    ScanEscaped(reg, s, 0, t, terms, 0, "", []);
    RoundTripEnd(reg, s, t, terms);
  }

  /** A parse whose scan reaches the end of the input with `t` pending and
      no part gives the literal `t`. */
  lemma RoundTripEnd(reg: Registry, s: string, t: string, terms: set<char>)
    requires |Escape(t)| == |s|
    requires Scan(reg, s, 0, terms, 0, "", []) == Scan(reg, s, |Escape(t)|, terms, 0, "" + t, [])
    ensures ParseExpr(reg, s, terms) == Ok((Literal(t), |s|))
  {
    ScanAtEnd(reg, s, |Escape(t)|, terms, 0, "" + t, []);
    assert "" + t == t;
    assert ParseExpr(reg, s, terms) == ParseFrom(reg, s, 0, terms) == Scan(reg, s, 0, terms, 0, "", []);
  }

  /** Text without `$` is one literal equal to the input. */
  lemma NoDollarIsLiteral(reg: Registry, s: string)
    requires '$' !in s
    ensures ParseExpr(reg, s, {}) == Ok((Literal(s), |s|))
  {
    EscapeNoDollar(s);
    EscapeRoundTrip(reg, s, {});
  }

  /** Once a reference has been appended, the scan can no longer produce
      a literal. */
  lemma {:induction false} ScanAfterPartNotLiteral(reg: Registry, s: string, i: nat, terms: set<char>, depth: nat, run: string, parts: seq<Value>)
    requires i <= |s| && Pending(parts) && |parts| > 0
    ensures Scan(reg, s, i, terms, depth, run, parts).Ok? ==> !Scan(reg, s, i, terms, depth, run, parts).value.0.Literal?
    decreases |s| - i, 1
  {
    if i == |s| || (depth == 0 && s[i] in terms) {
    } else if s[i] == '$' {
      DollarAfterPartNotLiteral(reg, s, i, terms, depth, run, parts);
    } else if IsOpener(s[i]) && Family(terms) == Some(CloserOf(s[i])) {
      ScanAfterPartNotLiteral(reg, s, i + 1, terms, depth + 1, run + [s[i]], parts);
    } else if depth > 0 && Family(terms) == Some(s[i]) {
      ScanAfterPartNotLiteral(reg, s, i + 1, terms, depth - 1, run + [s[i]], parts);
    } else {
      ScanAfterPartNotLiteral(reg, s, i + 1, terms, depth, run + [s[i]], parts);
    }
  }

  lemma {:induction false} DollarAfterPartNotLiteral(reg: Registry, s: string, i: nat, terms: set<char>, depth: nat, run: string, parts: seq<Value>)
    requires i < |s| && s[i] == '$' && Pending(parts) && |parts| > 0
    ensures ScanDollar(reg, s, i, terms, depth, run, parts).Ok? ==> !ScanDollar(reg, s, i, terms, depth, run, parts).value.0.Literal?
    decreases |s| - i, 0
  {
    if i + 1 == |s| {
    } else if s[i + 1] == '$' {
      ScanAfterPartNotLiteral(reg, s, i + 2, terms, depth, run + "$", parts);
    } else if IsOpener(s[i + 1]) {
      var r := ParseRef(reg, s, i);
      if r.Ok? {
        AppendPending(parts, run, r.value.0);
        ScanAfterPartNotLiteral(reg, s, r.value.1, terms, depth, "", Flush(parts, run) + [r.value.0]);
      }
    } else if depth == 0 && s[i + 1] in terms {
    } else {
      var v := VarRef(Literal([s[i + 1]]));
      AppendPending(parts, run, v);
      ScanAfterPartNotLiteral(reg, s, i + 2, terms, depth, "", Flush(parts, run) + [v]);
    }
  }

  /** With no terminators, a `$` not followed by `$` always produces a
      reference, so the scan's result is not a literal. */
  lemma DollarNotLiteral(reg: Registry, s: string, i: nat, depth: nat, run: string)
    requires i + 1 < |s| && s[i] == '$' && s[i + 1] != '$'
    ensures Scan(reg, s, i, {}, depth, run, []).Ok? ==> !Scan(reg, s, i, {}, depth, run, []).value.0.Literal?
  {
    if IsOpener(s[i + 1]) {
      var r := ParseRef(reg, s, i);
      if r.Ok? {
        AppendPending([], run, r.value.0);
        ScanAfterPartNotLiteral(reg, s, r.value.1, {}, depth, "", Flush([], run) + [r.value.0]);
      }
    } else {
      var v := VarRef(Literal([s[i + 1]]));
      AppendPending([], run, v);
      ScanAfterPartNotLiteral(reg, s, i + 2, {}, depth, "", Flush([], run) + [v]);
    }
  }

  /** One step back over `$$`: the escaped text grows by one literal `$`. */
  lemma EscapedDollarPrefix(s: string, i: nat, run: string, x: string)
    requires i + 1 < |s| && s[i] == '$' && s[i + 1] == '$'
    requires |run + "$"| <= |x| && x[..|run + "$"|] == run + "$" && s[i + 2..] == Escape(x[|run + "$"|..])
    ensures |run| <= |x| && x[..|run|] == run && s[i..] == Escape(x[|run|..])
  {
    var y := x[|run| + 1..];
    assert x[|run|] == (run + "$")[|run|] == '$';
    assert x[|run|..] == "$" + y;
    assert ("$" + y)[1..] == y;
    assert Escape("$" + y) == "$$" + Escape(y);
    assert s[i..] == "$$" + s[i + 2..];
  }

  /** One step back over an ordinary byte. */
  lemma EscapedBytePrefix(s: string, i: nat, run: string, x: string)
    requires i < |s| && s[i] != '$'
    requires |run + [s[i]]| <= |x| && x[..|run + [s[i]]|] == run + [s[i]] && s[i + 1..] == Escape(x[|run + [s[i]]|..])
    ensures |run| <= |x| && x[..|run|] == run && s[i..] == Escape(x[|run|..])
  {
    var y := x[|run| + 1..];
    assert x[|run|] == (run + [s[i]])[|run|] == s[i];
    assert x[|run|..] == [s[i]] + y;
    assert ([s[i]] + y)[1..] == y;
    assert Escape([s[i]] + y) == [s[i]] + Escape(y);
    assert s[i..] == [s[i]] + s[i + 1..];
  }

  /** A scan with no terminators that yields a literal has read escaped
      text only: the rest of the input is the escape of the literal's text
      beyond the pending run. */
  lemma {:induction false} ScanLiteralIsEscape(reg: Registry, s: string, i: nat, depth: nat, run: string, x: string)
    requires i <= |s|
    requires Scan(reg, s, i, {}, depth, run, []).Ok? && Scan(reg, s, i, {}, depth, run, []).value.0 == Literal(x)
    ensures |run| <= |x| && x[..|run|] == run && s[i..] == Escape(x[|run|..])
    decreases |s| - i
  {
    if i == |s| {
      assert x == run;
    } else if s[i] == '$' {
      if i + 1 == |s| {
      } else if s[i + 1] == '$' {
        ScanLiteralIsEscape(reg, s, i + 2, depth, run + "$", x);
        EscapedDollarPrefix(s, i, run, x);
      } else {
        DollarNotLiteral(reg, s, i, depth, run);
      }
    } else {
      ScanLiteralIsEscape(reg, s, i + 1, depth, run + [s[i]], x);
      EscapedBytePrefix(s, i, run, x);
    }
  }

  /** A whole input parses to a literal exactly when it is the escape of
      that literal's text. */
  lemma LiteralIffEscaped(reg: Registry, s: string, x: string)
    ensures ParseExpr(reg, s, {}).Ok? && ParseExpr(reg, s, {}).value.0 == Literal(x) <==> s == Escape(x)
  {
    if s == Escape(x) {
      EscapeRoundTrip(reg, x, {});
    }
    if ParseExpr(reg, s, {}).Ok? && ParseExpr(reg, s, {}).value.0 == Literal(x) {
      ScanLiteralIsEscape(reg, s, 0, 0, "", x);
      assert s[0..] == s;
    }
  }

  // Single steps of the scanner and of the reference parser, each in a
  // context of its own so that the proofs below only chain them.

  lemma ScanAtEnd(reg: Registry, s: string, i: nat, terms: set<char>, depth: nat, run: string, parts: seq<Value>)
    requires i == |s| && Pending(parts)
    ensures Scan(reg, s, i, terms, depth, run, parts) == Ok((Build(parts, run), i))
  {
  }

  lemma ScanAtTerminator(reg: Registry, s: string, i: nat, terms: set<char>, run: string, parts: seq<Value>)
    requires i < |s| && s[i] in terms && Pending(parts)
    ensures Scan(reg, s, i, terms, 0, run, parts) == Ok((Build(parts, run), i))
  {
  }

  lemma ScanByteName(reg: Registry, s: string, i: nat, terms: set<char>, depth: nat, run: string, parts: seq<Value>)
    requires i + 1 < |s| && s[i] == '$' && s[i + 1] != '$' && !IsOpener(s[i + 1]) && Pending(parts)
    requires depth > 0 || ('$' !in terms && s[i + 1] !in terms)
    ensures Pending(Flush(parts, run) + [VarRef(Literal([s[i + 1]]))])
    ensures Scan(reg, s, i, terms, depth, run, parts) ==
      Scan(reg, s, i + 2, terms, depth, "", Flush(parts, run) + [VarRef(Literal([s[i + 1]]))])
  {
    AppendPending(parts, run, VarRef(Literal([s[i + 1]])));
  }

  lemma ScanBackoff(reg: Registry, s: string, i: nat, terms: set<char>, run: string, parts: seq<Value>)
    requires i + 1 < |s| && s[i] == '$' && s[i + 1] != '$' && !IsOpener(s[i + 1]) && Pending(parts)
    requires '$' !in terms && s[i + 1] in terms
    ensures Scan(reg, s, i, terms, 0, run, parts) == Ok((Build(Flush(parts, run) + [VarRef(Literal(""))], ""), i + 1))
  {
  }

  lemma ScanRef(reg: Registry, s: string, i: nat, terms: set<char>, depth: nat, run: string, parts: seq<Value>)
    requires OpenerAt(s, i) && Pending(parts) && ParseRef(reg, s, i).Ok?
    requires depth > 0 || '$' !in terms
    ensures Pending(Flush(parts, run) + [ParseRef(reg, s, i).value.0])
    ensures Scan(reg, s, i, terms, depth, run, parts) ==
      Scan(reg, s, ParseRef(reg, s, i).value.1, terms, depth, "", Flush(parts, run) + [ParseRef(reg, s, i).value.0])
  {
    AppendPending(parts, run, ParseRef(reg, s, i).value.0);
  }

  lemma ScanRefFails(reg: Registry, s: string, i: nat, terms: set<char>, depth: nat, run: string, parts: seq<Value>)
    requires OpenerAt(s, i) && Pending(parts) && ParseRef(reg, s, i).Err?
    requires depth > 0 || '$' !in terms
    ensures Scan(reg, s, i, terms, depth, run, parts) == Err(ParseRef(reg, s, i).error)
  {
  }

  lemma ScanOpenGroup(reg: Registry, s: string, i: nat, terms: set<char>, depth: nat, run: string, parts: seq<Value>)
    requires i < |s| && IsOpener(s[i]) && s[i] !in terms && Family(terms) == Some(CloserOf(s[i])) && Pending(parts)
    ensures Scan(reg, s, i, terms, depth, run, parts) == Scan(reg, s, i + 1, terms, depth + 1, run + [s[i]], parts)
  {
  }

  lemma ScanCloseGroup(reg: Registry, s: string, i: nat, terms: set<char>, depth: nat, run: string, parts: seq<Value>)
    requires i < |s| && depth > 0 && Family(terms) == Some(s[i]) && Pending(parts)
    ensures Scan(reg, s, i, terms, depth, run, parts) == Scan(reg, s, i + 1, terms, depth - 1, run + [s[i]], parts)
  {
  }

  lemma RefIsVar(reg: Registry, s: string, i: nat)
    requires OpenerAt(s, i) && FunctionAt(reg, s, i + 2) == None
    ensures ParseRef(reg, s, i) == ParseVar(reg, s, i, CloserOf(s[i + 1]))
  {
  }

  lemma RefIsCall(reg: Registry, s: string, i: nat, f: string)
    requires OpenerAt(s, i) && FunctionAt(reg, s, i + 2) == Some(f)
    ensures i + 2 + |f| < |s|
    ensures ParseRef(reg, s, i) == ParseCall(reg, s, i, CloserOf(s[i + 1]), f)
  {
  }

  lemma VarPlain(reg: Registry, s: string, i: nat, v: Value, e: nat)
    requires OpenerAt(s, i)
    requires ParseFrom(reg, s, i + 2, {CloserOf(s[i + 1]), ':'}) == Ok((v, e))
    requires e < |s| && s[e] == CloserOf(s[i + 1])
    ensures ParseVar(reg, s, i, CloserOf(s[i + 1])) == Ok((VarRef(v), e + 1))
  {
  }

  lemma VarSubstitution(reg: Registry, s: string, i: nat, name: Value, e1: nat, pat: Value, e2: nat, repl: Value, e3: nat)
    requires OpenerAt(s, i)
    requires ParseFrom(reg, s, i + 2, {CloserOf(s[i + 1]), ':'}) == Ok((name, e1)) && e1 < |s| && s[e1] == ':'
    requires ParseFrom(reg, s, e1 + 1, {CloserOf(s[i + 1]), '='}) == Ok((pat, e2)) && e2 < |s| && s[e2] == '='
    requires ParseFrom(reg, s, e2 + 1, {CloserOf(s[i + 1])}) == Ok((repl, e3)) && e3 < |s|
    ensures ParseVar(reg, s, i, CloserOf(s[i + 1])) == Ok((VarSubst(name, pat, repl), e3 + 1))
  {
  }

  lemma VarColonOnly(reg: Registry, s: string, i: nat, name: Value, e1: nat, pat: Value, e2: nat, whole: Value, e: nat)
    requires OpenerAt(s, i)
    requires ParseFrom(reg, s, i + 2, {CloserOf(s[i + 1]), ':'}) == Ok((name, e1)) && e1 < |s| && s[e1] == ':'
    requires ParseFrom(reg, s, e1 + 1, {CloserOf(s[i + 1]), '='}) == Ok((pat, e2)) && e2 < |s| && s[e2] == CloserOf(s[i + 1])
    requires ParseFrom(reg, s, i + 2, {CloserOf(s[i + 1])}) == Ok((whole, e)) && e < |s|
    ensures ParseVar(reg, s, i, CloserOf(s[i + 1])) == Ok((VarRef(whole), e + 1))
  {
  }

  lemma CallRest(reg: Registry, s: string, i: nat, f: string, arg: Value, e: nat)
    requires OpenerAt(s, i) && f in reg && reg[f] == Rest && i + 2 + |f| < |s|
    requires ParseFrom(reg, s, i + 3 + |f|, {CloserOf(s[i + 1])}) == Ok((arg, e)) && e < |s|
    ensures ParseCall(reg, s, i, CloserOf(s[i + 1]), f) == Ok((Call(f, [arg]), e + 1))
  {
  }

  lemma CallFixed(reg: Registry, s: string, i: nat, f: string)
    requires OpenerAt(s, i) && f in reg && reg[f].Fixed? && i + 2 + |f| < |s|
    ensures ParseCall(reg, s, i, CloserOf(s[i + 1]), f) == ParseArgs(reg, s, i, CloserOf(s[i + 1]), f, reg[f].count, i + 3 + |f|, [])
  {
  }

  lemma ArgThenComma(reg: Registry, s: string, i: nat, f: string, left: ArgCount, j: nat, done: seq<Value>, arg: Value, e: nat)
    requires OpenerAt(s, i) && i < j <= |s| && left > 1
    requires f in reg && reg[f].Fixed? && |done| + left == reg[f].count
    requires ParseFrom(reg, s, j, {',', CloserOf(s[i + 1])}) == Ok((arg, e)) && e < |s| && s[e] == ','
    ensures ParseArgs(reg, s, i, CloserOf(s[i + 1]), f, left, j, done) ==
      ParseArgs(reg, s, i, CloserOf(s[i + 1]), f, left - 1, e + 1, done + [arg])
  {
  }

  lemma LastArg(reg: Registry, s: string, i: nat, f: string, j: nat, done: seq<Value>, arg: Value, e: nat)
    requires OpenerAt(s, i) && i < j <= |s|
    requires f in reg && reg[f].Fixed? && |done| + 1 == reg[f].count
    requires ParseFrom(reg, s, j, {CloserOf(s[i + 1])}) == Ok((arg, e)) && e < |s|
    ensures ParseArgs(reg, s, i, CloserOf(s[i + 1]), f, 1, j, done) == Ok((Call(f, done + [arg]), e + 1))
  {
  }

  /** After a reference `v`, escaped text up to the end of the input joins
      `v` as the value's literal tail. */
  lemma EscapedTail(reg: Registry, s: string, i: nat, t: string, v: Value)
    requires i + |Escape(t)| == |s| && EscapedAt(s, i, t) && Pending([v])
    ensures Scan(reg, s, i, {}, 0, "", [v]) == Ok((Build([v], t), |s|))
  {
    ScanEscaped(reg, s, i, t, {}, 0, "", [v]);
    ScanToEnd(reg, s, i, t, v);
  }

  /** A scan that reaches the end of the input with `t` as its pending run
      builds `v` followed by `t`. */
  lemma ScanToEnd(reg: Registry, s: string, i: nat, t: string, v: Value)
    requires i + |Escape(t)| == |s| && Pending([v])
    requires Scan(reg, s, i, {}, 0, "", [v]) == Scan(reg, s, i + |Escape(t)|, {}, 0, "" + t, [v])
    ensures Scan(reg, s, i, {}, 0, "", [v]) == Ok((Build([v], t), |s|))
  {
    ScanAtEnd(reg, s, i + |Escape(t)|, {}, 0, "" + t, [v]);
    assert "" + t == t;
  }

  /** `$x` at the start of the input, x an ordinary byte: the scan goes on
      after it with the reference to `x` as its first part. */
  lemma ByteNameStart(reg: Registry, s: string, x: char)
    requires 2 <= |s| && s[0] == '$' && s[1] == x && x != '$' && !IsOpener(x)
    ensures Pending([VarRef(Literal([x]))])
    ensures ParseExpr(reg, s, {}) == Scan(reg, s, 2, {}, 0, "", [VarRef(Literal([x]))])
  {
    ScanByteName(reg, s, 0, {}, 0, "", []);
    assert Flush([], "") + [VarRef(Literal([s[1]]))] == [VarRef(Literal([x]))];
  }

  /** `$x` for an ordinary byte x names the variable `x`; the text after it
      continues as a literal. */
  lemma SingleByteName(reg: Registry, x: char, t: string)
    requires x != '$' && !IsOpener(x)
    ensures ParseExpr(reg, ['$', x] + Escape(t), {}) ==
      Ok((if t == [] then VarRef(Literal([x])) else Expr([VarRef(Literal([x])), Literal(t)]), 2 + |Escape(t)|))
  {
    var s := ['$', x] + Escape(t);
    var v := VarRef(Literal([x]));
    assert s[0] == '$' && s[1] == x;
    EscapeSpelled(['$', x], t, []);
    assert s + [] == s;
    ByteNameValue(reg, s, x, t);
    assert [v] + [Literal(t)] == [v, Literal(t)];
  }

  /** The same, for an input already known to spell `$x` and then `t`
      escaped. */
  lemma ByteNameValue(reg: Registry, s: string, x: char, t: string)
    requires 2 <= |s| && s[0] == '$' && s[1] == x && x != '$' && !IsOpener(x)
    requires EscapedAt(s, 2, t) && 2 + |Escape(t)| == |s|
    ensures ParseExpr(reg, s, {}) == Ok((Build([VarRef(Literal([x]))], t), |s|))
  {
    ByteNameStart(reg, s, x);
    EscapedTail(reg, s, 2, t, VarRef(Literal([x])));
  }

  /** Terminator backoff: `$` followed by an active terminator names the
      empty variable and stops the scan just before the terminator. */
  lemma Backoff(reg: Registry, x: char, rest: string, terms: set<char>)
    requires x in terms && x != '$' && !IsOpener(x) && '$' !in terms
    ensures ParseExpr(reg, ['$', x] + rest, terms) == Ok((VarRef(Literal("")), 1))
  {
    var s := ['$', x] + rest;
    assert s[0] == '$' && s[1] == x;
    ScanBackoff(reg, s, 0, terms, "", []);
  }

  /** A body with no space before its first non-name byte cannot start
      with a function name. */
  lemma NoSpaceNoFunction(reg: Registry, s: string, b: nat, j: nat)
    requires b <= j < |s| && !NameChar(s[j]) && s[j] != ' '
    requires forall k :: b <= k < j ==> s[k] != ' '
    ensures FunctionAt(reg, s, b) == None
  {
  }

  /** A plain scan up to a terminator yields the literal text it read. */
  lemma PlainUpTo(reg: Registry, s: string, i: nat, j: nat, terms: set<char>)
    requires i <= j < |s| && PlainText(s, i, j, terms) && s[j] in terms
    ensures ParseFrom(reg, s, i, terms) == Ok((Literal(s[i..j]), j))
  {
    ScanPlain(reg, s, i, j, terms, 0, "", []);
    ScanAtTerminator(reg, s, j, terms, "" + s[i..j], []);
    assert "" + s[i..j] == s[i..j];
  }

  /** `$(name)` for plain name text is a reference to the literal name. */
  lemma VarRefAt(reg: Registry, s: string, i: nat, j: nat)
    requires OpenerAt(s, i) && i + 2 <= j < |s| && s[j] == CloserOf(s[i + 1])
    requires PlainText(s, i + 2, j, {CloserOf(s[i + 1]), ':'})
    requires FunctionAt(reg, s, i + 2) == None
    ensures ParseRef(reg, s, i) == Ok((VarRef(Literal(s[i + 2..j])), j + 1))
  {
    var c := CloserOf(s[i + 1]);
    PlainUpTo(reg, s, i + 2, j, {c, ':'});
    VarPlain(reg, s, i, Literal(s[i + 2..j]), j);
    RefIsVar(reg, s, i);
  }

  /** `$(name:pat=repl)` with plain fields is a substitution reference
      whose three fields are split at the first top-level `:` and the
      first `=` after it. */
  lemma VarSubstAt(reg: Registry, s: string, i: nat, j1: nat, j2: nat, j3: nat)
    requires OpenerAt(s, i) && i + 2 <= j1 < j2 < j3 < |s|
    requires s[j1] == ':' && s[j2] == '=' && s[j3] == CloserOf(s[i + 1])
    requires PlainText(s, i + 2, j1, {CloserOf(s[i + 1]), ':'})
    requires PlainText(s, j1 + 1, j2, {CloserOf(s[i + 1]), '='})
    requires PlainText(s, j2 + 1, j3, {CloserOf(s[i + 1])})
    requires FunctionAt(reg, s, i + 2) == None
    ensures ParseRef(reg, s, i) == Ok((VarSubst(Literal(s[i + 2..j1]), Literal(s[j1 + 1..j2]), Literal(s[j2 + 1..j3])), j3 + 1))
  {
    var c := CloserOf(s[i + 1]);
    PlainUpTo(reg, s, i + 2, j1, {c, ':'});
    PlainUpTo(reg, s, j1 + 1, j2, {c, '='});
    PlainUpTo(reg, s, j2 + 1, j3, {c});
    VarSubstitution(reg, s, i, Literal(s[i + 2..j1]), j1, Literal(s[j1 + 1..j2]), j2, Literal(s[j2 + 1..j3]), j3);
    RefIsVar(reg, s, i);
  }

  /** `$(name:text)` with no `=` after the colon is a plain reference whose
      name is the whole body, colon included. */
  lemma ColonWithoutEquals(reg: Registry, s: string, i: nat, j1: nat, j: nat)
    requires OpenerAt(s, i) && i + 2 <= j1 < j < |s|
    requires s[j1] == ':' && s[j] == CloserOf(s[i + 1])
    requires PlainText(s, i + 2, j1, {CloserOf(s[i + 1]), ':'})
    requires PlainText(s, j1 + 1, j, {CloserOf(s[i + 1]), '='})
    requires FunctionAt(reg, s, i + 2) == None
    ensures ParseRef(reg, s, i) == Ok((VarRef(Literal(s[i + 2..j])), j + 1))
  {
    var c := CloserOf(s[i + 1]);
    PlainUpTo(reg, s, i + 2, j1, {c, ':'});
    PlainUpTo(reg, s, j1 + 1, j, {c, '='});
    assert PlainText(s, i + 2, j, {c});
    PlainUpTo(reg, s, i + 2, j, {c});
    VarColonOnly(reg, s, i, Literal(s[i + 2..j1]), j1, Literal(s[j1 + 1..j]), j, Literal(s[i + 2..j]), j);
    RefIsVar(reg, s, i);
  }

  /** A reference whose name runs to the end of the input is unterminated,
      and the error names the reference's own `$`. */
  lemma UnclosedRef(reg: Registry, s: string, i: nat)
    requires OpenerAt(s, i) && PlainText(s, i + 2, |s|, {CloserOf(s[i + 1]), ':'})
    requires FunctionAt(reg, s, i + 2) == None
    ensures ParseRef(reg, s, i) == Err(Unterminated(i))
  {
    var c := CloserOf(s[i + 1]);
    ScanPlain(reg, s, i + 2, |s|, {c, ':'}, 0, "", []);
    ScanAtEnd(reg, s, |s|, {c, ':'}, 0, "" + s[i + 2..], []);
    RefIsVar(reg, s, i);
  }

  /** A rest-arity call keeps its whole argument text, commas included, as
      its one argument; brackets of the other family are ordinary text. */
  lemma RestCallAt(reg: Registry, s: string, i: nat, f: string, j: nat)
    requires OpenerAt(s, i) && f in reg && reg[f] == Rest && IsWord(f)
    requires i + 3 + |f| <= j < |s| && s[i + 2..i + 2 + |f|] == f && s[i + 2 + |f|] == ' '
    requires s[j] == CloserOf(s[i + 1]) && PlainText(s, i + 3 + |f|, j, {CloserOf(s[i + 1])})
    ensures ParseRef(reg, s, i) == Ok((Call(f, [Literal(s[i + 3 + |f|..j])]), j + 1))
  {
    var c := CloserOf(s[i + 1]);
    FunctionAtFinds(reg, s, i + 2, f);
    PlainUpTo(reg, s, i + 3 + |f|, j, {c});
    CallRest(reg, s, i, f, Literal(s[i + 3 + |f|..j]), j);
    RefIsCall(reg, s, i, f);
  }

  /** A rest-arity call whose argument text holds no `$` and balances the
      brackets of its own family, nested to any depth, keeps that whole text
      as its one argument: only a closer left unmatched ends the call. */
  lemma RestCallNested(reg: Registry, s: string, i: nat, f: string, a: string)
    requires OpenerAt(s, i) && f in reg && reg[f] == Rest && IsWord(f)
    requires i + 3 + |f| + |a| < |s| && s[i + 2..i + 2 + |f|] == f && s[i + 2 + |f|] == ' '
    requires CopyAt(s, i + 3 + |f|, a) && BalancedFrom(a, s[i + 1], 0)
    requires s[i + 3 + |f| + |a|] == CloserOf(s[i + 1])
    ensures ParseRef(reg, s, i) == Ok((Call(f, [Literal(a)]), i + 4 + |f| + |a|))
  {
    var b := i + 3 + |f|;
    FunctionAtFinds(reg, s, i + 2, f);
    NestedUpTo(reg, s, b, a, s[i + 1]);
    CallRest(reg, s, i, f, Literal(a), b + |a|);
    RefIsCall(reg, s, i, f);
  }

  /** Balanced `$`-free text up to an unmatched closer of its family, the
      only terminator, parses to that text as one literal. */
  lemma NestedUpTo(reg: Registry, s: string, b: nat, a: string, o: char)
    requires IsOpener(o) && CopyAt(s, b, a) && BalancedFrom(a, o, 0)
    requires b + |a| < |s| && s[b + |a|] == CloserOf(o)
    ensures ParseFrom(reg, s, b, {CloserOf(o)}) == Ok((Literal(a), b + |a|))
  {
    var c := CloserOf(o);
    ScanNested(reg, s, b, a, o, {c}, 0, 0, "", []);
    ScanAtTerminator(reg, s, b + |a|, {c}, "" + a, []);
    assert "" + a == a;
  }

  /** A reference by itself is returned bare, not wrapped in a sequence. */
  lemma LoneRef(reg: Registry, s: string)
    requires OpenerAt(s, 0) && ParseRef(reg, s, 0).Ok? && ParseRef(reg, s, 0).value.1 == |s|
    ensures ParseExpr(reg, s, {}) == ParseRef(reg, s, 0)
  {
    var (v, e) := ParseRef(reg, s, 0).value;
    ScanRef(reg, s, 0, {}, 0, "", []);
    assert Flush([], "") + [v] == [v];
    ScanAtEnd(reg, s, e, {}, 0, "", [v]);
  }

  /** A reference followed by plain text gives the two as a sequence. */
  lemma RefThenText(reg: Registry, s: string)
    requires OpenerAt(s, 0) && ParseRef(reg, s, 0).Ok?
    requires ParseRef(reg, s, 0).value.1 < |s| && PlainText(s, ParseRef(reg, s, 0).value.1, |s|, {})
    ensures ParseExpr(reg, s, {}) == Ok((Expr([ParseRef(reg, s, 0).value.0, Literal(s[ParseRef(reg, s, 0).value.1..])]), |s|))
  {
    var (v, e) := ParseRef(reg, s, 0).value;
    ScanRef(reg, s, 0, {}, 0, "", []);
    assert Flush([], "") + [v] == [v];
    var t := s[e..];
    assert "" + s[e..|s|] == t;
    assert [v] + [Literal(t)] == [v, Literal(t)];
    ScanPlain(reg, s, e, |s|, {}, 0, "", [v]);
    ScanAtEnd(reg, s, |s|, {}, 0, t, [v]);
  }

  /** A reference that ends just before a terminator is the whole value of
      that scan. */
  lemma RefBeforeTerminator(reg: Registry, s: string, j: nat, terms: set<char>)
    requires OpenerAt(s, j) && ParseRef(reg, s, j).Ok? && '$' !in terms
    requires ParseRef(reg, s, j).value.1 < |s| && s[ParseRef(reg, s, j).value.1] in terms
    ensures ParseFrom(reg, s, j, terms) == ParseRef(reg, s, j)
  {
    var (v, e) := ParseRef(reg, s, j).value;
    ScanRef(reg, s, j, terms, 0, "", []);
    assert Flush([], "") + [v] == [v];
    ScanAtTerminator(reg, s, e, terms, "", [v]);
  }

  /** Same-family bare brackets nest: inside them the closer is ordinary
      text, and the matching closer does not stop the scan. */
  lemma ScanGroup(reg: Registry, s: string, i: nat, j: nat, terms: set<char>, depth: nat, run: string, parts: seq<Value>)
    requires i < j < |s| && IsOpener(s[i]) && s[i] !in terms && Family(terms) == Some(CloserOf(s[i])) && s[j] == CloserOf(s[i])
    requires PlainText(s, i + 1, j, terms)
    requires Pending(parts)
    ensures Scan(reg, s, i, terms, depth, run, parts) == Scan(reg, s, j + 1, terms, depth, run + s[i..j + 1], parts)
  {
    var inner := run + [s[i]] + s[i + 1..j];
    assert inner + [s[j]] == run + s[i..j + 1];
    ScanOpenGroup(reg, s, i, terms, depth, run, parts);
    ScanPlain(reg, s, i + 1, j, terms, depth + 1, run + [s[i]], parts);
    ScanCloseGroup(reg, s, j, terms, depth + 1, inner, parts);
  }

  /** `t` closes every `o` it opens, given `e` already open: a bracket
      count that never drops below zero and ends at zero.  Brackets of the
      other family are ordinary bytes. */
  predicate BalancedFrom(t: string, o: char, e: nat)
    decreases |t|
  {
    if t == [] then e == 0
    else if t[0] == o then BalancedFrom(t[1..], o, e + 1)
    else if t[0] == CloserOf(o) then e > 0 && BalancedFrom(t[1..], o, e - 1)
    else BalancedFrom(t[1..], o, e)
  }

  /** The bytes of `s` from `i` on spell `t`, which holds no `$`. */
  predicate CopyAt(s: string, i: nat, t: string)
    decreases |t|
  {
    && i + |t| <= |s|
    && (t != [] ==> s[i] == t[0] && t[0] != '$' && CopyAt(s, i + 1, t[1..]))
  }

  /** One byte inside a group of the tracked family: it joins the run, and
      the count of open brackets moves as `BalancedFrom` moves it. */
  lemma NestedHead(reg: Registry, s: string, i: nat, t: string, o: char, terms: set<char>, d: nat, e: nat, run: string, parts: seq<Value>)
    returns (e': nat)
    requires IsOpener(o) && Family(terms) == Some(CloserOf(o))
    requires d >= 1 || terms == {CloserOf(o)}
    requires CopyAt(s, i, t) && t != [] && BalancedFrom(t, o, e) && Pending(parts)
    ensures CopyAt(s, i + 1, t[1..]) && BalancedFrom(t[1..], o, e')
    ensures i + 1 + |t[1..]| == i + |t| && run + [t[0]] + t[1..] == run + t
    ensures Scan(reg, s, i, terms, d + e, run, parts) == Scan(reg, s, i + 1, terms, d + e', run + [t[0]], parts)
  {
    assert run + [t[0]] + t[1..] == run + ([t[0]] + t[1..]);
    assert [t[0]] + t[1..] == t;
    if t[0] == o {
      e' := e + 1;
    } else if t[0] == CloserOf(o) {
      e' := e - 1;
    } else {
      e' := e;
    }
  }

  /** Inside a group of the tracked family, at whatever depth, `$`-free
      text that closes the `e` brackets it finds open is copied into the run
      whole, terminators included, and the scan comes back to the group's
      own depth.  The same holds at the top level when the family's closer
      is the only terminator, as for a rest argument. */
  lemma {:induction false} ScanNested(reg: Registry, s: string, i: nat, t: string, o: char, terms: set<char>, d: nat, e: nat, run: string, parts: seq<Value>)
    requires IsOpener(o) && Family(terms) == Some(CloserOf(o))
    requires d >= 1 || terms == {CloserOf(o)}
    requires CopyAt(s, i, t) && BalancedFrom(t, o, e) && Pending(parts)
    ensures Scan(reg, s, i, terms, d + e, run, parts) == Scan(reg, s, i + |t|, terms, d, run + t, parts)
    decreases |t|
  {
    if t != [] {
      var e' := NestedHead(reg, s, i, t, o, terms, d, e, run, parts);
      ScanNested(reg, s, i + 1, t[1..], o, terms, d, e', run + [t[0]], parts);
    } else {
      assert run + t == run;
    }
  }

  /** A same-family bracket group whose inside is balanced, nested to any
      depth, is copied into the literal run whole; the closers inside it and
      the terminators inside it do not end the scan. */
  lemma ScanNestedGroup(reg: Registry, s: string, i: nat, inner: string, terms: set<char>, depth: nat, run: string, parts: seq<Value>)
    requires i < |s| && IsOpener(s[i]) && s[i] !in terms && Family(terms) == Some(CloserOf(s[i]))
    requires CopyAt(s, i + 1, inner) && BalancedFrom(inner, s[i], 0)
    requires i + 1 + |inner| < |s| && s[i + 1 + |inner|] == CloserOf(s[i])
    requires Pending(parts)
    ensures Scan(reg, s, i, terms, depth, run, parts) ==
      Scan(reg, s, i + 2 + |inner|, terms, depth, run + ([s[i]] + inner + [CloserOf(s[i])]), parts)
  {
    var o := s[i];
    var j := i + 1 + |inner|;
    ScanOpenGroup(reg, s, i, terms, depth, run, parts);
    ScanNested(reg, s, i + 1, inner, o, terms, depth + 1, 0, run + [o], parts);
    ScanCloseGroup(reg, s, j, terms, depth + 1, run + [o] + inner, parts);
    assert run + [o] + inner + [s[j]] == run + ([o] + inner + [CloserOf(o)]);
  }

  /** `cuts` are the positions of the separators of a fixed-arity call's
      plain arguments from `j` on: each argument but the last is plain text
      ended by a comma, and the last is plain text ended by the closer `c`,
      in which commas are ordinary text. */
  predicate PlainArgsAt(s: string, j: nat, cuts: seq<nat>, c: char)
    decreases |cuts|
  {
    && |cuts| > 0
    && j <= cuts[0] < |s|
    && if |cuts| == 1 then
         s[cuts[0]] == c && PlainText(s, j, cuts[0], {c})
       else
         s[cuts[0]] == ',' && PlainText(s, j, cuts[0], {',', c}) && PlainArgsAt(s, cuts[0] + 1, cuts[1..], c)
  }

  /** The literal arguments the separators `cuts` delimit. */
  function Segments(s: string, j: nat, cuts: seq<nat>, c: char): (args: seq<Value>)
    requires PlainArgsAt(s, j, cuts, c)
    ensures |args| == |cuts|
    decreases |cuts|
  {
    if |cuts| == 1 then [Literal(s[j..cuts[0]])]
    else [Literal(s[j..cuts[0]])] + Segments(s, cuts[0] + 1, cuts[1..], c)
  }

  lemma PlainArgThenComma(reg: Registry, s: string, i: nat, f: string, left: ArgCount, j: nat, done: seq<Value>, cuts: seq<nat>)
    requires OpenerAt(s, i) && i < j <= |s| && left > 1
    requires f in reg && reg[f].Fixed? && |done| + left == reg[f].count
    requires |cuts| == left && PlainArgsAt(s, j, cuts, CloserOf(s[i + 1]))
    ensures ParseArgs(reg, s, i, CloserOf(s[i + 1]), f, left, j, done) ==
      ParseArgs(reg, s, i, CloserOf(s[i + 1]), f, left - 1, cuts[0] + 1, done + [Literal(s[j..cuts[0]])])
  {
    PlainUpTo(reg, s, j, cuts[0], {',', CloserOf(s[i + 1])});
    ArgThenComma(reg, s, i, f, left, j, done, Literal(s[j..cuts[0]]), cuts[0]);
  }

  lemma PlainLastArg(reg: Registry, s: string, i: nat, f: string, j: nat, done: seq<Value>, cuts: seq<nat>)
    requires OpenerAt(s, i) && i < j <= |s|
    requires f in reg && reg[f].Fixed? && |done| + 1 == reg[f].count
    requires |cuts| == 1 && PlainArgsAt(s, j, cuts, CloserOf(s[i + 1]))
    ensures ParseArgs(reg, s, i, CloserOf(s[i + 1]), f, 1, j, done) ==
      Ok((Call(f, done + [Literal(s[j..cuts[0]])]), cuts[0] + 1))
  {
    PlainUpTo(reg, s, j, cuts[0], {CloserOf(s[i + 1])});
    LastArg(reg, s, i, f, j, done, Literal(s[j..cuts[0]]), cuts[0]);
  }

  /** The first segment, and the segments after it. */
  lemma SegmentsFirst(s: string, j: nat, cuts: seq<nat>, c: char, done: seq<Value>)
    requires PlainArgsAt(s, j, cuts, c)
    ensures |cuts| == 1 ==> done + Segments(s, j, cuts, c) == done + [Literal(s[j..cuts[0]])]
    ensures |cuts| > 1 ==> PlainArgsAt(s, cuts[0] + 1, cuts[1..], c)
    ensures |cuts| > 1 ==>
      done + Segments(s, j, cuts, c) == done + [Literal(s[j..cuts[0]])] + Segments(s, cuts[0] + 1, cuts[1..], c)
    ensures |cuts| > 1 ==> cuts[1..][|cuts[1..]| - 1] == cuts[|cuts| - 1]
  {
    if |cuts| > 1 {
      var rest := Segments(s, cuts[0] + 1, cuts[1..], c);
      assert done + [Literal(s[j..cuts[0]])] + rest == done + ([Literal(s[j..cuts[0]])] + rest);
    }
  }

  /** One comma step of the splitting: given the arguments after the
      first comma, the first argument joins them. */
  lemma PlainArgsMore(reg: Registry, s: string, i: nat, f: string, left: ArgCount, j: nat, done: seq<Value>, cuts: seq<nat>)
    requires OpenerAt(s, i) && i < j <= |s| && left > 1
    requires f in reg && reg[f].Fixed? && |done| + left == reg[f].count
    requires |cuts| == left && PlainArgsAt(s, j, cuts, CloserOf(s[i + 1])) && PlainArgsAt(s, cuts[0] + 1, cuts[1..], CloserOf(s[i + 1]))
    requires ParseArgs(reg, s, i, CloserOf(s[i + 1]), f, left - 1, cuts[0] + 1, done + [Literal(s[j..cuts[0]])]) ==
      Ok((Call(f, done + [Literal(s[j..cuts[0]])] + Segments(s, cuts[0] + 1, cuts[1..], CloserOf(s[i + 1]))), cuts[1..][|cuts[1..]| - 1] + 1))
    ensures ParseArgs(reg, s, i, CloserOf(s[i + 1]), f, left, j, done) ==
      Ok((Call(f, done + Segments(s, j, cuts, CloserOf(s[i + 1]))), cuts[|cuts| - 1] + 1))
  {
    SegmentsFirst(s, j, cuts, CloserOf(s[i + 1]), done);
    PlainArgThenComma(reg, s, i, f, left, j, done, cuts);
  }

  /** Comma splitting: plain arguments from `j` on become one literal each,
      and the call ends just past the closer. */
  lemma {:induction false} PlainArgs(reg: Registry, s: string, i: nat, f: string, left: ArgCount, j: nat, done: seq<Value>, cuts: seq<nat>)
    requires OpenerAt(s, i) && i < j <= |s|
    requires f in reg && reg[f].Fixed? && |done| + left == reg[f].count
    requires |cuts| == left && PlainArgsAt(s, j, cuts, CloserOf(s[i + 1]))
    ensures ParseArgs(reg, s, i, CloserOf(s[i + 1]), f, left, j, done) ==
      Ok((Call(f, done + Segments(s, j, cuts, CloserOf(s[i + 1]))), cuts[|cuts| - 1] + 1))
    decreases left
  {
    SegmentsFirst(s, j, cuts, CloserOf(s[i + 1]), done);
    if left == 1 {
      PlainLastArg(reg, s, i, f, j, done, cuts);
    } else {
      PlainArgs(reg, s, i, f, left - 1, cuts[0] + 1, done + [Literal(s[j..cuts[0]])], cuts[1..]);
      PlainArgsMore(reg, s, i, f, left, j, done, cuts);
    }
  }

  /** A reference whose body starts with a fixed-arity function's name
      and a space is a call of it, its arguments from just past the space. */
  lemma FixedCallStart(reg: Registry, s: string, i: nat, f: string)
    requires OpenerAt(s, i) && f in reg && reg[f].Fixed? && IsWord(f)
    requires i + 3 + |f| <= |s| && s[i + 2..i + 2 + |f|] == f && s[i + 2 + |f|] == ' '
    ensures ParseRef(reg, s, i) == ParseArgs(reg, s, i, CloserOf(s[i + 1]), f, reg[f].count, i + 3 + |f|, [])
  {
    FunctionAtFinds(reg, s, i + 2, f);
    RefIsCall(reg, s, i, f);
    CallFixed(reg, s, i, f);
  }

  /** A fixed-arity call with plain arguments: exactly as many literal
      arguments as the arity, split at the top-level commas. */
  lemma FixedCallAt(reg: Registry, s: string, i: nat, f: string, cuts: seq<nat>)
    requires OpenerAt(s, i) && f in reg && reg[f].Fixed? && IsWord(f)
    requires i + 3 + |f| <= |s| && s[i + 2..i + 2 + |f|] == f && s[i + 2 + |f|] == ' '
    requires |cuts| == reg[f].count && PlainArgsAt(s, i + 3 + |f|, cuts, CloserOf(s[i + 1]))
    ensures ParseRef(reg, s, i) ==
      Ok((Call(f, Segments(s, i + 3 + |f|, cuts, CloserOf(s[i + 1]))), cuts[|cuts| - 1] + 1))
  {
    FixedCallStart(reg, s, i, f);
    PlainArgs(reg, s, i, f, reg[f].count, i + 3 + |f|, [], cuts);
    assert [] + Segments(s, i + 3 + |f|, cuts, CloserOf(s[i + 1])) == Segments(s, i + 3 + |f|, cuts, CloserOf(s[i + 1]));
  }
}
