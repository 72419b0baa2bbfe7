/**
 * The macro-expression parser: one left-to-right pass over the input that
 * builds a `Value`, stopping at the first byte of `terms` met outside any
 * bracket it is nesting, or at the end of the input.  References `$(...)`
 * and `${...}` are parsed by mutually recursive functions that call the
 * scanner again for their names, patterns and arguments.
 *
 * Every function works on the whole input `s` and a position in it; the
 * position returned on success is the absolute index where scanning
 * stopped (for a reference, just past its closer).
 */
module Parser {
  import opened Registry
  import opened Values

  predicate IsOpener(ch: char) {
    ch == '(' || ch == '{'
  }

  function CloserOf(ch: char): char {
    if ch == '(' then ')' else '}'
  }

  /** The bracket family whose nesting the scanner tracks: the one whose
      closer is a terminator. */
  function Family(terms: set<char>): (c: Option<char>)
    ensures c.Some? ==> c.value in terms
  {
    if ')' in terms then Some(')') else if '}' in terms then Some('}') else None
  }

  /** `$(` or `${` starts at `k`. */
  predicate OpenerAt(s: string, k: nat) {
    k + 1 < |s| && s[k] == '$' && IsOpener(s[k + 1])
  }

  /** The scanner.  `depth` counts the bare brackets of the terminators'
      family opened and not yet closed; while it is positive no terminator
      is active.  `run` is the pending literal text, `parts` the finished
      parts. */
  function Scan(reg: Registry, s: string, i: nat, terms: set<char>, depth: nat, run: string, parts: seq<Value>): (r: Result<(Value, nat)>)
    requires i <= |s|
    requires Pending(parts)
    ensures r.Ok? ==> i <= r.value.1 <= |s|
    ensures r.Ok? && r.value.1 < |s| ==> s[r.value.1] in terms
    ensures r.Err? ==> i <= r.error.offset && OpenerAt(s, r.error.offset)
    decreases |s| - i, 4
  {
    if i == |s| then
      Ok((Build(parts, run), i))
    else if depth == 0 && s[i] in terms then
      Ok((Build(parts, run), i))
    else if s[i] == '$' then
      ScanDollar(reg, s, i, terms, depth, run, parts)
    else if IsOpener(s[i]) && Family(terms) == Some(CloserOf(s[i])) then
      Scan(reg, s, i + 1, terms, depth + 1, run + [s[i]], parts)
    else if depth > 0 && Family(terms) == Some(s[i]) then
      Scan(reg, s, i + 1, terms, depth - 1, run + [s[i]], parts)
    else
      Scan(reg, s, i + 1, terms, depth, run + [s[i]], parts)
  }

  /** The scanner at a `$` that does not end the scan. */
  function ScanDollar(reg: Registry, s: string, i: nat, terms: set<char>, depth: nat, run: string, parts: seq<Value>): (r: Result<(Value, nat)>)
    requires i < |s| && s[i] == '$'
    requires Pending(parts)
    ensures r.Ok? ==> i <= r.value.1 <= |s|
    ensures r.Ok? && r.value.1 < |s| ==> s[r.value.1] in terms
    ensures r.Err? ==> i <= r.error.offset && OpenerAt(s, r.error.offset)
    decreases |s| - i, 3
  {
    if i + 1 == |s| then
      // A `$` with nothing after it names the empty variable.
      Ok((Build(Flush(parts, run) + [VarRef(Literal(""))], ""), |s|))
    else if s[i + 1] == '$' then
      // `$$` is a literal `$`, merged into the pending run.
      Scan(reg, s, i + 2, terms, depth, run + "$", parts)
    else if IsOpener(s[i + 1]) then
      var (v, e) :- ParseRef(reg, s, i);
      AppendPending(parts, run, v);
      Scan(reg, s, e, terms, depth, "", Flush(parts, run) + [v])
    else if depth == 0 && s[i + 1] in terms then
      // Terminator backoff: the terminator is not taken as a name.
      Ok((Build(Flush(parts, run) + [VarRef(Literal(""))], ""), i + 1))
    else
      // `$x` refers to the variable named by the single byte x.
      AppendPending(parts, run, VarRef(Literal([s[i + 1]])));
      Scan(reg, s, i + 2, terms, depth, "", Flush(parts, run) + [VarRef(Literal([s[i + 1]]))])
  }

  /** Parses from `i` until a terminator or the end of the input. */
  function ParseFrom(reg: Registry, s: string, i: nat, terms: set<char>): (r: Result<(Value, nat)>)
    requires i <= |s|
    ensures r.Ok? ==> i <= r.value.1 <= |s|
    ensures r.Ok? && r.value.1 < |s| ==> s[r.value.1] in terms
    ensures r.Err? ==> i <= r.error.offset && OpenerAt(s, r.error.offset)
    decreases |s| - i, 5
  {
    Scan(reg, s, i, terms, 0, "", [])
  }

  /** A reference `$(...)` or `${...}` starting at `i`: a function call when
      the body starts with a registered name and a space, otherwise a
      variable or substitution reference. */
  function ParseRef(reg: Registry, s: string, i: nat): (r: Result<(Value, nat)>)
    requires OpenerAt(s, i)
    ensures r.Ok? ==> i + 2 < r.value.1 <= |s| && s[r.value.1 - 1] == CloserOf(s[i + 1])
    ensures r.Ok? ==> IsPart(r.value.0) && !r.value.0.Literal?
    ensures r.Ok? ==> (r.value.0.Call? <==> FunctionAt(reg, s, i + 2).Some?)
    ensures r.Ok? && r.value.0.Call? ==>
      && r.value.0.fname == FunctionAt(reg, s, i + 2).value
      && |r.value.0.args| == ArgsOf(reg[r.value.0.fname])
    ensures r.Err? ==> i <= r.error.offset && OpenerAt(s, r.error.offset)
    decreases |s| - i, 2
  {
    var c := CloserOf(s[i + 1]);
    match FunctionAt(reg, s, i + 2)
    case Some(f) => ParseCall(reg, s, i, c, f)
    case None => ParseVar(reg, s, i, c)
  }

  /** `name`, or `name:pat=repl`.  The colon and the equals sign are found
      at the body's top level. */
  function ParseVar(reg: Registry, s: string, i: nat, c: char): (r: Result<(Value, nat)>)
    requires OpenerAt(s, i) && c == CloserOf(s[i + 1])
    ensures r.Ok? ==> i + 2 < r.value.1 <= |s| && s[r.value.1 - 1] == c
    ensures r.Ok? ==> (r.value.0.VarRef? || r.value.0.VarSubst?)
    ensures r.Err? ==> i <= r.error.offset && OpenerAt(s, r.error.offset)
    decreases |s| - i, 1
  {
    var (name, e1) :- ParseFrom(reg, s, i + 2, {c, ':'});
    if e1 == |s| then Err(Unterminated(i))
    else if s[e1] == c then Ok((VarRef(name), e1 + 1))
    else ParseSubst(reg, s, i, c, name, e1)
  }

  /** The body after the top-level colon at `e1`: `pat=repl` makes a
      substitution reference; with no equals sign the whole body, colon
      included, is a plain name. */
  function ParseSubst(reg: Registry, s: string, i: nat, c: char, name: Value, e1: nat): (r: Result<(Value, nat)>)
    requires OpenerAt(s, i) && c == CloserOf(s[i + 1]) && i + 2 <= e1 < |s|
    ensures r.Ok? ==> i + 2 < r.value.1 <= |s| && s[r.value.1 - 1] == c
    ensures r.Ok? ==> (r.value.0.VarRef? || r.value.0.VarSubst?)
    ensures r.Err? ==> i <= r.error.offset && OpenerAt(s, r.error.offset)
    decreases |s| - i, 0
  {
    var (pat, e2) :- ParseFrom(reg, s, e1 + 1, {c, '='});
    if e2 == |s| then Err(Unterminated(i))
    else if s[e2] == '=' then
      var (repl, e3) :- ParseFrom(reg, s, e2 + 1, {c});
      if e3 == |s| then Err(Unterminated(i)) else Ok((VarSubst(name, pat, repl), e3 + 1))
    else
      var (whole, e) :- ParseFrom(reg, s, i + 2, {c});
      if e == |s| then Err(Unterminated(i)) else Ok((VarRef(whole), e + 1))
  }

  /** A call of the registered function `f`, whose name and separating
      space start the body of the reference at `i`. */
  function ParseCall(reg: Registry, s: string, i: nat, c: char, f: string): (r: Result<(Value, nat)>)
    requires OpenerAt(s, i) && c == CloserOf(s[i + 1]) && f in reg && i + 2 + |f| < |s|
    ensures r.Ok? ==> i + 2 < r.value.1 <= |s| && s[r.value.1 - 1] == c
    ensures r.Ok? ==> r.value.0.Call? && r.value.0.fname == f && |r.value.0.args| == ArgsOf(reg[f])
    ensures r.Err? ==> i <= r.error.offset && OpenerAt(s, r.error.offset)
    decreases |s| - i, 0
  {
    var b := i + 2 + |f| + 1;
    match reg[f]
    case Rest =>
      var (arg, e) :- ParseFrom(reg, s, b, {c});
      if e == |s| then Err(Unterminated(i)) else Ok((Call(f, [arg]), e + 1))
    case Fixed(n) => ParseArgs(reg, s, i, c, f, n, b, [])
  }

  /** Missing trailing arguments of a fixed-arity call. */
  function Pad(k: nat): seq<Value> {
    seq(k, _ => Literal(""))
  }

  /** The arguments of a fixed-arity call from `j` on, `left` of them still
      to come: each but the last stops at a top-level comma, the last runs
      to the closer. */
  function ParseArgs(reg: Registry, s: string, i: nat, c: char, f: string, left: ArgCount, j: nat, done: seq<Value>): (r: Result<(Value, nat)>)
    requires OpenerAt(s, i) && c == CloserOf(s[i + 1]) && i < j <= |s|
    requires f in reg && reg[f].Fixed? && |done| + left == reg[f].count
    ensures r.Ok? ==> j < r.value.1 <= |s| && s[r.value.1 - 1] == c
    ensures r.Ok? ==> r.value.0.Call? && r.value.0.fname == f
    ensures r.Ok? ==> |r.value.0.args| == |done| + left && r.value.0.args[..|done|] == done
    ensures r.Err? ==> i <= r.error.offset && OpenerAt(s, r.error.offset)
    decreases |s| - j, 6
  {
    if left == 1 then
      var (arg, e) :- ParseFrom(reg, s, j, {c});
      if e == |s| then Err(Unterminated(i)) else Ok((Call(f, done + [arg]), e + 1))
    else
      var (arg, e) :- ParseFrom(reg, s, j, {',', c});
      if e == |s| then Err(Unterminated(i))
      else if s[e] == ',' then ParseArgs(reg, s, i, c, f, left - 1, e + 1, done + [arg])
      else Ok((Call(f, done + [arg] + Pad(left - 1)), e + 1))
  }

  /** The parser's entry point: the value of `s` up to the first active
      terminator, and how many bytes that took. */
  function ParseExpr(reg: Registry, s: string, terms: set<char>): (r: Result<(Value, nat)>)
    ensures r.Ok? ==> r.value.1 <= |s|
    ensures r.Ok? ==> r.value.1 == |s| || s[r.value.1] in terms
    ensures r.Ok? && terms == {} ==> r.value.1 == |s|
    ensures r.Err? ==> OpenerAt(s, r.error.offset)
    ensures r.Ok? ==> WellFormed(reg, r.value.0)
  {
    ParseFromWellFormed(reg, s, 0, terms);
    ParseFrom(reg, s, 0, terms)
  }

  // Every value the parser builds is well formed.  The proof follows the
  // parser's own mutual recursion, one lemma per function.

  lemma {:induction false} ScanWellFormed(reg: Registry, s: string, i: nat, terms: set<char>, depth: nat, run: string, parts: seq<Value>)
    requires i <= |s| && Pending(parts) && AllWellFormed(reg, parts)
    ensures Scan(reg, s, i, terms, depth, run, parts).Ok? ==> WellFormed(reg, Scan(reg, s, i, terms, depth, run, parts).value.0)
    decreases |s| - i, 4
  {
    if i == |s| || (depth == 0 && s[i] in terms) {
      BuildWellFormed(reg, parts, run);
    } else if s[i] == '$' {
      ScanDollarWellFormed(reg, s, i, terms, depth, run, parts);
    } else if IsOpener(s[i]) && Family(terms) == Some(CloserOf(s[i])) {
      ScanWellFormed(reg, s, i + 1, terms, depth + 1, run + [s[i]], parts);
    } else if depth > 0 && Family(terms) == Some(s[i]) {
      ScanWellFormed(reg, s, i + 1, terms, depth - 1, run + [s[i]], parts);
    } else {
      ScanWellFormed(reg, s, i + 1, terms, depth, run + [s[i]], parts);
    }
  }

  lemma {:induction false} ScanDollarWellFormed(reg: Registry, s: string, i: nat, terms: set<char>, depth: nat, run: string, parts: seq<Value>)
    requires i < |s| && s[i] == '$'
    requires Pending(parts) && AllWellFormed(reg, parts)
    ensures ScanDollar(reg, s, i, terms, depth, run, parts).Ok? ==> WellFormed(reg, ScanDollar(reg, s, i, terms, depth, run, parts).value.0)
    decreases |s| - i, 3
  {
    if i + 1 == |s| || (s[i + 1] != '$' && !IsOpener(s[i + 1]) && depth == 0 && s[i + 1] in terms) {
      var v := VarRef(Literal(""));
      AppendPending(parts, run, v);
      AppendWellFormed(reg, parts, run, v);
      BuildWellFormed(reg, Flush(parts, run) + [v], "");
    } else if s[i + 1] == '$' {
      ScanWellFormed(reg, s, i + 2, terms, depth, run + "$", parts);
    } else if IsOpener(s[i + 1]) {
      var r := ParseRef(reg, s, i);
      if r.Ok? {
        ParseRefWellFormed(reg, s, i);
        AppendPending(parts, run, r.value.0);
        AppendWellFormed(reg, parts, run, r.value.0);
        ScanWellFormed(reg, s, r.value.1, terms, depth, "", Flush(parts, run) + [r.value.0]);
      }
    } else {
      var v := VarRef(Literal([s[i + 1]]));
      AppendPending(parts, run, v);
      AppendWellFormed(reg, parts, run, v);
      ScanWellFormed(reg, s, i + 2, terms, depth, "", Flush(parts, run) + [v]);
    }
  }

  lemma {:induction false} ParseFromWellFormed(reg: Registry, s: string, i: nat, terms: set<char>)
    requires i <= |s|
    ensures ParseFrom(reg, s, i, terms).Ok? ==> WellFormed(reg, ParseFrom(reg, s, i, terms).value.0)
    decreases |s| - i, 5
  {
    ScanWellFormed(reg, s, i, terms, 0, "", []);
  }

  lemma {:induction false} ParseRefWellFormed(reg: Registry, s: string, i: nat)
    requires OpenerAt(s, i)
    ensures ParseRef(reg, s, i).Ok? ==> WellFormed(reg, ParseRef(reg, s, i).value.0)
    decreases |s| - i, 2
  {
    match FunctionAt(reg, s, i + 2)
    case Some(f) => ParseCallWellFormed(reg, s, i, CloserOf(s[i + 1]), f);
    case None => ParseVarWellFormed(reg, s, i, CloserOf(s[i + 1]));
  }

  lemma {:induction false} ParseVarWellFormed(reg: Registry, s: string, i: nat, c: char)
    requires OpenerAt(s, i) && c == CloserOf(s[i + 1])
    ensures ParseVar(reg, s, i, c).Ok? ==> WellFormed(reg, ParseVar(reg, s, i, c).value.0)
    decreases |s| - i, 1
  {
    ParseFromWellFormed(reg, s, i + 2, {c, ':'});
    var r := ParseFrom(reg, s, i + 2, {c, ':'});
    if r.Ok? && r.value.1 < |s| && s[r.value.1] != c {
      ParseSubstWellFormed(reg, s, i, c, r.value.0, r.value.1);
    }
  }

  lemma {:induction false} ParseSubstWellFormed(reg: Registry, s: string, i: nat, c: char, name: Value, e1: nat)
    requires OpenerAt(s, i) && c == CloserOf(s[i + 1]) && i + 2 <= e1 < |s| && WellFormed(reg, name)
    ensures ParseSubst(reg, s, i, c, name, e1).Ok? ==> WellFormed(reg, ParseSubst(reg, s, i, c, name, e1).value.0)
    decreases |s| - i, 0
  {
    ParseFromWellFormed(reg, s, e1 + 1, {c, '='});
    var r := ParseFrom(reg, s, e1 + 1, {c, '='});
    if r.Ok? && r.value.1 < |s| {
      if s[r.value.1] == '=' {
        ParseFromWellFormed(reg, s, r.value.1 + 1, {c});
      } else {
        ParseFromWellFormed(reg, s, i + 2, {c});
      }
    }
  }

  lemma {:induction false} ParseCallWellFormed(reg: Registry, s: string, i: nat, c: char, f: string)
    requires OpenerAt(s, i) && c == CloserOf(s[i + 1]) && f in reg && i + 2 + |f| < |s|
    ensures ParseCall(reg, s, i, c, f).Ok? ==> WellFormed(reg, ParseCall(reg, s, i, c, f).value.0)
    decreases |s| - i, 0
  {
    match reg[f]
    case Rest => ParseFromWellFormed(reg, s, i + 3 + |f|, {c});
    case Fixed(n) => ParseArgsWellFormed(reg, s, i, c, f, n, i + 3 + |f|, []);
  }

  lemma {:induction false} ParseArgsWellFormed(reg: Registry, s: string, i: nat, c: char, f: string, left: ArgCount, j: nat, done: seq<Value>)
    requires OpenerAt(s, i) && c == CloserOf(s[i + 1]) && i < j <= |s|
    requires f in reg && reg[f].Fixed? && |done| + left == reg[f].count && AllWellFormed(reg, done)
    ensures ParseArgs(reg, s, i, c, f, left, j, done).Ok? ==> WellFormed(reg, ParseArgs(reg, s, i, c, f, left, j, done).value.0)
    decreases |s| - j, 6
  {
    if left == 1 {
      ParseFromWellFormed(reg, s, j, {c});
    } else {
      ParseFromWellFormed(reg, s, j, {',', c});
      var r := ParseFrom(reg, s, j, {',', c});
      if r.Ok? && r.value.1 < |s| {
        if s[r.value.1] == ',' {
          ParseArgsWellFormed(reg, s, i, c, f, left - 1, r.value.1 + 1, done + [r.value.0]);
        } else {
          var all := done + [r.value.0] + Pad(left - 1);
          assert forall k :: 0 <= k < |all| ==> WellFormed(reg, all[k]) by {
            forall k | 0 <= k < |all| ensures WellFormed(reg, all[k]) {
              if k > |done| { assert all[k] == Pad(left - 1)[k - |done| - 1]; }
            }
          }
        }
      }
    }
  }
}
