/**
 * The parse tree and the value builder.  A `Value` is what the parser
 * produces for one stretch of macro text: literal text, a sequence of at
 * least two parts, a variable reference, a suffix-substitution reference or
 * a call of a built-in function.
 */
module Values {
  import opened Registry

  datatype Value =
    | Literal(text: string)
    | Expr(parts: seq<Value>)
    | VarRef(name: Value)
    | VarSubst(name: Value, pat: Value, repl: Value)
    | Call(fname: string, args: seq<Value>)

  /** The only parse error: a `$(` or `${` whose closer never comes; the
      offset is that of its `$`. */
  datatype Error = Unterminated(offset: nat)

  datatype Result<T> = Ok(value: T) | Err(error: Error) {
    predicate IsFailure() { Err? }
    function PropagateFailure<U>(): Result<U> requires Err? { Err(error) }
    function Extract(): T requires Ok? { value }
  }

  /** What may stand among the parts of an `Expr`: anything but a nested
      sequence or an empty literal. */
  predicate IsPart(v: Value) {
    !v.Expr? && v != Literal("")
  }

  /** A run of parts as the scanner keeps it: no part is a sequence or an
      empty literal, and no two literals are neighbours. */
  predicate Merged(parts: seq<Value>) {
    && (forall k :: 0 <= k < |parts| ==> IsPart(parts[k]))
    && (forall k :: 0 <= k < |parts| - 1 ==> !(parts[k].Literal? && parts[k + 1].Literal?))
  }

  /** The shape every parse result has: sequences hold two or more merged
      parts, and every call names a registered function and carries exactly
      as many arguments as its arity says. */
  predicate WellFormed(reg: Registry, v: Value)
    decreases v
  {
    match v
    case Literal(_) => true
    case Expr(parts) =>
      |parts| >= 2 && Merged(parts) && forall k :: 0 <= k < |parts| ==> WellFormed(reg, parts[k])
    case VarRef(n) => WellFormed(reg, n)
    case VarSubst(n, p, r) => WellFormed(reg, n) && WellFormed(reg, p) && WellFormed(reg, r)
    case Call(f, args) =>
      f in reg && |args| == ArgsOf(reg[f]) && forall k :: 0 <= k < |args| ==> WellFormed(reg, args[k])
  }

  ghost predicate AllWellFormed(reg: Registry, vs: seq<Value>) {
    forall k :: 0 <= k < |vs| ==> WellFormed(reg, vs[k])
  }

  /** The finished parts of a scan in progress: a literal part is only ever
      flushed just before a reference, so the last part is never a literal
      and the pending literal run can follow it. */
  predicate Pending(parts: seq<Value>) {
    Merged(parts) && (|parts| > 0 ==> !parts[|parts| - 1].Literal?)
  }

  /** Ends the pending literal run, appending it as a part unless it is empty. */
  function Flush(parts: seq<Value>, run: string): seq<Value> {
    if run == [] then parts else parts + [Literal(run)]
  }

  /** Ends a scan: flushes the run and collapses the parts, so that one part
      is returned bare and no parts give the empty literal. */
  function Build(parts: seq<Value>, run: string): Value {
    var p := Flush(parts, run);
    if |p| == 0 then Literal("") else if |p| == 1 then p[0] else Expr(p)
  }

  /** Appending a non-literal part after a flush keeps the parts merged. */
  lemma AppendPending(parts: seq<Value>, run: string, v: Value)
    requires Pending(parts) && IsPart(v) && !v.Literal?
    ensures Pending(Flush(parts, run) + [v])
  {
  }

  /** Flushing and appending a well-formed part keeps every part well
      formed. */
  lemma AppendWellFormed(reg: Registry, parts: seq<Value>, run: string, v: Value)
    requires AllWellFormed(reg, parts) && WellFormed(reg, v)
    ensures AllWellFormed(reg, Flush(parts, run) + [v])
  {
  }

  /** What the builder makes of a scan's parts: with no reference it is
      the literal run itself; it is the empty literal exactly when there is
      neither a part nor pending text; a sequence it builds holds at least
      two merged parts, so it never wraps a single part. */
  lemma BuildShape(parts: seq<Value>, run: string)
    requires Pending(parts)
    ensures parts == [] ==> Build(parts, run) == Literal(run)
    ensures Build(parts, run) == Literal("") <==> parts == [] && run == []
    ensures Build(parts, run).Expr? ==> |Build(parts, run).parts| >= 2 && Merged(Build(parts, run).parts)
    ensures Build(parts, run).Expr? ==> Build(parts, run).parts[..|parts|] == parts
  {
  }

  /** The builder never produces a sequence of fewer than two parts, and
      what it builds from well-formed parts is well formed. */
  lemma BuildWellFormed(reg: Registry, parts: seq<Value>, run: string)
    requires Pending(parts) && AllWellFormed(reg, parts)
    ensures WellFormed(reg, Build(parts, run))
  {
  }
}
