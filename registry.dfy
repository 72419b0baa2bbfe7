/**
 * The function registry: an immutable map from a built-in function's name to
 * the way its argument text is split.  A reference body `name rest` is a
 * function call exactly when `name` is a word registered here and is followed
 * by one space.
 */
module Registry {

  /** A fixed arity has at least one argument. */
  type ArgCount = n: nat | 1 <= n witness 1

  /** `Fixed(n)` splits the argument text at top-level commas into n
      arguments; `Rest` keeps the whole text as one argument. */
  datatype Arity = Fixed(count: ArgCount) | Rest

  type Registry = map<string, Arity>

  /** The two built-ins the parser's table exercises. */
  const Builtins: Registry := map["subst" := Fixed(3), "shell" := Rest]

  /** How many arguments a call of a function with this arity carries. */
  function ArgsOf(a: Arity): nat {
    match a
    case Fixed(k) => k
    case Rest => 1
  }

  /** Bytes a function name can be made of. */
  predicate NameChar(ch: char) {
    'a' <= ch <= 'z' || ch == '-'
  }

  predicate IsWord(w: string) {
    |w| > 0 && forall k :: 0 <= k < |w| ==> NameChar(w[k])
  }

  /** The end of the run of name bytes that starts at `i`. */
  function WordEnd(s: string, i: nat): (j: nat)
    requires i <= |s|
    ensures i <= j <= |s|
    ensures forall k :: i <= k < j ==> NameChar(s[k])
    ensures j == |s| || !NameChar(s[j])
    decreases |s| - i
  {
    if i < |s| && NameChar(s[i]) then WordEnd(s, i + 1) else i
  }

  /** The registered function whose name starts the body at `i`, if any:
      the word at `i` must be followed by a space and be registered. */
  function FunctionAt(reg: Registry, s: string, i: nat): (r: Option<string>)
    requires i <= |s|
    ensures r.Some? ==> r.value in reg && IsWord(r.value)
    ensures r.Some? ==> i + |r.value| < |s| && s[i..i + |r.value|] == r.value && s[i + |r.value|] == ' '
  {
    var j := WordEnd(s, i);
    if i < j < |s| && s[j] == ' ' && s[i..j] in reg then Some(s[i..j]) else None
  }

  /** Converse: a registered word followed by a space is always recognised,
      so at most one function name can start a body. */
  lemma FunctionAtFinds(reg: Registry, s: string, i: nat, f: string)
    requires f in reg && IsWord(f)
    requires i + |f| < |s| && s[i..i + |f|] == f && s[i + |f|] == ' '
    ensures FunctionAt(reg, s, i) == Some(f)
  {
  }

  /** A body whose first word is not followed by a space, or is not
      registered, is not a function call. */
  lemma FunctionAtNone(reg: Registry, s: string, i: nat)
    requires i <= |s|
    requires forall k :: i <= k < |s| ==> s[k] != ' '
    ensures FunctionAt(reg, s, i) == None
  {
  }

  datatype Option<T> = None | Some(value: T)
}
