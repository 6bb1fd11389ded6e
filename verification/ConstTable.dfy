/** Named constants defined by expressions over each other, looked up with a bound on the depth of
    references. */
module ConstTable {
  import opened Bytes
  import opened Arithmetic128
  import opened Evaluator
  import opened EvaluatorTheorems

  const MAX_DEPTH := 32

  /** The definitions of each name, as tokens. */
  type Table = map<string, seq<seq<Tok>>>

  function Budget(depth: nat): (n: nat) {
    if depth <= MAX_DEPTH + 1 then MAX_DEPTH + 1 - depth else 0
  }

  /** The value the definitions of `name` agree on, starting from what was `found` in earlier ones. */
  function Agreed(name: string, defs: seq<seq<Tok>>, lookup: Lookup, found: Option<int>): (r: Result) {
    if defs == [] then (if found.Some? then Ok(found.value) else Err(NotFound(name)))
    else
      var r := Evaluate(defs[0], lookup);
      if r.Err? then Err(Evaluator.Within(name, r.error))
      else if found.Some? && found.value != r.v then Err(Conflict(name))
      else Agreed(name, defs[1..], lookup, Some(r.v))
  }

  function ValueDepth(t: Table, name: string, depth: nat): (r: Result)
    decreases Budget(depth), 0
  {
    if MAX_DEPTH < depth then Err(TooDeep(name))
    else if name !in t then Err(NotFound(name))
    else Agreed(name, t[name], LookupAt(t, depth + 1), None)
  }

  function LookupAt(t: Table, depth: nat): (lookup: Lookup)
    decreases Budget(depth), 1
  {
    n => ValueDepth(t, n, depth)
  }

  /** Evaluates every definition in turn and compares. */
  method ValueOf(t: Table, name: string, depth: nat) returns (r: Result)
    ensures r == ValueDepth(t, name, depth)
  {
    hide Evaluate;
    if MAX_DEPTH < depth {
      return Err(TooDeep(name));
    }
    if name !in t {
      return Err(NotFound(name));
    }
    var defs, found, lookup := t[name], None, LookupAt(t, depth + 1);
    assert defs[0..] == defs;
    for i := 0 to |defs|
      invariant Agreed(name, defs, lookup, None) == Agreed(name, defs[i..], lookup, found)
    {
      var v := EvalExpr(defs[i], lookup);
      assert defs[i..][0] == defs[i] && defs[i..][1..] == defs[i + 1..];
      if v.Err? {
        return Err(Evaluator.Within(name, v.error));
      }
      if found.Some? && found.value != v.v {
        return Err(Conflict(name));
      }
      found := Some(v.v);
    }
    assert defs[|defs|..] == [];
    return if found.Some? then Ok(found.value) else Err(NotFound(name));
  }

  // ----- duplicate definitions

  lemma {:induction false} AgreedIff(name: string, defs: seq<seq<Tok>>, lookup: Lookup, found: Option<int>, v: int)
    ensures Agreed(name, defs, lookup, found) == Ok(v) <==>
      && (found.Some? ==> found.value == v) && (found.Some? || defs != [])
      && forall i :: 0 <= i < |defs| ==> Evaluate(defs[i], lookup) == Ok(v)
    decreases |defs|
  {
    hide Evaluate;
    if defs != [] {
      var r := Evaluate(defs[0], lookup);
      if r.Ok? { AgreedIff(name, defs[1..], lookup, Some(r.v), v); }
      assert forall i :: 1 <= i < |defs| ==> defs[i] == defs[1..][i - 1];
    }
  }

  /** A name has a value exactly when it is defined, not too deep, and all its definitions evaluate to
      that value. */
  lemma ValueIff(t: Table, name: string, depth: nat, v: int)
    ensures ValueDepth(t, name, depth) == Ok(v) <==>
      && depth <= MAX_DEPTH && name in t && t[name] != []
      && forall i :: 0 <= i < |t[name]| ==> Evaluate(t[name][i], LookupAt(t, depth + 1)) == Ok(v)
  {
    hide Evaluate, Agreed;
    if name in t { AgreedIff(name, t[name], LookupAt(t, depth + 1), None, v); }
  }

  // ----- references

  function Names(e: Expr): (names: set<string>) {
    match e
    case Lit(_) => {}
    case Name(name) => {name}
    case Paren(inner) => Names(inner)
    case Cast(inner, _) => Names(inner)
    case Bin(_, left, right) => Names(left) + Names(right)
  }

  /** `b` stands in an expression that defines `a`. */
  ghost predicate References(t: Table, a: string, b: string) {
    a in t && exists e: Expr :: Fits(e, 0) && Tokens(e) in t[a] && b in Names(e)
  }

  ghost predicate Path(t: Table, names: seq<string>) {
    names != [] && forall i :: 0 <= i < |names| - 1 ==> References(t, names[i], names[i + 1])
  }

  lemma {:induction false} NamesLookedUp(e: Expr, lookup: Lookup)
    requires Eval(e, lookup).Ok?
    ensures forall n :: n in Names(e) ==> lookup(n).Ok?
  {
    hide Apply;
    match e
    case Lit(_) =>
    case Name(_) =>
    case Paren(inner) => NamesLookedUp(inner, lookup);
    case Cast(inner, _) => NamesLookedUp(inner, lookup);
    case Bin(_, left, right) =>
      NamesLookedUp(left, lookup);
      NamesLookedUp(right, lookup);
  }

  /** Evaluation depends only on what the names it mentions are looked up to. */
  lemma {:induction false} EvalAgrees(e: Expr, lookup: Lookup, other: Lookup)
    requires Eval(e, lookup).Ok? && forall n :: n in Names(e) && lookup(n).Ok? ==> other(n) == lookup(n)
    ensures Eval(e, other) == Eval(e, lookup)
  {
    hide Apply;
    match e
    case Lit(_) =>
    case Name(_) =>
    case Paren(inner) => EvalAgrees(inner, lookup, other);
    case Cast(inner, _) => EvalAgrees(inner, lookup, other);
    case Bin(_, left, right) =>
      EvalAgrees(left, lookup, other);
      EvalAgrees(right, lookup, other);
  }

  /** What a constant with a value refers to has one too, one level deeper. */
  lemma ReferenceHasValue(t: Table, a: string, b: string, depth: nat)
    requires ValueDepth(t, a, depth).Ok? && References(t, a, b)
    ensures ValueDepth(t, b, depth + 1).Ok?
  {
    hide ValueDepth, Evaluate, Eval, Tokens, Fits, Names;
    var v := ValueDepth(t, a, depth).v;
    ValueIff(t, a, depth, v);
    var e: Expr :| Fits(e, 0) && Tokens(e) in t[a] && b in Names(e);
    var i :| 0 <= i < |t[a]| && t[a][i] == Tokens(e);
    var lookup := LookupAt(t, depth + 1);
    WrittenEvaluates(e, lookup);
    assert Evaluate(t[a][i], lookup) == Ok(v);
    NamesLookedUp(e, lookup);
    assert lookup(b).Ok?;
  }

  lemma {:induction false} PathHasValues(t: Table, names: seq<string>, depth: nat)
    requires Path(t, names) && ValueDepth(t, names[0], depth).Ok?
    ensures ValueDepth(t, names[|names| - 1], depth + |names| - 1).Ok?
    decreases |names|
  {
    hide ValueDepth, References;
    if 1 < |names| {
      ReferenceHasValue(t, names[0], names[1], depth);
      PathHasValues(t, names[1..], depth + 1);
    }
  }

  /** A constant with a value has no chain of references longer than 32. */
  lemma ChainsBounded(t: Table, names: seq<string>, depth: nat)
    requires Path(t, names) && ValueDepth(t, names[0], depth).Ok?
    ensures depth + |names| <= 33
  {
    hide Evaluate, Path;
    PathHasValues(t, names, depth);
  }

  /** Nor does any chain of references from it return to where it was. */
  lemma {:induction false} NoCycle(t: Table, names: seq<string>, depth: nat, i: nat, j: nat)
    requires Path(t, names) && ValueDepth(t, names[0], depth).Ok? && i < j < |names|
    ensures names[i] != names[j]
  {
    hide ValueDepth, References;
    if names[i] == names[j] {
      assert Path(t, names[..i + 1]) && Path(t, names[i..j + 1]);
      PathHasValues(t, names[..i + 1], depth);
      GoesRound(t, names[i..j + 1], depth + i);
    }
  }

  /** A constant that refers back to itself has no value. */
  lemma {:induction false} GoesRound(t: Table, loop: seq<string>, depth: nat)
    requires Path(t, loop) && 2 <= |loop| && loop[0] == loop[|loop| - 1]
    ensures ValueDepth(t, loop[0], depth).Err?
    decreases Budget(depth)
  {
    hide Evaluate, References;
    if ValueDepth(t, loop[0], depth).Ok? {
      PathHasValues(t, loop, depth);
      GoesRound(t, loop, depth + |loop| - 1);
    }
  }

  // ----- depth

  /** A value found at some depth is found at every smaller one. */
  lemma {:induction false} DepthMonotone(t: Table, name: string, depth: nat, v: int)
    requires ValueDepth(t, name, depth + 1) == Ok(v)
    ensures ValueDepth(t, name, depth) == Ok(v)
    decreases Budget(depth)
  {
    hide ValueDepth, Evaluate, Eval, Tokens;
    ValueIff(t, name, depth + 1, v);
    ValueIff(t, name, depth, v);
    var deeper, here := LookupAt(t, depth + 2), LookupAt(t, depth + 1);
    forall n | deeper(n).Ok? ensures here(n) == deeper(n) {
      DepthMonotone(t, n, depth + 1, deeper(n).v);
    }
    forall i | 0 <= i < |t[name]| ensures Evaluate(t[name][i], here) == Ok(v) {
      var e := EvaluatesOnlyExpressions(t[name][i], deeper);
      EvalAgrees(e, deeper, here);
      WrittenEvaluates(e, here);
    }
  }

  function EnvLookup(env: map<string, int>): (lookup: Lookup) {
    n => if n in env then Ok(env[n]) else Err(NotFound(n))
  }

  /** `env` gives the names it holds the values their definitions have under it. */
  ghost predicate Solves(t: Table, env: map<string, int>) {
    forall n :: n in env ==>
      n in t && t[n] != [] && forall i :: 0 <= i < |t[n]| ==> Evaluate(t[n][i], EnvLookup(env)) == Ok(env[n])
  }

  ghost predicate ChainsAtMost(t: Table, name: string, edges: nat) {
    forall names :: Path(t, names) && names[0] == name ==> |names| <= edges + 1
  }

  /** A constant the definitions give a value is found to have it exactly when no chain of references from
      it is longer than 32. */
  lemma FoundIff(t: Table, env: map<string, int>, name: string)
    requires Solves(t, env) && name in env
    ensures ValueDepth(t, name, 0) == Ok(env[name]) <==> ChainsAtMost(t, name, 32)
  {
    hide ValueDepth, References, Solves;
    if ValueDepth(t, name, 0) == Ok(env[name]) {
      forall names | Path(t, names) && names[0] == name ensures |names| <= MAX_DEPTH + 1 {
        ChainsBounded(t, names, 0);
      }
    }
    if ChainsAtMost(t, name, MAX_DEPTH) {
      FoundWithin(t, env, name, 0, MAX_DEPTH);
    }
  }

  lemma {:induction false} FoundWithin(t: Table, env: map<string, int>, name: string, depth: nat, edges: nat)
    requires Solves(t, env) && name in env && ChainsAtMost(t, name, edges) && depth + edges <= MAX_DEPTH
    ensures ValueDepth(t, name, depth) == Ok(env[name])
    decreases edges
  {
    hide ValueDepth, Evaluate, Eval, Tokens, ChainsAtMost, Fits, Names;
    var v := env[name];
    ValueIff(t, name, depth, v);
    var lookup := LookupAt(t, depth + 1);
    forall i | 0 <= i < |t[name]| ensures Evaluate(t[name][i], lookup) == Ok(v) {
      var e := EvaluatesOnlyExpressions(t[name][i], EnvLookup(env));
      NamesLookedUp(e, EnvLookup(env));
      forall n | n in Names(e) ensures lookup(n) == EnvLookup(env)(n) {
        assert References(t, name, n);
        ShorterChains(t, name, n, edges);
        FoundWithin(t, env, n, depth + 1, edges - 1);
      }
      EvalAgrees(e, EnvLookup(env), lookup);
      WrittenEvaluates(e, lookup);
    }
  }

  lemma ShorterChains(t: Table, a: string, b: string, edges: nat)
    requires References(t, a, b) && ChainsAtMost(t, a, edges)
    ensures 1 <= edges && ChainsAtMost(t, b, edges - 1)
  {
    hide References;
    assert Path(t, [a, b]) && [a, b][0] == a;
    forall names | Path(t, names) && names[0] == b ensures |names| <= edges {
      var longer := [a] + names;
      assert Path(t, longer) && longer[0] == a;
    }
  }
}
