/** The constant-expression evaluator: a recursive-descent parser that computes as it goes, over the
    tokens of an expression. */
module Evaluator {
  import opened Bytes
  import opened Arithmetic128

  datatype Tok = Num(n: int) | Ident(name: string) | Sym(ch: char) | ShlTok | ShrTok

  datatype Error =
    | Arithmetic(failure: Failure)
    | UnexpectedEnd | UnexpectedToken(tok: Tok) | MissingParen | TrailingTokens
    | TooDeep(name: string) | NotFound(name: string) | Conflict(name: string) | Within(name: string, inner: Error)

  datatype Result = Ok(v: int) | Err(error: Error)

  type Lookup = string -> Result

  /** A parse: the value and where it ends, or an error. */
  datatype Parsed = At(v: int, p: nat) | Stuck(error: Error)

  const ATOM := 5

  function Level(op: Op): (level: nat)
    ensures level < ATOM
  {
    match op
    case BitOr => 0
    case BitAnd => 1
    case Shl => 2
    case Shr => 2
    case Add => 3
    case Sub => 3
    case Mul => 4
    case Div => 4
  }

  function TokOf(op: Op): (t: Tok) {
    match op
    case BitOr => Sym('|')
    case BitAnd => Sym('&')
    case Shl => ShlTok
    case Shr => ShrTok
    case Add => Sym('+')
    case Sub => Sym('-')
    case Mul => Sym('*')
    case Div => Sym('/')
  }

  function OpOf(t: Tok): (op: Option<Op>)
    ensures op.Some? ==> TokOf(op.value) == t
    ensures forall o :: TokOf(o) == t ==> op == Some(o)
  {
    if t == Sym('|') then Some(BitOr) else if t == Sym('&') then Some(BitAnd)
    else if t == ShlTok then Some(Shl) else if t == ShrTok then Some(Shr)
    else if t == Sym('+') then Some(Add) else if t == Sym('-') then Some(Sub)
    else if t == Sym('*') then Some(Mul) else if t == Sym('/') then Some(Div)
    else None
  }

  const AS := Ident("as")

  // ----- the parser as a function of the position

  function Left(ts: seq<Tok>, p: nat): (n: nat) {
    if p <= |ts| then |ts| - p else 0
  }

  predicate OperatorAt(level: nat, ts: seq<Tok>, p: nat) {
    p < |ts| && OpOf(ts[p]).Some? && Level(OpOf(ts[p]).value) == level
  }

  function SkipCasts(ts: seq<Tok>, p: nat): (q: nat)
    ensures p <= q
    decreases Left(ts, p)
  {
    if p < |ts| && ts[p] == AS then SkipCasts(ts, p + 2) else p
  }

  /** What the operators of one level, from `|` (level 0) to `*` (level 4), or an atom (level 5) parse to
      at position `p`. */
  function Parse(level: nat, ts: seq<Tok>, p: nat, lookup: Lookup): (r: Parsed)
    requires level <= ATOM
    ensures r.At? ==> p < |ts| && p < r.p
    decreases Left(ts, p), ATOM + 1 - level
  {
    if level == ATOM then ParseAtom(ts, p, lookup)
    else
      var first := Parse(level + 1, ts, p, lookup);
      if first.Stuck? then first else Rest(level, ts, first.v, first.p, lookup)
  }

  /** The operators of one level that follow a left operand. */
  function Rest(level: nat, ts: seq<Tok>, v: int, p: nat, lookup: Lookup): (r: Parsed)
    requires level < ATOM
    ensures r.At? ==> p <= r.p
    decreases Left(ts, p), 0
  {
    if !OperatorAt(level, ts, p) then At(v, p)
    else
      var right := Parse(level + 1, ts, p + 1, lookup);
      if right.Stuck? then right
      else
        var w := Apply(OpOf(ts[p]).value, v, right.v);
        if w.Fails? then Stuck(Arithmetic(w.failure)) else Rest(level, ts, w.v, right.p, lookup)
  }

  function ParseAtom(ts: seq<Tok>, p: nat, lookup: Lookup): (r: Parsed)
    ensures r.At? ==> p < |ts| && p < r.p
    decreases Left(ts, p), 0
  {
    if |ts| <= p then Stuck(UnexpectedEnd)
    else if ts[p].Num? then At(ts[p].n, SkipCasts(ts, p + 1))
    else if ts[p].Ident? then
      var v := lookup(ts[p].name);
      if v.Err? then Stuck(v.error) else At(v.v, SkipCasts(ts, p + 1))
    else if ts[p] == Sym('(') then
      var inner := Parse(0, ts, p + 1, lookup);
      if inner.Stuck? then inner
      else if |ts| <= inner.p || ts[inner.p] != Sym(')') then Stuck(MissingParen)
      else At(inner.v, SkipCasts(ts, inner.p + 1))
    else Stuck(UnexpectedToken(ts[p]))
  }

  function Evaluate(ts: seq<Tok>, lookup: Lookup): (r: Result) {
    var all := Parse(0, ts, 0, lookup);
    if all.Stuck? then Err(all.error) else if all.p != |ts| then Err(TrailingTokens) else Ok(all.v)
  }

  /** The unfolding of one level. */
  lemma ParseIs(level: nat, ts: seq<Tok>, p: nat, lookup: Lookup)
    requires level < ATOM
    ensures var first := Parse(level + 1, ts, p, lookup);
      Parse(level, ts, p, lookup) == if first.Stuck? then first else Rest(level, ts, first.v, first.p, lookup)
  {
    hide Rest, ParseAtom;
  }

  /** The unfolding of the operators that follow: `op` stands at `p`, or none of that level does. */
  lemma RestIs(level: nat, ts: seq<Tok>, v: int, p: nat, lookup: Lookup)
    requires level < ATOM
    ensures !OperatorAt(level, ts, p) ==> Rest(level, ts, v, p, lookup) == At(v, p)
    ensures OperatorAt(level, ts, p) ==>
      var right := Parse(level + 1, ts, p + 1, lookup);
      Rest(level, ts, v, p, lookup) ==
      if right.Stuck? then right
      else
        var w := Apply(OpOf(ts[p]).value, v, right.v);
        if w.Fails? then Stuck(Arithmetic(w.failure)) else Rest(level, ts, w.v, right.p, lookup)
  {
    hide Parse, Apply, OpOf, Level;
  }

  lemma OperatorIs(level: nat, ts: seq<Tok>, p: nat)
    requires level < ATOM
    ensures OperatorAt(level, ts, p) <==>
      p < |ts| && (if level == 0 then ts[p] == Sym('|') else if level == 1 then ts[p] == Sym('&')
                   else if level == 2 then ts[p] == ShlTok || ts[p] == ShrTok
                   else if level == 3 then ts[p] == Sym('+') || ts[p] == Sym('-') else ts[p] == Sym('*') || ts[p] == Sym('/'))
    ensures OperatorAt(level, ts, p) ==>
      OpOf(ts[p]) == Some(if level == 0 then BitOr else if level == 1 then BitAnd
                          else if level == 2 then if ts[p] == ShlTok then Shl else Shr
                          else if level == 3 then if ts[p] == Sym('+') then Add else Sub
                          else if ts[p] == Sym('*') then Mul else Div)
  {
  }

  lemma BitwiseWorks(x: int, y: int)
    ensures !Apply(BitOr, x, y).Fails? && !Apply(BitAnd, x, y).Fails?
  {
  }

  // ----- the parser as it runs

  class Parser {
    const t: seq<Tok>
    const lookup: Lookup
    var p: nat

    constructor (t: seq<Tok>, lookup: Lookup)
      ensures this.t == t && this.lookup == lookup && p == 0
    {
      this.t, this.lookup, p := t, lookup, 0;
    }

    function Peek(): (r: Option<Tok>)
      reads this
    {
      if p < |t| then Some(t[p]) else None
    }

    /** A method's result and where it left the position are what the parse says. */
    ghost predicate Agrees(parsed: Parsed, r: Result)
      reads this
    {
      if parsed.At? then r == Ok(parsed.v) && p == parsed.p else r == Err(parsed.error)
    }

    method SkipCastsHere()
      modifies this`p
      ensures p == SkipCasts(t, old(p))
    {
      while Peek() == Some(AS)
        invariant SkipCasts(t, p) == SkipCasts(t, old(p))
        decreases Left(t, p)
      {
        p := p + 2;
      }
    }

    method Or() returns (r: Result)
      modifies this`p
      ensures Agrees(Parse(0, t, old(p), lookup), r)
      decreases Left(t, p), 6
    {
      hide Parse, Rest, OperatorAt, Apply, OpOf;
      r := And();
      ParseIs(0, t, old(p), lookup);
      if r.Err? {
        return;
      }
      while Peek() == Some(Sym('|'))
        invariant r.Ok? && old(p) < p && Parse(0, t, old(p), lookup) == Rest(0, t, r.v, p, lookup)
        decreases Left(t, p)
      {
        OperatorIs(0, t, p);
        RestIs(0, t, r.v, p, lookup);
        p := p + 1;
        var right := And();
        if right.Err? {
          return right;
        }
        BitwiseWorks(r.v, right.v);
        r := Ok(Apply(BitOr, r.v, right.v).v);
      }
      OperatorIs(0, t, p);
      RestIs(0, t, r.v, p, lookup);
    }

    method And() returns (r: Result)
      modifies this`p
      ensures Agrees(Parse(1, t, old(p), lookup), r)
      decreases Left(t, p), 5
    {
      hide Parse, Rest, OperatorAt, Apply, OpOf;
      r := Shift();
      ParseIs(1, t, old(p), lookup);
      if r.Err? {
        return;
      }
      while Peek() == Some(Sym('&'))
        invariant r.Ok? && old(p) < p && Parse(1, t, old(p), lookup) == Rest(1, t, r.v, p, lookup)
        decreases Left(t, p)
      {
        OperatorIs(1, t, p);
        RestIs(1, t, r.v, p, lookup);
        p := p + 1;
        var right := Shift();
        if right.Err? {
          return right;
        }
        BitwiseWorks(r.v, right.v);
        r := Ok(Apply(BitAnd, r.v, right.v).v);
      }
      OperatorIs(1, t, p);
      RestIs(1, t, r.v, p, lookup);
    }

    method Shift() returns (r: Result)
      modifies this`p
      ensures Agrees(Parse(2, t, old(p), lookup), r)
      decreases Left(t, p), 4
    {
      hide Parse, Rest, OperatorAt, Apply, OpOf;
      r := Sum();
      ParseIs(2, t, old(p), lookup);
      if r.Err? {
        return;
      }
      while Peek() == Some(ShlTok) || Peek() == Some(ShrTok)
        invariant r.Ok? && old(p) < p && Parse(2, t, old(p), lookup) == Rest(2, t, r.v, p, lookup)
        decreases Left(t, p)
      {
        OperatorIs(2, t, p);
        RestIs(2, t, r.v, p, lookup);
        var op := if Peek() == Some(ShlTok) then Shl else Shr;
        p := p + 1;
        var right := Sum();
        if right.Err? {
          return right;
        }
        var w := Apply(op, r.v, right.v);
        if w.Fails? {
          return Err(Arithmetic(w.failure));
        }
        r := Ok(w.v);
      }
      OperatorIs(2, t, p);
      RestIs(2, t, r.v, p, lookup);
    }

    method Sum() returns (r: Result)
      modifies this`p
      ensures Agrees(Parse(3, t, old(p), lookup), r)
      decreases Left(t, p), 3
    {
      hide Parse, Rest, OperatorAt, Apply, OpOf;
      r := Prod();
      ParseIs(3, t, old(p), lookup);
      if r.Err? {
        return;
      }
      while Peek() == Some(Sym('+')) || Peek() == Some(Sym('-'))
        invariant r.Ok? && old(p) < p && Parse(3, t, old(p), lookup) == Rest(3, t, r.v, p, lookup)
        decreases Left(t, p)
      {
        OperatorIs(3, t, p);
        RestIs(3, t, r.v, p, lookup);
        var op := if Peek() == Some(Sym('+')) then Add else Sub;
        p := p + 1;
        var right := Prod();
        if right.Err? {
          return right;
        }
        var w := Apply(op, r.v, right.v);
        if w.Fails? {
          return Err(Arithmetic(w.failure));
        }
        r := Ok(w.v);
      }
      OperatorIs(3, t, p);
      RestIs(3, t, r.v, p, lookup);
    }

    method Prod() returns (r: Result)
      modifies this`p
      ensures Agrees(Parse(4, t, old(p), lookup), r)
      decreases Left(t, p), 2
    {
      hide Parse, Rest, OperatorAt, Apply, OpOf;
      r := Atom();
      ParseIs(4, t, old(p), lookup);
      if r.Err? {
        return;
      }
      while Peek() == Some(Sym('*')) || Peek() == Some(Sym('/'))
        invariant r.Ok? && old(p) < p && Parse(4, t, old(p), lookup) == Rest(4, t, r.v, p, lookup)
        decreases Left(t, p)
      {
        OperatorIs(4, t, p);
        RestIs(4, t, r.v, p, lookup);
        var op := if Peek() == Some(Sym('*')) then Mul else Div;
        p := p + 1;
        var right := Atom();
        if right.Err? {
          return right;
        }
        var w := Apply(op, r.v, right.v);
        if w.Fails? {
          return Err(Arithmetic(w.failure));
        }
        r := Ok(w.v);
      }
      OperatorIs(4, t, p);
      RestIs(4, t, r.v, p, lookup);
    }

    method Atom() returns (r: Result)
      modifies this`p
      ensures Agrees(Parse(ATOM, t, old(p), lookup), r)
      decreases Left(t, p), 1
    {
      var tok := Peek();
      if tok.None? {
        return Err(UnexpectedEnd);
      }
      p := p + 1;
      match tok.value {
        case Num(n) => r := Ok(n);
        case Ident(name) =>
          r := lookup(name);
          if r.Err? {
            return;
          }
        case Sym(ch) =>
          if ch != '(' {
            return Err(UnexpectedToken(tok.value));
          }
          r := Or();
          if r.Err? {
            return;
          }
          if Peek() != Some(Sym(')')) {
            return Err(MissingParen);
          }
          p := p + 1;
        case _ => return Err(UnexpectedToken(tok.value));
      }
      SkipCastsHere();
    }
  }

  /** Evaluates the tokens of an expression. */
  method EvalExpr(ts: seq<Tok>, lookup: Lookup) returns (r: Result)
    ensures r == Evaluate(ts, lookup)
  {
    var parser := new Parser(ts, lookup);
    r := parser.Or();
    if r.Ok? && parser.p != |ts| {
      return Err(TrailingTokens);
    }
  }
}
