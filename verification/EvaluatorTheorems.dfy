/** The evaluator computes the value of expressions, and only of expressions. */
module EvaluatorTheorems {
  import opened Bytes
  import opened Arithmetic128
  import opened Evaluator

  // ----- expressions

  /** Expressions as they are written: parentheses and casts are part of them. */
  datatype Expr = Lit(n: int) | Name(name: string) | Bin(op: Op, left: Expr, right: Expr) | Paren(inner: Expr) | Cast(inner: Expr, ty: Tok)

  /** The value of an expression: operands from left to right, then the operator; the first error wins. */
  function Eval(e: Expr, lookup: Lookup): (r: Result) {
    match e
    case Lit(n) => Ok(n)
    case Name(name) => lookup(name)
    case Paren(inner) => Eval(inner, lookup)
    case Cast(inner, _) => Eval(inner, lookup)
    case Bin(op, left, right) =>
      var a := Eval(left, lookup);
      if a.Err? then a else
      var b := Eval(right, lookup);
      if b.Err? then b else
      var w := Apply(op, a.v, b.v);
      if w.Fails? then Err(Arithmetic(w.failure)) else Ok(w.v)
  }

  function Tokens(e: Expr): (ts: seq<Tok>)
    ensures 0 < |ts|
  {
    match e
    case Lit(n) => [Num(n)]
    case Name(name) => [Ident(name)]
    case Paren(inner) => [Sym('(')] + Tokens(inner) + [Sym(')')]
    case Cast(inner, ty) => Tokens(inner) + [AS, ty]
    case Bin(op, left, right) => Tokens(left) + ([TokOf(op)] + Tokens(right))
  }

  /** The expression needs no further parentheses where operators of `level` and above are read: operators
      associate to the left, and casts bind tightest. */
  predicate Fits(e: Expr, level: nat) {
    match e
    case Lit(_) => true
    case Name(_) => true
    case Paren(inner) => Fits(inner, 0)
    case Cast(inner, _) => !inner.Bin? && Fits(inner, ATOM)
    case Bin(op, left, right) => level <= Level(op) && Fits(left, Level(op)) && Fits(right, Level(op) + 1)
  }

  /** Puts parentheses where they are needed and nowhere else. */
  function Parenthesized(e: Expr, level: nat): (r: Expr)
    ensures level <= ATOM ==> Fits(r, level)
    ensures level == ATOM ==> !r.Bin?
  {
    match e
    case Lit(_) => e
    case Name(_) => e
    case Paren(inner) => Paren(Parenthesized(inner, 0))
    case Cast(inner, ty) => Cast(Parenthesized(inner, ATOM), ty)
    case Bin(op, left, right) =>
      var b := Bin(op, Parenthesized(left, Level(op)), Parenthesized(right, Level(op) + 1));
      if level <= Level(op) then b else Paren(b)
  }

  lemma {:induction false} ParenthesesKeepValue(e: Expr, level: nat, lookup: Lookup)
    ensures Eval(Parenthesized(e, level), lookup) == Eval(e, lookup)
  {
    match e
    case Lit(_) =>
    case Name(_) =>
    case Paren(inner) => ParenthesesKeepValue(inner, 0, lookup);
    case Cast(inner, _) => ParenthesesKeepValue(inner, ATOM, lookup);
    case Bin(op, left, right) =>
      ParenthesesKeepValue(left, Level(op), lookup);
      ParenthesesKeepValue(right, Level(op) + 1, lookup);
  }

  // ----- every expression evaluates to its value

  predicate Here(ts: seq<Tok>, p: nat, toks: seq<Tok>) {
    p + |toks| <= |ts| && ts[p..p + |toks|] == toks
  }

  /** Nothing at `p` continues an expression read at `level`. */
  predicate Stops(ts: seq<Tok>, p: nat, level: nat) {
    p < |ts| ==> ts[p] != AS && (OpOf(ts[p]).Some? ==> Level(OpOf(ts[p]).value) < level)
  }

  lemma HereSplit(ts: seq<Tok>, p: nat, a: seq<Tok>, b: seq<Tok>)
    requires Here(ts, p, a + b)
    ensures Here(ts, p, a) && Here(ts, p + |a|, b)
  {
    assert ts[p..p + |a + b|][..|a|] == a && ts[p..p + |a + b|][|a|..] == b;
  }

  /** What an expression at `p` parses to: its value and its end, or its error. */
  function Outcome(e: Expr, p: nat, lookup: Lookup): (r: Parsed) {
    var v := Eval(e, lookup);
    if v.Ok? then At(v.v, p + |Tokens(e)|) else Stuck(v.error)
  }

  lemma AtAtom(ts: seq<Tok>, p: nat, lookup: Lookup)
    ensures Parse(ATOM, ts, p, lookup) == ParseAtom(ts, p, lookup)
  {
  }

  lemma AtParen(ts: seq<Tok>, p: nat, q: nat, lookup: Lookup)
    requires p < |ts| && ts[p] == Sym('(') && q < |ts| && ts[q] == Sym(')')
    ensures var inner := Parse(0, ts, p + 1, lookup);
      && (inner.Stuck? ==> ParseAtom(ts, p, lookup) == inner)
      && (inner.At? && inner.p == q ==> ParseAtom(ts, p, lookup) == At(inner.v, SkipCasts(ts, q + 1)))
  {
    hide Parse, SkipCasts;
  }

  lemma AtLeaf(ts: seq<Tok>, p: nat, lookup: Lookup)
    requires p < |ts|
    ensures ts[p].Num? ==> ParseAtom(ts, p, lookup) == At(ts[p].n, SkipCasts(ts, p + 1))
    ensures ts[p].Ident? ==>
      var v := lookup(ts[p].name);
      ParseAtom(ts, p, lookup) == if v.Err? then Stuck(v.error) else At(v.v, SkipCasts(ts, p + 1))
  {
    hide Parse, SkipCasts;
  }

  lemma AtCast(ts: seq<Tok>, q: nat)
    requires q < |ts| && ts[q] == AS
    ensures SkipCasts(ts, q) == SkipCasts(ts, q + 2)
  {
  }

  /** One more operator and its right operand. */
  lemma AtOperator(level: nat, ts: seq<Tok>, v: int, p: nat, lookup: Lookup)
    requires level < ATOM && OperatorAt(level, ts, p)
    ensures var right := Parse(level + 1, ts, p + 1, lookup);
      Rest(level, ts, v, p, lookup) ==
        if right.Stuck? then right
        else
          var w := Apply(OpOf(ts[p]).value, v, right.v);
          if w.Fails? then Stuck(Arithmetic(w.failure)) else Rest(level, ts, w.v, right.p, lookup)
  {
    hide Apply, Parse;
  }

  /** An atom without its casts, followed by anything: the casts that follow are skipped. */
  lemma {:induction false} AtomParses(e: Expr, ts: seq<Tok>, p: nat, lookup: Lookup)
    requires Fits(e, ATOM) && !e.Bin? && Here(ts, p, Tokens(e))
    ensures var r := Outcome(e, p, lookup);
      Parse(ATOM, ts, p, lookup) == if r.At? then At(r.v, SkipCasts(ts, r.p)) else r
    decreases e, 0
  {
    hide Parse, ParseAtom, Apply, OpOf, Level, Stops, SkipCasts, Here;
    AtAtom(ts, p, lookup);
    match e
    case Lit(n) =>
      HereOne(ts, p, Num(n));
      AtLeaf(ts, p, lookup);
    case Name(name) =>
      HereOne(ts, p, Ident(name));
      AtLeaf(ts, p, lookup);
    case Paren(inner) =>
      assert Tokens(e) == [Sym('(')] + (Tokens(inner) + [Sym(')')]);
      HereSplit(ts, p, [Sym('(')], Tokens(inner) + [Sym(')')]);
      HereSplit(ts, p + 1, Tokens(inner), [Sym(')')]);
      HereOne(ts, p, Sym('('));
      var q := p + 1 + |Tokens(inner)|;
      HereOne(ts, q, Sym(')'));
      ParenStops(ts, q);
      ExprParses(inner, 0, ts, p + 1, lookup);
      AtParen(ts, p, q, lookup);
    case Cast(inner, ty) =>
      HereSplit(ts, p, Tokens(inner), [AS, ty]);
      var q := p + |Tokens(inner)|;
      assert [AS, ty] == [AS] + [ty];
      HereSplit(ts, q, [AS], [ty]);
      HereOne(ts, q, AS);
      AtCast(ts, q);
      AtomParses(inner, ts, p, lookup);
  }

  lemma ParenStops(ts: seq<Tok>, q: nat)
    requires q < |ts| && ts[q] == Sym(')')
    ensures Stops(ts, q, 0)
  {
  }

  lemma OperatorStops(ts: seq<Tok>, q: nat, op: Op)
    requires q < |ts| && ts[q] == TokOf(op)
    ensures Stops(ts, q, Level(op) + 1) && OperatorAt(Level(op), ts, q) && OpOf(ts[q]) == Some(op)
  {
  }

  lemma AtLevel(level: nat, ts: seq<Tok>, p: nat, lookup: Lookup)
    requires level < ATOM
    ensures var first := Parse(level + 1, ts, p, lookup);
      Parse(level, ts, p, lookup) == if first.Stuck? then first else Rest(level, ts, first.v, first.p, lookup)
  {
    hide Rest;
  }

  /** An expression read at a level, with more of that level after it: the rest goes on from its value. */
  lemma {:induction false} OperandParses(e: Expr, level: nat, ts: seq<Tok>, p: nat, lookup: Lookup)
    requires level < ATOM && Fits(e, level) && Here(ts, p, Tokens(e)) && Stops(ts, p + |Tokens(e)|, level + 1)
    ensures var r := Outcome(e, p, lookup);
      Parse(level, ts, p, lookup) == if r.At? then Rest(level, ts, r.v, r.p, lookup) else r
    decreases e, 2 * (ATOM - level) + 1
  {
    hide Parse, Rest, Apply, OpOf, Stops, OperatorAt, TokOf, Here;
    if e.Bin? && Level(e.op) == level {
      HereSplit(ts, p, Tokens(e.left), [TokOf(e.op)] + Tokens(e.right));
      var q := p + |Tokens(e.left)|;
      HereSplit(ts, q, [TokOf(e.op)], Tokens(e.right));
      HereOne(ts, q, TokOf(e.op));
      OperatorStops(ts, q, e.op);
      OperandParses(e.left, level, ts, p, lookup);
      ExprParses(e.right, level + 1, ts, q + 1, lookup);
      var a := Eval(e.left, lookup);
      if a.Ok? { AtOperator(level, ts, a.v, q, lookup); }
    } else {
      FitsHigher(e, level);
      AtLevel(level, ts, p, lookup);
      ExprParses(e, level + 1, ts, p, lookup);
    }
  }

  lemma HereOne(ts: seq<Tok>, q: nat, t: Tok)
    requires Here(ts, q, [t])
    ensures q < |ts| && ts[q] == t
  {
    assert ts[q..q + 1][0] == ts[q];
  }

  lemma FitsHigher(e: Expr, level: nat)
    requires Fits(e, level) && !(e.Bin? && Level(e.op) == level)
    ensures Fits(e, level + 1)
  {
  }

  lemma StopsHere(ts: seq<Tok>, q: nat, level: nat, v: int, lookup: Lookup)
    requires Stops(ts, q, level) && level <= ATOM
    ensures SkipCasts(ts, q) == q && (level < ATOM ==> Rest(level, ts, v, q, lookup) == At(v, q))
  {
  }

  lemma StopsAbove(ts: seq<Tok>, q: nat, level: nat)
    requires Stops(ts, q, level)
    ensures Stops(ts, q, level + 1)
  {
  }

  /** An expression read at a level parses to its value, or to its error. */
  lemma {:induction false} ExprParses(e: Expr, level: nat, ts: seq<Tok>, p: nat, lookup: Lookup)
    requires level <= ATOM && Fits(e, level) && Here(ts, p, Tokens(e)) && Stops(ts, p + |Tokens(e)|, level)
    ensures Parse(level, ts, p, lookup) == Outcome(e, p, lookup)
    decreases e, 2 * (ATOM - level) + 2
  {
    hide Parse, Rest, Apply, Eval, Tokens, SkipCasts, Here, Stops;
    var q := p + |Tokens(e)|;
    if level == ATOM {
      AtomParses(e, ts, p, lookup);
      StopsHere(ts, q, level, 0, lookup);
    } else {
      StopsAbove(ts, q, level);
      OperandParses(e, level, ts, p, lookup);
      if Eval(e, lookup).Ok? { StopsHere(ts, q, level, Eval(e, lookup).v, lookup); }
    }
  }

  /** The tokens of any expression, parenthesized where its operators' precedence and left associativity
      need it, evaluate to the expression's value or to its first error. */
  lemma EvaluatesExpressions(e: Expr, lookup: Lookup)
    ensures Evaluate(Tokens(Parenthesized(e, 0)), lookup) == Eval(e, lookup)
  {
    var f := Parenthesized(e, 0);
    ParenthesesKeepValue(e, 0, lookup);
    WrittenEvaluates(f, lookup);
  }

  /** So do the tokens of an expression that is written with enough parentheses. */
  lemma WrittenEvaluates(e: Expr, lookup: Lookup)
    requires Fits(e, 0)
    ensures Evaluate(Tokens(e), lookup) == Eval(e, lookup)
  {
    var ts := Tokens(e);
    assert ts[0..|ts|] == ts;
    ExprParses(e, 0, ts, 0, lookup);
  }

  // ----- only expressions evaluate

  /** The tree of a parse that ends within the tokens. */
  lemma {:induction false} ParseTree(level: nat, ts: seq<Tok>, p: nat, lookup: Lookup) returns (e: Expr)
    requires level <= ATOM
    requires var r := Parse(level, ts, p, lookup); r.At? && r.p <= |ts|
    ensures var r := Parse(level, ts, p, lookup);
      p <= r.p && Fits(e, level) && Tokens(e) == ts[p..r.p] && Eval(e, lookup) == Ok(r.v) && (level == ATOM ==> !e.Bin?)
    decreases Left(ts, p), ATOM + 1 - level
  {
    if level == ATOM {
      e := AtomTree(ts, p, lookup);
    } else {
      var first := Parse(level + 1, ts, p, lookup);
      var l := ParseTree(level + 1, ts, p, lookup);
      FitsLower(l, level);
      e := RestTree(level, ts, l, p, first.p, lookup);
    }
  }

  lemma SliceAround(ts: seq<Tok>, p: nat, q: nat, end: nat)
    requires p <= q < end <= |ts|
    ensures ts[p..end] == ts[p..q] + ([ts[q]] + ts[q + 1..end])
  {
  }

  lemma SliceBetween(ts: seq<Tok>, p: nat, q: nat)
    requires p < q < |ts|
    ensures ts[p..q + 1] == [ts[p]] + ts[p + 1..q] + [ts[q]]
  {
  }

  lemma LeftShrinks(ts: seq<Tok>, p: nat)
    requires p < |ts|
    ensures forall q: nat :: p < q ==> Left(ts, q) < Left(ts, p)
  {
  }

  lemma FitsLower(e: Expr, level: nat)
    requires Fits(e, level + 1)
    ensures Fits(e, level)
  {
  }

  lemma {:induction false} RestTree(level: nat, ts: seq<Tok>, left: Expr, p: nat, q: nat, lookup: Lookup) returns (e: Expr)
    requires level < ATOM && p <= q <= |ts| && Fits(left, level) && Tokens(left) == ts[p..q] && Eval(left, lookup).Ok?
    requires var r := Rest(level, ts, Eval(left, lookup).v, q, lookup); r.At? && r.p <= |ts|
    ensures var r := Rest(level, ts, Eval(left, lookup).v, q, lookup);
      p <= r.p && Fits(e, level) && Tokens(e) == ts[p..r.p] && Eval(e, lookup) == Ok(r.v)
    decreases Left(ts, q), 0
  {
    hide Parse, Apply, OpOf, Left;
    if !OperatorAt(level, ts, q) {
      e := left;
    } else {
      AtOperator(level, ts, Eval(left, lookup).v, q, lookup);
      LeftShrinks(ts, q);
      var op, right := OpOf(ts[q]).value, Parse(level + 1, ts, q + 1, lookup);
      var t := ParseTree(level + 1, ts, q + 1, lookup);
      var both := Bin(op, left, t);
      SliceAround(ts, p, q, right.p);
      e := RestTree(level, ts, both, p, right.p, lookup);
    }
  }

  lemma {:induction false} AtomTree(ts: seq<Tok>, p: nat, lookup: Lookup) returns (e: Expr)
    requires var r := ParseAtom(ts, p, lookup); r.At? && r.p <= |ts|
    ensures var r := ParseAtom(ts, p, lookup);
      p <= r.p && Fits(e, ATOM) && !e.Bin? && Tokens(e) == ts[p..r.p] && Eval(e, lookup) == Ok(r.v)
    decreases Left(ts, p), 0
  {
    hide Parse, Left, SkipCasts, OpOf, Apply;
    LeftShrinks(ts, p);
    if ts[p].Num? {
      e := CastTree(ts, Lit(ts[p].n), p, p + 1, lookup);
    } else if ts[p].Ident? {
      e := CastTree(ts, Name(ts[p].name), p, p + 1, lookup);
    } else {
      var inner := Parse(0, ts, p + 1, lookup);
      var t := ParseTree(0, ts, p + 1, lookup);
      SliceBetween(ts, p, inner.p);
      e := CastTree(ts, Paren(t), p, inner.p + 1, lookup);
    }
  }

  lemma {:induction false} CastTree(ts: seq<Tok>, atom: Expr, p: nat, q: nat, lookup: Lookup) returns (e: Expr)
    requires p <= q <= |ts| && Fits(atom, ATOM) && !atom.Bin? && Tokens(atom) == ts[p..q] && SkipCasts(ts, q) <= |ts|
    ensures Fits(e, ATOM) && !e.Bin? && Tokens(e) == ts[p..SkipCasts(ts, q)] && Eval(e, lookup) == Eval(atom, lookup)
    decreases Left(ts, q)
  {
    if q < |ts| && ts[q] == AS {
      var cast := Cast(atom, ts[q + 1]);
      assert ts[p..q + 2] == ts[p..q] + [ts[q], ts[q + 1]];
      e := CastTree(ts, cast, p, q + 2, lookup);
    } else {
      e := atom;
    }
  }

  /** If tokens evaluate to a value, they are those of an expression, and the value is its. */
  lemma EvaluatesOnlyExpressions(ts: seq<Tok>, lookup: Lookup) returns (e: Expr)
    requires Evaluate(ts, lookup).Ok?
    ensures Fits(e, 0) && Tokens(e) == ts && Eval(e, lookup) == Evaluate(ts, lookup)
  {
    e := ParseTree(0, ts, 0, lookup);
    assert ts[0..|ts|] == ts;
  }

  // ----- what the symbols mean

  function Answer(w: Checked): (r: Result) {
    if w.Value? then Ok(w.v) else Err(Arithmetic(w.failure))
  }

  lemma TwoOperands(op: Op, a: int, b: int, lookup: Lookup)
    ensures Evaluate([Num(a), TokOf(op), Num(b)], lookup) == Answer(Apply(op, a, b))
  {
    hide Evaluate, Apply;
    var e := Bin(op, Lit(a), Lit(b));
    assert Tokens(e) == [Num(a), TokOf(op), Num(b)];
    WrittenEvaluates(e, lookup);
  }

  /** Addition, subtraction and multiplication are exact, and fail where the result does not fit 128 bits; the shifts
      multiply modulo 2^128 and divide rounding down, for 0 to 127 places. */
  lemma SymbolsMean(a: int, b: int, v: int, lookup: Lookup)
    ensures Evaluate([Num(a), Sym('+'), Num(b)], lookup) == Ok(v) <==> InRange(v) && v == a + b
    ensures Evaluate([Num(a), Sym('-'), Num(b)], lookup) == Ok(v) <==> InRange(v) && v == a - b
    ensures Evaluate([Num(a), Sym('*'), Num(b)], lookup) == Ok(v) <==> InRange(v) && v == a * b
    ensures Evaluate([Num(a), ShlTok, Num(b)], lookup) == Ok(v) <==> 0 <= b < 128 && InRange(v) && (v - a * Pow2(b)) % (2 * LIMIT) == 0
    ensures Evaluate([Num(a), ShrTok, Num(b)], lookup) == Ok(v) <==> 0 <= b < 128 && v * Pow2(b) <= a < (v + 1) * Pow2(b)
  {
    hide Evaluate, Apply, Pow2;
    TwoOperands(Add, a, b, lookup);
    TwoOperands(Sub, a, b, lookup);
    TwoOperands(Mul, a, b, lookup);
    TwoOperands(Shl, a, b, lookup);
    TwoOperands(Shr, a, b, lookup);
    SumIff(a, b, v);
    ShiftLeftIff(a, b, v);
    ShiftRightIff(a, b, v);
  }

  /** Division rounds toward zero, and fails by zero and where the quotient does not fit; `|` and `&` work bit by bit. */
  lemma DivisionMeans(a: int, b: int, v: int, lookup: Lookup)
    ensures Evaluate([Num(a), Sym('/'), Num(b)], lookup) == Ok(v) <==> b != 0 && !(a == -LIMIT && b == -1) && IsQuotient(a, b, v)
  {
    hide Evaluate, Apply, Pow2;
    TwoOperands(Div, a, b, lookup);
    DivisionIff(a, b, v);
  }

  lemma BitwiseMeans(a: int, b: int, k: nat, lookup: Lookup)
    requires InRange(a) && InRange(b)
    ensures var or, and := Evaluate([Num(a), Sym('|'), Num(b)], lookup), Evaluate([Num(a), Sym('&'), Num(b)], lookup);
      && or.Ok? && and.Ok? && InRange(or.v) && InRange(and.v)
      && (or.v / Pow2(k) % 2 == 1 <==> a / Pow2(k) % 2 == 1 || b / Pow2(k) % 2 == 1)
      && (and.v / Pow2(k) % 2 == 1 <==> a / Pow2(k) % 2 == 1 && b / Pow2(k) % 2 == 1)
  {
    hide Evaluate, Apply, Pow2;
    TwoOperands(BitOr, a, b, lookup);
    TwoOperands(BitAnd, a, b, lookup);
    BitwiseIs(a, b, k);
  }

  /** How tightly the operators bind. */
  function Binding(t: Tok): (n: nat) {
    if t == Sym('|') then 1 else if t == Sym('&') then 2 else if t == ShlTok || t == ShrTok then 3
    else if t == Sym('+') || t == Sym('-') then 4 else if t == Sym('*') || t == Sym('/') then 5 else 0
  }

  lemma BindingIs(op: Op)
    ensures Binding(TokOf(op)) == Level(op) + 1
  {
  }

  function Then(op: Op, x: Result, b: int): (r: Result) {
    if x.Err? then x else Answer(Apply(op, x.v, b))
  }

  /** Of two operators the one that binds tighter is applied first, and the left one if they bind alike. */
  lemma ThreeOperands(p: Op, q: Op, a: int, b: int, c: int, lookup: Lookup)
    ensures Evaluate([Num(a), TokOf(p), Num(b), TokOf(q), Num(c)], lookup) ==
      if Binding(TokOf(q)) <= Binding(TokOf(p)) then Then(q, Answer(Apply(p, a, b)), c)
      else var right := Answer(Apply(q, b, c)); if right.Err? then right else Answer(Apply(p, a, right.v))
  {
    hide Evaluate, Apply, TokOf, Binding, Eval;
    BindingIs(p);
    BindingIs(q);
    if Level(q) <= Level(p) { LeftFirst(p, q, a, b, c, lookup); } else { RightFirst(p, q, a, b, c, lookup); }
  }

  lemma Small(op: Op, a: int, b: int, lookup: Lookup)
    ensures var e := Bin(op, Lit(a), Lit(b)); Tokens(e) == [Num(a), TokOf(op), Num(b)] && Eval(e, lookup) == Answer(Apply(op, a, b))
  {
    hide Apply, TokOf;
    assert Tokens(Lit(a)) == [Num(a)] && Tokens(Lit(b)) == [Num(b)];
  }

  lemma LeftFirst(p: Op, q: Op, a: int, b: int, c: int, lookup: Lookup)
    requires Level(q) <= Level(p)
    ensures Evaluate([Num(a), TokOf(p), Num(b), TokOf(q), Num(c)], lookup) == Then(q, Answer(Apply(p, a, b)), c)
  {
    hide Evaluate, Apply, TokOf;
    var left := Bin(p, Lit(a), Lit(b));
    Small(p, a, b, lookup);
    WrittenEvaluates(Bin(q, left, Lit(c)), lookup);
    assert Tokens(Bin(q, left, Lit(c))) == Tokens(left) + ([TokOf(q)] + [Num(c)]);
    assert Tokens(left) + ([TokOf(q)] + [Num(c)]) == [Num(a), TokOf(p), Num(b), TokOf(q), Num(c)];
  }

  lemma RightFirst(p: Op, q: Op, a: int, b: int, c: int, lookup: Lookup)
    requires Level(p) < Level(q)
    ensures Evaluate([Num(a), TokOf(p), Num(b), TokOf(q), Num(c)], lookup) ==
      var right := Answer(Apply(q, b, c)); if right.Err? then right else Answer(Apply(p, a, right.v))
  {
    hide Evaluate, Apply, TokOf;
    var right := Bin(q, Lit(b), Lit(c));
    Small(q, b, c, lookup);
    WrittenEvaluates(Bin(p, Lit(a), right), lookup);
    assert Tokens(Bin(p, Lit(a), right)) == [Num(a)] + ([TokOf(p)] + Tokens(right));
    assert [Num(a)] + ([TokOf(p)] + Tokens(right)) == [Num(a), TokOf(p), Num(b), TokOf(q), Num(c)];
  }
}
