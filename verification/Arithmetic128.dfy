/** The checked 128-bit signed arithmetic the constant evaluator uses. */
module Arithmetic128 {

  datatype Failure = Overflow | DivisionByZero | ShiftOverflow

  datatype Checked = Value(v: int) | Fails(failure: Failure)

  datatype Op = BitOr | BitAnd | Shl | Shr | Add | Sub | Mul | Div

  const LIMIT: int := Pow2(127)

  predicate InRange(n: int) {
    -LIMIT <= n < LIMIT
  }

  function Pow2(n: nat): (r: int)
    ensures 1 <= r
  {
    if n == 0 then 1 else 2 * Pow2(n - 1)
  }

  function Within(n: int): (r: Checked) {
    if InRange(n) then Value(n) else Fails(Overflow)
  }

  /** Division rounding toward zero. */
  function Truncated(a: int, b: int): (q: int)
    requires b != 0
  {
    var m := (if a < 0 then -a else a) / (if b < 0 then -b else b);
    if (a < 0) == (b < 0) then m else -m
  }

  /** The two's complement number congruent to `n`. */
  function Wrapped(n: int): (r: int)
    ensures InRange(r)
  {
    (n + LIMIT) % (2 * LIMIT) - LIMIT
  }

  predicate BitAt(a: int, k: nat)
    decreases k
  {
    if k == 0 then a % 2 == 1 else BitAt(a / 2, k - 1)
  }

  /** Bitwise operation on two numbers of `n` bits and a sign. */
  function Bitwise(both: bool, a: int, b: int, n: nat): (r: int)
    decreases n
  {
    var bit := if both then a % 2 == 1 && b % 2 == 1 else a % 2 == 1 || b % 2 == 1;
    if n == 0 then (if bit then -1 else 0) else 2 * Bitwise(both, a / 2, b / 2, n - 1) + if bit then 1 else 0
  }

  function Apply(op: Op, a: int, b: int): (r: Checked) {
    match op
    case BitOr => Value(Bitwise(false, a, b, 127))
    case BitAnd => Value(Bitwise(true, a, b, 127))
    case Shl => if 0 <= b < 128 then Value(Wrapped(a * Pow2(b))) else Fails(ShiftOverflow)
    case Shr => if 0 <= b < 128 then Value(a / Pow2(b)) else Fails(ShiftOverflow)
    case Add => Within(a + b)
    case Sub => Within(a - b)
    case Mul => Within(a * b)
    case Div => if b == 0 || (a == -LIMIT && b == -1) then Fails(DivisionByZero) else Value(Truncated(a, b))
  }

  // ----- what the operators compute

  lemma {:induction false} SignBits(a: int, k: nat)
    requires a == 0 || a == -1
    ensures BitAt(a, k) <==> a == -1
  {
    if 0 < k { SignBits(a / 2, k - 1); }
  }

  lemma HalfRange(a: int, n: nat)
    requires 0 < n && -Pow2(n) <= a < Pow2(n)
    ensures -Pow2(n - 1) <= a / 2 < Pow2(n - 1)
  {
  }

  /** Bit by bit the operators are conjunction and disjunction, and their results stay in range. */
  lemma {:induction false} BitwiseBits(both: bool, a: int, b: int, n: nat, k: nat)
    requires -Pow2(n) <= a < Pow2(n) && -Pow2(n) <= b < Pow2(n)
    ensures var r := Bitwise(both, a, b, n);
      && -Pow2(n) <= r < Pow2(n)
      && (BitAt(r, k) <==> if both then BitAt(a, k) && BitAt(b, k) else BitAt(a, k) || BitAt(b, k))
    decreases n
  {
    var r := Bitwise(both, a, b, n);
    if n == 0 {
      SignBits(a, k);
      SignBits(b, k);
      SignBits(r, k);
    } else {
      HalfRange(a, n);
      HalfRange(b, n);
      BitwiseBits(both, a / 2, b / 2, n - 1, if k == 0 then 0 else k - 1);
      assert r / 2 == Bitwise(both, a / 2, b / 2, n - 1);
    }
  }

  /** Division rounds toward zero: what remains is smaller than the divisor and has the dividend's sign. */
  lemma DivisionTruncates(a: int, b: int)
    requires b != 0
    ensures IsQuotient(a, b, Truncated(a, b))
  {
    var x, y := if a < 0 then -a else a, if b < 0 then -b else b;
    QuotientAndRest(x, y);
    SignedProduct(x / y, y);
  }

  lemma QuotientAndRest(x: int, y: int)
    requires 0 < y
    ensures 0 <= x - (x / y) * y < y
  {
  }

  lemma SignedProduct(m: int, b: int)
    ensures (-m) * b == -(m * b) && m * (-b) == -(m * b)
  {
  }

  // ----- exactly what each operator gives

  /** The numbers are those of 128 bits and a sign. */
  lemma RangeIs(n: int)
    ensures InRange(n) <==> -0x8000_0000_0000_0000_0000_0000_0000_0000 <= n <= 0x7FFF_FFFF_FFFF_FFFF_FFFF_FFFF_FFFF_FFFF
  {
    hide Pow2;
    SmallPowers();
    Pow2Sum(4, 4);
    Pow2Sum(8, 8);
    Pow2Sum(16, 16);
    Pow2Sum(32, 32);
    Pow2Sum(64, 32);
    Pow2Sum(96, 16);
    Pow2Sum(112, 8);
    Pow2Sum(120, 4);
    Pow2Sum(124, 3);
  }

  lemma SmallPowers()
    ensures Pow2(3) == 8 && Pow2(4) == 16
  {
  }

  lemma {:induction false} Pow2Sum(m: nat, n: nat)
    ensures Pow2(m + n) == Pow2(m) * Pow2(n)
  {
    if 0 < n { Pow2Sum(m, n - 1); }
  }

  lemma SumIff(a: int, b: int, v: int)
    ensures Apply(Add, a, b) == Value(v) <==> InRange(v) && v - b == a
    ensures Apply(Sub, a, b) == Value(v) <==> InRange(v) && v + b == a
    ensures Apply(Mul, a, b) == Value(v) <==> InRange(v) && v == a * b
    ensures Apply(Add, a, b) == Fails(Overflow) <==> !InRange(a + b)
    ensures Apply(Sub, a, b) == Fails(Overflow) <==> !InRange(a - b)
    ensures Apply(Mul, a, b) == Fails(Overflow) <==> !InRange(a * b)
  {
    hide Pow2;
  }

  /** A right shift rounds down; shifting by a negative amount or by 128 or more fails. */
  lemma ShiftRightIff(a: int, b: int, v: int)
    ensures Apply(Shr, a, b) == Value(v) <==> 0 <= b < 128 && v * Pow2(b) <= a < (v + 1) * Pow2(b)
    ensures Apply(Shr, a, b) == Fails(ShiftOverflow) <==> b < 0 || 128 <= b
  {
    hide Pow2;
    if 0 <= b < 128 { QuotientIff(a, Pow2(b), v); }
  }

  lemma QuotientIff(a: int, d: int, v: int)
    requires 1 <= d
    ensures v == a / d <==> v * d <= a < (v + 1) * d
  {
    var q := a / d;
    assert q * d <= a < (q + 1) * d;
    if v < q {
      assert (v + 1) * d <= q * d by { ProductOrder(v + 1, q, d); }
    } else if q < v {
      assert (q + 1) * d <= v * d by { ProductOrder(q + 1, v, d); }
    }
  }

  lemma ProductOrder(x: int, y: int, d: int)
    requires x <= y && 0 <= d
    ensures x * d <= y * d
  {
  }

  /** What `v` times `b` leaves of `a` is smaller than `b` and has the sign of `a`. */
  ghost predicate IsQuotient(a: int, b: int, v: int) {
    var r, d := a - v * b, if b < 0 then -b else b;
    if 0 <= a then 0 <= r < d else -d < r <= 0
  }

  /** Division rounds toward zero; it fails for a divisor of zero and where the quotient does not fit. */
  lemma DivisionIff(a: int, b: int, v: int)
    ensures Apply(Div, a, b) == Value(v) <==> b != 0 && !(a == -LIMIT && b == -1) && IsQuotient(a, b, v)
    ensures Apply(Div, a, b) == Fails(DivisionByZero) <==> b == 0 || (a == -LIMIT && b == -1)
  {
    hide Pow2, IsQuotient, Truncated;
    if b != 0 {
      DivisionTruncates(a, b);
      if IsQuotient(a, b, v) { QuotientUnique(a, b, Truncated(a, b), v); }
    }
  }

  lemma QuotientUnique(a: int, b: int, q: int, v: int)
    requires b != 0 && IsQuotient(a, b, q) && IsQuotient(a, b, v)
    ensures v == q
  {
    var d := if b < 0 then -b else b;
    assert (a - v * b) - (a - q * b) == (q - v) * b;
    if q != v {
      ProductGrows(if q < v then v - q else q - v, d);
      SignedProduct(q - v, b);
      SignedProduct(q - v, -b);
    }
  }

  /** A left shift keeps the low 128 bits, as the two's complement number they are. */
  lemma ShiftLeftIff(a: int, b: int, v: int)
    ensures Apply(Shl, a, b) == Value(v) <==> 0 <= b < 128 && InRange(v) && (v - a * Pow2(b)) % (2 * LIMIT) == 0
    ensures Apply(Shl, a, b) == Fails(ShiftOverflow) <==> b < 0 || 128 <= b
  {
    hide Pow2;
    if 0 <= b < 128 {
      ShiftKeepsLowBits(a, b);
      if InRange(v) && (v - a * Pow2(b)) % (2 * LIMIT) == 0 { CongruentSame(v, Wrapped(a * Pow2(b)), a * Pow2(b), 2 * LIMIT); }
    }
  }

  lemma CongruentSame(x: int, y: int, n: int, m: int)
    requires 0 < m && (x - n) % m == 0 && (y - n) % m == 0 && -m < x - y < m
    ensures x == y
  {
    var i, j := (x - n) / m, (y - n) / m;
    assert x - y == (i - j) * m;
    if i != j { ProductGrows(if i < j then j - i else i - j, m); }
  }

  /** Bit `k` of a number, counting from the low end of its two's complement form. */
  lemma {:induction false} BitAtIs(a: int, k: nat)
    ensures BitAt(a, k) <==> a / Pow2(k) % 2 == 1
    decreases k
  {
    if 0 < k {
      BitAtIs(a / 2, k - 1);
      HalfThen(a, Pow2(k - 1));
    }
  }

  lemma HalfThen(a: int, d: int)
    requires 1 <= d
    ensures a / 2 / d == a / (2 * d)
  {
    var q := a / 2 / d;
    QuotientIff(a / 2, d, q);
    QuotientIff(a, 2 * d, q);
    assert q * (2 * d) == 2 * (q * d) && (q + 1) * (2 * d) == 2 * ((q + 1) * d);
  }

  /** The bitwise operators never fail, and work bit by bit. */
  lemma BitwiseIs(a: int, b: int, k: nat)
    requires InRange(a) && InRange(b)
    ensures Apply(BitOr, a, b).Value? && InRange(Apply(BitOr, a, b).v) && Apply(BitAnd, a, b).Value? && InRange(Apply(BitAnd, a, b).v)
    ensures Apply(BitOr, a, b).v / Pow2(k) % 2 == 1 <==> a / Pow2(k) % 2 == 1 || b / Pow2(k) % 2 == 1
    ensures Apply(BitAnd, a, b).v / Pow2(k) % 2 == 1 <==> a / Pow2(k) % 2 == 1 && b / Pow2(k) % 2 == 1
  {
    hide Pow2, Bitwise, BitAt;
    BitwiseBits(false, a, b, 127, k);
    BitwiseBits(true, a, b, 127, k);
    BitAtIs(a, k);
    BitAtIs(b, k);
    BitAtIs(Bitwise(false, a, b, 127), k);
    BitAtIs(Bitwise(true, a, b, 127), k);
  }

  lemma ShiftKeepsLowBits(a: int, r: int)
    requires 0 <= r < 128
    ensures Apply(Shl, a, r).Value? && InRange(Apply(Shl, a, r).v)
    ensures (Apply(Shl, a, r).v - a * Pow2(r)) % (2 * LIMIT) == 0
  {
    hide Pow2;
    var n, m := a * Pow2(r), 2 * LIMIT;
    var q := (n + LIMIT) / m;
    assert Wrapped(n) - n == -q * m;
    MultipleOf(-q, m);
  }

  lemma MultipleOf(k: int, m: int)
    requires 0 < m
    ensures (k * m) % m == 0
  {
    var q, r := (k * m) / m, (k * m) % m;
    assert (k - q) * m == r;
    if k - q != 0 {
      ProductGrows(if k - q < 0 then q - k else k - q, m);
    }
  }

  /** Every operation on 128-bit numbers gives a 128-bit number or fails. */
  lemma Closed(op: Op, a: int, b: int)
    requires InRange(a) && InRange(b)
    ensures Apply(op, a, b).Value? ==> InRange(Apply(op, a, b).v)
  {
    hide Pow2, Bitwise;
    match op
    case BitOr => BitwiseBits(false, a, b, 127, 0);
    case BitAnd => BitwiseBits(true, a, b, 127, 0);
    case Shr => if 0 <= b < 128 { QuotientShrinks(a, Pow2(b)); }
    case Div => if b != 0 { TruncatedRange(a, b); }
    case _ =>
  }

  lemma {:induction false} ProductGrows(d: nat, q: nat)
    requires 1 <= d
    ensures q <= d * q && (2 <= d && 1 <= q ==> q < d * q)
  {
    if 1 < d { ProductGrows(d - 1, q); }
  }

  lemma QuotientShrinks(a: int, d: int)
    requires 1 <= d
    ensures (0 <= a ==> 0 <= a / d <= a) && (a < 0 ==> a <= a / d < 0)
    ensures 2 <= d && 1 <= a ==> a / d < a
  {
    var q := a / d;
    assert a == d * q + a % d;
    if 0 <= q { ProductGrows(d, q); } else {
      ProductGrows(d, -q);
      assert (d - 1) * (-q) >= d - 1 by { ProductGrows(-q, d - 1); }
    }
  }

  lemma TruncatedRange(a: int, b: int)
    requires InRange(a) && b != 0 && InRange(b)
    ensures !(a == -LIMIT && b == -1) ==> InRange(Truncated(a, b))
  {
    hide Pow2;
    QuotientShrinks(if a < 0 then -a else a, if b < 0 then -b else b);
  }
}
