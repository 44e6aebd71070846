/** Terminal values of the multi-terminal diagrams: 64-bit integers with two
    infinities and "not a number", and the native operators on them. */
module Numbers {

  const I64_MIN: int := -0x8000_0000_0000_0000
  const I64_MAX: int := 0x7FFF_FFFF_FFFF_FFFF

  type I64 = x: int | I64_MIN <= x <= I64_MAX

  datatype Int64 = NaN | MinusInf | Num(n: I64) | PlusInf

  const ZERO := Num(0)
  const ONE := Num(1)

  datatype Op = Add | Sub | Mul | Div | Min | Max

  /** The result of a checked operation; `up` says which infinity stands for an overflow. */
  function Checked(x: int, up: bool): Int64 {
    if I64_MIN <= x <= I64_MAX then Num(x) else if up then PlusInf else MinusInf
  }

  predicate SameSign(x: int, y: int) {
    (x > 0 && y > 0) || (x < 0 && y < 0)
  }

  /** Division truncating toward zero, as on machine integers. */
  function TruncDiv(x: int, y: int): int
    requires y != 0
  {
    if x >= 0 then (if y > 0 then x / y else -(x / -y))
    else (if y > 0 then -(-x / y) else -x / -y)
  }

  // Two negative summands that overflow give PlusInf: see SumSaturates.
  function AddNum(a: Int64, b: Int64): Int64 {
    match (a, b)
    case (Num(x), Num(y)) => Checked(x + y, SameSign(x, y))
    case (NaN, _) => NaN
    case (_, NaN) => NaN
    case (MinusInf, PlusInf) => NaN
    case (PlusInf, MinusInf) => NaN
    case (MinusInf, _) => MinusInf
    case (_, MinusInf) => MinusInf
    case (PlusInf, _) => PlusInf
    case (_, PlusInf) => PlusInf
  }

  function SubNum(a: Int64, b: Int64): Int64 {
    match (a, b)
    case (Num(x), Num(y)) => Checked(x - y, SameSign(x, -(y as int)))
    case (NaN, _) => NaN
    case (_, NaN) => NaN
    case (MinusInf, MinusInf) => NaN
    case (PlusInf, PlusInf) => NaN
    case (MinusInf, _) => MinusInf
    case (_, PlusInf) => MinusInf
    case (PlusInf, _) => PlusInf
    case (_, MinusInf) => PlusInf
  }

  function MulNum(a: Int64, b: Int64): Int64 {
    match (a, b)
    case (Num(x), Num(y)) => Checked(x * y, SameSign(x, y))
    case (NaN, _) => NaN
    case (_, NaN) => NaN
    case (MinusInf, PlusInf) => NaN
    case (PlusInf, MinusInf) => NaN
    case (MinusInf, _) => MinusInf
    case (_, MinusInf) => MinusInf
    case (PlusInf, _) => PlusInf
    case (_, PlusInf) => PlusInf
  }

  function DivNum(a: Int64, b: Int64): Int64 {
    match (a, b)
    case (Num(x), Num(y)) =>
      if y == 0 then (if x < 0 then MinusInf else if x == 0 then NaN else PlusInf)
      else Checked(TruncDiv(x, y), true)
    case (Num(_), MinusInf) => Num(0)
    case (Num(_), PlusInf) => Num(0)
    case (PlusInf, Num(_)) => PlusInf
    case (MinusInf, Num(_)) => MinusInf
    case _ => NaN
  }

  datatype Ordering = Less | Equal | Greater | Incomparable

  function Compare(a: Int64, b: Int64): Ordering {
    match (a, b)
    case (Num(x), Num(y)) => if x < y then Less else if x == y then Equal else Greater
    case (NaN, NaN) => Equal
    case (MinusInf, MinusInf) => Equal
    case (PlusInf, PlusInf) => Equal
    case (NaN, _) => Incomparable
    case (_, NaN) => Incomparable
    case (MinusInf, _) => Less
    case (_, PlusInf) => Less
    case (_, MinusInf) => Greater
    case (PlusInf, _) => Greater
  }

  function MinNum(a: Int64, b: Int64): Int64 {
    match Compare(a, b)
    case Less => a
    case Equal => a
    case Greater => b
    case Incomparable => NaN
  }

  function MaxNum(a: Int64, b: Int64): Int64 {
    match Compare(a, b)
    case Greater => a
    case Equal => a
    case Less => b
    case Incomparable => NaN
  }

  /** An operator on two terminal values, as the terminals implement it. What it computes is
      stated below. */
  function Eval2(op: Op, a: Int64, b: Int64): Int64 {
    match op
    case Add => AddNum(a, b)
    case Sub => SubNum(a, b)
    case Mul => MulNum(a, b)
    case Div => DivNum(a, b)
    case Min => MinNum(a, b)
    case Max => MaxNum(a, b)
  }

  // --- What the operators compute --------------------------------------------

  /** The nearest terminal value: what a saturating operator should return. */
  function Saturated(x: int): Int64 {
    if x < I64_MIN then MinusInf else if x > I64_MAX then PlusInf else Num(x)
  }

  /** A sum saturates, but to the wrong side exactly if it overflows downwards. */
  lemma SumSaturates(x: I64, y: I64)
    ensures Eval2(Add, Num(x), Num(y)) == if x + y < I64_MIN then PlusInf else Saturated(x + y)
  {
  }

  /** A difference saturates, but to the wrong side exactly if it overflows downwards, or
      negates the least integer. */
  lemma DifferenceSaturates(x: I64, y: I64)
    ensures Eval2(Sub, Num(x), Num(y)) ==
            if x - y < I64_MIN then PlusInf
            else if x == 0 && y == I64_MIN then MinusInf
            else Saturated(x - y)
  {
  }

  /** A product saturates. */
  lemma ProductSaturates(x: I64, y: I64)
    ensures Eval2(Mul, Num(x), Num(y)) == Saturated(x * y)
  {
    if SameSign(x, y) {
      assert x * y > 0;
    } else {
      assert x * y <= 0;
    }
  }

  /** `q` and `r` are the quotient and remainder of a division that truncates toward zero. */
  predicate Truncates(x: int, y: int, q: int, r: int) {
    x == y * q + r && Magnitude(r) < Magnitude(y) && (r == 0 || (r > 0 <==> x > 0))
  }

  function Magnitude(x: int): nat {
    if x >= 0 then x else -x
  }

  lemma {:induction false} ProductAtLeast(x: nat, y: nat)
    requires x >= 1
    ensures x * y >= y
  {
    if x > 1 {
      ProductAtLeast(x - 1, y);
      assert x * y == (x - 1) * y + y;
    }
  }

  lemma Signs(x: int, y: int)
    ensures -x * y == -(x * y) == x * -y && -x * -y == x * y
  {
  }

  lemma DivMod(a: nat, b: nat)
    requires b > 0
    ensures a == b * (a / b) + a % b && 0 <= a % b < b
  {
  }

  lemma QuotientNatural(a: nat, b: nat, q: int, r: nat)
    requires a == b * q + r && r < b
    ensures q >= 0
  {
    if q < 0 {
      ProductAtLeast(-q, b);
      Signs(b, -q);
    }
  }

  lemma TruncDivSign(x: int, y: int)
    requires y != 0
    ensures var q := Magnitude(x) / Magnitude(y); TruncDiv(x, y) == if (x >= 0) == (y > 0) then q else -q
  {
  }

  /** The quotient of the magnitudes, and its sign. */
  lemma TruncDivParts(x: int, y: int) returns (q: nat, r: nat)
    requires y != 0
    ensures Magnitude(x) == Magnitude(y) * q + r && r < Magnitude(y)
    ensures TruncDiv(x, y) == if (x >= 0) == (y > 0) then q else 0 - q
    ensures q <= Magnitude(x) && (Magnitude(y) >= 2 ==> q < Magnitude(x) || q == 0)
  {
    hide TruncDiv;
    var a, b := Magnitude(x), Magnitude(y);
    TruncDivSign(x, y);
    DivMod(a, b);
    var c, d := a / b, a % b;
    QuotientNatural(a, b, c, d);
    q, r := c, d;
    BoundedQuotient(a, b, q, r);
  }

  lemma BoundedQuotient(a: nat, b: nat, q: nat, r: nat)
    requires b >= 1 && a == b * q + r
    ensures q <= a && (b >= 2 ==> q < a || q == 0)
  {
    ProductAtLeast(b, q);
    if b >= 2 {
      ProductAtLeast(b - 1, q);
      assert b * q == (b - 1) * q + q;
    }
  }

  /** Division truncates toward zero. */
  lemma TruncDivTruncates(x: int, y: int)
    requires y != 0
    ensures Truncates(x, y, TruncDiv(x, y), x - y * TruncDiv(x, y))
  {
    hide TruncDiv;
    var q, r := TruncDivParts(x, y);
    Signs(y, q);
  }

  /** The quotient of integers truncates toward zero; the only one that overflows is I64_MIN / -1. */
  lemma QuotientTruncates(x: I64, y: I64)
    requires y != 0
    ensures x == I64_MIN && y == -1 ==> Eval2(Div, Num(x), Num(y)) == PlusInf
    ensures !(x == I64_MIN && y == -1) ==>
              Eval2(Div, Num(x), Num(y)).Num? && exists r :: Truncates(x, y, Eval2(Div, Num(x), Num(y)).n, r)
  {
    var q := TruncDiv(x, y);
    var r := x - y * q;
    TruncDivTruncates(x, y);
    assert Truncates(x, y, q, r);
    var c, d := TruncDivParts(x, y);
  }

  /** Quotients by 0 and of infinities. The sign of the other operand does not matter. */
  lemma QuotientLimits(x: I64, y: I64)
    ensures Eval2(Div, Num(x), Num(0)) == if x < 0 then MinusInf else if x > 0 then PlusInf else NaN
    ensures Eval2(Div, Num(x), PlusInf) == Num(0) == Eval2(Div, Num(x), MinusInf)
    ensures Eval2(Div, PlusInf, Num(y)) == PlusInf && Eval2(Div, MinusInf, Num(y)) == MinusInf
    ensures forall a, b :: a in {PlusInf, MinusInf} && b in {PlusInf, MinusInf} ==> Eval2(Div, a, b) == NaN
  {
  }

  predicate Infinite(a: Int64) {
    a == PlusInf || a == MinusInf
  }

  function Negated(a: Int64): Int64
    requires Infinite(a)
  {
    if a == PlusInf then MinusInf else PlusInf
  }

  /** An infinity absorbs every summand except the opposite infinity and NaN. */
  lemma SumLimits(a: Int64, b: Int64)
    requires Infinite(a) && b != NaN
    ensures Eval2(Add, a, b) == Eval2(Add, b, a) == if b == Negated(a) then NaN else a
    ensures Eval2(Sub, a, b) == if b == a then NaN else a
    ensures Eval2(Sub, b, a) == if b == a then NaN else Negated(a)
  {
  }

  /** An infinity absorbs every factor except the opposite infinity and NaN, whatever its sign. */
  lemma ProductLimits(a: Int64, b: Int64)
    requires Infinite(a) && b != NaN
    ensures Eval2(Mul, a, b) == Eval2(Mul, b, a) == if b == Negated(a) then NaN else a
  {
  }

  // --- Order -----------------------------------------------------------------

  /** The order of the extended integers; NaN is comparable to itself only. */
  predicate Leq(a: Int64, b: Int64) {
    a == b || (a == MinusInf && b != NaN) || (b == PlusInf && a != NaN) || (a.Num? && b.Num? && a.n <= b.n)
  }

  /** Minimum and maximum are the greatest lower and the least upper bound of numbers and
      infinities, and NaN if an operand is. */
  lemma MinMaxBounds(a: Int64, b: Int64, c: Int64)
    ensures a == NaN || b == NaN ==> Eval2(Min, a, b) == NaN == Eval2(Max, a, b)
    ensures a != NaN && b != NaN ==> Leq(Eval2(Min, a, b), a) && Leq(Eval2(Min, a, b), b)
    ensures a != NaN && b != NaN ==> Leq(a, Eval2(Max, a, b)) && Leq(b, Eval2(Max, a, b))
    ensures a != NaN && b != NaN && Leq(c, a) && Leq(c, b) ==> Leq(c, Eval2(Min, a, b))
    ensures a != NaN && b != NaN && Leq(a, c) && Leq(b, c) ==> Leq(Eval2(Max, a, b), c)
  {
  }

  /** Comparison decides the order. */
  lemma CompareDecides(a: Int64, b: Int64)
    ensures Compare(a, b) == Equal <==> a == b
    ensures Compare(a, b) == Less <==> Leq(a, b) && a != b
    ensures Compare(a, b) == Greater <==> Leq(b, a) && a != b
    ensures Compare(a, b) == Incomparable <==> !Leq(a, b) && !Leq(b, a)
  {
  }

  // --- Algebra ---------------------------------------------------------------

  // The algebra behind the shortcuts of the terminal cases.

  lemma NanAbsorbs(op: Op, a: Int64)
    ensures Eval2(op, NaN, a) == NaN == Eval2(op, a, NaN)
  {
  }

  /** `a` leaves every `b` unchanged as the left operand of `op`. */
  predicate LeftNeutral(op: Op, a: Int64) {
    (op == Add && a == ZERO) || (op == Mul && a == ONE)
  }

  /** `b` leaves every `a` unchanged as the right operand of `op`. */
  predicate RightNeutral(op: Op, b: Int64) {
    ((op == Add || op == Sub) && b == ZERO) || ((op == Mul || op == Div) && b == ONE)
  }

  lemma NeutralElements(op: Op, a: Int64, b: Int64)
    ensures LeftNeutral(op, a) ==> Eval2(op, a, b) == b
    ensures RightNeutral(op, b) ==> Eval2(op, a, b) == a
  {
    if a.Num? {
      assert TruncDiv(a.n, 1) == a.n;
    }
  }

  lemma OrderIdempotent(op: Op, a: Int64)
    requires op == Min || op == Max
    ensures Eval2(op, a, a) == a
  {
  }

  lemma Commutes(op: Op, a: Int64, b: Int64)
    requires op != Sub && op != Div
    ensures Eval2(op, a, b) == Eval2(op, b, a)
  {
    if a.Num? && b.Num? {
      assert a.n * b.n == b.n * a.n;
    }
  }

  lemma MinMeetsMax(a: Int64, b: Int64)
    ensures MinNum(a, b) == MaxNum(a, b) <==> a == b || a == NaN || b == NaN
  {
  }

  /** Negation has exactly two fixed points. */
  lemma NegationFixedPoints(a: Int64)
    ensures SubNum(ZERO, a) == a <==> a == ZERO || a == NaN
  {
  }
}
