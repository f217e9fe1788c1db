/** The overflow tests and the variable table of the one-letter-variable
    calculator (EX/EX10/calc.c).  A C `long` is a 64-bit two's-complement
    integer; the add and subtract tests look at the sum or difference after
    it has wrapped around, which C leaves undefined, so the wrap is written
    out here as `Wrap`. */
module Calc {

  const LONG_MIN: int := -0x8000_0000_0000_0000
  const LONG_MAX: int := 0x7FFF_FFFF_FFFF_FFFF

  /** 2^64, the period of the wrap-around. */
  const WORD: int := 0x1_0000_0000_0000_0000

  type Long = x: int | LONG_MIN <= x <= LONG_MAX

  predicate InLong(x: int)
  {
    LONG_MIN <= x <= LONG_MAX
  }

  /** The long a 64-bit register holds after an operation whose exact
      result is x: the one value of the long range congruent to x. */
  function Wrap(x: int): (r: Long)
    ensures (r - x) % WORD == 0
    ensures InLong(x) ==> r == x
  {
    (x - LONG_MIN) % WORD + LONG_MIN
  }

  function Abs(x: int): nat
  {
    if x < 0 then -x else x
  }

  /** C's `/`: the quotient rounded toward zero. */
  function Quot(a: int, b: int): (q: int)
    requires b != 0
  {
    if (a >= 0) == (b > 0) then Abs(a) / Abs(b) else -(Abs(a) / Abs(b))
  }

  /** The quotient is the multiple of b nearest to a on the side of zero. */
  lemma QuotTruncates(a: int, b: int)
    requires b != 0
    ensures Abs(Quot(a, b)) * Abs(b) <= Abs(a) < (Abs(Quot(a, b)) + 1) * Abs(b)
  {
    var n, d := Abs(a), Abs(b);
    var q := n / d;
    assert Abs(Quot(a, b)) == q;
    assert q * d + n % d == n;
    assert (q + 1) * d == q * d + d;
  }

  /** `a / b` on longs: the truncated quotient, wrapped (only
      LONG_MIN / -1 leaves the range). */
  function CDiv(a: Long, b: Long): Long
    requires b != 0
  {
    Wrap(Quot(a, b))
  }

  /** checkAdd (calc.c:26-32): false when two non-negatives wrap to a
      negative sum or two negatives wrap to a non-negative one. */
  function CheckAdd(b: Long, c: Long): bool
  {
    !((b >= 0 && c >= 0 && Wrap(b + c) < 0) || (b < 0 && c < 0 && Wrap(b + c) >= 0))
  }

  /** checkSub (calc.c:35-42): the same test for the difference. */
  function CheckSub(b: Long, c: Long): bool
  {
    !((b < 0 && c >= 0 && Wrap(b - c) > 0) || (b >= 0 && c < 0 && Wrap(b - c) <= 0))
  }

  /** The wrapped-sum test is exact: it fails precisely on overflow. */
  lemma CheckAddExact(b: Long, c: Long)
    ensures CheckAdd(b, c) <==> InLong(b + c)
  {
    if b >= 0 && c >= 0 && !InLong(b + c) {
      assert Wrap(b + c) == b + c - WORD;
    } else if b < 0 && c < 0 && !InLong(b + c) {
      assert Wrap(b + c) == b + c + WORD;
    }
  }

  /** The wrapped-difference test is exact as well. */
  lemma CheckSubExact(b: Long, c: Long)
    ensures CheckSub(b, c) <==> InLong(b - c)
  {
    if b < 0 && c >= 0 && !InLong(b - c) {
      assert Wrap(b - c) == b - c + WORD;
    } else if b >= 0 && c < 0 && !InLong(b - c) {
      assert Wrap(b - c) == b - c - WORD;
    }
  }

  /** checkMul as it should read: each sign case compares against the
      bound divided by a positive operand where the source divides, and the
      positive-times-negative case divides LONG_MIN by b, which cannot
      overflow. */
  function CheckMul(b: Long, c: Long): bool
  {
    if b > 0 && c > 0 && b > CDiv(LONG_MAX, c) then false
    else if b < 0 && c > 0 && b < CDiv(LONG_MIN, c) then false
    else if b < 0 && c < 0 && b < CDiv(LONG_MAX, c) then false
    else if b > 0 && c < 0 && c < CDiv(LONG_MIN, b) then false
    else true
  }

  /** checkMul as written (calc.c:45-69): the last case tests
      `b < LONG_MIN / c`, the wrong way round. */
  function CheckMulAsWritten(b: Long, c: Long): bool
  {
    if b > 0 && c > 0 && b > CDiv(LONG_MAX, c) then false
    else if b < 0 && c > 0 && b < CDiv(LONG_MIN, c) then false
    else if b < 0 && c < 0 && b < CDiv(LONG_MAX, c) then false
    else if b > 0 && c < 0 && b < CDiv(LONG_MIN, c) then false
    else true
  }

  /** For a positive divisor, being above the quotient of x is being above
      x after multiplying back. */
  lemma AboveQuotient(x: nat, d: int, b: int)
    requires d > 0
    ensures b > x / d <==> b * d > x
  {
    var q := x / d;
    assert q * d <= x < q * d + d;
    if b > q {
      assert b * d >= (q + 1) * d by { MulLe(q + 1, b, d); }
    } else {
      assert b * d <= q * d by { MulLe(b, q, d); }
    }
  }

  lemma MulLe(a: int, b: int, d: int)
    requires a <= b && d > 0
    ensures a * d <= b * d
  {
    assert b * d - a * d == (b - a) * d;
  }

  /** Both operands positive: the product is positive, and too large
      exactly when b exceeds LONG_MAX / c. */
  lemma MulPosPos(b: Long, c: Long)
    requires b > 0 && c > 0
    ensures b > CDiv(LONG_MAX, c) <==> !InLong(b * c)
  {
    CheckDivExact(LONG_MAX, c);
    AboveQuotient(LONG_MAX, c, b);
    assert b * c > 0;
  }

  /** b negative, c positive: too small exactly when b is below
      LONG_MIN / c. */
  lemma MulNegPos(b: Long, c: Long)
    requires b < 0 && c > 0
    ensures b < CDiv(LONG_MIN, c) <==> !InLong(b * c)
  {
    var n: nat := -LONG_MIN;
    CheckDivExact(LONG_MIN, c);
    assert Quot(LONG_MIN, c) == -(n / c);
    AboveQuotient(n, c, -(b as int));
    assert (-(b as int)) * c == -(b * c);
    assert b * c < 0;
  }

  /** Both negative: too large exactly when b is below LONG_MAX / c. */
  lemma MulNegNeg(b: Long, c: Long)
    requires b < 0 && c < 0
    ensures b < CDiv(LONG_MAX, c) <==> !InLong(b * c)
  {
    var d: int := -(c as int);
    CheckDivExact(LONG_MAX, c);
    assert CDiv(LONG_MAX, c) == -(LONG_MAX / d);
    AboveQuotient(LONG_MAX, d, -(b as int));
    assert (-(b as int)) * d == b * c;
    assert b * c > 0;
  }

  /** b positive, c negative: too small exactly when c is below
      LONG_MIN / b. */
  lemma MulPosNeg(b: Long, c: Long)
    requires b > 0 && c < 0
    ensures c < CDiv(LONG_MIN, b) <==> !InLong(b * c)
  {
    MulNegPos(c, b);
    assert c * b == b * c;
  }

  /** The corrected checkMul fails precisely on overflow. */
  lemma CheckMulExact(b: Long, c: Long)
    ensures CheckMul(b, c) <==> InLong(b * c)
  {
    if b > 0 && c > 0 {
      MulPosPos(b, c);
    } else if b < 0 && c > 0 {
      MulNegPos(b, c);
    } else if b < 0 && c < 0 {
      MulNegNeg(b, c);
    } else if b > 0 && c < 0 {
      MulPosNeg(b, c);
    } else {
      assert b * c == 0;
    }
  }

  /** Outside the positive-times-negative case the source's test is the
      corrected one. */
  lemma CheckMulAsWrittenAgrees(b: Long, c: Long)
    requires !(b > 0 && c < 0)
    ensures CheckMulAsWritten(b, c) == CheckMul(b, c)
  {
  }

  /** 1 * -2 fits in a long, yet the source reports an overflow: LONG_MIN
      / -2 is 2^62 and 1 is below it. */
  lemma CheckMulMisreports()
    ensures InLong(1 * -2)
    ensures CheckMul(1, -2)
    ensures !CheckMulAsWritten(1, -2)
  {
    assert Quot(LONG_MIN, -2) == 0x4000_0000_0000_0000;
    assert Quot(LONG_MIN, 1) == LONG_MIN;
  }

  /** checkDiv (calc.c:72-79): the one overflowing quotient. */
  function CheckDiv(b: Long, c: Long): bool
  {
    !(b == LONG_MIN && c == -1)
  }

  /** checkDiv fails exactly when the truncated quotient leaves the long
      range, and otherwise `/` gives the exact quotient. */
  lemma CheckDivExact(b: Long, c: Long)
    requires c != 0
    ensures CheckDiv(b, c) <==> InLong(Quot(b, c))
    ensures CheckDiv(b, c) ==> CDiv(b, c) == Quot(b, c)
  {
    var q := Quot(b, c);
    QuotTruncates(b, c);
    if Abs(c) >= 2 && q != 0 {
      assert Abs(q) * 2 <= Abs(q) * Abs(c) by { MulLe(2, Abs(c), Abs(q)); }
    }
  }

  /** The 26 variables a..z, zero at start like any C global. */
  class Variables {
    const vals: array<Long>

    constructor ()
      ensures fresh(vals) && vals.Length == 26
      ensures forall i :: 0 <= i < 26 ==> vals[i] == 0
    {
      vals := new Long[26](_ => 0);
    }

    /** get (calc.c:13-16): the value of variable `let`. */
    function Get(let: char): Long
      requires vals.Length == 26 && 'a' <= let <= 'z'
      reads vals
    {
      vals[let as int - 'a' as int]
    }

    /** set (calc.c:20-23): afterwards `let` reads back as val and every
        other variable reads as before. */
    method Set(let: char, val: Long)
      requires vals.Length == 26 && 'a' <= let <= 'z'
      modifies vals
      ensures Get(let) == val
      ensures forall l :: 'a' <= l <= 'z' && l != let ==> Get(l) == old(Get(l))
    {
      vals[let as int - 'a' as int] := val;
    }
  }
}
