/** Arithmetic in GF(2^8), the field of section 4 of FIPS-197: a byte is a
    polynomial over GF(2) (bit i the coefficient of x^i), addition is XOR,
    and multiplication is the polynomial product reduced modulo
    m(x) = x^8 + x^4 + x^3 + x + 1 (0x11B).

    Bit patterns are natural numbers and the C bitwise operators are the
    functions Xor, And, Shl and Shr below, so that every fact about them is
    proved by induction over the bits. */
module GaloisField {
  /** The C `byte` (unsigned char). */
  type Byte = x: nat | x < 256

  /** 0x11B << 7: the modulus with its x^8 term moved to bit 15. */
  const REDUCER: nat := 0x8D80

  function Pow2(n: nat): (r: nat)
    ensures r > 0
  {
    if n == 0 then 1 else 2 * Pow2(n - 1)
  }

  /** Bitwise exclusive or, `^`. */
  function Xor(a: nat, b: nat): nat
    decreases a + b
  {
    if a == 0 && b == 0 then 0 else 2 * Xor(a / 2, b / 2) + (if a % 2 == b % 2 then 0 else 1)
  }

  /** Bitwise and, `&`. */
  function And(a: nat, b: nat): nat
    decreases a + b
  {
    if a == 0 || b == 0 then 0
    else 2 * And(a / 2, b / 2) + (if a % 2 == 1 && b % 2 == 1 then 1 else 0)
  }

  /** a << n. */
  function Shl(a: nat, n: nat): nat
  {
    if n == 0 then a else 2 * Shl(a, n - 1)
  }

  /** a >> n. */
  function Shr(a: nat, n: nat): nat
  {
    if n == 0 then a else Shr(a, n - 1) / 2
  }

  /** Bit i of a. */
  predicate Bit(a: nat, i: nat)
  {
    if i == 0 then a % 2 == 1 else Bit(a / 2, i - 1)
  }

  // ---------------------------------------------------------------------
  // The algebra of Xor

  lemma {:induction false} XorZero(a: nat)
    ensures Xor(a, 0) == a && Xor(0, a) == a
    decreases a
  {
    if a > 0 {
      XorZero(a / 2);
    }
  }

  lemma {:induction false} XorSelf(a: nat)
    ensures Xor(a, a) == 0
    decreases a
  {
    if a > 0 {
      XorSelf(a / 2);
    }
  }

  lemma {:induction false} XorComm(a: nat, b: nat)
    ensures Xor(a, b) == Xor(b, a)
    decreases a + b
  {
    if a + b > 0 {
      XorComm(a / 2, b / 2);
    }
  }

  /** The low bit and the rest of a Xor, whatever its arguments. */
  lemma XorHalves(a: nat, b: nat)
    ensures Xor(a, b) / 2 == Xor(a / 2, b / 2)
    ensures Xor(a, b) % 2 == if a % 2 == b % 2 then 0 else 1
  {
  }

  lemma {:induction false} XorAssoc(a: nat, b: nat, c: nat)
    ensures Xor(Xor(a, b), c) == Xor(a, Xor(b, c))
    decreases a + b + c
  {
    if a + b + c > 0 {
      XorAssoc(a / 2, b / 2, c / 2);
      var ab, bc := Xor(a, b), Xor(b, c);
      XorHalves(a, b);
      XorHalves(b, c);
      XorHalves(ab, c);
      XorHalves(a, bc);
      var l, r := Xor(ab, c), Xor(a, bc);
      assert l / 2 == r / 2;
      assert l % 2 == r % 2;
    }
  }

  /** x << 1 distributes over Xor. */
  lemma Xor2(a: nat, b: nat)
    ensures Xor(2 * a, 2 * b) == 2 * Xor(a, b)
  {
  }

  lemma {:induction false} ShlXor(a: nat, b: nat, n: nat)
    ensures Shl(Xor(a, b), n) == Xor(Shl(a, n), Shl(b, n))
  {
    if n > 0 {
      ShlXor(a, b, n - 1);
      Xor2(Shl(a, n - 1), Shl(b, n - 1));
    }
  }

  lemma {:induction false} BitXor(a: nat, b: nat, i: nat)
    ensures Bit(Xor(a, b), i) == (Bit(a, i) != Bit(b, i))
  {
    XorHalves(a, b);
    if i > 0 {
      BitXor(a / 2, b / 2, i - 1);
    }
  }

  /** Two bit patterns below 2^k have their Xor below 2^k. */
  lemma {:induction false} XorBound(a: nat, b: nat, k: nat)
    requires a < Pow2(k) && b < Pow2(k)
    ensures Xor(a, b) < Pow2(k)
  {
    if k > 0 {
      XorBound(a / 2, b / 2, k - 1);
    }
  }

  /** Two bit patterns whose top bit is bit k cancel it. */
  lemma {:induction false} XorTop(a: nat, b: nat, k: nat)
    requires Pow2(k) <= a < Pow2(k + 1) && Pow2(k) <= b < Pow2(k + 1)
    ensures Xor(a, b) < Pow2(k)
  {
    if k > 0 {
      XorTop(a / 2, b / 2, k - 1);
    }
  }

  /** Below 2^(k+1), bit k is set exactly from 2^k up. */
  lemma {:induction false} BitTop(a: nat, k: nat)
    requires a < Pow2(k + 1)
    ensures Bit(a, k) <==> a >= Pow2(k)
  {
    if k > 0 {
      BitTop(a / 2, k - 1);
    }
  }

  lemma {:induction false} Pow2Mono(j: nat, k: nat)
    requires j <= k
    ensures Pow2(j) <= Pow2(k)
    decreases k
  {
    if j < k {
      Pow2Mono(j, k - 1);
    }
  }

  lemma {:induction false} BitOfZero(i: nat)
    ensures !Bit(0, i)
  {
    if i > 0 {
      BitOfZero(i - 1);
    }
  }

  lemma Pow2Values()
    ensures Pow2(8) == 0x100 && Pow2(9) == 0x200 && Pow2(10) == 0x400 && Pow2(11) == 0x800
    ensures Pow2(12) == 0x1000 && Pow2(13) == 0x2000 && Pow2(14) == 0x4000
    ensures Pow2(15) == 0x8000 && Pow2(16) == 0x10000
  {
    assert Pow2(4) == 16;
    assert Pow2(8) == 0x100;
    assert Pow2(12) == 0x1000;
  }

  lemma BitClear(a: nat, k: nat)
    requires a < Pow2(k)
    ensures !Bit(a, k)
  {
    BitTop(a, k);
  }

  /** `(x & 1 << i) == 1 << i` tests bit i. */
  lemma {:induction false} AndPow2(x: nat, i: nat)
    ensures And(x, Pow2(i)) == if Bit(x, i) then Pow2(i) else 0
  {
    if x == 0 {
      BitOfZero(i);
    } else if i > 0 {
      AndPow2(x / 2, i - 1);
      assert Pow2(i) / 2 == Pow2(i - 1) && Pow2(i) % 2 == 0;
    }
  }

  /** Choosing whether to Xor r into each of x and y, and Xoring the
      results, is choosing by the parity of the two choices. */
  lemma XorSel(x: nat, y: nat, r: nat, bx: bool, bq: bool)
    ensures (if bx != bq then Xor(Xor(x, y), r) else Xor(x, y))
         == Xor(if bx then Xor(x, r) else x, if bq then Xor(y, r) else y)
  {
    if bx && bq {
      XorAssoc(x, r, Xor(y, r));
      XorComm(y, r);
      XorAssoc(r, r, y);
      XorSelf(r);
      XorZero(y);
    } else if bx {
      XorAssoc(x, r, y);
      XorComm(r, y);
      XorAssoc(x, y, r);
    } else if bq {
      XorAssoc(x, y, r);
    }
  }

  // ---------------------------------------------------------------------
  // fieldAdd and fieldSub

  /** Field addition, `a ^ b`. */
  function FieldAdd(a: Byte, b: Byte): (r: Byte)
    ensures forall i :: 0 <= i < 8 ==> (Bit(r, i) <==> Bit(a, i) != Bit(b, i))
  {
    XorBound(a, b, 8);
    forall i | 0 <= i < 8 ensures Bit(Xor(a, b), i) <==> Bit(a, i) != Bit(b, i) {
      BitXor(a, b, i);
    }
    Xor(a, b)
  }

  /** Field subtraction: the same XOR as addition. */
  function FieldSub(a: Byte, b: Byte): (r: Byte)
    ensures r == FieldAdd(a, b)
  {
    XorBound(a, b, 8);
    Xor(a, b)
  }

  lemma AddCommutes(a: Byte, b: Byte)
    ensures FieldAdd(a, b) == FieldAdd(b, a)
  {
    XorComm(a, b);
  }

  lemma AddAssociates(a: Byte, b: Byte, c: Byte)
    ensures FieldAdd(FieldAdd(a, b), c) == FieldAdd(a, FieldAdd(b, c))
  {
    XorAssoc(a, b, c);
  }

  /** 0 is the additive identity and every element is its own negative. */
  lemma AddIdentities(a: Byte)
    ensures FieldAdd(a, 0) == a && FieldAdd(a, a) == 0
  {
    XorZero(a);
    XorSelf(a);
  }

  lemma SubUndoesAdd(a: Byte, b: Byte)
    ensures FieldSub(FieldAdd(a, b), b) == a
  {
    XorAssoc(a, b, b);
    XorSelf(b);
    XorZero(a);
  }

  // ---------------------------------------------------------------------
  // fieldMul, stage 1: the carry-less product

  /** Stage 1 after the bits of b below n: a << i Xored in for each set
      bit i of b. */
  function PartialProduct(a: Byte, b: Byte, n: nat): nat
    requires n <= 8
  {
    if n == 0 then 0
    else if Bit(b, n - 1) then Xor(PartialProduct(a, b, n - 1), Shl(a, n - 1))
    else PartialProduct(a, b, n - 1)
  }

  /** x when c holds, else 0. */
  function Sel(c: bool, x: nat): nat
  {
    if c then x else 0
  }

  /** The GF(2) polynomial product, by halving b: an independent
      definition of stage 1. */
  function ClMul(a: nat, b: nat): nat
  {
    if b == 0 then 0 else Xor(2 * ClMul(a, b / 2), Sel(b % 2 == 1, a))
  }

  lemma {:induction false} ShlBound(a: Byte, n: nat)
    ensures Shl(a, n) < Pow2(8 + n)
  {
    if n > 0 {
      ShlBound(a, n - 1);
    } else {
      assert Pow2(8) == 256;
    }
  }

  /** The carry-less product of two bytes fits in 15 bits. */
  lemma {:induction false} PartialProductFits(a: Byte, b: Byte, n: nat)
    requires n <= 8
    ensures PartialProduct(a, b, n) < Pow2(7 + n)
  {
    if n > 0 {
      PartialProductFits(a, b, n - 1);
      Pow2Mono(7 + n - 1, 7 + n);
      ShlBound(a, n - 1);
      XorBound(PartialProduct(a, b, n - 1), Shl(a, n - 1), 7 + n);
    }
  }

  lemma {:induction false} PartialProductOfZero(a: Byte, n: nat)
    requires n <= 8
    ensures PartialProduct(a, 0, n) == 0
  {
    if n > 0 {
      PartialProductOfZero(a, n - 1);
      BitTop(0, n - 1);
    }
  }

  /** Stage 1 unrolled from the low end: the low bit of b, then the rest
      of b one position up. */
  lemma {:induction false} PartialProductHalves(a: Byte, b: Byte, n: nat)
    requires 1 <= n <= 8
    ensures PartialProduct(a, b, n) == Xor(2 * PartialProduct(a, b / 2, n - 1), Sel(b % 2 == 1, a))
  {
    var t := Sel(b % 2 == 1, a);
    if n == 1 {
      XorZero(t);
      XorZero(a);
    } else {
      PartialProductHalves(a, b, n - 1);
      var p := PartialProduct(a, b / 2, n - 2);
      assert Bit(b, n - 1) == Bit(b / 2, n - 2);
      if Bit(b, n - 1) {
        var s := Shl(a, n - 2);
        calc {
          PartialProduct(a, b, n);
          Xor(Xor(2 * p, t), 2 * s);
          { XorAssoc(2 * p, t, 2 * s); XorComm(t, 2 * s); XorAssoc(2 * p, 2 * s, t); }
          Xor(Xor(2 * p, 2 * s), t);
          { Xor2(p, s); }
          Xor(2 * PartialProduct(a, b / 2, n - 1), t);
        }
      }
    }
  }

  /** Stage 1 of fieldMul is the GF(2) polynomial product. */
  lemma {:induction false} PartialProductIsClMul(a: Byte, b: Byte, n: nat)
    requires n <= 8 && b < Pow2(n)
    ensures PartialProduct(a, b, n) == ClMul(a, b)
  {
    if b == 0 {
      PartialProductOfZero(a, n);
    } else {
      PartialProductHalves(a, b, n);
      PartialProductIsClMul(a, b / 2, n - 1);
    }
  }

  lemma {:induction false} ClMulZeroLeft(b: nat)
    ensures ClMul(0, b) == 0
  {
    if b > 0 {
      ClMulZeroLeft(b / 2);
      XorZero(0);
    }
  }

  /** The low terms of the two unrollings of ClMul agree. */
  lemma LowTerms(a: nat, b: nat)
    ensures Xor(2 * Sel(a % 2 == 1, b / 2), Sel(b % 2 == 1, a))
         == Xor(2 * Sel(b % 2 == 1, a / 2), Sel(a % 2 == 1, b))
  {
    var x, y := a / 2, b / 2;
    if a % 2 == 1 && b % 2 == 1 {
      XorHalves(2 * y, a);
      XorHalves(2 * x, b);
      XorComm(x, y);
      var l, r := Xor(2 * y, a), Xor(2 * x, b);
      assert l / 2 == r / 2 && l % 2 == 1 && r % 2 == 1;
    } else if a % 2 == 1 {
      XorZero(b);
      XorZero(2 * y);
    } else if b % 2 == 1 {
      XorZero(a);
      XorZero(2 * x);
    } else {
      XorZero(0);
    }
  }

  /** ClMul(a, b) unrolled twice, through its commuted half. */
  lemma Unroll2(a: nat, b: nat)
    requires a > 0 && b > 0 && ClMul(a, b / 2) == ClMul(b / 2, a)
    ensures ClMul(a, b)
         == Xor(Xor(2 * (2 * ClMul(b / 2, a / 2)), 2 * Sel(a % 2 == 1, b / 2)), Sel(b % 2 == 1, a))
  {
    var c := ClMul(b / 2, a / 2);
    var u := Sel(a % 2 == 1, b / 2);
    assert ClMul(b / 2, a) == Xor(2 * c, u);
    Xor2(2 * c, u);
  }

  /** The polynomial product commutes. */
  lemma {:induction false} ClMulComm(a: nat, b: nat)
    ensures ClMul(a, b) == ClMul(b, a)
    decreases a + b
  {
    if a == 0 {
      ClMulZeroLeft(b);
    } else if b == 0 {
      ClMulZeroLeft(a);
    } else {
      ClMulComm(a, b / 2);
      ClMulComm(a / 2, b);
      ClMulComm(a / 2, b / 2);
      Unroll2(a, b);
      Unroll2(b, a);
      var c := 2 * (2 * ClMul(a / 2, b / 2));
      var ta, tb := 2 * Sel(a % 2 == 1, b / 2), 2 * Sel(b % 2 == 1, a / 2);
      var sa, sb := Sel(a % 2 == 1, b), Sel(b % 2 == 1, a);
      XorAssoc(c, ta, sb);
      LowTerms(a, b);
      XorAssoc(c, tb, sa);
    }
  }

  /** Stage 1 distributes over addition of the second factor. */
  lemma {:induction false} PartialProductXor(a: Byte, b: Byte, c: Byte, n: nat)
    requires n <= 8 && Xor(b, c) < 256
    ensures PartialProduct(a, Xor(b, c), n) == Xor(PartialProduct(a, b, n), PartialProduct(a, c, n))
  {
    if n == 0 {
      XorZero(0);
    } else {
      PartialProductXor(a, b, c, n - 1);
      BitXor(b, c, n - 1);
      XorSel(PartialProduct(a, b, n - 1), PartialProduct(a, c, n - 1), Shl(a, n - 1), Bit(b, n - 1), Bit(c, n - 1));
    }
  }

  // ---------------------------------------------------------------------
  // fieldMul, stage 2: reduction modulo 0x11B

  /** Reduction step i: when bit 15 - i is set, Xor in the modulus
      shifted so that its x^8 term cancels that bit. */
  function ReduceStep(p: nat, i: nat): nat
    requires i < 8
  {
    if Bit(p, 15 - i) then Xor(p, Shr(REDUCER, i)) else p
  }

  /** The first n reduction steps, top bit first. */
  function Reduced(p: nat, n: nat): nat
    requires n <= 8
  {
    if n == 0 then p else ReduceStep(Reduced(p, n - 1), n - 1)
  }

  /** fieldMul's result: the carry-less product reduced, cast to a byte. */
  function FieldMulSpec(a: Byte, b: Byte): Byte
  {
    Reduced(PartialProduct(a, b, 8), 8) % 256
  }

  /** The shifted modulus has its top bit at bit 15 - i. */
  lemma {:induction false} ReducerAt(i: nat)
    requires i < 8
    ensures Pow2(15 - i) <= Shr(REDUCER, i) < Pow2(16 - i)
  {
    if i > 0 {
      ReducerAt(i - 1);
    } else {
      Pow2Values();
    }
  }

  /** Each step clears the bit it tests and leaves nothing above it. */
  lemma ReduceStepClears(p: nat, i: nat)
    requires i < 8 && p < Pow2(16 - i)
    ensures ReduceStep(p, i) < Pow2(15 - i)
  {
    BitTop(p, 15 - i);
    if Bit(p, 15 - i) {
      ReducerAt(i);
      XorTop(p, Shr(REDUCER, i), 15 - i);
    }
  }

  /** After n steps, bits 16 - n .. 15 are clear. */
  lemma {:induction false} ReducedClears(p: nat, n: nat)
    requires n <= 8 && p < Pow2(16)
    ensures Reduced(p, n) < Pow2(16 - n)
  {
    if n > 0 {
      ReducedClears(p, n - 1);
      ReduceStepClears(Reduced(p, n - 1), n - 1);
    }
  }

  /** Stage 2 leaves a byte, so the final cast loses nothing. */
  lemma ReducedIsAByte(a: Byte, b: Byte)
    ensures Reduced(PartialProduct(a, b, 8), 8) < 256
    ensures FieldMulSpec(a, b) == Reduced(PartialProduct(a, b, 8), 8)
  {
    PartialProductFits(a, b, 8);
    Pow2Mono(15, 16);
    ReducedClears(PartialProduct(a, b, 8), 8);
  }

  /** Reduction is linear. */
  lemma {:induction false} ReducedXor(p: nat, q: nat, n: nat)
    requires n <= 8
    ensures Reduced(Xor(p, q), n) == Xor(Reduced(p, n), Reduced(q, n))
  {
    if n > 0 {
      ReducedXor(p, q, n - 1);
      var rp, rq := Reduced(p, n - 1), Reduced(q, n - 1);
      BitXor(rp, rq, 15 - (n - 1));
      XorSel(rp, rq, Shr(REDUCER, n - 1), Bit(rp, 15 - (n - 1)), Bit(rq, 15 - (n - 1)));
    }
  }

  /** Steps that find their bits clear change nothing. */
  lemma {:induction false} ReducedUntouched(p: nat, n: nat)
    requires n <= 8 && p < Pow2(16 - n)
    ensures Reduced(p, n) == p
  {
    if n > 0 {
      Pow2Mono(16 - n, 16 - (n - 1));
      ReducedUntouched(p, n - 1);
      BitClear(p, 15 - (n - 1));
    }
  }

  /** A byte needs no reduction. */
  lemma ReducedByte(p: Byte, n: nat)
    requires n <= 8
    ensures Reduced(p, n) == p
  {
    assert Pow2(8) == 256;
    Pow2Mono(8, 16 - n);
    ReducedUntouched(p, n);
  }

  // ---------------------------------------------------------------------
  // Stage 2 computes the remainder modulo m(x)

  /** m(x) = x^8 + x^4 + x^3 + x + 1. */
  const MODULUS: nat := 0x11B

  /** The quotient stage 2 accumulates: step i, when it fires, Xors in
      m(x) times x^(7 - i). */
  function Quotient(p: nat, n: nat): nat
    requires n <= 8
  {
    if n == 0 then 0
    else if Bit(Reduced(p, n - 1), 15 - (n - 1)) then Xor(Quotient(p, n - 1), Pow2(7 - (n - 1)))
    else Quotient(p, n - 1)
  }

  /** Regrouping four Xored terms. */
  lemma XorShuffle(a: nat, b: nat, c: nat, d: nat)
    ensures Xor(Xor(a, b), Xor(c, d)) == Xor(Xor(a, c), Xor(b, d))
  {
    XorAssoc(a, b, Xor(c, d));
    XorAssoc(b, c, d);
    XorComm(b, c);
    XorAssoc(c, b, d);
    XorAssoc(a, c, Xor(b, d));
  }

  lemma SelXor(c: bool, x: nat, y: nat)
    ensures Sel(c, Xor(x, y)) == Xor(Sel(c, x), Sel(c, y))
  {
  }

  /** The carry-less product is linear in its first argument. */
  lemma {:induction false} ClMulXorLeft(a1: nat, a2: nat, b: nat)
    ensures ClMul(Xor(a1, a2), b) == Xor(ClMul(a1, b), ClMul(a2, b))
  {
    if b > 0 {
      ClMulXorLeft(a1, a2, b / 2);
      var x1, x2 := ClMul(a1, b / 2), ClMul(a2, b / 2);
      Xor2(x1, x2);
      SelXor(b % 2 == 1, a1, a2);
      XorShuffle(2 * x1, 2 * x2, Sel(b % 2 == 1, a1), Sel(b % 2 == 1, a2));
    }
  }

  /** Multiplying by x^k shifts left by k. */
  lemma {:induction false} ClMulPow2(m: nat, k: nat)
    ensures ClMul(m, Pow2(k)) == Shl(m, k)
  {
    if k == 0 {
      XorZero(m);
    } else {
      ClMulPow2(m, k - 1);
      assert Pow2(k) / 2 == Pow2(k - 1) && Pow2(k) % 2 == 0;
      XorZero(2 * Shl(m, k - 1));
    }
  }

  /** Shifting left by k and then right by n <= k is shifting left by k - n. */
  lemma {:induction false} ShrShl(a: nat, k: nat, n: nat)
    requires n <= k
    ensures Shr(Shl(a, k), n) == Shl(a, k - n)
  {
    if n > 0 {
      ShrShl(a, k, n - 1);
      assert Shl(a, k - (n - 1)) == 2 * Shl(a, k - n);
    }
  }

  /** The shifted modulus of step i is m(x) times x^(7 - i). */
  lemma ReducerIsMultiple(i: nat)
    requires i < 8
    ensures Shr(REDUCER, i) == ClMul(Pow2(7 - i), MODULUS)
  {
    assert Shl(MODULUS, 7) == REDUCER;
    ShrShl(MODULUS, 7, i);
    ClMulPow2(MODULUS, 7 - i);
    ClMulComm(Pow2(7 - i), MODULUS);
  }

  /** Xoring in one more multiple of m(x) adds to the quotient. */
  lemma ModStep(p: nat, r: nat, q: nat, step: nat)
    requires r == Xor(p, ClMul(q, MODULUS))
    ensures Xor(r, ClMul(step, MODULUS)) == Xor(p, ClMul(Xor(q, step), MODULUS))
  {
    XorAssoc(p, ClMul(q, MODULUS), ClMul(step, MODULUS));
    ClMulXorLeft(q, step, MODULUS);
  }

  /** Setting or clearing a bit below 8 keeps the quotient below 256. */
  lemma QuotientBit(q: nat, i: nat)
    requires q < 256 && i < 8
    ensures Xor(q, Pow2(7 - i)) < 256
  {
    assert Pow2(7) == 128 && Pow2(8) == 256;
    Pow2Mono(7 - i, 7);
    XorBound(q, Pow2(7 - i), 8);
  }

  /** After n steps, p has been reduced by a multiple of m(x) whose
      quotient has degree below 8. */
  lemma {:induction false} ReducedIsMod(p: nat, n: nat)
    requires n <= 8
    ensures Reduced(p, n) == Xor(p, ClMul(Quotient(p, n), MODULUS))
    ensures Quotient(p, n) < 256
  {
    if n == 0 {
      ClMulZeroLeft(MODULUS);
      XorZero(p);
    } else {
      ReducedIsMod(p, n - 1);
      var q := Quotient(p, n - 1);
      if Bit(Reduced(p, n - 1), 15 - (n - 1)) {
        var step := Pow2(7 - (n - 1));
        assert Reduced(p, n) == Xor(Reduced(p, n - 1), ClMul(step, MODULUS)) by {
          ReducerIsMultiple(n - 1);
        }
        assert Quotient(p, n) == Xor(q, step);
        ModStep(p, Reduced(p, n - 1), q, step);
        QuotientBit(q, n - 1);
      }
    }
  }

  /** fieldMul multiplies in GF(2^8): its result is a byte, so a
      polynomial of degree below 8, and it differs from the carry-less
      product a(x) b(x) by a multiple of m(x). */
  lemma FieldMulIsProductModM(a: Byte, b: Byte)
    ensures exists q: nat :: q < 256 && FieldMulSpec(a, b) == Xor(ClMul(a, b), ClMul(q, MODULUS))
  {
    var p := PartialProduct(a, b, 8);
    assert Pow2(8) == 256;
    PartialProductIsClMul(a, b, 8);
    ReducedIsAByte(a, b);
    ReducedIsMod(p, 8);
    var q := Quotient(p, 8);
    assert FieldMulSpec(a, b) == Xor(ClMul(a, b), ClMul(q, MODULUS));
  }

  /** The top bit of x survives Xoring in something smaller. */
  lemma {:induction false} XorKeepsHigh(x: nat, y: nat, k: nat)
    requires y < Pow2(k) <= x
    ensures Xor(x, y) >= Pow2(k)
  {
    if k == 0 {
      XorZero(x);
    } else {
      XorHalves(x, y);
      XorKeepsHigh(x / 2, y / 2, k - 1);
    }
  }

  /** A non-zero multiple of m(x) has degree 8 or more. */
  lemma {:induction false} MultipleIsHigh(q: nat)
    requires q > 0
    ensures ClMul(MODULUS, q) >= 256
  {
    if q == 1 {
      XorZero(MODULUS);
    } else {
      MultipleIsHigh(q / 2);
      assert Pow2(9) == 512;
      XorKeepsHigh(2 * ClMul(MODULUS, q / 2), Sel(q % 2 == 1, MODULUS), 9);
    }
  }

  /** Two bytes congruent to the same product modulo m(x) are equal, so
      fieldMul's result is the only byte FieldMulIsProductModM allows. */
  lemma ProductModMUnique(a: Byte, b: Byte, r: nat, q: nat)
    requires r < 256 && r == Xor(ClMul(a, b), ClMul(q, MODULUS))
    ensures r == FieldMulSpec(a, b)
  {
    FieldMulIsProductModM(a, b);
    var q0: nat :| q0 < 256 && FieldMulSpec(a, b) == Xor(ClMul(a, b), ClMul(q0, MODULUS));
    var f := FieldMulSpec(a, b);
    var d := Xor(q, q0);
    // r ^ f is the multiple d m(x), and it is a byte
    assert Xor(r, f) == ClMul(d, MODULUS) by {
      var x, m, m0 := ClMul(a, b), ClMul(q, MODULUS), ClMul(q0, MODULUS);
      XorShuffle(x, m, x, m0);
      XorSelf(x);
      XorZero(Xor(m, m0));
      ClMulXorLeft(q, q0, MODULUS);
    }
    assert Xor(r, f) < 256 by {
      assert Pow2(8) == 256;
      XorBound(r, f, 8);
    }
    if d != 0 {
      ClMulComm(d, MODULUS);
      MultipleIsHigh(d);
      assert false;
    }
    ClMulZeroLeft(MODULUS);
    XorZeroMeansEqual(r, f);
  }

  lemma {:induction false} XorZeroMeansEqual(a: nat, b: nat)
    requires Xor(a, b) == 0
    ensures a == b
    decreases a + b
  {
    XorHalves(a, b);
    if a + b > 0 {
      XorZeroMeansEqual(a / 2, b / 2);
    }
  }

  // ---------------------------------------------------------------------
  // fieldMul itself

  /** fieldMul, with its two shift-and-XOR loops over 16-bit values. */
  method FieldMul(a: Byte, b: Byte) returns (r: Byte)
    ensures r == FieldMulSpec(a, b)
  {
    var currentBits: nat := 0;
    var maskCurrent: nat := 1;
    for i := 0 to 8
      invariant maskCurrent == Pow2(i)
      invariant currentBits == PartialProduct(a, b, i)
    {
      AndPow2(b, i);
      if And(b, maskCurrent) == maskCurrent {
        if currentBits == 0 {
          XorZero(Shl(a, i));
          currentBits := Shl(a, i);
        } else {
          currentBits := Xor(currentBits, Shl(a, i));
        }
      }
      maskCurrent := 2 * maskCurrent;
    }
    PartialProductFits(a, b, 8);
    maskCurrent := 0x8000;
    assert Pow2(15) == 0x8000;
    ghost var product := currentBits;
    for i := 0 to 8
      invariant maskCurrent == Pow2(15 - i)
      invariant currentBits == Reduced(product, i)
    {
      AndPow2(currentBits, 15 - i);
      if And(currentBits, maskCurrent) == maskCurrent {
        currentBits := Xor(currentBits, Shr(REDUCER, i));
      }
      maskCurrent := maskCurrent / 2;
    }
    ReducedIsAByte(a, b);
    r := currentBits % 256;
  }

  // ---------------------------------------------------------------------
  // Field laws of fieldMul

  lemma MulCommutes(a: Byte, b: Byte)
    ensures FieldMulSpec(a, b) == FieldMulSpec(b, a)
  {
    assert Pow2(8) == 256;
    PartialProductIsClMul(a, b, 8);
    PartialProductIsClMul(b, a, 8);
    ClMulComm(a, b);
  }

  lemma MulIdentities(a: Byte)
    ensures FieldMulSpec(a, 1) == a && FieldMulSpec(a, 0) == 0
  {
    assert Pow2(8) == 256;
    PartialProductIsClMul(a, 1, 8);
    assert ClMul(a, 1) == Xor(2 * ClMul(a, 0), a);
    XorZero(a);
    ReducedByte(a, 8);
    PartialProductOfZero(a, 8);
    ReducedByte(0, 8);
  }

  lemma MulDistributes(a: Byte, b: Byte, c: Byte)
    ensures FieldMulSpec(a, FieldAdd(b, c)) == FieldAdd(FieldMulSpec(a, b), FieldMulSpec(a, c))
  {
    XorBound(b, c, 8);
    PartialProductXor(a, b, c, 8);
    ReducedXor(PartialProduct(a, b, 8), PartialProduct(a, c, 8), 8);
    ReducedIsAByte(a, b);
    ReducedIsAByte(a, c);
    ReducedIsAByte(a, Xor(b, c));
  }

  // The worked examples of section 4.2 of FIPS-197.  Xors of concrete
  // values are evaluated three bits at a time.

  /** {57} + {57} x. */
  lemma XorOf57And57x()
    ensures Xor(0x57, 0xAE) == 0xF9
  {
    assert Xor(0x1, 0x2) == 0x3;
    assert Xor(0xA, 0x15) == 0x1F;
  }

  /** Adding {57} x^7. */
  lemma XorOfProduct57x83()
    ensures Xor(0xF9, 0x2B80) == 0x2B79
  {
    assert Xor(0x0, 0x2) == 0x2;
    assert Xor(0x0, 0x15) == 0x15;
    assert Xor(0x3, 0xAE) == 0xAD;
    assert Xor(0x1F, 0x570) == 0x56F;
  }

  /** Cancelling x^13. */
  lemma XorReducing57x83High()
    ensures Xor(0x2B79, 0x2360) == 0x819
  {
    assert Xor(0x2, 0x2) == 0x0;
    assert Xor(0x15, 0x11) == 0x4;
    assert Xor(0xAD, 0x8D) == 0x20;
    assert Xor(0x56F, 0x46C) == 0x103;
  }

  /** Cancelling x^11. */
  lemma XorReducing57x83Low()
    ensures Xor(0x819, 0x8D8) == 0xC1
  {
    assert Xor(0x4, 0x4) == 0x0;
    assert Xor(0x20, 0x23) == 0x3;
    assert Xor(0x103, 0x11B) == 0x18;
  }

  /** Adding {57} x^4. */
  lemma XorOfProduct57x13()
    ensures Xor(0xF9, 0x570) == 0x589
  {
    assert Xor(0x0, 0x2) == 0x2;
    assert Xor(0x3, 0x15) == 0x16;
    assert Xor(0x1F, 0xAE) == 0xB1;
  }

  /** Cancelling x^10. */
  lemma XorReducing57x13High()
    ensures Xor(0x589, 0x46C) == 0x1E5
  {
    assert Xor(0x2, 0x2) == 0x0;
    assert Xor(0x16, 0x11) == 0x7;
    assert Xor(0xB1, 0x8D) == 0x3C;
  }

  /** Cancelling x^8. */
  lemma XorReducing57x13Low()
    ensures Xor(0x1E5, 0x11B) == 0xFE
  {
    assert Xor(0x7, 0x4) == 0x3;
    assert Xor(0x3C, 0x23) == 0x1F;
  }

  /** Stage 1 of {57} {83}: {57} + {57} x + {57} x^7. */
  lemma Product57x83()
    ensures PartialProduct(0x57, 0x83, 8) == 0x2B79
  {
    assert Shl(0x57, 1) == 0xAE && Shl(0x57, 7) == 0x2B80;
    XorOf57And57x();
    XorOfProduct57x83();
    assert PartialProduct(0x57, 0x83, 2) == 0xF9;
    assert PartialProduct(0x57, 0x83, 7) == 0xF9;
  }

  /** Stage 2 of {57} {83}: the x^13 and x^11 terms are cancelled. */
  lemma Reduce57x83()
    ensures Reduced(0x2B79, 8) == 0xC1
  {
    Pow2Values();
    BitClear(0x2B79, 15);
    BitClear(0x2B79, 14);
    BitTop(0x2B79, 13);
    assert Reduced(0x2B79, 2) == 0x2B79;
    assert Shr(REDUCER, 2) == 0x2360;
    XorReducing57x83High();
    assert Reduced(0x2B79, 3) == 0x819;
    Pow2Values();
    BitClear(0x819, 12);
    BitTop(0x819, 11);
    assert Reduced(0x2B79, 4) == 0x819;
    assert Shr(REDUCER, 4) == 0x8D8;
    XorReducing57x83Low();
    assert Reduced(0x2B79, 5) == 0xC1;
    BitClear(0xC1, 10);
    BitClear(0xC1, 9);
    BitClear(0xC1, 8);
  }

  /** {57} {83} = {c1}. */
  lemma FipsExample57x83()
    ensures FieldMulSpec(0x57, 0x83) == 0xC1
  {
    Product57x83();
    ReducedIsAByte(0x57, 0x83);
    Reduce57x83();
  }

  /** Stage 1 of {57} {13}: {57} + {57} x + {57} x^4. */
  lemma Product57x13()
    ensures PartialProduct(0x57, 0x13, 8) == 0x589
  {
    assert Shl(0x57, 1) == 0xAE && Shl(0x57, 4) == 0x570;
    XorOf57And57x();
    XorOfProduct57x13();
    assert PartialProduct(0x57, 0x13, 2) == 0xF9;
    assert PartialProduct(0x57, 0x13, 4) == 0xF9;
    assert PartialProduct(0x57, 0x13, 5) == 0x589;
  }

  /** Stage 2 of {57} {13}: the x^10 and x^8 terms are cancelled. */
  lemma Reduce57x13()
    ensures Reduced(0x589, 8) == 0xFE
  {
    Pow2Values();
    ReducedUntouched(0x589, 5);
    BitTop(0x589, 10);
    assert Shr(REDUCER, 5) == 0x46C;
    XorReducing57x13High();
    assert Reduced(0x589, 6) == 0x1E5;
    Pow2Values();
    BitClear(0x1E5, 9);
    BitTop(0x1E5, 8);
    assert Reduced(0x589, 7) == 0x1E5;
    assert Shr(REDUCER, 7) == 0x11B;
    XorReducing57x13Low();
  }

  /** {57} {13} = {fe}. */
  lemma FipsExample57x13()
    ensures FieldMulSpec(0x57, 0x13) == 0xFE
  {
    Product57x13();
    ReducedIsAByte(0x57, 0x13);
    Reduce57x13();
  }
}
