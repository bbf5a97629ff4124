/**
 * k_pow (libk/math.c): an int32 power by repeated squaring, returned as a
 * uint32_t. A negative exponent first replaces the base by 1 / base (C's
 * truncating division).
 */
module KMath {
  import opened Machine

  const INT32_MIN: int := -0x8000_0000
  const INT32_MAX: int := 0x7fff_ffff

  /** The mathematical power. */
  function Pow(b: int, e: nat): int
  {
    if e == 0 then 1 else b * Pow(b, e - 1)
  }

  lemma {:induction false} PowSquare(b: int, k: nat)
    ensures Pow(b * b, k) == Pow(b, 2 * k)
  {
    if k > 0 {
      PowSquare(b, k - 1);
      calc {
        Pow(b * b, k);
        b * b * Pow(b * b, k - 1);
        b * b * Pow(b, 2 * k - 2);
        b * (b * Pow(b, 2 * k - 2));
        b * Pow(b, 2 * k - 1);
        Pow(b, 2 * k);
      }
    }
  }

  /** One squaring step keeps temp * base^exponent: even exponents halve, odd ones move a factor into temp. */
  lemma SquareStep(b: int, e: nat, t: int)
    requires e >= 1
    ensures e % 2 == 0 ==> t * Pow(b * b, e / 2) == t * Pow(b, e)
    ensures e % 2 == 1 ==> (b * t) * Pow(b * b, (e - 1) / 2) == t * Pow(b, e)
  {
    if e % 2 == 0 {
      PowSquare(b, e / 2);
    } else {
      PowSquare(b, (e - 1) / 2);
      assert Pow(b, e) == b * Pow(b, e - 1);
    }
  }

  /** What k_pow computes, as a mathematical integer, before the conversion to uint32_t. */
  function PowValue(base: int, exponent: int): int
  {
    if exponent == 0 then 1
    else if exponent > 0 then Pow(base, exponent)
    else if base == 0 then 0
    else Pow(CDiv(1, base), -exponent)
  }

  predicate Int32(x: int)
  {
    INT32_MIN <= x <= INT32_MAX
  }

  /** The result k_pow converts to uint32_t fits in an int32_t. */
  predicate NoOverflow(base: int, exponent: int)
  {
    Int32(PowValue(base, exponent))
  }

  lemma {:induction false} PowAtLeast(x: int, k: nat)
    requires x >= 1
    ensures Pow(x, k) >= 1 && (k >= 1 ==> Pow(x, k) >= x)
  {
    if k > 0 {
      PowAtLeast(x, k - 1);
      assert x * Pow(x, k - 1) >= x * 1;
    }
  }

  lemma MulMono(a: int, b: int, c: int)
    requires 0 <= a <= b && c >= 0
    ensures a * c <= b * c && c * a <= c * b
  {
  }

  /** Scaling by a positive factor moves a nonzero number away from zero, keeping its sign. */
  lemma ScaleUp(t: int, q: int)
    requires q >= 1 && t != 0
    ensures t > 0 ==> t <= t * q && q <= t * q
    ensures t < 0 ==> t * q <= t && t * q <= -q
  {
    var u := if t < 0 then -t else t;
    MulMono(1, u, q);
    MulMono(1, q, u);
    assert t * q == if t < 0 then -(u * q) else u * q;
  }

  /** 2^31 is not a square: 46340^2 < 2^31 < 46341^2. */
  lemma NotSquare(x: int)
    ensures x * x != 0x8000_0000
  {
    var a := if x < 0 then -x else x;
    assert x * x == a * a;
    if a <= 46340 {
      MulMono(a, 46340, a);
      MulMono(a, 46340, 46340);
    } else {
      MulMono(46341, a, a);
      MulMono(46341, a, 46341);
    }
  }

  /**
   * Neither product a turn of the loop computes (base * base, and
   * base * temp on an odd exponent) can overflow while the final result
   * fits: both divide the result.
   */
  lemma StepFits(b: int, t: int, e: nat, p: int)
    requires e > 1 && t * Pow(b, e) == p && Int32(p) && (b == 0 || t != 0)
    ensures Int32(b * b) && (e % 2 == 1 ==> Int32(b * t))
  {
    if b != 0 {
      var k := e / 2;
      var big := if e % 2 == 0 then t else b * t;
      SquareStep(b, e, t);
      assert big * Pow(b * b, k) == p;
      assert b * b >= 1;
      PowAtLeast(b * b, k);
      var q := Pow(b * b, k);
      assert big != 0;
      ScaleUp(big, q);
      NotSquare(b);
    }
  }

  /** k_pow(base, exponent): no int32 operation overflows, and the result is the power converted to uint32_t. */
  method KPow(base: int, exponent: int) returns (r: u32)
    requires Int32(base) && INT32_MIN < exponent <= INT32_MAX
    requires NoOverflow(base, exponent)
    ensures r == Wrap32(PowValue(base, exponent))
  {
    if exponent == 0 {
      return 1;
    }
    var b, e := base, exponent;
    if e < 0 {
      if b == 0 {
        return 0;
      }
      b := CDiv(1, b);
      e := -e;
    }
    ghost var p := Pow(b, e);
    assert p == PowValue(base, exponent);
    var temp := 1;
    while e > 1
      invariant e >= 1 && temp * Pow(b, e) == p
      invariant Int32(b) && Int32(temp) && (b == 0 || temp != 0)
      decreases e
    {
      SquareStep(b, e, temp);
      StepFits(b, temp, e, p);
      if e % 2 == 0 {
        b := b * b;
        e := e / 2;
      } else {
        temp := b * temp;
        b := b * b;
        e := (e - 1) / 2;
      }
    }
    assert e == 1 && Pow(b, 1) == b;
    assert b * temp == p;
    return Wrap32(b * temp);
  }

  lemma {:induction false} PowZeroBase(k: nat)
    requires k >= 1
    ensures Pow(0, k) == 0
  {
  }

  lemma {:induction false} PowOne(k: nat)
    ensures Pow(1, k) == 1
  {
    if k > 0 {
      PowOne(k - 1);
    }
  }

  lemma {:induction false} PowMinusOne(k: nat)
    ensures Pow(-1, k) == if k % 2 == 0 then 1 else -1
  {
    if k > 0 {
      PowMinusOne(k - 1);
    }
  }

  /**
   * With a negative exponent: base 0 gives 0, base 1 gives 1, base -1
   * alternates between 1 and -1 with the exponent's parity, and every
   * other base gives 0 since 1 / base truncates to 0.
   */
  lemma NegativeExponent(base: int, exponent: int)
    requires exponent < 0
    ensures PowValue(base, exponent) ==
      if base == 1 then 1
      else if base == -1 then (if (-exponent) % 2 == 0 then 1 else -1)
      else 0
  {
    var k := -exponent;
    if base == 1 {
      PowOne(k);
    } else if base == -1 {
      assert CDiv(1, -1) == -1;
      PowMinusOne(k);
    } else if base != 0 {
      assert CDiv(1, base) == 0;
      PowZeroBase(k);
    }
  }
}
