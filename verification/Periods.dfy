/**
 The period of a thread (src/hal/hal_lib.c, `hal_create_thread`): the request is rounded to a
 multiple of the timer period, in the C types of the source.  The quotient is computed in
 `unsigned long`, kept in an `int` and multiplied in `long`.
 */
module Periods {
  import opened Machine
  import opened Powers

  /** `base / 2` in C, which rounds towards zero. */
  function Half(base: S64): (h: S64) { if base >= 0 then base / 2 else 0 - (0 - base) / 2 }

  /** `(period_nsec + base_period / 2) / base_period`, before it is stored in an `int`. */
  function Quotient(period: U64, base: S64): (q: U64)
    requires base != 0
  {
    QuotientRange(period, base);
    ToULong(period + ToULong(Half(base))) / ToULong(base)
  }

  lemma QuotientRange(period: U64, base: S64)
    requires base != 0
    ensures ToULong(base) > 0
    ensures 0 <= ToULong(period + ToULong(Half(base))) / ToULong(base) < ULONG
  {
    var x, d := ToULong(period + ToULong(Half(base))), ToULong(base);
    DivisionBound(x, d);
  }

  lemma DivisionBound(x: nat, d: nat)
    requires d > 0
    ensures 0 <= x / d <= x
  {
    var q := Division(x, d);
    if q <= -1 {
      ProductBelow(d, q, -1);
    }
    ProductBelow(if q >= 0 then q else 0, 1, d);
  }

  /** The period that a request gets. */
  function RoundPeriod(period: U64, base: S64): (p: S64)
    requires base != 0
  {
    ToLong(base * ToInt(Quotient(period, base)))
  }

  /** A positive multiple of the timer period within half of it, rounded down, of the request. */
  predicate Nearest(p: int, period: U64, base: S64) {
    base > 0 && p > 0 && p % base == 0 && -(base / 2) <= p - period <= base / 2
  }

  /** The number of timer periods fits in an `int`, and their length in a `long`. */
  predicate RatioFits(period: U64, base: S64) {
    base > 0 &&
    var q := (period + base / 2) / base;
    q < 0x8000_0000 && base * q < 0x8000_0000_0000_0000
  }

  lemma MultipleOfBase(base: int, n: int)
    requires base > 0
    ensures (base * n) % base == 0
  {
    var x := base * n;
    var d, r := x / base - n, x % base;
    assert x == base * (x / base) + r;
    assert base * d == -r;
    assert d >= 1 ==> base * d >= base;
    assert d <= -1 ==> base * d <= -base;
  }

  lemma Division(x: int, base: int) returns (q: int)
    requires base > 0
    ensures q == x / base && base * q <= x < base * q + base
  {
    q := x / base;
    assert x == base * q + x % base;
  }

  /** A product bounded from below by one factor. */
  lemma ProductBelow(base: int, m: int, n: int)
    requires base >= 0 && m <= n
    ensures base * m <= base * n
  {
    assert base * (n - m) >= 0;
  }

  // ------------------------------------------------------ when the ratio fits

  lemma SmallInt(q: int)
    requires 0 <= q < 0x8000_0000
    ensures ToInt(q) == q
  {
  }

  lemma SmallLong(p: int)
    requires -0x8000_0000_0000_0000 <= p < 0x8000_0000_0000_0000
    ensures ToLong(p) == p
  {
  }

  /** A quotient of a number that is not negative is not negative. */
  lemma QuotientSign(x: nat, base: int, q: int)
    requires base > 0 && base * q <= x < base * q + base
    ensures q >= 0 && base * q >= 0 && (x >= base ==> q >= 1 && base * q >= base)
  {
    if q <= -1 {
      ProductBelow(base, q, -1);
    } else {
      ProductBelow(base, 0, q);
    }
    if q >= 1 {
      ProductBelow(base, 1, q);
    }
  }

  lemma FittingIsNearest(period: U64, base: S64)
    requires RatioFits(period, base) && period >= base
    ensures Nearest(RoundPeriod(period, base), period, base)
  {
    var x := period + base / 2;
    var q := Division(x, base);
    QuotientSign(x, base, q);
    var y := QuotientOf(period, base);
    assert x < ULONG;
    SmallInt(q);
    var p := base * q;
    SmallLong(p);
    assert RoundPeriod(period, base) == p;
    MultipleOfBase(base, q);
  }

  // ----------------------------------------------------- when it does not fit

  /** The quotient for a positive timer period: of the sum, or of what is left when the sum wraps round. */
  lemma QuotientOf(period: U64, base: S64) returns (x: nat)
    requires base > 0
    ensures x == (if period + base / 2 < ULONG then period + base / 2 else period + base / 2 - ULONG)
    ensures Quotient(period, base) == x / base
  {
    x := ToULong(period + ToULong(Half(base)));
    assert ToULong(base) == base && ToULong(Half(base)) == base / 2;
  }

  /** The sum wraps round: the quotient is 0. */
  lemma WrappedSum(period: U64, base: S64)
    requires base > 0 && period + base / 2 >= ULONG
    ensures RoundPeriod(period, base) == 0
  {
    var x := QuotientOf(period, base);
    var q := Division(x, base);
    QuotientSign(x, base, q);
    if q >= 1 {
      ProductBelow(base, 1, q);
    }
    assert ToInt(q) == 0;
  }

  /** The product is too long for a `long` and comes out negative. */
  lemma WrappedProduct(period: U64, base: S64)
    requires base > 0 && period + base / 2 < ULONG
    requires var q := (period + base / 2) / base;
             q < 0x8000_0000 && base * q >= 0x8000_0000_0000_0000
    ensures RoundPeriod(period, base) < 0
  {
    var x := QuotientOf(period, base);
    var q := Division(x, base);
    QuotientSign(x, base, q);
    SmallInt(q);
    var p := base * q;
    NegativeLong(p);
    assert RoundPeriod(period, base) == ToLong(p);
  }

  lemma NegativeLong(x: nat)
    requires 0x8000_0000_0000_0000 <= x < ULONG
    ensures ToLong(x) < 0
  {
  }

  /** A divisor of a power of two is a power of two. */
  lemma {:induction false} DivisorOfPow2(b: nat, d: nat, k: nat) returns (j: nat)
    requires b * d == Pow2(k)
    ensures b == Pow2(j)
    decreases k
  {
    if k == 0 {
      assert b == 1 by {
        assert b > 1 && d >= 1 ==> b * d >= b;
      }
      j := 0;
    } else if b % 2 == 0 {
      assert 2 * ((b / 2) * d) == b * d;
      j := DivisorOfPow2(b / 2, d, k - 1);
      j := j + 1;
    } else {
      EvenProduct(b, d, Pow2(k - 1));
      assert 2 * (b * (d / 2)) == b * d by {
        assert d == 2 * (d / 2);
      }
      j := DivisorOfPow2(b, d / 2, k - 1);
    }
  }

  lemma EvenProduct(b: nat, d: nat, h: nat)
    requires b % 2 == 1 && b * d == 2 * h
    ensures d % 2 == 0
  {
    var c := b / 2;
    assert b * d == 2 * (c * d) + d by {
      assert b == 2 * c + 1;
    }
  }

  lemma LargePowers()
    ensures Pow2(32) == 0x1_0000_0000 && Pow2(33) == 0x2_0000_0000 && Pow2(64) == ULONG
  {
    assert Pow2(8) == 256;
    Pow2Sum(8, 8);
    Pow2Sum(16, 16);
    Pow2Sum(32, 32);
  }

  lemma NoDivisorBetween(b: nat, d: nat)
    requires 0x1_0000_0000 < b < 0x2_0000_0000
    ensures b * d != ULONG
  {
    LargePowers();
    if b * d == ULONG {
      var j := DivisorOfPow2(b, d, 64);
      if j <= 32 {
        Pow2Monotone(j, 32);
      } else {
        Pow2Monotone(33, j);
      }
    }
  }

  /** The `int` does not hold the quotient: it is short by a multiple of 2^32. */
  lemma TruncatedQuotient(q: int) returns (n: int, k: int)
    requires q >= 0x8000_0000
    ensures n == ToInt(q) && q == n + UINT * k && k >= 1
  {
    n := ToInt(q);
    k := (q - n) / UINT;
    assert q - n == UINT * k;
  }

  /** A truncated quotient whose product fits in a `long` misses the request by far. */
  lemma TruncatedFar(period: U64, base: S64, q: int, n: int, k: int)
    requires base > 0 && base * q <= period + base / 2 && q == n + UINT * k && k >= 1
    ensures base * n < period - base / 2
  {
    ProductBelow(base, UINT, UINT * k);
    assert base * q == base * n + base * (UINT * k);
  }

  /** A truncated quotient whose product does not fit gives no multiple of the timer period. */
  lemma TruncatedWrapped(base: S64, q: int, n: int, k: int)
    requires base > 0 && 0x8000_0000 <= q && base * q < ULONG
    requires -0x8000_0000 <= n < 0x8000_0000 && q == n + UINT * k && k >= 1
    requires !(-0x8000_0000_0000_0000 <= base * n < 0x8000_0000_0000_0000)
    ensures ToLong(base * n) % base != 0
  {
    ProductBelow(base, 0x8000_0000, q);
    if n >= 0 {
      ProductBelow(base, UINT, q);
      ProductBelow(base, n, 0x7fff_ffff);
    }
    ProductBelow(base, -0x8000_0000, n);
    assert base * n < 0;
    ProductBelow(base, -n, 0x8000_0000);
    assert base * (-n) == -(base * n);
    assert 0x1_0000_0000 < base < 0x2_0000_0000;
    var p := ToLong(base * n);
    assert p == base * n + ULONG;
    if p % base == 0 {
      var d := p / base;
      assert p == base * d;
      assert ULONG == base * (d - n);
      assert d - n >= 0 by {
        if d - n <= -1 {
          ProductBelow(base, d - n, -1);
        }
      }
      NoDivisorBetween(base, d - n);
    }
  }

  lemma TruncatedNotNearest(period: U64, base: S64)
    requires base > 0 && period + base / 2 < ULONG && (period + base / 2) / base >= 0x8000_0000
    ensures !Nearest(RoundPeriod(period, base), period, base)
  {
    var x := QuotientOf(period, base);
    var q := Division(x, base);
    var n, k := TruncatedQuotient(q);
    var p := base * n;
    assert RoundPeriod(period, base) == ToLong(p);
    if -0x8000_0000_0000_0000 <= p < 0x8000_0000_0000_0000 {
      SmallLong(p);
      TruncatedFar(period, base, q, n, k);
    } else {
      TruncatedWrapped(base, q, n, k);
    }
  }

  /**
   The period is the nearest multiple of the timer period if and only if the number of timer
   periods fits in an `int` and their length in a `long`.
   */
  lemma RoundPeriodNearestIff(period: U64, base: S64)
    requires base != 0 && period >= ToULong(base)
    ensures Nearest(RoundPeriod(period, base), period, base) <==> RatioFits(period, base)
  {
    if base > 0 {
      if RatioFits(period, base) {
        FittingIsNearest(period, base);
      } else if period + base / 2 >= ULONG {
        WrappedSum(period, base);
      } else if (period + base / 2) / base >= 0x8000_0000 {
        TruncatedNotNearest(period, base);
      } else {
        WrappedProduct(period, base);
      }
    }
  }

  /** With a timer period of 25 microseconds, a ratio of 2^32 + 1 becomes 1 and one of 2^32 becomes 0. */
  lemma TruncationExample()
    ensures RoundPeriod(25000 * (UINT + 1), 25000) == 25000 && RoundPeriod(25000 * UINT, 25000) == 0
  {
    assert Quotient(25000 * (UINT + 1), 25000) == UINT + 1;
    assert Quotient(25000 * UINT, 25000) == UINT;
  }
}
