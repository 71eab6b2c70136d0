/**
 The number theory behind the test shuffler of unit_tests/greatest.h: the linear
 congruential generator x -> a*x + c modulo 2^k visits every residue exactly once per
 period when a = 1 (mod 4) and c is odd (Knuth, The Art of Computer Programming,
 Volume 2, section 3.2.1).
 */
module FullPeriod {
  import opened Lists
  import opened Powers

  /** The generator run `n` times from `x`, before reduction by the modulus. */
  function Iter(a: nat, c: nat, x: nat, n: nat): (y: nat) {
    if n == 0 then x else a * Iter(a, c, x, n - 1) + c
  }

  /** The `i`-th state of the generator with modulus 2^k. */
  function Visit(a: nat, c: nat, x: nat, k: nat, i: nat): (r: nat)
    ensures r < Pow2(k)
  {
    Iter(a, c, x, i) % Pow2(k)
  }

  // ---------------------------------------------------------------- arithmetic

  /** Equal remainders mean a difference that is a multiple. */
  lemma SameRemainder(x: int, y: int, m: nat)
    requires m > 0 && x % m == y % m
    ensures x - y == m * (x / m - y / m)
  {
    assert x == m * (x / m) + x % m;
    assert y == m * (y / m) + y % m;
  }

  lemma RemainderOfMultiple(y: int, t: int, m: nat)
    requires m > 0
    ensures (y + m * t) % m == y % m
  {
    var q, r := y / m, y % m;
    assert y + m * t == m * (q + t) + r;
    UniqueRemainder(y + m * t, m, q + t, r);
  }

  lemma UniqueRemainder(x: int, m: nat, q: int, r: nat)
    requires m > 0 && x == m * q + r && r < m
    ensures x % m == r
  {
    var d := x / m - q;
    assert x == m * (x / m) + x % m;
    assert m * d == r - x % m;
    assert d >= 1 ==> m * d >= m;
    assert d <= -1 ==> m * d <= 0 - m;
  }

  /** Reducing before a step gives the same result as reducing after it. */
  lemma StepRemainder(a: nat, c: nat, y: nat, m: nat)
    requires m > 0
    ensures (a * (y % m) + c) % m == (a * y + c) % m
  {
    var q := y / m;
    assert y == m * q + y % m;
    assert a * y + c == (a * (y % m) + c) + m * (a * q) by {
      assert a * (m * q) == m * (a * q);
    }
    RemainderOfMultiple(a * (y % m) + c, a * q, m);
  }

  /** Reducing by a multiple of the modulus first makes no difference. */
  lemma ReduceTwice(y: nat, m: nat, n: nat)
    requires m > 0 && n > 0
    ensures m * n > 0
    ensures (y % (m * n)) % m == y % m
  {
    assert m * n > 0;
    var q := y / (m * n);
    assert y == (m * n) * q + y % (m * n);
    assert (m * n) * q == m * (n * q);
    RemainderOfMultiple(y % (m * n), n * q, m);
  }

  // ------------------------------------------------------------- the generator

  lemma {:induction false} IterSum(a: nat, c: nat, x: nat, m: nat, n: nat)
    ensures Iter(a, c, x, m + n) == Iter(a, c, Iter(a, c, x, m), n)
  {
    if n > 0 {
      IterSum(a, c, x, m, n - 1);
      assert m + n - 1 == m + (n - 1);
    }
  }

  /** One generator step taken on the reduced state. */
  lemma VisitStep(a: nat, c: nat, x: nat, k: nat, i: nat)
    ensures Visit(a, c, x, k, i + 1) == (a * Visit(a, c, x, k, i) + c) % Pow2(k)
  {
    StepRemainder(a, c, Iter(a, c, x, i), Pow2(k));
  }

  /** Composing x -> (1 + 4pm)x + po with itself. */
  lemma ComposeAffine(p: nat, m: nat, o: nat, x: nat)
    ensures (1 + 4 * p * m) * ((1 + 4 * p * m) * x + p * o) + p * o
         == (1 + 4 * (2 * p) * (m + 2 * p * m * m)) * x + (2 * p) * (o + 2 * (p * m * o))
  {
    var u := p * m;
    assert 4 * p * m == 4 * u;
    assert (1 + 4 * u) * ((1 + 4 * u) * x + p * o) + p * o
        == (1 + 8 * u + 16 * (u * u)) * x + (2 + 4 * u) * (p * o);
    assert 4 * (2 * p) * (m + 2 * p * m * m) == 8 * u + 16 * (u * u) by {
      assert p * (2 * p * m * m) == 2 * (u * u);
    }
    assert (2 * p) * (o + 2 * (p * m * o)) == (2 + 4 * u) * (p * o) by {
      assert p * (u * o) == u * (p * o);
    }
  }

  /** 2^j steps multiply the state by 1 + 4 * 2^j * SlopePart. */
  function SlopePart(a: nat, j: nat): nat {
    if j == 0 then a / 4
    else var m, p := SlopePart(a, j - 1), Pow2(j - 1); m + 2 * p * m * m
  }

  /** 2^j steps add 2^j * OffsetPart, which is odd when c is. */
  function OffsetPart(a: nat, c: nat, j: nat): (o: nat)
    ensures c % 2 == 1 ==> o % 2 == 1
  {
    if j == 0 then c
    else var o, u := OffsetPart(a, c, j - 1), Pow2(j - 1) * SlopePart(a, j - 1) * OffsetPart(a, c, j - 1); o + 2 * u
  }

  /** What 2^j steps make of a state. */
  function Leap(a: nat, c: nat, j: nat, x: nat): int {
    (1 + 4 * Pow2(j) * SlopePart(a, j)) * x + Pow2(j) * OffsetPart(a, c, j)
  }

  lemma AffineIsNat(p: nat, m: nat, o: nat, x: nat)
    ensures (1 + 4 * p * m) * x + p * o >= 0
  {
    assert p * m >= 0 && p * o >= 0;
    var s := 1 + 4 * p * m;
    assert s >= 0 ==> s * x >= 0;
  }

  lemma LeapOnce(a: nat, c: nat, x: nat)
    requires a % 4 == 1
    ensures Leap(a, c, 0, x) == a * x + c
  {
    assert 4 * (a / 4) + 1 == a;
  }

  /** Two leaps are a leap of twice the length. */
  lemma LeapTwice(a: nat, c: nat, j: nat, x: nat)
    requires j > 0
    ensures Leap(a, c, j - 1, x) >= 0 && Leap(a, c, j - 1, Leap(a, c, j - 1, x)) == Leap(a, c, j, x)
  {
    var p, m, o := Pow2(j - 1), SlopePart(a, j - 1), OffsetPart(a, c, j - 1);
    ComposeAffine(p, m, o, x);
    AffineIsNat(p, m, o, x);
    assert SlopePart(a, j) == m + 2 * p * m * m && OffsetPart(a, c, j) == o + 2 * (p * m * o);
  }

  /**
   2^j steps are themselves an affine map whose multiplier is 1 modulo 2^(j+2) and whose
   increment is 2^j times an odd number.
   */
  lemma {:induction false} Doubling(a: nat, c: nat, j: nat, x: nat)
    requires a % 4 == 1
    ensures Iter(a, c, x, Pow2(j)) == (1 + 4 * Pow2(j) * SlopePart(a, j)) * x + Pow2(j) * OffsetPart(a, c, j)
  {
    StepsAreLeap(a, c, j, x);
  }

  lemma {:induction false} StepsAreLeap(a: nat, c: nat, j: nat, x: nat)
    requires a % 4 == 1
    ensures Iter(a, c, x, Pow2(j)) == Leap(a, c, j, x)
  {
    if j == 0 {
      assert Iter(a, c, x, 1) == a * Iter(a, c, x, 0) + c;
      LeapOnce(a, c, x);
    } else {
      var p := Pow2(j - 1);
      var y := Iter(a, c, x, p);
      StepsAreLeap(a, c, j - 1, x);
      StepsAreLeap(a, c, j - 1, y);
      IterSum(a, c, x, p, p);
      LeapTwice(a, c, j, x);
    }
  }

  /** x -> (1 + 4pm)x + po moves x by an odd multiple of p when o is odd. */
  lemma AffineMove(p: nat, m: nat, o: nat, y: nat) returns (e: int)
    requires o % 2 == 1
    ensures e % 2 == 1 && (1 + 4 * p * m) * y + p * o == y + p * e
  {
    var u := m * y;
    e := 4 * u + o;
    assert 4 * p * m * y == p * (4 * u);
    assert p * e == p * (4 * u) + p * o;
  }

  /** 2^j steps move the state by 2^j times an odd number. */
  lemma JumpOnce(a: nat, c: nat, y: nat, j: nat) returns (e: int)
    requires a % 4 == 1 && c % 2 == 1
    ensures e % 2 == 1 && Iter(a, c, y, Pow2(j)) == y + Pow2(j) * e
  {
    Doubling(a, c, j, y);
    e := AffineMove(Pow2(j), SlopePart(a, j), OffsetPart(a, c, j), y);
  }

  function Steps(j: nat, q: nat): nat {
    if q == 0 then 0 else Steps(j, q - 1) + Pow2(j)
  }

  lemma {:induction false} StepsProduct(j: nat, q: nat)
    ensures Steps(j, q) == q * Pow2(j)
  {
    if q > 0 {
      StepsProduct(j, q - 1);
      MulDistributes(Pow2(j), q - 1, 1);
    }
  }

  lemma OddSum(t: int, e: int, q: nat)
    requires q > 0 && t % 2 == (q - 1) % 2 && e % 2 == 1
    ensures (t + e) % 2 == q % 2
  {
  }

  /** q * 2^j steps move the state by 2^j times a number of the parity of q. */
  lemma {:induction false} Jump(a: nat, c: nat, x: nat, j: nat, q: nat) returns (t: int)
    requires a % 4 == 1 && c % 2 == 1
    ensures t % 2 == q % 2
    ensures Iter(a, c, x, Steps(j, q)) == x + Pow2(j) * t
  {
    if q == 0 {
      t := 0;
    } else {
      var t0 := Jump(a, c, x, j, q - 1);
      var e := JumpOnce(a, c, Iter(a, c, x, Steps(j, q - 1)), j);
      t := t0 + e;
      OddSum(t0, e, q);
      MulDistributes(Pow2(j), t0, e);
      IterSum(a, c, x, Steps(j, q - 1), Pow2(j));
    }
  }

  lemma MulDistributes(p: int, t: int, u: int)
    ensures p * (t + u) == p * t + p * u
  {
  }

  lemma MulAssociates(p: int, t: int, u: int)
    ensures (p * t) * u == p * (t * u)
  {
  }

  /** Every positive number is an odd number times a power of two. */
  lemma {:induction false} OddPart(n: nat) returns (j: nat, q: nat)
    requires n > 0
    ensures n == q * Pow2(j) && q % 2 == 1
  {
    if n % 2 == 1 {
      j, q := 0, n;
    } else {
      j, q := OddPart(n / 2);
      j := j + 1;
      assert q * Pow2(j) == 2 * (q * Pow2(j - 1));
    }
  }

  lemma CancelFactor(p: nat, t: int, u: int)
    requires p > 0 && p * t == p * u
    ensures t == u
  {
    assert t > u ==> p * (t - u) >= t - u;
    assert t < u ==> p * (u - t) >= u - t;
  }

  /** An odd multiple of 2^j is not a multiple of a higher power of two. */
  lemma OddMultiple(j: nat, k: nat, t: int, h: int)
    requires j < k && t % 2 == 1
    ensures Pow2(j) * t != Pow2(k) * h
  {
    var p, r := Pow2(j), Pow2(k - j - 1);
    Pow2Sum(j, k - j);
    MulAssociates(p, 2 * r, h);
    MulAssociates(2, r, h);
    if p * t == p * (2 * (r * h)) {
      CancelFactor(p, t, 2 * (r * h));
    }
  }

  /** The generator does not come back to a state before 2^k steps. */
  lemma NoEarlyReturn(a: nat, c: nat, x: nat, k: nat, n: nat)
    requires a % 4 == 1 && c % 2 == 1 && 0 < n < Pow2(k)
    ensures Iter(a, c, x, n) % Pow2(k) != x % Pow2(k)
  {
    var j, q := OddPart(n);
    assert q >= 1 ==> q * Pow2(j) >= Pow2(j);
    if k <= j {
      Pow2Monotone(k, j);
    } else {
      StepsProduct(j, q);
      var t := Jump(a, c, x, j, q);
      var y := Iter(a, c, x, n);
      if y % Pow2(k) == x % Pow2(k) {
        SameRemainder(y, x, Pow2(k));
        OddMultiple(j, k, t, y / Pow2(k) - x / Pow2(k));
      }
    }
  }

  /** Full period, first half: within any 2^k consecutive states none repeats. */
  lemma VisitsDistinct(a: nat, c: nat, x: nat, k: nat, i: nat, j: nat)
    requires a % 4 == 1 && c % 2 == 1 && i < j < i + Pow2(k)
    ensures Visit(a, c, x, k, i) != Visit(a, c, x, k, j)
  {
    IterSum(a, c, x, i, j - i);
    NoEarlyReturn(a, c, Iter(a, c, x, i), k, j - i);
  }

  // ------------------------------------------------------------------ counting

  function Range(m: nat): (s: set<nat>)
    ensures forall r: nat :: r in s <==> r < m
    ensures |s| == m
  {
    if m == 0 then {} else Range(m - 1) + {m - 1}
  }

  function Elements(v: seq<nat>): (s: set<nat>)
    ensures forall r: nat :: r in s <==> r in v
  {
    set r | r in v
  }

  lemma {:induction false} DistinctSize(v: seq<nat>)
    requires Distinct(v)
    ensures |Elements(v)| == |v|
  {
    if |v| > 0 {
      var w, last := v[..|v| - 1], v[|v| - 1];
      assert v == w + [last];
      DistinctSize(w);
      assert last !in w;
      assert Elements(v) == Elements(w) + {last};
    }
  }

  lemma SubsetSize<T>(s: set<T>, t: set<T>)
    requires s <= t
    ensures |s| <= |t| && (|s| == |t| ==> s == t)
  {
    assert t == s + (t - s);
  }

  /** Distinct numbers in a range of size m: at most m of them, and all of the range if m. */
  lemma Pigeonhole(v: seq<nat>, lo: nat, hi: nat)
    requires lo <= hi && Distinct(v) && forall r :: r in v ==> lo <= r < hi
    ensures |v| <= hi - lo
    ensures |v| == hi - lo ==> forall r: nat :: lo <= r < hi ==> r in v
  {
    DistinctSize(v);
    var t := Range(hi) - Range(lo);
    assert Range(hi) == t + Range(lo);
    SubsetSize(Elements(v), t);
  }

  // ------------------------------------------------- sequences of full period

  /** From position 1 on, every value is below m and no value repeats within m positions. */
  ghost predicate FullPeriodic(f: nat -> nat, m: nat) {
    && (forall i: nat :: 0 < i ==> f(i) < m)
    && (forall i: nat, j: nat :: 0 < i < j < i + m ==> f(i) != f(j))
  }

  /** The starting value, which may exceed the modulus, and the states that follow it. */
  ghost function Orbit(a: nat, c: nat, x: nat, k: nat): (f: nat -> nat)
    ensures f(0) == x
  {
    (i: nat) => if i == 0 then x else Visit(a, c, x, k, i)
  }

  /** Value `i + 1` follows from value `i` by one turn of the generator. */
  ghost predicate Turns(f: nat -> nat, a: nat, c: nat, m: nat, i: nat)
    requires m > 0
  {
    f(i + 1) == (a * f(i) + c) % m
  }

  /** So does every value but the first. */
  ghost predicate Follows(f: nat -> nat, a: nat, c: nat, m: nat)
    requires m > 0
  {
    forall i: nat :: Turns(f, a, c, m, i)
  }

  /** The generator as a sequence: each state follows from the last, with full period 2^k. */
  lemma OrbitIsFullPeriodic(a: nat, c: nat, x: nat, k: nat)
    requires a % 4 == 1 && c % 2 == 1
    ensures FullPeriodic(Orbit(a, c, x, k), Pow2(k))
    ensures Follows(Orbit(a, c, x, k), a, c, Pow2(k))
  {
    var f := Orbit(a, c, x, k);
    forall i: nat, j: nat | 0 < i < j < i + Pow2(k)
      ensures f(i) != f(j)
    {
      VisitsDistinct(a, c, x, k, i, j);
    }
    OrbitFollows(a, c, x, k);
  }

  lemma OrbitFollows(a: nat, c: nat, x: nat, k: nat)
    ensures Follows(Orbit(a, c, x, k), a, c, Pow2(k))
  {
    var f := Orbit(a, c, x, k);
    forall i: nat
      ensures Turns(f, a, c, Pow2(k), i)
    {
      VisitStep(a, c, x, k, i);
      StepRemainder(a, c, x, Pow2(k));
    }
  }

  /** The values at positions from + 1 to from + n. */
  ghost function Slice(f: nat -> nat, from: nat, n: nat): (v: seq<nat>)
    ensures |v| == n && forall i :: 0 <= i < n ==> v[i] == f(from + 1 + i)
  {
    seq<nat>(n, i requires 0 <= i < n => f(from + 1 + i))
  }

  lemma SliceDistinct(f: nat -> nat, m: nat, from: nat, n: nat)
    requires FullPeriodic(f, m) && n <= m
    ensures Distinct(Slice(f, from, n)) && forall r :: r in Slice(f, from, n) ==> r < m
  {
  }

  /** Any m consecutive values contain every number below m. */
  lemma EveryValueReached(f: nat -> nat, m: nat, from: nat, r: nat) returns (i: nat)
    requires FullPeriodic(f, m) && r < m
    ensures from < i <= from + m && f(i) == r
  {
    var v := Slice(f, from, m);
    SliceDistinct(f, m, from, m);
    Pigeonhole(v, 0, m);
    assert r in v;
    var e :| 0 <= e < |v| && v[e] == r;
    i := from + 1 + e;
  }

  /** A value below n comes up within m - n + 1 positions, from anywhere. */
  lemma HitWithin(f: nat -> nat, m: nat, from: nat, n: nat) returns (d: nat)
    requires FullPeriodic(f, m) && 0 < n <= m
    ensures 0 < d <= m - n + 1 && f(from + d) < n
  {
    var v := Slice(f, from, m - n + 1);
    SliceDistinct(f, m, from, m - n + 1);
    if forall e :: 0 <= e < |v| ==> n <= v[e] {
      Pigeonhole(v, n, m);
    }
    var e :| 0 <= e < |v| && v[e] < n;
    d := e + 1;
  }

  /** The values below n at positions 1 to i, in the order they come up. */
  ghost function Hits(f: nat -> nat, n: nat, i: nat): (h: seq<nat>) {
    if i == 0 then [] else Hits(f, n, i - 1) + if f(i) < n then [f(i)] else []
  }

  lemma {:induction false} HitsAreValues(f: nat -> nat, n: nat, i: nat, h: nat) returns (j: nat)
    requires h in Hits(f, n, i)
    ensures 0 < j <= i && f(j) == h < n
  {
    if f(i) == h < n {
      j := i;
    } else {
      j := HitsAreValues(f, n, i - 1, h);
    }
  }

  lemma {:induction false} HitsMonotone(f: nat -> nat, n: nat, i: nat, j: nat)
    requires i <= j
    ensures Hits(f, n, i) <= Hits(f, n, j)
  {
    if i < j {
      HitsMonotone(f, n, i, j - 1);
    }
  }

  /** Nothing below n between two positions: the hits do not change. */
  lemma {:induction false} HitsSkip(f: nat -> nat, n: nat, i: nat, j: nat)
    requires i <= j && forall e :: i < e <= j ==> f(e) >= n
    ensures Hits(f, n, j) == Hits(f, n, i)
  {
    if i < j {
      HitsSkip(f, n, i, j - 1);
    }
  }

  lemma {:induction false} HitsDistinct(f: nat -> nat, m: nat, n: nat, i: nat)
    requires FullPeriodic(f, m) && i <= m
    ensures Distinct(Hits(f, n, i)) && forall h :: h in Hits(f, n, i) ==> h < n
  {
    if i > 0 {
      HitsDistinct(f, m, n, i - 1);
      if f(i) < n && f(i) in Hits(f, n, i - 1) {
        var j := HitsAreValues(f, n, i - 1, f(i));
      }
    }
  }

  /** Over one whole period the hits are exactly the numbers below n, each once. */
  lemma HitsOfPeriod(f: nat -> nat, m: nat, n: nat)
    requires FullPeriodic(f, m) && n <= m
    ensures var h := Hits(f, n, m);
            |h| == n && Distinct(h) && forall r: nat :: r in h <==> r < n
  {
    var h := Hits(f, n, m);
    HitsDistinct(f, m, n, m);
    forall r: nat | r < n
      ensures r in h
    {
      var i := EveryValueReached(f, m, 0, r);
      HitsMonotone(f, n, i, m);
      assert r in Hits(f, n, i);
    }
    DistinctSize(h);
    assert Range(n) == Elements(h);
  }

  /** n hits within a period are all the numbers below n. */
  lemma AllHit(f: nat -> nat, m: nat, n: nat, i: nat)
    requires FullPeriodic(f, m) && n <= m && i <= m && |Hits(f, n, i)| == n
    ensures forall r: nat :: r < n ==> r in Hits(f, n, i)
  {
    HitsOfPeriod(f, m, n);
    HitsMonotone(f, n, i, m);
    assert Hits(f, n, i) == Hits(f, n, m);
  }

  /** While a number is missing, a later position of the period brings a new hit. */
  lemma AnotherHit(f: nat -> nat, m: nat, n: nat, i: nat) returns (j: nat)
    requires FullPeriodic(f, m) && n <= m && i <= m && |Hits(f, n, i)| < n
    ensures i < j <= m && f(j) < n
  {
    HitsOfPeriod(f, m, n);
    if forall e :: i < e <= m ==> f(e) >= n {
      HitsSkip(f, n, i, m);
    }
    j :| i < j <= m && f(j) < n;
  }
}
