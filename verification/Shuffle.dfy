/**
 The test shuffler of unit_tests/greatest.h: a linear congruential generator picks, on each
 pass over the tests, the one test to run on that pass.
 */
module Shuffle {
  import opened Lists
  import opened Powers
  import opened FullPeriod

  /** The increments the seed may select; all of them are odd. */
  const PRIMES: seq<nat> := [11, 101, 1009, 10007, 100003, 1000003, 10000019, 100000007,
                             1000000007, 1538461, 1865471, 17471, 2147483647]

  /**
   The increment chosen by the seed.  The index is a remainder by the size of the table in
   bytes, divided by the size of one entry.
   */
  function Increment(seed: nat, longBytes: nat): (c: nat)
    requires longBytes in {4, 8}
    ensures c in PRIMES && c % 2 == 1
  {
    PRIMES[PrimeIndex(seed * 16451 % Pow2(8 * longBytes), longBytes)]
  }

  function PrimeIndex(z: nat, longBytes: nat): (i: nat)
    requires longBytes in {4, 8}
    ensures i < 13
  {
    if longBytes == 4 then z % 52 / 4 else z % 104 / 8
  }

  lemma IndexReached(z: nat, i: nat, q: nat, longBytes: nat)
    requires longBytes in {4, 8} && i < 13 && z == 13 * longBytes * q + longBytes * i
    ensures PrimeIndex(z, longBytes) == i
  {
    if longBytes == 4 {
      UniqueRemainder(z, 52, q, 4 * i);
    } else {
      UniqueRemainder(z, 104, q, 8 * i);
    }
  }

  lemma SmallProduct(z: nat, longBytes: nat)
    requires longBytes in {4, 8} && z < 0x1_0000_0000
    ensures z % Pow2(8 * longBytes) == z
  {
    assert Pow2(8) == 0x100;
    Pow2Sum(8, 8);
    Pow2Sum(16, 16);
    Pow2Monotone(32, 8 * longBytes);
    UniqueRemainder(z, Pow2(8 * longBytes), 0, z);
  }

  /** Every one of the 13 increments can be selected. */
  lemma IncrementReached(i: nat, longBytes: nat) returns (seed: nat)
    requires longBytes in {4, 8} && i < |PRIMES|
    ensures Increment(seed, longBytes) == PRIMES[i]
  {
    seed := 11 * longBytes * i;
    SmallProduct(seed * 16451, longBytes);
    IndexReached(seed * 16451, i, 13920 * i, longBytes);
  }

  /** The modulus loop: the least power of two that is at least the count. */
  method PowerCeiling(count: nat, ghost limit: nat) returns (mod: nat, ghost k: nat)
    requires count <= Pow2(limit)
    ensures mod == Pow2(k) && count <= mod && k <= limit && (k > 0 ==> Pow2(k - 1) < count)
  {
    mod, k := 1, 0;
    while mod < count
      invariant k <= limit && mod == Pow2(k) && (k > 0 ==> Pow2(k - 1) < count)
      decreases limit - k
    {
      mod := mod * 2;
      k := k + 1;
    }
  }

  /** The lower 29 bits of the seed, and the multiplier made of them. */
  method Multiplier(seed: nat) returns (state: nat, a: nat)
    ensures state == seed % 0x2000_0000 && a == 4 * state + 1 && a % 4 == 1
  {
    state := seed % 0x2000_0000;
    a := 4 * state + 1;
  }

  class Prng {
    /** `sizeof(unsigned long)`: 4 or 8. */
    const longBytes: nat
    var randomOrder: bool
    var initialized: bool
    var state: nat
    var count: nat
    var countCeil: nat
    var countRun: nat
    var mod: nat
    var a: nat
    var c: nat

    /** A generator ready to step: modulus 2^k, multiplier 1 modulo 4, odd increment. */
    ghost predicate Ready(k: nat)
      reads this
    {
      && longBytes in {4, 8} && k <= 8 * longBytes
      && mod == Pow2(k) && 0 < countCeil <= mod
      && a % 4 == 1 && c % 2 == 1
    }

    /** `f` lists the states the generator goes through. */
    ghost predicate Drives(k: nat, f: nat -> nat)
      reads this
    {
      && Ready(k)
      && FullPeriodic(f, mod)
      && Follows(f, a, c, mod)
    }

    constructor (longBytes: nat)
      ensures this.longBytes == longBytes && !initialized && !randomOrder && countRun == 0
    {
      this.longBytes := longBytes;
      randomOrder, initialized := false, false;
      state, count, countCeil, countRun, mod, a, c := 0, 0, 0, 0, 0, 0, 0;
    }

    method InitFirstPass()
      modifies this`randomOrder, this`countRun
      ensures randomOrder && countRun == 0
    {
      randomOrder, countRun := true, 0;
    }

    /**
     Sets up the generator for the tests counted in the first pass; false if there were
     none.  The modulus becomes the least power of two that is at least the count.
     */
    method InitSecondPass(seed: nat) returns (ok: bool, ghost k: nat)
      requires longBytes in {4, 8} && count <= Pow2(8 * longBytes - 1)
      modifies this`mod, this`countCeil, this`state, this`a, this`c, this`initialized
      ensures ok <==> count > 0
      ensures ok ==> Ready(k) && initialized && countCeil == count && (k > 0 ==> Pow2(k - 1) < count)
      ensures ok ==> state == seed % 0x2000_0000 && a == 4 * state + 1 && c == Increment(seed, longBytes)
      ensures !ok ==> unchanged(this)
    {
      k := 0;
      if count == 0 {
        return false, k;
      }
      mod, k := PowerCeiling(count, 8 * longBytes - 1);
      countCeil := count;
      state, a := Multiplier(seed);
      c := Increment(seed, longBytes);
      initialized := true;
      return true, k;
    }

    /** One turn of the generator: a multiply and add in an `unsigned long`, then the mask. */
    method Turn(ghost k: nat, ghost f: nat -> nat, ghost i: nat)
      requires Ready(k) && Follows(f, a, c, mod) && state == f(i)
      modifies this`state
      ensures state == f(i + 1)
    {
      assert Turns(f, a, c, mod, i);
      Pow2Sum(k, 8 * longBytes - k);
      ReduceTwice(a * state + c, mod, Pow2(8 * longBytes - k));
      state := (a * state + c) % Pow2(8 * longBytes) % mod;
    }

    /**
     `greatest_prng_step`: moves to the next state below the test count, which takes at most
     mod - count + 1 turns from any starting state.
     */
    method Step(ghost k: nat, ghost f: nat -> nat, ghost i: nat) returns (ghost i': nat)
      requires Drives(k, f) && state == f(i)
      modifies this`state
      ensures i < i' <= i + mod - countCeil + 1
      ensures state == f(i') < countCeil
      ensures forall e :: i < e < i' ==> f(e) >= countCeil
    {
      ghost var d := HitWithin(f, mod, i, countCeil);
      Turn(k, f, i);
      i' := i + 1;
      while state >= countCeil
        invariant i < i' <= i + d && state == f(i')
        invariant forall e :: i < e < i' ==> f(e) >= countCeil
        decreases i + d - i'
      {
        Turn(k, f, i');
        i' := i' + 1;
      }
    }

    /**
     `greatest_test_pre`: counts the offer, and says whether to run it now.  A test is not eligible
     if tests are only listed, a filter excludes it or an earlier one has failed and that is to stop
     the rest; then nothing is counted.
     */
    method TestPre(eligible: bool) returns (run: bool)
      modifies this`count, this`countRun
      ensures count == old(count) + (if eligible && randomOrder then 1 else 0)
      ensures run <==> eligible && (!randomOrder || (initialized && old(count) == state))
      ensures countRun == old(countRun) + (if run then 1 else 0)
    {
      if !eligible {
        return false;
      }
      if randomOrder {
        count := count + 1;
        if !initialized || count - 1 != state {
          return false;
        }
      }
      countRun := countRun + 1;
      return true;
    }

    /** One evaluation of a body that offers `n` eligible tests. */
    method Pass(n: nat) returns (ran: seq<nat>)
      requires randomOrder && count == 0
      modifies this`count, this`countRun
      ensures count == n && countRun == old(countRun) + |ran|
      ensures ran == if initialized && state < n then [state] else []
    {
      ran := [];
      for t := 0 to n
        invariant count == t && countRun == old(countRun) + |ran|
        invariant ran == if initialized && state < t then [state] else []
      {
        var run := TestPre(true);
        if run {
          ran := ran + [t];
        }
      }
    }

    /** One pass after the first: the generator picks a new test, and the body runs that one. */
    method PickAndPass(n: nat, ghost k: nat, ghost f: nat -> nat, ghost i: nat) returns (ran: seq<nat>, ghost i': nat)
      requires initialized && randomOrder && Drives(k, f) && countCeil == n
      requires i <= mod && state == f(i) && |Hits(f, n, i)| < n
      modifies this`state, this`count, this`countRun
      ensures i < i' <= mod && state == f(i')
      ensures |ran| == 1 && Hits(f, n, i') == Hits(f, n, i) + ran
      ensures countRun == old(countRun) + 1
    {
      ghost var j := AnotherHit(f, mod, n, i);
      count := 0;
      i' := Step(k, f, i);
      HitsSkip(f, n, i, i' - 1);
      ran := Pass(n);
    }

    /** The first pass only counts the tests, and then the generator is set up for them. */
    method CountPass(n: nat, seed: nat) returns (ok: bool, ghost k: nat, ghost f: nat -> nat)
      requires randomOrder && !initialized && longBytes in {4, 8} && n <= Pow2(8 * longBytes - 1)
      modifies this
      ensures randomOrder && countRun == old(countRun) && initialized == ok && (ok <==> n > 0)
      ensures ok ==> Drives(k, f) && countCeil == n && state == f(0)
    {
      count := 0;
      var ran := Pass(n);
      ok, k := InitSecondPass(seed);
      f := Orbit(a, c, state, k);
      if ok {
        OrbitIsFullPeriodic(a, c, state, k);
      }
    }

    /**
     GREATEST_SHUFFLE over a body that offers the same `n` tests on every pass.  `abort` says
     after which pass the run is cut short.  No test ever runs twice, and a run that is not
     cut short runs every test exactly once and stops.
     */
    method ShuffleTests(n: nat, seed: nat, abort: nat -> bool) returns (order: seq<nat>)
      requires !initialized && longBytes in {4, 8} && n <= Pow2(8 * longBytes - 1)
      modifies this
      ensures Distinct(order) && forall t :: t in order ==> t < n
      ensures (forall p :: !abort(p)) ==> |order| == n && forall t: nat :: t < n ==> t in order
      ensures !initialized && !randomOrder && countRun == 0
    {
      InitFirstPass();
      order := [];
      var pass := 0;
      ghost var i := 0;
      var ok, k, f := CountPass(n, seed);
      if ok {
        var cut := abort(pass);
        while !cut && countRun != countCeil
          invariant Drives(k, f) && initialized && randomOrder && countCeil == n && countRun == |order|
          invariant i <= mod && state == f(i) && order == Hits(f, n, i)
          invariant |order| <= n && (cut ==> abort(pass))
          decreases n - |order|
        {
          var ran;
          ran, i := PickAndPass(n, k, f, i);
          order := order + ran;
          pass := pass + 1;
          cut := abort(pass);
        }
        HitsDistinct(f, mod, n, i);
        if |order| == n {
          AllHit(f, mod, n, i);
        }
      }
      countRun, randomOrder, initialized := 0, false, false;
    }
  }
}
