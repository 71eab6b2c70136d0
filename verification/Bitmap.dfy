/**
 Sets of small numbers as words of bits (src/rtapi/rtapi_bitops.h).  A word is the number it
 stands for; `w | (1lu << i)` and `w & ~(1lu << i)` are spelled out bit by bit.
 */
module Bitmap {
  import opened Powers

  type Words = seq<nat>

  /** `CHAR_BIT * sizeof(unsigned long)` on a 64-bit machine. */
  const LONG_BIT: nat := 64

  /** `(w & (1lu << i)) != 0`. */
  predicate HasBit(w: nat, i: nat) {
    if i == 0 then w % 2 == 1 else HasBit(w / 2, i - 1)
  }

  /** `w | (1lu << i)`. */
  function OrBit(w: nat, i: nat): (w': nat)
    ensures w' >= w
  {
    if i == 0 then (if w % 2 == 1 then w else w + 1) else 2 * OrBit(w / 2, i - 1) + w % 2
  }

  /** `w & ~(1lu << i)`. */
  function AndNotBit(w: nat, i: nat): (w': nat)
    ensures w' <= w
  {
    if i == 0 then w - w % 2 else 2 * AndNotBit(w / 2, i - 1) + w % 2
  }

  lemma {:induction false} OrBitBits(w: nat, i: nat, j: nat)
    ensures HasBit(OrBit(w, i), j) <==> i == j || HasBit(w, j)
    decreases i
  {
    if i != 0 && j != 0 {
      assert OrBit(w, i) / 2 == OrBit(w / 2, i - 1);
      OrBitBits(w / 2, i - 1, j - 1);
    }
  }

  lemma {:induction false} AndNotBitBits(w: nat, i: nat, j: nat)
    ensures HasBit(AndNotBit(w, i), j) <==> i != j && HasBit(w, j)
    decreases i
  {
    if i != 0 && j != 0 {
      assert AndNotBit(w, i) / 2 == AndNotBit(w / 2, i - 1);
      AndNotBitBits(w / 2, i - 1, j - 1);
    }
  }

  /** A word stays a word. */
  lemma {:induction false} OrBitBound(w: nat, i: nat, k: nat)
    requires w < Pow2(k) && i < k
    ensures OrBit(w, i) < Pow2(k)
    decreases i
  {
    if i != 0 {
      OrBitBound(w / 2, i - 1, k - 1);
    }
  }

  /** `test_bit`. */
  predicate TestBit(nr: nat, b: Words)
    requires nr < LONG_BIT * |b|
  {
    HasBit(b[nr / LONG_BIT], nr % LONG_BIT)
  }

  /** `set_bit`. */
  function SetBit(nr: nat, b: Words): (b': Words)
    requires nr < LONG_BIT * |b|
  {
    b[nr / LONG_BIT := OrBit(b[nr / LONG_BIT], nr % LONG_BIT)]
  }

  /** `clear_bit`. */
  function ClearBit(nr: nat, b: Words): (b': Words)
    requires nr < LONG_BIT * |b|
  {
    b[nr / LONG_BIT := AndNotBit(b[nr / LONG_BIT], nr % LONG_BIT)]
  }

  /** The set that the words stand for. */
  function Members(b: Words): (s: set<nat>) {
    set k: nat | k < LONG_BIT * |b| && TestBit(k, b)
  }

  /** Setting a bit adds its number to the set. */
  lemma MembersAfterSet(nr: nat, b: Words)
    requires nr < LONG_BIT * |b|
    ensures Members(SetBit(nr, b)) == Members(b) + {nr}
  {
    forall k: nat | k < LONG_BIT * |b|
      ensures TestBit(k, SetBit(nr, b)) <==> k == nr || TestBit(k, b)
    {
      OrBitBits(b[nr / LONG_BIT], nr % LONG_BIT, k % LONG_BIT);
    }
  }

  /** Clearing a bit takes its number out of the set. */
  lemma MembersAfterClear(nr: nat, b: Words)
    requires nr < LONG_BIT * |b|
    ensures Members(ClearBit(nr, b)) == Members(b) - {nr}
  {
    forall k: nat | k < LONG_BIT * |b|
      ensures TestBit(k, ClearBit(nr, b)) <==> k != nr && TestBit(k, b)
    {
      AndNotBitBits(b[nr / LONG_BIT], nr % LONG_BIT, k % LONG_BIT);
    }
  }

  /** Words are below 2^64. */
  predicate WordsOk(b: Words) {
    forall i :: 0 <= i < |b| ==> b[i] < Pow2(LONG_BIT)
  }

  lemma SetKeepsWords(nr: nat, b: Words)
    requires nr < LONG_BIT * |b| && WordsOk(b)
    ensures WordsOk(SetBit(nr, b)) && WordsOk(ClearBit(nr, b))
  {
    OrBitBound(b[nr / LONG_BIT], nr % LONG_BIT, LONG_BIT);
  }
}
