/**
 The allocator of the HAL shared memory block (src/hal/hal_lib.c, `shmalloc_up` and
 `shmalloc_dn`): blocks are cut from both ends of one area and never given back.
 */
module Shmem {

  const HAL_SIZE: nat := 85 * 4096

  /** The free area: bytes `bot` up to (not including) `top`. */
  datatype Arena = Arena(bot: nat, top: nat)

  datatype Option<T> = None | Some(value: T)

  /** The alignment the library gives a block of this size: 8, 4 or 2 bytes, or none. */
  predicate Aligned(x: int, size: nat) {
    if size >= 8 then x % 8 == 0 else if size >= 4 then x % 4 == 0 else size == 2 ==> x % 2 == 0
  }

  /** Taking off the remainder gives the multiple below. */
  lemma Multiples(y: int)
    ensures (y - y % 8) % 8 == 0 && (y - y % 4) % 4 == 0 && (y - y % 2) % 2 == 0
  {
    Multiple8(y / 8);
    Multiple4(y / 4);
    Multiple2(y / 2);
    assert y - y % 8 == 8 * (y / 8) && y - y % 4 == 4 * (y / 4) && y - y % 2 == 2 * (y / 2);
  }

  lemma Multiple8(q: int)
    ensures (8 * q) % 8 == 0
  {
  }

  lemma Multiple4(q: int)
    ensures (4 * q) % 4 == 0
  {
  }

  lemma Multiple2(q: int)
    ensures (2 * q) % 2 == 0
  {
  }

  /** The next multiple of 8, 4 or 2, which the library computes by adding and masking. */
  function RoundUp(x: nat, size: nat): (y: nat)
    ensures x <= y && Aligned(y, size)
  {
    Multiples(x + 7);
    Multiples(x + 3);
    Multiples(x + 1);
    if size >= 8 then (x + 7) - (x + 7) % 8
    else if size >= 4 then (x + 3) - (x + 3) % 4
    else if size == 2 then (x + 1) - (x + 1) % 2
    else x
  }

  /** The previous multiple of 8, 4 or 2; masking rounds a negative number down as well. */
  function RoundDown(x: int, size: nat): (y: int)
    ensures y <= x && Aligned(y, size)
  {
    Multiples(x);
    if size >= 8 then x - x % 8
    else if size >= 4 then x - x % 4
    else if size == 2 then x - x % 2
    else x
  }

  function AllocUp(m: Arena, size: nat): (r: (Arena, Option<nat>)) {
    var start := RoundUp(m.bot, size);
    if m.top - start < size then (m, None) else (m.(bot := start + size), Some(start))
  }

  function AllocDown(m: Arena, size: nat): (r: (Arena, Option<nat>)) {
    var start := RoundDown(m.top - size, size);
    if start < m.bot then (m, None) else (m.(top := start), Some(start))
  }

  /** A block of this size could start here: aligned, and inside the free area. */
  predicate Fits(m: Arena, size: nat, start: nat) {
    m.bot <= start && start + size <= m.top && Aligned(start, size)
  }

  lemma UpTo8(x: nat, p: nat)
    requires x <= p && p % 8 == 0
    ensures (x + 7) - (x + 7) % 8 <= p
  {
  }

  lemma UpTo4(x: nat, p: nat)
    requires x <= p && p % 4 == 0
    ensures (x + 3) - (x + 3) % 4 <= p
  {
  }

  lemma UpTo2(x: nat, p: nat)
    requires x <= p && p % 2 == 0
    ensures (x + 1) - (x + 1) % 2 <= p
  {
  }

  lemma RoundUpIsLeast(x: nat, size: nat, p: nat)
    requires x <= p && Aligned(p, size)
    ensures RoundUp(x, size) <= p
  {
    if size >= 8 {
      UpTo8(x, p);
    } else if size >= 4 {
      UpTo4(x, p);
    } else if size == 2 {
      UpTo2(x, p);
    }
  }

  lemma RoundDownIsGreatest(x: int, size: nat, p: nat)
    requires p <= x && Aligned(p, size)
    ensures p <= RoundDown(x, size)
  {
  }

  /**
   Allocating upwards succeeds exactly when some aligned block fits, takes the lowest one,
   and changes nothing when it fails.
   */
  lemma AllocUpExact(m: Arena, size: nat)
    ensures var (m', r) := AllocUp(m, size);
            && (r.Some? <==> exists p: nat :: Fits(m, size, p))
            && (r.None? ==> m' == m)
            && (r.Some? ==> Fits(m, size, r.value) && m' == Arena(r.value + size, m.top))
            && (r.Some? ==> forall p: nat :: Fits(m, size, p) ==> r.value <= p)
  {
    var (m', r) := AllocUp(m, size);
    forall p: nat | Fits(m, size, p)
      ensures r.Some? && r.value <= p
    {
      RoundUpIsLeast(m.bot, size, p);
    }
    if r.Some? {
      assert Fits(m, size, r.value);
    }
  }

  /** Allocating downwards likewise takes the highest aligned block that fits. */
  lemma AllocDownExact(m: Arena, size: nat)
    ensures var (m', r) := AllocDown(m, size);
            && (r.Some? <==> exists p: nat :: Fits(m, size, p))
            && (r.None? ==> m' == m)
            && (r.Some? ==> Fits(m, size, r.value) && m' == Arena(m.bot, r.value))
            && (r.Some? ==> forall p: nat :: Fits(m, size, p) ==> p <= r.value)
  {
    var (m', r) := AllocDown(m, size);
    forall p: nat | Fits(m, size, p)
      ensures r.Some? && p <= r.value
    {
      RoundDownIsGreatest(m.top - size, size, p);
    }
    if r.Some? {
      assert Fits(m, size, r.value);
    }
  }

  // --------------------------------------------------------------- whole runs

  datatype Request = Up(size: nat) | Down(size: nat)

  datatype Block = Block(start: nat, size: nat)

  function Serve(m: Arena, q: Request): (r: (Arena, Option<nat>)) {
    if q.Up? then AllocUp(m, q.size) else AllocDown(m, q.size)
  }

  /** The free area and the blocks handed out, after serving the requests in order. */
  function Run(m: Arena, qs: seq<Request>): (r: (Arena, seq<Block>)) {
    if qs == [] then (m, [])
    else
      var q := qs[|qs| - 1];
      var (m1, blocks) := Run(m, qs[..|qs| - 1]);
      var (m2, got) := Serve(m1, q);
      (m2, if got.Some? then blocks + [Block(got.value, q.size)] else blocks)
  }

  predicate Disjoint(b: Block, b': Block) {
    b.start + b.size <= b'.start || b'.start + b'.size <= b.start
  }

  /** The block lies in the part of the area below or above the free area. */
  predicate HandedOut(b: Block, header: nat, m: Arena) {
    && Aligned(b.start, b.size)
    && ((header <= b.start && b.start + b.size <= m.bot) || (m.top <= b.start && b.start + b.size <= HAL_SIZE))
  }

  lemma {:induction false} RunInvariant(header: nat, qs: seq<Request>)
    requires header <= HAL_SIZE && forall q :: q in qs ==> q.size > 0
    ensures var (m, blocks) := Run(Arena(header, HAL_SIZE), qs);
            && header <= m.bot <= m.top <= HAL_SIZE
            && (forall b :: b in blocks ==> HandedOut(b, header, m))
            && (forall i, j :: 0 <= i < j < |blocks| ==> Disjoint(blocks[i], blocks[j]))
  {
    if qs != [] {
      var q := qs[|qs| - 1];
      RunInvariant(header, qs[..|qs| - 1]);
      var (m1, blocks) := Run(Arena(header, HAL_SIZE), qs[..|qs| - 1]);
      AllocUpExact(m1, q.size);
      AllocDownExact(m1, q.size);
      var (m2, got) := Serve(m1, q);
      if got.Some? {
        forall b | b in blocks
          ensures Disjoint(b, Block(got.value, q.size)) && HandedOut(b, header, m2)
        {
        }
      }
    }
  }

  /**
   For every sequence of requests of positive sizes the blocks returned are pairwise disjoint, lie
   between the header and the end of the shared memory, and are aligned as their size demands.
   */
  lemma BlocksNeverOverlap(header: nat, qs: seq<Request>)
    requires header <= HAL_SIZE && forall q :: q in qs ==> q.size > 0
    ensures var blocks := Run(Arena(header, HAL_SIZE), qs).1;
            && (forall i, j :: 0 <= i < j < |blocks| ==> Disjoint(blocks[i], blocks[j]))
            && (forall b :: b in blocks ==>
                  && header <= b.start && b.start + b.size <= HAL_SIZE
                  && (b.size >= 8 ==> b.start % 8 == 0) && (4 <= b.size < 8 ==> b.start % 4 == 0)
                  && (b.size == 2 ==> b.start % 2 == 0))
  {
    RunInvariant(header, qs);
  }

  /** The allocator fields of `hal_data`. */
  class Allocator {
    var bot: nat
    var top: nat
    var avail: int

    constructor (header: nat)
      requires header <= HAL_SIZE
      ensures Area() == Arena(header, HAL_SIZE)
    {
      bot, top, avail := header, HAL_SIZE, 0;
    }

    function Area(): Arena
      reads this
    {
      Arena(bot, top)
    }

    method ShmallocUp(size: nat) returns (start: Option<nat>)
      modifies this
      ensures (Area(), start) == AllocUp(old(Area()), size)
      ensures start.Some? ==> avail == top - bot
      ensures start.None? ==> avail == old(avail)
    {
      var tmpBot := bot;
      if size >= 8 {
        tmpBot := (tmpBot + 7) - (tmpBot + 7) % 8;
      } else if size >= 4 {
        tmpBot := (tmpBot + 3) - (tmpBot + 3) % 4;
      } else if size == 2 {
        tmpBot := (tmpBot + 1) - (tmpBot + 1) % 2;
      }
      if top - tmpBot < size {
        return None;
      }
      bot := tmpBot + size;
      avail := top - bot;
      return Some(tmpBot);
    }

    method ShmallocDown(size: nat) returns (start: Option<nat>)
      modifies this
      ensures (Area(), start) == AllocDown(old(Area()), size)
      ensures start.Some? ==> avail == top - bot
      ensures start.None? ==> avail == old(avail)
    {
      var tmpTop: int := top - size;
      if size >= 8 {
        tmpTop := tmpTop - tmpTop % 8;
      } else if size >= 4 {
        tmpTop := tmpTop - tmpTop % 4;
      } else if size == 2 {
        tmpTop := tmpTop - tmpTop % 2;
      }
      if tmpTop < bot {
        return None;
      }
      top := tmpTop;
      avail := top - bot;
      return Some(tmpTop);
    }
  }
}
