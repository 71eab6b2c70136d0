/**
 The singly linked lists of the HAL (src/hal/hal_lib.c): structures of one kind form a list
 in use and a free list, both threaded through the same `next_ptr` field.  The lemmas say
 what the pointer assignments do to the two sequences.
 */
module LinkedList {
  import opened Lists
  import opened Names
  import opened Hal

  /** The two list heads, every structure's `next_ptr` and every structure's contents. */
  datatype Linked<T> = Linked(head: Off, free: Off, next: map<Off, Off>, items: map<Off, T>)

  /** The element at a position, or "none" at the end. */
  function At(list: seq<Off>, i: nat): (x: Off)
    requires i <= |list|
  {
    if i == |list| then 0 else list[i]
  }

  /** The element before a position, or "none" for the list head. */
  function Before(list: seq<Off>, i: nat): (x: Off)
    requires i <= |list|
  {
    if i == 0 then 0 else list[i - 1]
  }

  /** Following the pointers from `head` gives the list, and then "none". */
  ghost predicate Chain(head: Off, next: map<Off, Off>, list: seq<Off>) {
    && head == At(list, 0)
    && (forall x :: x in list ==> x in next)
    && (forall i, j :: 0 <= i && j == i + 1 && j <= |list| ==> next[list[i]] == At(list, j))
  }

  /** The pointers hold exactly the two sequences of the pool. */
  ghost predicate Represents<T>(l: Linked<T>, p: Pool<T>) {
    && l.items == p.items
    && Chain(l.head, l.next, p.list)
    && Chain(l.free, l.next, p.free)
  }

  /** The pointer reached from `x` in `n` steps; following "none" stays there. */
  function Follow(next: map<Off, Off>, x: Off, n: nat): (y: Off)
    decreases n
  {
    if n == 0 || x == 0 || x !in next then x else Follow(next, next[x], n - 1)
  }

  /** A walk from the `i`-th element goes through the rest of the list, and reaches the end after it. */
  lemma {:induction false} FollowChain(head: Off, next: map<Off, Off>, list: seq<Off>, i: nat, n: nat)
    requires Chain(head, next, list) && 0 !in list && i + n <= |list|
    ensures Follow(next, At(list, i), n) == At(list, i + n)
    decreases n
  {
    if n != 0 {
      assert next[list[i]] == At(list, i + 1);
      FollowChain(head, next, list, i + 1, n - 1);
    }
  }

  /** A chain has no cycle: every walk from its head comes to the end after as many steps as there are elements. */
  lemma ChainEnds(head: Off, next: map<Off, Off>, list: seq<Off>, n: nat)
    requires Chain(head, next, list) && 0 !in list && n <= |list|
    ensures Follow(next, head, n) == 0 <==> n == |list|
  {
    FollowChain(head, next, list, 0, n);
    assert n < |list| ==> list[n] in list;
  }

  /** The list in use and the free list both end, and no walk along one meets the other. */
  lemma ListsApart<T>(l: Linked<T>, p: Pool<T>, i: nat, j: nat)
    requires Represents(l, p) && PoolOk(p) && i <= |p.list| && j <= |p.free|
    ensures Follow(l.next, l.head, i) == 0 <==> i == |p.list|
    ensures Follow(l.next, l.free, j) == 0 <==> j == |p.free|
    ensures i < |p.list| ==> Follow(l.next, l.head, i) != Follow(l.next, l.free, j)
  {
    ChainEnds(l.head, l.next, p.list, i);
    ChainEnds(l.free, l.next, p.free, j);
    FollowChain(l.head, l.next, p.list, 0, i);
    FollowChain(l.free, l.next, p.free, 0, j);
    assert i < |p.list| ==> p.list[i] in p.list;
    assert j < |p.free| ==> p.free[j] in p.free;
  }

  // ------------------------------------------------------- pointer assignments

  /** `new->next_ptr = next; *prev = new`, where `prev` is a structure's field or the list head. */
  function LinkAfter<T>(l: Linked<T>, prev: Off, x: Off): (l': Linked<T>)
    requires prev != 0 ==> prev in l.next
  {
    if prev == 0 then l.(head := x, next := l.next[x := l.head])
    else l.(next := l.next[x := l.next[prev]][prev := x])
  }

  /** `*prev = ptr->next_ptr`. */
  function UnlinkAfter<T>(l: Linked<T>, prev: Off, x: Off): (l': Linked<T>)
    requires x in l.next
  {
    if prev == 0 then l.(head := l.next[x]) else l.(next := l.next[prev := l.next[x]])
  }

  function PushFree<T>(l: Linked<T>, x: Off, item: T): (l': Linked<T>) {
    l.(free := x, next := l.next[x := l.free], items := l.items[x := item])
  }

  function PopFree<T>(l: Linked<T>, item: T): (l': Linked<T>)
    requires l.free in l.next
  {
    Linked(l.head, l.next[l.free], l.next[l.free := 0], l.items[l.free := item])
  }

  /** A structure in fresh memory. */
  function AddFresh<T>(l: Linked<T>, x: Off, item: T): (l': Linked<T>) {
    l.(next := l.next[x := 0], items := l.items[x := item])
  }

  // -------------------------------------------------------------------- lemmas

  /** A pointer outside the list may change. */
  lemma ChainFrame(head: Off, next: map<Off, Off>, list: seq<Off>, x: Off, y: Off)
    requires Chain(head, next, list) && x !in list
    ensures Chain(head, next[x := y], list)
  {
    var next' := next[x := y];
    forall i, j | 0 <= i && j == i + 1 && j <= |list|
      ensures next'[list[i]] == At(list, j)
    {
      assert list[i] in list;
      assert next[list[i]] == At(list, j);
    }
  }

  lemma ChainInsert(head: Off, next: map<Off, Off>, list: seq<Off>, i: nat, x: Off)
    requires Chain(head, next, list) && i <= |list| && x !in list
    requires forall k, n :: 0 <= k < n < |list| ==> list[k] != list[n]
    ensures i == 0 ==> Chain(x, next[x := head], Insert(list, i, x))
    ensures i != 0 ==> Before(list, i) in next
                       && Chain(head, next[x := next[Before(list, i)]][Before(list, i) := x], Insert(list, i, x))
  {
    var list' := Insert(list, i, x);
    var next' := if i == 0 then next[x := head] else next[x := next[list[i - 1]]][list[i - 1] := x];
    assert i != 0 ==> list[i - 1] in list && next[list[i - 1]] == At(list, i);
    forall k, n | 0 <= k && n == k + 1 && n <= |list'|
      ensures list'[k] in next' && next'[list'[k]] == At(list', n)
    {
      if k < i {
        assert list'[k] == list[k] && list[k] in list && next[list[k]] == At(list, n);
      } else if k > i {
        assert list'[k] == list[k - 1] && list[k - 1] in list && next[list[k - 1]] == At(list, k);
      }
    }
  }

  lemma ChainRemove(head: Off, next: map<Off, Off>, list: seq<Off>, i: nat)
    requires Chain(head, next, list) && i < |list|
    requires forall k, n :: 0 <= k < n < |list| ==> list[k] != list[n]
    ensures list[i] in next
    ensures i == 0 ==> Chain(next[list[i]], next, Remove(list, i))
    ensures i != 0 ==> Chain(head, next[Before(list, i) := next[list[i]]], Remove(list, i))
  {
    var list' := Remove(list, i);
    var next' := if i == 0 then next else next[list[i - 1] := next[list[i]]];
    assert list[i] in list && next[list[i]] == At(list, i + 1);
    forall k, n | 0 <= k && n == k + 1 && n <= |list'|
      ensures list'[k] in next' && next'[list'[k]] == At(list', n)
    {
      if k < i {
        assert list'[k] == list[k] && list[k] in list && next[list[k]] == At(list, n);
      } else {
        assert list'[k] == list[k + 1] && list[k + 1] in list && next[list[k + 1]] == At(list, n + 1);
      }
    }
  }

  lemma LinkAfterRep<T>(l: Linked<T>, p: Pool<T>, i: nat, x: Off)
    requires Represents(l, p) && PoolOk(p) && i <= |p.list| && x !in p.list && x !in p.free
    ensures i != 0 ==> Before(p.list, i) in l.next
    ensures (Before(p.list, i) == 0) == (i == 0)
    ensures Represents(LinkAfter(l, Before(p.list, i), x), p.(list := Insert(p.list, i, x)))
  {
    assert i != 0 ==> p.list[i - 1] in p.list && p.list[i - 1] !in p.free;
    ChainInsert(l.head, l.next, p.list, i, x);
    if i == 0 {
      ChainFrame(l.free, l.next, p.free, x, l.head);
    } else {
      var y := l.next[p.list[i - 1]];
      ChainFrame(l.free, l.next, p.free, x, y);
      ChainFrame(l.free, l.next[x := y], p.free, p.list[i - 1], x);
    }
  }

  lemma UnlinkAfterRep<T>(l: Linked<T>, p: Pool<T>, i: nat)
    requires Represents(l, p) && PoolOk(p) && i < |p.list|
    ensures p.list[i] in l.next
    ensures Represents(UnlinkAfter(l, Before(p.list, i), p.list[i]), p.(list := Remove(p.list, i)))
  {
    assert i != 0 ==> p.list[i - 1] in p.list && p.list[i - 1] !in p.free;
    ChainRemove(l.head, l.next, p.list, i);
    if i != 0 {
      ChainFrame(l.free, l.next, p.free, p.list[i - 1], l.next[p.list[i]]);
    }
  }

  lemma PushFreeRep<T>(l: Linked<T>, p: Pool<T>, x: Off, item: T)
    requires Represents(l, p) && PoolOk(p) && x !in p.list && x !in p.free
    ensures Represents(PushFree(l, x, item), Pool(p.list, [x] + p.free, p.items[x := item]))
  {
    ChainFrame(l.head, l.next, p.list, x, l.free);
    ChainInsert(l.free, l.next, p.free, 0, x);
    assert Insert(p.free, 0, x) == [x] + p.free;
  }

  lemma PopFreeRep<T>(l: Linked<T>, p: Pool<T>, item: T)
    requires Represents(l, p) && PoolOk(p) && p.free != []
    ensures l.free == p.free[0] && l.free in l.next
    ensures Represents(PopFree(l, item), Pool(p.list, p.free[1..], p.items[p.free[0] := item]))
  {
    var x := p.free[0];
    assert x in p.free && x !in p.list;
    ChainFrame(l.head, l.next, p.list, x, 0);
    ChainRemove(l.free, l.next, p.free, 0);
    assert Remove(p.free, 0) == p.free[1..];
    ChainFrame(l.next[x], l.next, p.free[1..], x, 0);
  }

  lemma AddFreshRep<T>(l: Linked<T>, p: Pool<T>, x: Off, item: T)
    requires Represents(l, p) && x !in p.list && x !in p.free
    ensures Represents(AddFresh(l, x, item), p.(items := p.items[x := item]))
  {
    ChainFrame(l.head, l.next, p.list, x, 0);
    ChainFrame(l.free, l.next, p.free, x, 0);
  }
}
