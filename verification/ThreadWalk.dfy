/**
 The walk of a realtime thread along its function list (src/hal/hal_lib.c, `thread_task`) while
 the list is rewritten.  The walk takes no mutex and reads only `next` links; a call that holds
 the mutex moves an entry between the list and the free list of entries, one link store at a time.
 Loads and stores of a link are whole, and are seen in program order.
 */
module ThreadWalk {
  import opened Lists
  import opened Names
  import opened CircularList

  datatype Store = NextStore(at: Off, val: Off) | PrevStore(at: Off, val: Off)

  function Apply(l: Links, s: Store): Links {
    match s
    case NextStore(at, val) => l.(next := l.next[at := val])
    case PrevStore(at, val) => l.(prev := l.prev[at := val])
  }

  /** The stores of `list_remove_entry`, in order. */
  function RemoveStores(e: Off, p: Off, n: Off): seq<Store> {
    [NextStore(p, n), PrevStore(n, p), NextStore(e, e), PrevStore(e, e)]
  }

  /** The stores of `list_add_after`, in order. */
  function AddStores(e: Off, p: Off, n: Off): seq<Store> {
    [NextStore(e, n), PrevStore(e, p), NextStore(p, e), PrevStore(n, e)]
  }

  /** An entry is unlinked and linked in again after `to`. */
  function MoveStores(l: Links, e: Off, to: Off): seq<Store>
    requires e in l.next && e in l.prev && to in RemoveEntry(l, e).next
  {
    RemoveStores(e, l.prev[e], l.next[e]) + AddStores(e, to, RemoveEntry(l, e).next[to])
  }

  /** The links after each of the stores, from before the first. */
  ghost predicate IsHistory(h: seq<Links>, stores: seq<Store>) {
    && |h| == |stores| + 1
    && forall k :: 0 <= k < |stores| ==> h[k + 1] == Apply(h[k], stores[k])
  }

  /** An entry on one list is being moved behind an element of another. */
  ghost predicate Moving(h: seq<Links>, src: seq<Off>, j: nat, dst: seq<Off>, i: nat) {
    && |h| == 9 && IsCycle(h[0], src) && IsCycle(h[0], dst) && Apart(src, dst) && 0 < j < |src| && i < |dst|
    && src[j] in h[0].next && src[j] in h[0].prev && dst[i] in RemoveEntry(h[0], src[j]).next
    && IsHistory(h, MoveStores(h[0], src[j], dst[i]))
  }

  /** The `next` link of `x` after `k` of the stores that move `e` behind `to`. */
  function NextDuring(l: Links, e: Off, to: Off, k: nat, x: Off): Off
    requires e in l.next && e in l.prev && to in l.next && x in l.next
  {
    if x == l.prev[e] && k >= 1 then l.next[e]
    else if x == e && k >= 3 then (if k < 5 then e else l.next[to])
    else if x == to && k >= 7 then e
    else l.next[x]
  }

  /** One by one the stores do what the two list operations do. */
  lemma MoveDone(h: seq<Links>, src: seq<Off>, j: nat, dst: seq<Off>, i: nat)
    requires Moving(h, src, j, dst, i)
    ensures h[4] == RemoveEntry(h[0], src[j]) && h[8] == AddAfter(RemoveEntry(h[0], src[j]), src[j], dst[i])
  {
    HistoryUnrolled(h, MoveStores(h[0], src[j], dst[i]));
  }

  lemma {:induction false} HistoryOf(l: Links, stores: seq<Store>) returns (h: seq<Links>)
    ensures IsHistory(h, stores) && h[0] == l
  {
    if stores == [] {
      h := [l];
    } else {
      var last := |stores| - 1;
      h := HistoryOf(l, stores[..last]);
      h := h + [Apply(h[last], stores[last])];
      assert forall k :: 0 <= k < last ==> stores[k] == stores[..last][k];
    }
  }

  /** Any entry of a list can be moved behind any element of another. */
  lemma MoveHappens(l: Links, src: seq<Off>, j: nat, dst: seq<Off>, i: nat) returns (h: seq<Links>)
    requires IsCycle(l, src) && IsCycle(l, dst) && Apart(src, dst) && 0 < j < |src| && i < |dst|
    ensures Moving(h, src, j, dst, i) && h[0] == l
  {
    InCycle(l, src, j);
    InCycle(l, dst, i);
    h := HistoryOf(l, MoveStores(l, src[j], dst[i]));
  }

  lemma HistoryUnrolled(h: seq<Links>, s: seq<Store>)
    requires |s| == 8 && IsHistory(h, s)
    ensures h[1] == Apply(h[0], s[0]) && h[2] == Apply(h[1], s[1]) && h[3] == Apply(h[2], s[2])
    ensures h[4] == Apply(h[3], s[3]) && h[5] == Apply(h[4], s[4]) && h[6] == Apply(h[5], s[5])
    ensures h[7] == Apply(h[6], s[6]) && h[8] == Apply(h[7], s[7])
  {
    assert s[0] == s[0] && s[1] == s[1] && s[2] == s[2] && s[3] == s[3];
    assert s[4] == s[4] && s[5] == s[5] && s[6] == s[6] && s[7] == s[7];
  }

  lemma MoveLinks(h: seq<Links>, src: seq<Off>, j: nat, dst: seq<Off>, i: nat, k: nat, x: Off)
    requires Moving(h, src, j, dst, i) && k < 9 && x in h[0].next
    ensures dst[i] in h[0].next && x in h[k].next
    ensures h[k].next[x] == NextDuring(h[0], src[j], dst[i], k, x)
  {
    HistoryUnrolled(h, MoveStores(h[0], src[j], dst[i]));
    InCycle(h[0], src, j);
    InCycle(h[0], dst, i);
    assert src[j - 1] in src && src[j] in src && dst[i] in dst;
  }

  // ------------------------------------------------------------------- walks

  /**
   The places of a walk that has begun at the root, and for each read of a link how many of the
   stores had been done by then.  It ends when it comes to the root again.
   */
  ghost predicate Walk(h: seq<Links>, root: Off, w: seq<Off>, t: seq<nat>) {
    && |w| == |t| + 1 && w[0] == root
    && (forall m :: 0 < m < |t| ==> w[m] != root)
    && (forall m, n :: 0 <= m < n < |t| ==> t[m] <= t[n])
    && (forall m :: 0 <= m < |t| ==> t[m] < |h| && Read(h[t[m]], w[m], w[m + 1]))
  }

  ghost predicate Read(l: Links, a: Off, b: Off) { a in l.next && l.next[a] == b }

  /** The walk has come back to the root. */
  predicate Returned(w: seq<Off>) { |w| > 1 && w[|w| - 1] == w[0] }

  /** A lap along a list: its elements and its root again. */
  function Lap(c: seq<Off>): seq<Off>
    requires |c| > 0
  {
    c + [c[0]]
  }

  /** The first `n` reads have gone along this lap. */
  predicate Follows(w: seq<Off>, n: nat, lap: seq<Off>) {
    n < |w| && n < |lap| && forall m :: 0 <= m <= n ==> w[m] == lap[m]
  }

  lemma LapNext(l: Links, c: seq<Off>, m: nat)
    requires IsCycle(l, c) && m < |c|
    ensures c[m] in l.next && l.next[c[m]] == Lap(c)[m + 1]
  {
    InCycle(l, c, m);
  }

  // ------------------------------------------------------ the list that grows

  lemma GrowingNext(h: seq<Links>, src: seq<Off>, j: nat, dst: seq<Off>, i: nat, k: nat, m: nat)
    requires Moving(h, src, j, dst, i) && k < 9 && m < |dst|
    ensures dst[m] in h[k].next
    ensures h[k].next[dst[m]] == if m == i && k >= 7 then src[j] else Lap(dst)[m + 1]
  {
    LapNext(h[0], dst, m);
    MoveLinks(h, src, j, dst, i, k, dst[m]);
    InCycle(h[0], src, j);
    assert src[j] in src && src[j - 1] in src && dst[m] in dst;
    assert m != i ==> dst[m] != dst[i];
  }

  lemma EntryNext(h: seq<Links>, src: seq<Off>, j: nat, dst: seq<Off>, i: nat, k: nat)
    requires Moving(h, src, j, dst, i) && k < 9
    ensures src[j] in h[k].next
    ensures h[k].next[src[j]] == if k < 3 then Lap(src)[j + 1] else if k < 5 then src[j] else Lap(dst)[i + 1]
  {
    LapNext(h[0], src, j);
    LapNext(h[0], dst, i);
    MoveLinks(h, src, j, dst, i, k, src[j]);
    InCycle(h[0], src, j);
    assert src[j] in src && dst[i] in dst && src[j - 1] != src[j];
  }

  /** From `s` stores on, and not before, the entry is in the list, behind its `i`-th element. */
  ghost predicate Entering(h: seq<Links>, e: Off, dst: seq<Off>, i: nat, s: nat) {
    && i < |dst| && e !in dst && (forall x, y :: 0 <= x < y < |dst| ==> dst[x] != dst[y])
    && (forall k, m :: 0 <= k < |h| && 0 <= m < |dst| ==> LinkWhenEntering(h, e, dst, i, s, k, m))
    && (forall k :: s <= k < |h| ==> Read(h[k], e, Lap(dst)[i + 1]))
  }

  /** The `next` link of the `m`-th element after `k` of the stores. */
  ghost predicate LinkWhenEntering(h: seq<Links>, e: Off, dst: seq<Off>, i: nat, s: nat, k: int, m: int) {
    && 0 <= k < |h| && 0 <= m < |dst|
    && Read(h[k], dst[m], if m == i && k >= s then e else Lap(dst)[m + 1])
  }

  lemma MoveEnters(h: seq<Links>, src: seq<Off>, j: nat, dst: seq<Off>, i: nat)
    requires Moving(h, src, j, dst, i)
    ensures Entering(h, src[j], dst, i, 7)
  {
    assert src[j] in src;
    forall k, m | 0 <= k < 9 && 0 <= m < |dst|
      ensures LinkWhenEntering(h, src[j], dst, i, 7, k, m)
    {
      GrowingNext(h, src, j, dst, i, k, m);
    }
    forall k | 7 <= k < 9
      ensures Read(h[k], src[j], Lap(dst)[i + 1])
    {
      EntryNext(h, src, j, dst, i, k);
    }
  }

  /** An entry of new memory is initialised and linked in. */
  ghost predicate EnteringNew(h: seq<Links>, e: Off, dst: seq<Off>, i: nat) {
    && |h| == 7 && IsCycle(h[0], dst) && i < |dst| && e !in dst && dst[i] in h[0].next
    && IsHistory(h, [NextStore(e, e), PrevStore(e, e)] + AddStores(e, dst[i], h[0].next[dst[i]]))
  }

  lemma NewUnrolled(h: seq<Links>, s: seq<Store>)
    requires |s| == 6 && IsHistory(h, s)
    ensures h[1] == Apply(h[0], s[0]) && h[2] == Apply(h[1], s[1]) && h[3] == Apply(h[2], s[2])
    ensures h[4] == Apply(h[3], s[3]) && h[5] == Apply(h[4], s[4]) && h[6] == Apply(h[5], s[5])
  {
    assert s[0] == s[0] && s[1] == s[1] && s[2] == s[2] && s[3] == s[3] && s[4] == s[4] && s[5] == s[5];
  }

  lemma NewEnters(h: seq<Links>, e: Off, dst: seq<Off>, i: nat)
    requires EnteringNew(h, e, dst, i)
    ensures Entering(h, e, dst, i, 5) && h[6] == AddAfter(InitEntry(h[0], e), e, dst[i])
  {
    NewUnrolled(h, [NextStore(e, e), PrevStore(e, e)] + AddStores(e, dst[i], h[0].next[dst[i]]));
    LapNext(h[0], dst, i);
    forall k, m | 0 <= k < 7 && 0 <= m < |dst|
      ensures LinkWhenEntering(h, e, dst, i, 5, k, m)
    {
      LapNext(h[0], dst, m);
      assert dst[m] in dst && (m != i ==> dst[m] != dst[i]);
    }
  }

  lemma GrowingStep(h: seq<Links>, e: Off, dst: seq<Off>, i: nat, s: nat, w: seq<Off>, t: seq<nat>, m: nat)
    requires Entering(h, e, dst, i, s) && Walk(h, dst[0], w, t) && m < |t| && Follows(w, m, Lap(dst))
    ensures Follows(w, m + 1, Lap(dst)) || (m == i && t[i] >= s && Follows(w, m + 1, Lap(Insert(dst, i + 1, e))))
  {
    assert t[m] < |h| && Read(h[t[m]], w[m], w[m + 1]);
    assert w[m] == Lap(dst)[m];
    assert LinkWhenEntering(h, e, dst, i, s, t[m], m);
  }

  lemma GrownStep(h: seq<Links>, e: Off, dst: seq<Off>, i: nat, s: nat, w: seq<Off>, t: seq<nat>, m: nat)
    requires Entering(h, e, dst, i, s) && Walk(h, dst[0], w, t) && i < m < |t| && t[i] >= s
    requires Follows(w, m, Lap(Insert(dst, i + 1, e)))
    ensures Follows(w, m + 1, Lap(Insert(dst, i + 1, e)))
  {
    assert t[m] < |h| && Read(h[t[m]], w[m], w[m + 1]);
    assert t[i] <= t[m];
    assert w[m] == Lap(Insert(dst, i + 1, e))[m];
    if m == i + 1 {
      assert Read(h[t[m]], e, Lap(dst)[i + 1]);
    } else {
      assert LinkWhenEntering(h, e, dst, i, s, t[m], m - 1);
    }
  }

  lemma {:induction false} GrowingWalk(h: seq<Links>, e: Off, dst: seq<Off>, i: nat, s: nat,
                                       w: seq<Off>, t: seq<nat>, n: nat)
    requires Entering(h, e, dst, i, s) && Walk(h, dst[0], w, t) && n <= |t|
    ensures Follows(w, n, Lap(dst)) || (n > i && t[i] >= s && Follows(w, n, Lap(Insert(dst, i + 1, e))))
  {
    if n > 0 {
      var m := n - 1;
      GrowingWalk(h, e, dst, i, s, w, t, m);
      if Follows(w, m, Lap(dst)) {
        GrowingStep(h, e, dst, i, s, w, t, m);
      } else {
        GrownStep(h, e, dst, i, s, w, t, m);
      }
    }
  }

  lemma LapEnds(w: seq<Off>, c: seq<Off>)
    requires |c| > 0 && |w| > 0 && Follows(w, |w| - 1, Lap(c)) && forall x, y :: 0 <= x < y < |c| ==> c[x] != c[y]
    ensures w <= Lap(c) && (Returned(w) <==> w == Lap(c))
  {
    assert 1 < |w| <= |c| ==> c[0] != c[|w| - 1];
  }

  lemma EnteringSeenWhole(h: seq<Links>, e: Off, dst: seq<Off>, i: nat, s: nat, w: seq<Off>, t: seq<nat>)
    requires Entering(h, e, dst, i, s) && Walk(h, dst[0], w, t)
    ensures w <= Lap(dst) || w <= Lap(Insert(dst, i + 1, e))
    ensures Returned(w) <==> w == Lap(dst) || w == Lap(Insert(dst, i + 1, e))
  {
    var grown := Insert(dst, i + 1, e);
    GrowingWalk(h, e, dst, i, s, w, t, |t|);
    if Follows(w, |t|, Lap(dst)) {
      LapEnds(w, dst);
    } else {
      LapEnds(w, grown);
    }
    assert Lap(dst)[|dst|] == dst[0] && Lap(grown)[|dst| + 1] == dst[0];
  }

  /**
   While an entry of the free list is linked in, every walk along the list, however its reads fall
   between the stores, goes along the list without the entry or the list with it; it has come back
   to the root exactly if it has been along the whole of one of them.
   */
  lemma AddSeenWhole(h: seq<Links>, src: seq<Off>, j: nat, dst: seq<Off>, i: nat, w: seq<Off>, t: seq<nat>)
    requires Moving(h, src, j, dst, i) && Walk(h, dst[0], w, t)
    ensures w <= Lap(dst) || w <= Lap(Insert(dst, i + 1, src[j]))
    ensures Returned(w) <==> w == Lap(dst) || w == Lap(Insert(dst, i + 1, src[j]))
  {
    MoveEnters(h, src, j, dst, i);
    EnteringSeenWhole(h, src[j], dst, i, 7, w, t);
  }

  /** So it is while an entry of new memory is linked in. */
  lemma AddNewSeenWhole(h: seq<Links>, e: Off, dst: seq<Off>, i: nat, w: seq<Off>, t: seq<nat>)
    requires EnteringNew(h, e, dst, i) && Walk(h, dst[0], w, t)
    ensures w <= Lap(dst) || w <= Lap(Insert(dst, i + 1, e))
    ensures Returned(w) <==> w == Lap(dst) || w == Lap(Insert(dst, i + 1, e))
  {
    NewEnters(h, e, dst, i);
    EnteringSeenWhole(h, e, dst, i, 5, w, t);
  }

  // ---------------------------------------------------- the list that shrinks

  lemma ShrinkingNext(h: seq<Links>, src: seq<Off>, j: nat, dst: seq<Off>, i: nat, k: nat, m: nat)
    requires Moving(h, src, j, dst, i) && k < 9 && m < |src| && m != j
    ensures src[m] in h[k].next
    ensures h[k].next[src[m]] == Lap(src)[if m == j - 1 && k >= 1 then j + 1 else m + 1]
  {
    LapNext(h[0], src, m);
    LapNext(h[0], src, j);
    MoveLinks(h, src, j, dst, i, k, src[m]);
    InCycle(h[0], src, j);
    assert src[m] in src && dst[i] in dst;
    assert m != j - 1 ==> src[m] != src[j - 1];
  }

  /** Some read of the entry's link is done when the entry has been linked to itself. */
  ghost predicate Caught(w: seq<Off>, t: seq<nat>, e: Off) {
    exists m :: CaughtAt(w, t, e, m)
  }

  predicate CaughtAt(w: seq<Off>, t: seq<nat>, e: Off, m: int) {
    0 <= m < |t| && m < |w| && w[m] == e && t[m] >= 3
  }

  lemma ShrinkingStep(h: seq<Links>, src: seq<Off>, j: nat, dst: seq<Off>, i: nat, w: seq<Off>, t: seq<nat>, m: nat)
    requires Moving(h, src, j, dst, i) && Walk(h, src[0], w, t) && m < |t| && !Caught(w, t, src[j])
    requires Follows(w, m, Lap(src))
    ensures Follows(w, m + 1, Lap(src)) || (m + 1 >= j && Follows(w, m + 1, Lap(Remove(src, j))))
  {
    assert t[m] < 9 && Read(h[t[m]], w[m], w[m + 1]) && !CaughtAt(w, t, src[j], m);
    assert w[m] == Lap(src)[m];
    if m == j {
      EntryNext(h, src, j, dst, i, t[m]);
    } else {
      ShrinkingNext(h, src, j, dst, i, t[m], m);
    }
  }

  lemma ShrunkStep(h: seq<Links>, src: seq<Off>, j: nat, dst: seq<Off>, i: nat, w: seq<Off>, t: seq<nat>, m: nat)
    requires Moving(h, src, j, dst, i) && Walk(h, src[0], w, t) && j <= m < |t|
    requires Follows(w, m, Lap(Remove(src, j)))
    ensures Follows(w, m + 1, Lap(Remove(src, j)))
  {
    assert t[m] < 9 && Read(h[t[m]], w[m], w[m + 1]);
    assert w[m] == Lap(Remove(src, j))[m];
    ShrinkingNext(h, src, j, dst, i, t[m], m + 1);
  }

  lemma {:induction false} ShrinkingWalk(h: seq<Links>, src: seq<Off>, j: nat, dst: seq<Off>, i: nat,
                                         w: seq<Off>, t: seq<nat>, n: nat)
    requires Moving(h, src, j, dst, i) && Walk(h, src[0], w, t) && n <= |t| && !Caught(w, t, src[j])
    ensures Follows(w, n, Lap(src)) || (n >= j && Follows(w, n, Lap(Remove(src, j))))
  {
    if n > 0 {
      var m := n - 1;
      ShrinkingWalk(h, src, j, dst, i, w, t, m);
      if Follows(w, m, Lap(src)) {
        ShrinkingStep(h, src, j, dst, i, w, t, m);
      } else {
        ShrunkStep(h, src, j, dst, i, w, t, m);
      }
    }
  }

  /** Where a walk is that has been caught: on the entry, or on the list the entry has gone to. */
  predicate Astray(src: seq<Off>, j: nat, dst: seq<Off>, x: Off)
    requires j < |src|
  {
    x == src[j] || x in dst
  }

  lemma AstrayStep(h: seq<Links>, src: seq<Off>, j: nat, dst: seq<Off>, i: nat, k: nat, x: Off)
    requires Moving(h, src, j, dst, i) && 3 <= k < 9 && Astray(src, j, dst, x)
    ensures x in h[k].next && Astray(src, j, dst, h[k].next[x])
  {
    if x == src[j] {
      EntryNext(h, src, j, dst, i, k);
    } else {
      var m :| 0 <= m < |dst| && dst[m] == x;
      GrowingNext(h, src, j, dst, i, k, m);
    }
  }

  /** A walk that has been caught stays on the entry and on the list the entry has gone to. */
  lemma {:induction false} CaughtStays(h: seq<Links>, src: seq<Off>, j: nat, dst: seq<Off>, i: nat,
                                       w: seq<Off>, t: seq<nat>, m: nat, n: nat)
    requires Moving(h, src, j, dst, i) && Walk(h, src[0], w, t) && CaughtAt(w, t, src[j], m) && m <= n <= |t|
    ensures Astray(src, j, dst, w[n])
  {
    if n > m {
      CaughtStays(h, src, j, dst, i, w, t, m, n - 1);
      assert t[n - 1] < 9 && Read(h[t[n - 1]], w[n - 1], w[n - 1 + 1]);
      assert t[m] <= t[n - 1];
      AstrayStep(h, src, j, dst, i, t[n - 1], w[n - 1]);
    }
  }

  lemma CaughtNeverReturns(h: seq<Links>, src: seq<Off>, j: nat, dst: seq<Off>, i: nat, w: seq<Off>, t: seq<nat>)
    requires Moving(h, src, j, dst, i) && Walk(h, src[0], w, t) && Caught(w, t, src[j])
    ensures Astray(src, j, dst, w[|t|]) && !Returned(w)
  {
    var m :| CaughtAt(w, t, src[j], m);
    CaughtStays(h, src, j, dst, i, w, t, m, |t|);
    assert src[0] in src;
  }

  /** A walk that is not caught goes along the list with the entry or the list without it. */
  lemma FreeSeesWhole(h: seq<Links>, src: seq<Off>, j: nat, dst: seq<Off>, i: nat, w: seq<Off>, t: seq<nat>)
    requires Moving(h, src, j, dst, i) && Walk(h, src[0], w, t) && !Caught(w, t, src[j])
    ensures w <= Lap(src) || w <= Lap(Remove(src, j))
    ensures Returned(w) <==> w == Lap(src) || w == Lap(Remove(src, j))
  {
    var rest := Remove(src, j);
    ShrinkingWalk(h, src, j, dst, i, w, t, |t|);
    if Follows(w, |t|, Lap(src)) {
      LapEnds(w, src);
    } else {
      LapEnds(w, rest);
    }
    assert Lap(src)[|src|] == src[0] && Lap(rest)[|src| - 1] == src[0];
  }

  /**
   While an entry is unlinked and put on another list, a walk that has done as many reads as the list
   is long is back at the root, if and only if it does not stand on the entry when the entry is
   linked to itself.
   */
  lemma WalkReturnsIff(h: seq<Links>, src: seq<Off>, j: nat, dst: seq<Off>, i: nat, w: seq<Off>, t: seq<nat>)
    requires Moving(h, src, j, dst, i) && Walk(h, src[0], w, t) && (Returned(w) || |t| >= |src|)
    ensures Returned(w) <==> !Caught(w, t, src[j])
  {
    if Caught(w, t, src[j]) {
      CaughtNeverReturns(h, src, j, dst, i, w, t);
    } else {
      FreeSeesWhole(h, src, j, dst, i, w, t);
    }
  }

  // ------------------------------------------------------------ walks there are

  lemma OnLists(h: seq<Links>, src: seq<Off>, j: nat, dst: seq<Off>, i: nat, k: nat, x: Off)
    requires Moving(h, src, j, dst, i) && k < 9 && (x in src || x in dst)
    ensures x in h[k].next
  {
    if x in src {
      var m :| 0 <= m < |src| && src[m] == x;
      InCycle(h[0], src, m);
    } else {
      var m :| 0 <= m < |dst| && dst[m] == x;
      InCycle(h[0], dst, m);
    }
    MoveLinks(h, src, j, dst, i, k, x);
  }

  /** At every moment there is a link to read next. */
  lemma WalkGoesOn(h: seq<Links>, src: seq<Off>, j: nat, dst: seq<Off>, i: nat, w: seq<Off>, t: seq<nat>, k: nat)
    requires Moving(h, src, j, dst, i) && Walk(h, src[0], w, t) && k < 9
    ensures w[|t|] in h[k].next
  {
    if Caught(w, t, src[j]) {
      CaughtNeverReturns(h, src, j, dst, i, w, t);
    } else {
      FreeSeesWhole(h, src, j, dst, i, w, t);
      assert w[|t|] in Lap(src) || w[|t|] in Lap(Remove(src, j));
    }
    OnLists(h, src, j, dst, i, k, w[|t|]);
  }

  lemma ReadOn(h: seq<Links>, root: Off, w: seq<Off>, t: seq<nat>, k: nat)
    requires Walk(h, root, w, t) && !Returned(w) && k < |h| && (forall m :: 0 <= m < |t| ==> t[m] <= k)
    requires w[|t|] in h[k].next
    ensures Walk(h, root, w + [h[k].next[w[|t|]]], t + [k])
  {
  }

  /** A walk as far as the entry, before the first of the stores. */
  lemma {:induction false} WalkTo(h: seq<Links>, src: seq<Off>, j: nat, dst: seq<Off>, i: nat, n: nat)
    returns (w: seq<Off>, t: seq<nat>)
    requires Moving(h, src, j, dst, i) && n <= j
    ensures Walk(h, src[0], w, t) && w == src[..n + 1] && |t| == n && forall m :: 0 <= m < n ==> t[m] == 0
  {
    if n == 0 {
      w, t := [src[0]], [];
    } else {
      w, t := WalkTo(h, src, j, dst, i, n - 1);
      InCycle(h[0], src, n - 1);
      assert !Returned(w);
      ReadOn(h, src[0], w, t, 0);
      w, t := w + [src[n]], t + [0];
    }
  }

  /** A walk that stands on the entry when the entry is linked to itself goes on for ever. */
  lemma {:induction false} CaughtForever(h: seq<Links>, src: seq<Off>, j: nat, dst: seq<Off>, i: nat, n: nat)
    returns (w: seq<Off>, t: seq<nat>)
    requires Moving(h, src, j, dst, i)
    ensures Walk(h, src[0], w, t) && |t| == j + 1 + n && Caught(w, t, src[j]) && !Returned(w)
  {
    if n == 0 {
      w, t := WalkTo(h, src, j, dst, i, j);
      assert src[0] != src[j] && !Returned(w);
      EntryNext(h, src, j, dst, i, 3);
      ReadOn(h, src[0], w, t, 3);
      w, t := w + [src[j]], t + [3];
      assert CaughtAt(w, t, src[j], j);
    } else {
      w, t := CaughtForever(h, src, j, dst, i, n - 1);
      WalkGoesOn(h, src, j, dst, i, w, t, 8);
      ReadOn(h, src[0], w, t, 8);
      var m :| CaughtAt(w, t, src[j], m);
      w, t := w + [h[8].next[w[|t|]]], t + [8];
      assert CaughtAt(w, t, src[j], m);
    }
    CaughtNeverReturns(h, src, j, dst, i, w, t);
  }
}
