/**
 The circular doubly linked lists of the HAL (src/hal/hal_lib.c, `list_add_after` and
 `list_remove_entry`; src/hal/hal_priv.h, `hal_list_t`).  Links are offsets into shared
 memory; each list has a root element that carries no data.
 */
module CircularList {
  import opened Lists
  import opened Names

  type Off = nat

  /** The `next` and `prev` fields of every list element in shared memory. */
  datatype Links = Links(next: map<Off, Off>, prev: map<Off, Off>)

  function InitEntry(l: Links, e: Off): Links {
    Links(l.next[e := e], l.prev[e := e])
  }

  /** `list_add_after`: four link stores, in this order. */
  function AddAfter(l: Links, e: Off, p: Off): Links
    requires p in l.next
  {
    var n := l.next[p];
    Links(l.next[e := n][p := e], l.prev[e := p][n := e])
  }

  /** `list_remove_entry`: the entry is left linked to itself. */
  function RemoveEntry(l: Links, e: Off): Links
    requires e in l.next && e in l.prev
  {
    var p, n := l.prev[e], l.next[e];
    Links(l.next[p := n][e := e], l.prev[n := p][e := e])
  }

  /** `b` follows `a`: linked forwards and backwards. */
  predicate Linked(l: Links, a: Off, b: Off) {
    a in l.next && b in l.prev && l.next[a] == b && l.prev[b] == a
  }

  /** Index `j` comes after index `i` on a circle of `n` places. */
  predicate Adjacent(i: int, j: int, n: nat) {
    0 <= i < n && 0 <= j < n && (j == i + 1 || (i == n - 1 && j == 0))
  }

  /** The elements of `c`, all different, are linked in a circle in this order. */
  ghost predicate IsCycle(l: Links, c: seq<Off>) {
    && |c| > 0
    && (forall i, j :: 0 <= i < j < |c| ==> c[i] != c[j])
    && (forall i, j :: Adjacent(i, j, |c|) ==> Linked(l, c[i], c[j]))
  }

  lemma AddAfterCycle(l: Links, c: seq<Off>, i: nat, e: Off)
    requires IsCycle(l, c) && i < |c| && e !in c && c[i] in l.next
    ensures IsCycle(AddAfter(l, e, c[i]), Insert(c, i + 1, e))
  {
    var l', c', n := AddAfter(l, e, c[i]), Insert(c, i + 1, e), |c|;
    assert Adjacent(i, if i + 1 < n then i + 1 else 0, n);
    forall k, m | Adjacent(k, m, n + 1)
      ensures Linked(l', c'[k], c'[m])
    {
      if k != i && k != i + 1 {
        var k', m' := if k < i then k else k - 1, if m <= i then m else m - 1;
        assert Adjacent(k', m', n);
        assert c'[k] == c[k'] && c'[m] == c[m'];
      }
    }
  }

  lemma RemoveEntryCycle(l: Links, c: seq<Off>, i: nat)
    requires IsCycle(l, c) && 0 < i < |c| && c[i] in l.next && c[i] in l.prev
    ensures IsCycle(RemoveEntry(l, c[i]), Remove(c, i))
  {
    var l', c', n := RemoveEntry(l, c[i]), Remove(c, i), |c|;
    assert Adjacent(i - 1, i, n);
    assert Adjacent(i, if i + 1 < n then i + 1 else 0, n);
    forall k, m | Adjacent(k, m, n - 1)
      ensures Linked(l', c'[k], c'[m])
    {
      if k != i - 1 {
        var k', m' := if k < i then k else k + 1, if m < i then m else m + 1;
        assert Adjacent(k', m', n);
        assert c'[k] == c[k'] && c'[m] == c[m'];
      }
    }
  }

  lemma InCycle(l: Links, c: seq<Off>, i: nat)
    requires IsCycle(l, c) && i < |c|
    ensures c[i] in l.next && c[i] in l.prev
    ensures l.next[c[i]] == c[if i + 1 < |c| then i + 1 else 0]
    ensures l.prev[c[i]] == c[if i > 0 then i - 1 else |c| - 1]
  {
    assert Adjacent(i, if i + 1 < |c| then i + 1 else 0, |c|);
    assert Adjacent(if i > 0 then i - 1 else |c| - 1, i, |c|);
  }

  // ------------------------------------------------ several lists side by side

  /** The elements of the list with this root, the root first. */
  function Cycle(root: Off, entries: seq<Off>): seq<Off> { [root] + entries }

  /** Every root heads a well-formed list and no element is on two of them. */
  ghost predicate WellFormed(l: Links, lists: map<Off, seq<Off>>) {
    && (forall r :: r in lists ==> IsCycle(l, Cycle(r, lists[r])))
    && (forall r, r' :: r in lists && r' in lists && r != r' ==> Apart(Cycle(r, lists[r]), Cycle(r', lists[r'])))
  }

  ghost predicate Apart(c: seq<Off>, d: seq<Off>) {
    forall x :: x in c ==> x !in d
  }

  /** On none of the lists. */
  ghost predicate Loose(lists: map<Off, seq<Off>>, e: Off) {
    forall r :: r in lists ==> e !in Cycle(r, lists[r])
  }

  lemma AddAfterFrame(l: Links, c: seq<Off>, i: nat, e: Off, d: seq<Off>)
    requires IsCycle(l, c) && IsCycle(l, d) && i < |c| && e !in d && Apart(c, d) && c[i] in l.next
    ensures IsCycle(AddAfter(l, e, c[i]), d)
  {
    InCycle(l, c, i);
    assert c[i] !in d && l.next[c[i]] !in d;
    forall k, m | Adjacent(k, m, |d|)
      ensures Linked(AddAfter(l, e, c[i]), d[k], d[m])
    {
      assert Linked(l, d[k], d[m]) && d[k] in d && d[m] in d;
    }
  }

  lemma RemoveEntryFrame(l: Links, c: seq<Off>, i: nat, d: seq<Off>)
    requires IsCycle(l, c) && IsCycle(l, d) && 0 < i < |c| && Apart(c, d) && c[i] in l.next && c[i] in l.prev
    ensures IsCycle(RemoveEntry(l, c[i]), d)
  {
    InCycle(l, c, i);
    assert c[i] !in d && l.next[c[i]] !in d && l.prev[c[i]] !in d;
    forall k, m | Adjacent(k, m, |d|)
      ensures Linked(RemoveEntry(l, c[i]), d[k], d[m])
    {
      assert Linked(l, d[k], d[m]) && d[k] in d && d[m] in d;
    }
  }

  /** Initialising an element that is on no list disturbs none. */
  lemma InitKeepsWellFormed(l: Links, lists: map<Off, seq<Off>>, e: Off)
    requires WellFormed(l, lists) && Loose(lists, e)
    ensures WellFormed(InitEntry(l, e), lists)
  {
    forall r | r in lists
      ensures IsCycle(InitEntry(l, e), Cycle(r, lists[r]))
    {
      var c := Cycle(r, lists[r]);
      forall k, m | Adjacent(k, m, |c|)
        ensures Linked(InitEntry(l, e), c[k], c[m])
      {
        assert Linked(l, c[k], c[m]) && c[k] in c && c[m] in c;
      }
    }
  }

  /** A fresh root starts an empty list of its own. */
  lemma NewListWellFormed(l: Links, lists: map<Off, seq<Off>>, e: Off)
    requires WellFormed(l, lists) && Loose(lists, e)
    ensures e !in lists
    ensures WellFormed(InitEntry(l, e), lists[e := []])
  {
    assert e in lists ==> e in Cycle(e, lists[e]);
    InitKeepsWellFormed(l, lists, e);
    assert IsCycle(InitEntry(l, e), [e]);
  }

  /** Adding a loose element to one list refines sequence insertion and leaves the others alone. */
  lemma AddKeepsWellFormed(l: Links, lists: map<Off, seq<Off>>, r: Off, i: nat, e: Off)
    requires WellFormed(l, lists) && r in lists && i <= |lists[r]| && Loose(lists, e)
    ensures Cycle(r, lists[r])[i] in l.next
    ensures WellFormed(AddAfter(l, e, Cycle(r, lists[r])[i]), lists[r := Insert(lists[r], i, e)])
  {
    var c := Cycle(r, lists[r]);
    InCycle(l, c, i);
    var l', lists' := AddAfter(l, e, c[i]), lists[r := Insert(lists[r], i, e)];
    AddAfterCycle(l, c, i, e);
    assert Cycle(r, lists'[r]) == Insert(c, i + 1, e);
    forall q | q in lists' && q != r
      ensures IsCycle(l', Cycle(q, lists'[q])) && Apart(Cycle(r, lists'[r]), Cycle(q, lists'[q]))
              && Apart(Cycle(q, lists'[q]), Cycle(r, lists'[r]))
    {
      var d := Cycle(q, lists[q]);
      assert Apart(c, d);
      AddAfterFrame(l, c, i, e, d);
      assert forall x :: x in Insert(c, i + 1, e) <==> x in c || x == e;
    }
  }

  lemma RemoveMembers(c: seq<Off>, i: nat)
    requires i < |c| && forall j, k :: 0 <= j < k < |c| ==> c[j] != c[k]
    ensures forall x :: x in Remove(c, i) <==> x in c && x != c[i]
  {
    forall x | x in c && x != c[i]
      ensures x in Remove(c, i)
    {
      var k :| 0 <= k < |c| && c[k] == x;
      assert Remove(c, i)[if k < i then k else k - 1] == x;
    }
  }

  /** Removing an element from its list refines sequence removal and leaves it loose. */
  lemma RemoveKeepsWellFormed(l: Links, lists: map<Off, seq<Off>>, r: Off, i: nat)
    requires WellFormed(l, lists) && r in lists && i < |lists[r]|
    ensures lists[r][i] in l.next && lists[r][i] in l.prev
    ensures var l', lists' := RemoveEntry(l, lists[r][i]), lists[r := Remove(lists[r], i)];
            WellFormed(l', lists') && Loose(lists', lists[r][i])
            && l'.next[lists[r][i]] == lists[r][i]
  {
    var c := Cycle(r, lists[r]);
    InCycle(l, c, i + 1);
    assert c[i + 1] == lists[r][i];
    var l', lists' := RemoveEntry(l, c[i + 1]), lists[r := Remove(lists[r], i)];
    RemoveEntryCycle(l, c, i + 1);
    assert Cycle(r, lists'[r]) == Remove(c, i + 1);
    RemoveMembers(c, i + 1);
    forall q | q in lists' && q != r
      ensures IsCycle(l', Cycle(q, lists'[q])) && Apart(Cycle(r, lists'[r]), Cycle(q, lists'[q]))
              && Apart(Cycle(q, lists'[q]), Cycle(r, lists'[r])) && c[i + 1] !in Cycle(q, lists'[q])
    {
      var d := Cycle(q, lists[q]);
      assert Apart(c, d);
      RemoveEntryFrame(l, c, i + 1, d);
    }
  }

  /** Entries of one list are all different and on no other list. */
  lemma EntriesApart(l: Links, lists: map<Off, seq<Off>>, r: Off)
    requires WellFormed(l, lists) && r in lists
    ensures forall i, j :: 0 <= i < j < |lists[r]| ==> lists[r][i] != lists[r][j]
    ensures forall q, e :: q in lists && q != r && e in lists[r] ==> e !in lists[q]
  {
    var c := Cycle(r, lists[r]);
    assert IsCycle(l, c);
    forall i, j | 0 <= i < j < |lists[r]|
      ensures lists[r][i] != lists[r][j]
    {
      assert lists[r][i] == c[i + 1] && lists[r][j] == c[j + 1];
    }
    forall q, e | q in lists && q != r && e in lists[r]
      ensures e !in lists[q]
    {
      assert Apart(c, Cycle(q, lists[q])) && e in c;
    }
  }

  /** Unlinking an entry and pushing it on another list. */
  lemma MoveKeepsWellFormed(l: Links, lists: map<Off, seq<Off>>, r: Off, k: nat, to: Off)
    requires WellFormed(l, lists) && r in lists && to in lists && r != to && k < |lists[r]|
    ensures lists[r][k] in l.next && lists[r][k] in l.prev
    ensures to in RemoveEntry(l, lists[r][k]).next
    ensures WellFormed(AddAfter(RemoveEntry(l, lists[r][k]), lists[r][k], to),
                       lists[r := Remove(lists[r], k)][to := Insert(lists[to], 0, lists[r][k])])
  {
    RemoveKeepsWellFormed(l, lists, r, k);
    AddKeepsWellFormed(RemoveEntry(l, lists[r][k]), lists[r := Remove(lists[r], k)], to, 0, lists[r][k]);
  }
}
