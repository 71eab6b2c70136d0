/**
 Threads, functions and function entries as they sit in shared memory
 (src/hal/hal_lib.c): each thread has a circular doubly linked list of entries, freed
 entries go to a free list of the same kind.  Every method is proved against the
 operation of the same name on values.
 */
module HalThreads {
  import opened Lists
  import opened Names
  import opened CircularList
  import opened Machine
  import opened Priority
  import opened Periods
  import Sched
  import opened SchedProofs

  type FunctId = Sched.FunctId

  /** A thread structure; `root` is the offset of its `funct_list` element. */
  datatype ThreadRec = ThreadRec(name: string, usesFp: bool, period: int, priority: int, root: Off)

  /** The functions the entries point to. */
  function CallsOf(target: map<Off, FunctId>, entries: seq<Off>): (calls: seq<FunctId>)
    requires forall e :: e in entries ==> e in target
    ensures |calls| == |entries| && forall i :: 0 <= i < |calls| ==> calls[i] == target[entries[i]]
  {
    seq(|entries|, i requires 0 <= i < |entries| => target[entries[i]])
  }

  ghost predicate RootsOk(threads: seq<ThreadRec>, freeRoot: Off, lists: map<Off, seq<Off>>) {
    && freeRoot in lists
    && (forall i :: 0 <= i < |threads| ==> threads[i].root in lists && threads[i].root != freeRoot)
    && (forall i, j :: 0 <= i < j < |threads| ==> threads[i].root != threads[j].root)
  }

  ghost predicate EntriesOk(lists: map<Off, seq<Off>>, target: map<Off, FunctId>) {
    forall r, e :: r in lists && e in lists[r] ==> e in target
  }

  ghost function AbsThreads(threads: seq<ThreadRec>, lists: map<Off, seq<Off>>, target: map<Off, FunctId>): (ts: seq<Sched.Thread>)
    requires forall i :: 0 <= i < |threads| ==> threads[i].root in lists
    requires EntriesOk(lists, target)
    ensures |ts| == |threads|
    ensures forall i :: 0 <= i < |ts| ==> ts[i] == AbsThread(threads[i], lists, target)
  {
    seq(|threads|, i requires 0 <= i < |threads| => AbsThread(threads[i], lists, target))
  }

  ghost function AbsThread(t: ThreadRec, lists: map<Off, seq<Off>>, target: map<Off, FunctId>): (a: Sched.Thread)
    requires t.root in lists && EntriesOk(lists, target)
  {
    Sched.Thread(t.name, t.usesFp, t.period, t.priority, CallsOf(target, lists[t.root]))
  }

  /** Threads whose entries and targets are untouched stand for the same calls. */
  lemma AbsFrame(threads: seq<ThreadRec>, lists: map<Off, seq<Off>>, target: map<Off, FunctId>,
                 lists': map<Off, seq<Off>>, target': map<Off, FunctId>)
    requires forall i :: 0 <= i < |threads| ==> threads[i].root in lists && threads[i].root in lists'
    requires EntriesOk(lists, target) && EntriesOk(lists', target')
    requires forall i :: 0 <= i < |threads| ==> SameCalls(threads[i].root, lists, target, lists', target')
    ensures AbsThreads(threads, lists', target') == AbsThreads(threads, lists, target)
  {
    forall i | 0 <= i < |threads|
      ensures AbsThread(threads[i], lists', target') == AbsThread(threads[i], lists, target)
    {
      assert SameCalls(threads[i].root, lists, target, lists', target');
      assert CallsOf(target', lists'[threads[i].root]) == CallsOf(target, lists[threads[i].root]);
    }
  }

  ghost predicate SameCalls(r: Off, lists: map<Off, seq<Off>>, target: map<Off, FunctId>,
                            lists': map<Off, seq<Off>>, target': map<Off, FunctId>)
    requires r in lists && r in lists'
  {
    lists'[r] == lists[r] && forall e :: e in lists[r] && e in target && e in target' ==> target'[e] == target[e]
  }

  /** The insertion walk of `hal_export_funct`, which stops at an equal or a greater name. */
  method FindFunctPlace(order: seq<FunctId>, functs: map<FunctId, Sched.Funct>, name: string) returns (j: nat, taken: bool)
    requires (forall f :: f in order ==> f in functs) && Sorted(Sched.NamesOf(order, functs))
    ensures taken <==> name in Sched.NamesOf(order, functs)
    ensures j <= |order| && (!taken ==> j == Place(Sched.NamesOf(order, functs), name))
  {
    ghost var names := Sched.NamesOf(order, functs);
    j, taken := 0, false;
    while j < |order|
      invariant j <= |order| && forall i :: 0 <= i < j ==> names[i] != name && AtMost(names[i], name)
    {
      var other := functs[order[j]].name;
      if Less(name, other) {
        break;
      }
      if other == name {
        assert names[j] == name;
        return j, true;
      }
      j := j + 1;
    }
    PlaceIs(names, name, j);
    forall i | 0 <= i < |names| && names[i] == name {
      OccursBeforePlace(names, name, i);
    }
  }

  /** `(period_nsec + base_period / 2) / base_period`, kept in an `int`, times `base_period`. */
  method ComputePeriod(period: U64, base: S64) returns (p: S64)
    requires base != 0
    ensures p == RoundPeriod(period, base)
  {
    QuotientRange(period, base);
    var q := ToULong(period + ToULong(Half(base))) / ToULong(base);
    var n := ToInt(q);
    p := ToLong(base * n);
  }

  /** The walk from the start of a list; it fails when it comes back to the root. */
  method WalkForward(l: Links, root: Off, position: int, ghost c: seq<Off>) returns (ok: bool, at: Off)
    requires IsCycle(l, c) && c[0] == root && position > 0
    ensures ok <==> position <= |c|
    ensures ok ==> at == c[position - 1]
  {
    at := root;
    var n := 1;
    while n < position
      invariant 1 <= n <= position && n <= |c| && at == c[n - 1]
    {
      InCycle(l, c, n - 1);
      at := l.next[at];
      if at == root {
        assert n == |c|;
        return false, at;
      }
      n := n + 1;
    }
    return true, at;
  }

  /** The walk from the end of a list. */
  method WalkBack(l: Links, root: Off, position: int, ghost c: seq<Off>) returns (ok: bool, at: Off)
    requires IsCycle(l, c) && c[0] == root && position < 0
    ensures ok <==> -position <= |c|
    ensures ok ==> at == c[|c| + position]
  {
    at := root;
    var n := -1;
    while n > position
      invariant position <= n <= -1 && -n <= |c| && at == c[if n == -1 then 0 else |c| + n + 1]
      decreases n - position
    {
      InCycle(l, c, if n == -1 then 0 else |c| + n + 1);
      at := l.prev[at];
      assert at == c[|c| + n];
      if at == root {
        assert |c| + n == 0;
        return false, at;
      }
      n := n - 1;
    }
    InCycle(l, c, if n == -1 then 0 else |c| + n + 1);
    at := l.prev[at];
    return true, at;
  }

  class Threads {
    var order: seq<FunctId>
    var functs: map<FunctId, Sched.Funct>
    var threads: seq<ThreadRec>
    var basePeriod: S64
    var exactBase: bool
    var locked: bool
    var links: Links
    var target: map<Off, FunctId>
    const freeRoot: Off
    /** The entries of every list, in list order. */
    ghost var lists: map<Off, seq<Off>>

    ghost predicate Valid()
      reads this
    {
      WellFormed(links, lists) && RootsOk(threads, freeRoot, lists) && EntriesOk(lists, target)
    }

    /** The state on values that this memory stands for. */
    ghost function Abs(): (s: Sched.State)
      requires Valid()
      reads this
    {
      Sched.State(order, functs, AbsThreads(threads, lists, target), basePeriod, exactBase, locked)
    }

    constructor (freeRoot: Off)
      ensures Valid() && Abs() == Sched.EMPTY
    {
      this.freeRoot := freeRoot;
      order, functs, threads, basePeriod, exactBase, locked := [], map[], [], 0, false, false;
      links := Links(map[freeRoot := freeRoot], map[freeRoot := freeRoot]);
      target := map[];
      lists := map[freeRoot := []];
    }

    method FindFunctByName(name: string) returns (f: FunctId)
      requires Valid() && Sched.Listed(Abs())
      ensures f == Sched.FindFunct(Abs(), order, name)
    {
      var i := 0;
      assert order[0..] == order;
      while i < |order|
        invariant i <= |order|
        invariant Sched.FindFunct(Abs(), order[i..], name) == Sched.FindFunct(Abs(), order, name)
      {
        if functs[order[i]].name == name {
          return order[i];
        }
        i := i + 1;
      }
      return 0;
    }

    method FindThreadByName(name: string) returns (i: nat)
      requires Valid()
      ensures i == Sched.FindThread(Abs().threads, name)
    {
      i := 0;
      while i < |threads|
        invariant i <= |threads| && forall j :: 0 <= j < i ==> threads[j].name != name
      {
        if threads[i].name == name {
          return;
        }
        i := i + 1;
      }
    }

    /** `hal_export_funct` by a component that may export, into the fresh structure `f`. */
    method ExportFunct(f: FunctId, name: string, owner: nat, usesFp: bool, reentrant: bool) returns (r: Sched.Result)
      requires Valid() && Sched.Listed(Abs()) && Sorted(Sched.NamesOf(order, functs)) && f !in functs
      modifies this`order, this`functs
      ensures Valid()
      ensures (Abs(), r) == Sched.ExportFunct(old(Abs()), f, name, owner, usesFp, reentrant)
    {
      if |name| > HAL_NAME_LEN {
        return Sched.Err(Sched.EINVAL);
      }
      if f == 0 {
        return Sched.Err(Sched.ENOMEM);
      }
      var j, taken := FindFunctPlace(order, functs, name);
      if taken {
        return Sched.Err(Sched.EINVAL);
      }
      order := Insert(order, j, f);
      functs := functs[f := Sched.Funct(name, owner, usesFp, reentrant, 0)];
      return Sched.Ok;
    }

    /**
     The walk of `hal_add_funct_to_thread`: the element after which the new entry goes.  It
     fails exactly when the position is outside the list.
     */
    method FindPlace(root: Off, position: int) returns (ok: bool, at: Off)
      requires Valid() && root in lists && position != 0
      ensures ok <==> Sched.PositionOk(position, |lists[root]|)
      ensures ok ==> at == Cycle(root, lists[root])[Sched.PositionIndex(position, |lists[root]|)]
    {
      ghost var c := Cycle(root, lists[root]);
      if position > 0 {
        ok, at := WalkForward(links, root, position, c);
      } else {
        ok, at := WalkBack(links, root, position, c);
      }
    }

    /** `list_add_after`. */
    method ListAddAfter(e: Off, p: Off)
      requires p in links.next
      modifies this`links
      ensures links == AddAfter(old(links), e, p)
    {
      var n := links.next[p];
      links := links.(next := links.next[e := n], prev := links.prev[e := p]);
      links := links.(next := links.next[p := e]);
      links := links.(prev := links.prev[n := e]);
    }

    /** `list_remove_entry`; returns the entry that followed. */
    method ListRemoveEntry(e: Off) returns (after: Off)
      requires e in links.next && e in links.prev
      modifies this`links
      ensures links == RemoveEntry(old(links), e) && after == old(links).next[e]
    {
      var p, n := links.prev[e], links.next[e];
      links := links.(next := links.next[p := n]);
      links := links.(prev := links.prev[n := p]);
      links := links.(next := links.next[e := e], prev := links.prev[e := e]);
      return n;
    }

    /** An entry for a new call: the first free one, or `spare` from fresh memory. */
    method AllocEntry(spare: Off) returns (e: Off)
      requires Valid() && Loose(lists, spare)
      modifies this`links, this`target, this`lists
      ensures Valid() && Loose(lists, e) && e in target
      ensures Abs() == old(Abs())
      ensures lists.Keys == old(lists).Keys && forall r :: r in lists && r != freeRoot ==> lists[r] == old(lists[r])
    {
      InCycle(links, Cycle(freeRoot, lists[freeRoot]), 0);
      var l := links.next[freeRoot];
      if l != freeRoot {
        TakeFreeEntry(l);
        e := l;
      } else {
        e := spare;
        InitKeepsWellFormed(links, lists, e);
        links := InitEntry(links, e);
      }
      ClearTarget(e);
    }

    /** Takes the first entry off the free list. */
    method TakeFreeEntry(e: Off)
      requires Valid() && lists[freeRoot] != [] && e == lists[freeRoot][0]
      modifies this`links, this`lists
      ensures Valid() && Loose(lists, e) && lists == old(lists)[freeRoot := Remove(old(lists)[freeRoot], 0)]
      ensures Abs() == old(Abs())
    {
      RemoveKeepsWellFormed(links, lists, freeRoot, 0);
      InCycle(links, Cycle(freeRoot, lists[freeRoot]), 1);
      var _ := ListRemoveEntry(e);
      lists := lists[freeRoot := Remove(lists[freeRoot], 0)];
      AbsFrame(threads, old(lists), target, lists, target);
    }

    /** An entry that is on no list calls nothing. */
    method ClearTarget(e: Off)
      requires Valid() && Loose(lists, e)
      modifies this`target
      ensures Valid() && e in target && Abs() == old(Abs())
    {
      target := target[e := 0];
      AbsFrame(threads, lists, old(target), lists, target);
    }

    /** Points entry `e` at `f` and adds it to thread `i` after its `p`-th element. */
    method InsertEntry(i: nat, e: Off, f: FunctId, at: Off, ghost p: nat)
      requires Valid() && i < |threads| && Loose(lists, e) && e in target
      requires p <= |lists[threads[i].root]| && at == Cycle(threads[i].root, lists[threads[i].root])[p]
      modifies this`links, this`target, this`lists
      ensures Valid()
      ensures Abs() == Sched.SetCalls(old(Abs()), i, Insert(old(Abs()).threads[i].calls, p, f))
    {
      ghost var r := threads[i].root;
      ghost var entries := lists[r];
      target := target[e := f];
      AddKeepsWellFormed(links, lists, r, p, e);
      ListAddAfter(e, at);
      lists := lists[r := Insert(entries, p, e)];
      assert EntriesOk(lists, target) by {
        InsertMembers(entries, p, e);
      }
      InsertCalls(old(target), entries, p, e, f);
      AbsUpdate(threads, old(lists), old(target), lists, target, i, Insert(CallsOf(old(target), entries), p, f));
    }

    /** The part of `hal_add_funct_to_thread` that cannot fail any more. */
    method PlaceCall(i: nat, f: FunctId, at: Off, ghost p: nat, spare: Off)
      requires Valid() && i < |threads| && f in functs && Loose(lists, spare)
      requires p <= |lists[threads[i].root]| && at == Cycle(threads[i].root, lists[threads[i].root])[p]
      modifies this`links, this`target, this`lists, this`functs
      ensures Valid()
      ensures var s := old(Abs());
              Abs() == Sched.AddUsers(Sched.SetCalls(s, i, Insert(s.threads[i].calls, p, f)), f, 1)
    {
      var e := AllocEntry(spare);
      InsertEntry(i, e, f, at, p);
      functs := functs[f := functs[f].(users := functs[f].users + 1)];
    }

    /** `hal_add_funct_to_thread`. */
    method AddFunctToThread(funct: string, thread: string, position: int, spare: Off) returns (r: Sched.Result)
      requires Valid() && Sched.Listed(Abs()) && Loose(lists, spare)
      modifies this`links, this`target, this`lists, this`functs
      ensures Valid()
      ensures (Abs(), r) == Sched.AddFunctToThread(old(Abs()), funct, thread, position)
    {
      if locked {
        return Sched.Err(Sched.EPERM);
      }
      if position == 0 {
        return Sched.Err(Sched.EINVAL);
      }
      var f := FindFunctByName(funct);
      if f == 0 || (functs[f].users > 0 && !functs[f].reentrant) {
        return Sched.Err(Sched.EINVAL);
      }
      var i := FindThreadByName(thread);
      if i == |threads| || (functs[f].usesFp && !threads[i].usesFp) {
        return Sched.Err(Sched.EINVAL);
      }
      var ok, at := FindPlace(threads[i].root, position);
      if !ok {
        return Sched.Err(Sched.EINVAL);
      }
      PlaceCall(i, f, at, Sched.PositionIndex(position, |lists[threads[i].root]|), spare);
      return Sched.Ok;
    }

    /** Moves the `k`-th entry of one list to the front of the free list. */
    method Relink(e: Off, ghost r: Off, ghost k: nat) returns (after: Off)
      requires WellFormed(links, lists) && freeRoot in lists && r in lists && r != freeRoot
      requires k < |lists[r]| && e == lists[r][k]
      modifies this`links, this`target, this`lists
      ensures WellFormed(links, lists) && target == old(target)[e := 0]
      ensures lists == old(lists)[r := Remove(old(lists)[r], k)][freeRoot := Insert(old(lists)[freeRoot], 0, e)]
      ensures after == if k + 1 < |old(lists)[r]| then old(lists)[r][k + 1] else r
    {
      InCycle(links, Cycle(r, lists[r]), k + 1);
      MoveKeepsWellFormed(links, lists, r, k, freeRoot);
      after := ListRemoveEntry(e);
      target := target[e := 0];
      ListAddAfter(e, freeRoot);
      lists := lists[r := Remove(lists[r], k)][freeRoot := Insert(lists[freeRoot], 0, e)];
    }

    /** Moves the `k`-th entry of thread `i` to the free list; returns the element that followed it. */
    method MoveToFree(i: nat, e: Off, ghost k: nat) returns (after: Off)
      requires Valid() && i < |threads| && k < |lists[threads[i].root]| && e == lists[threads[i].root][k]
      modifies this`links, this`target, this`lists
      ensures Valid()
      ensures Abs() == Sched.SetCalls(old(Abs()), i, Remove(old(Abs()).threads[i].calls, k))
      ensures lists[threads[i].root] == Remove(old(lists[threads[i].root]), k)
      ensures after == if k + 1 < |old(lists[threads[i].root])| then old(lists[threads[i].root])[k + 1] else threads[i].root
    {
      after := Relink(e, threads[i].root, k);
      AfterRemoval(old(links), threads, old(lists), old(target), lists, target, i, k, e, freeRoot);
    }

    /** Unlinks the `k`-th entry of thread `i` and frees it (`free_funct_entry_struct`). */
    method RemoveEntryAt(i: nat, e: Off, ghost k: nat) returns (after: Off)
      requires Valid() && i < |threads| && k < |lists[threads[i].root]| && e == lists[threads[i].root][k]
      requires target[e] in functs && target[e] != 0
      modifies this`links, this`target, this`lists, this`functs
      ensures Valid()
      ensures var s, f := old(Abs()), old(target[e]);
              Abs() == Sched.AddUsers(Sched.SetCalls(s, i, Remove(s.threads[i].calls, k)), f, -1)
      ensures lists[threads[i].root] == Remove(old(lists[threads[i].root]), k)
      ensures after == if k + 1 < |old(lists[threads[i].root])| then old(lists[threads[i].root])[k + 1] else threads[i].root
    {
      var f := target[e];
      if f > 0 {
        functs := functs[f := functs[f].(users := functs[f].users - 1)];
      }
      after := MoveToFree(i, e, k);
    }

    /** The element after the `k`-th element of a list, counting the root as 0. */
    method NextElement(e: Off, ghost root: Off, ghost k: nat) returns (after: Off)
      requires Valid() && root in lists && k <= |lists[root]| && e == Cycle(root, lists[root])[k]
      ensures after == if k < |lists[root]| then lists[root][k] else root
    {
      InCycle(links, Cycle(root, lists[root]), k);
      after := links.next[e];
    }

    /** The root is not one of the entries of its list, and entries point to functions. */
    lemma EntryFacts(i: nat, k: nat)
      requires Valid() && i < |threads| && k < |lists[threads[i].root]|
      ensures var e := lists[threads[i].root][k];
              e != threads[i].root && e in target && target[e] == Abs().threads[i].calls[k]
    {
      var c := Cycle(threads[i].root, lists[threads[i].root]);
      assert IsCycle(links, c) && c[0] != c[k + 1];
    }

    /** The first entry of `f` on thread `i`. */
    method FindCall(i: nat, f: FunctId) returns (found: bool, e: Off, ghost k: nat)
      requires Valid() && i < |threads|
      ensures var calls := Abs().threads[i].calls;
              && (found <==> f in calls)
              && (found ==> k < |calls| && calls[k] == f && f !in calls[..k] && e == lists[threads[i].root][k])
    {
      var root := threads[i].root;
      ghost var calls := Abs().threads[i].calls;
      k := 0;
      e := NextElement(root, root, 0);
      while e != root
        invariant k <= |calls| && e == (if k < |calls| then lists[root][k] else root)
        invariant f !in calls[..k]
        decreases |calls| - k
      {
        EntryFacts(i, k);
        if target[e] == f {
          return true, e, k;
        }
        e := NextElement(e, root, k + 1);
        k := k + 1;
      }
      if k < |calls| {
        EntryFacts(i, k);
      }
      return false, e, k;
    }

    /** `hal_del_funct_from_thread`. */
    method DelFunctFromThread(funct: string, thread: string) returns (r: Sched.Result)
      requires Valid() && Sched.Listed(Abs())
      modifies this`links, this`target, this`lists, this`functs
      ensures Valid()
      ensures (Abs(), r) == Sched.DelFunctFromThread(old(Abs()), funct, thread)
    {
      if locked {
        return Sched.Err(Sched.EPERM);
      }
      var f := FindFunctByName(funct);
      if f == 0 || functs[f].users == 0 {
        return Sched.Err(Sched.EINVAL);
      }
      var i := FindThreadByName(thread);
      if i == |threads| {
        return Sched.Err(Sched.EINVAL);
      }
      var found, e, k := FindCall(i, f);
      if !found {
        return Sched.Err(Sched.EINVAL);
      }
      FirstCall(Abs().threads[i].calls, k, f);
      var _ := RemoveEntryAt(i, e, k);
      return Sched.Ok;
    }

    /** `done` calls of thread `i` have been searched for `f`, and `e` is the next entry. */
    ghost predicate Scanning(s: Sched.State, i: nat, f: FunctId, done: nat, e: Off)
      requires i < |s.threads| && f in s.functs && done <= |s.threads[i].calls|
      reads this
    {
      var calls := s.threads[i].calls;
      var k := |Without(calls[..done], {f})|;
      && Valid() && i < |threads| && f in functs
      && Abs() == Partly(s, i, f, done)
      && |lists[threads[i].root]| == k + |calls| - done
      && (e == threads[i].root <==> done == |calls|)
      && (done < |calls| ==> e == lists[threads[i].root][k])
    }

    lemma StartScan(i: nat, f: FunctId, e: Off)
      requires Valid() && i < |threads| && f in functs
      requires e == if lists[threads[i].root] != [] then lists[threads[i].root][0] else threads[i].root
      ensures Scanning(Abs(), i, f, 0, e)
    {
      var calls := Abs().threads[i].calls;
      CallsSplitStart(calls, f);
      PartlyStart(Abs(), i, f);
      if calls != [] {
        EntryFacts(i, 0);
      }
    }

    /** One turn of that loop. */
    method ScanEntry(i: nat, f: FunctId, e: Off, ghost s: Sched.State, ghost done: nat) returns (after: Off)
      requires i < |s.threads| && f in s.functs && f != 0 && done < |s.threads[i].calls|
      requires Scanning(s, i, f, done, e)
      modifies this`links, this`target, this`lists, this`functs
      ensures Scanning(s, i, f, done + 1, after)
    {
      EntryFacts(i, |Without(s.threads[i].calls[..done], {f})|);
      if target[e] == f {
        after := ScanMatch(i, f, e, s, done);
      } else {
        after := ScanOther(i, f, e, s, done);
      }
    }

    method ScanMatch(i: nat, f: FunctId, e: Off, ghost s: Sched.State, ghost done: nat) returns (after: Off)
      requires i < |s.threads| && f in s.functs && f != 0 && done < |s.threads[i].calls|
      requires Scanning(s, i, f, done, e) && e in target && target[e] == f
      modifies this`links, this`target, this`lists, this`functs
      ensures Scanning(s, i, f, done + 1, after)
    {
      ghost var calls := s.threads[i].calls;
      ghost var k := |Without(calls[..done], {f})|;
      SplitNext(calls, {f}, done);
      PartlyNext(s, i, f, done);
      EntryFacts(i, k);
      after := RemoveEntryAt(i, e, k);
      if done + 1 < |calls| {
        EntryFacts(i, k);
      }
    }

    method ScanOther(i: nat, f: FunctId, e: Off, ghost s: Sched.State, ghost done: nat) returns (after: Off)
      requires i < |s.threads| && f in s.functs && f != 0 && done < |s.threads[i].calls|
      requires Scanning(s, i, f, done, e) && e in target && target[e] != f
      ensures Scanning(s, i, f, done + 1, after)
    {
      ghost var calls := s.threads[i].calls;
      ghost var k := |Without(calls[..done], {f})|;
      SplitNext(calls, {f}, done);
      PartlyNext(s, i, f, done);
      EntryFacts(i, k);
      after := NextElement(e, threads[i].root, k + 1);
      if done + 1 < |calls| {
        EntryFacts(i, k + 1);
      }
    }

    /** The inner loop of `free_funct_struct`: removes every entry of `f` from thread `i`. */
    method RemoveCallsFrom(i: nat, f: FunctId)
      requires Valid() && i < |threads| && f in functs && f != 0
      modifies this`links, this`target, this`lists, this`functs
      ensures Valid()
      ensures Abs() == Partly(old(Abs()), i, f, |old(Abs()).threads[i].calls|)
    {
      var e := NextElement(threads[i].root, threads[i].root, 0);
      StartScan(i, f, e);
      ghost var s, len, done := Abs(), |Abs().threads[i].calls|, 0;
      while e != threads[i].root
        invariant done <= len && Scanning(s, i, f, done, e)
        decreases len - done
      {
        e := ScanEntry(i, f, e, s, done);
        done := done + 1;
      }
    }

    /** The outer loop of `free_funct_struct`: removes every entry of `f` from every thread. */
    method RemoveAllCalls(f: FunctId)
      requires Valid() && f in functs && f != 0
      modifies this`links, this`target, this`lists, this`functs
      ensures Valid() && f in functs && Freeing(Abs(), old(Abs()), f, |threads|)
    {
      ghost var s := Abs();
      FreeingStart(s, f);
      for n := 0 to |threads|
        invariant Valid() && f in functs && Freeing(Abs(), s, f, n)
      {
        FreeingNext(Abs(), s, f, n);
        RemoveCallsFrom(n, f);
      }
    }

    /** `free_funct_struct`: no thread calls the function any more, and its structure is gone. */
    method FreeFunct(f: FunctId)
      requires Valid() && f in functs && f != 0 && functs[f].users == Sched.Uses(Abs().threads, f)
      modifies this`links, this`target, this`lists, this`functs
      ensures Valid()
      ensures Abs() == FreedTo(old(Abs()), f, |threads|)
    {
      if functs[f].users > 0 {
        RemoveAllCalls(f);
      } else {
        NothingToFree(Abs(), f);
      }
      functs := functs - {f};
    }

    /** Takes the `j`-th function off the function list and frees it. */
    method UnlinkFunct(j: nat)
      requires Valid() && j < |order| && order[j] in functs && order[j] != 0
      requires functs[order[j]].users == Sched.Uses(Abs().threads, order[j])
      modifies this`links, this`target, this`lists, this`functs, this`order
      ensures Valid()
      ensures var s := old(Abs());
              Abs() == FreedTo(s.(order := Remove(s.order, j)), s.order[j], |s.threads|)
    {
      var f := order[j];
      order := Remove(order, j);
      FreeFunct(f);
    }

    /** The first `done` functions have been dealt with and the search stands at list index `j`. */
    ghost predicate Exiting(s: Sched.State, owner: nat, done: nat, j: nat)
      requires Sched.Listed(s) && done <= |s.order|
      reads this
    {
      && Valid() && Abs() == Exited(s, owner, done)
      && j == |Without(s.order[..done], Sched.OwnedBy(s, owner))|
    }

    /** One turn of the loop: a function of the component is unlinked and freed, others stay. */
    method ExitOne(owner: nat, j: nat, ghost s: Sched.State, ghost done: nat) returns (j': nat)
      requires Sched.Inv(s) && done < |s.order| && Exiting(s, owner, done, j) && j < |order|
      modifies this`links, this`target, this`lists, this`functs, this`order
      ensures Exiting(s, owner, done + 1, j')
    {
      ExitedOrder(s, owner, done);
      ExitedFunct(s, owner, done);
      var f := order[j];
      if functs[f].owner == owner {
        ExitedFreed(s, owner, done);
        UnlinkFunct(j);
        return j;
      } else {
        ExitedKept(s, owner, done);
        return j + 1;
      }
    }

    /** The function part of `free_comp_struct`, run by `hal_exit`. */
    method ExitFuncts(owner: nat)
      requires Valid() && Sched.Inv(Abs())
      modifies this`links, this`target, this`lists, this`functs, this`order
      ensures Valid()
      ensures Abs() == Sched.ExitFuncts(old(Abs()), owner)
    {
      ghost var s := Abs();
      ExitedStart(s, owner);
      ExitLoop(owner, s);
    }

    method ExitLoop(owner: nat, ghost s: Sched.State)
      requires Sched.Inv(s) && Exiting(s, owner, 0, 0)
      modifies this`links, this`target, this`lists, this`functs, this`order
      ensures Valid() && Abs() == Sched.ExitFuncts(s, owner)
    {
      ghost var done := 0;
      var j: nat := 0;
      while j < |order|
        invariant done <= |s.order| && Exiting(s, owner, done, j)
        decreases |s.order| - done
      {
        NotDone(s, owner, done, j);
        j := ExitOne(owner, j, s, done);
        done := done + 1;
      }
      ExitedEnd(s, owner, done);
    }

    /** As long as there is something left of the list there are functions to look at. */
    lemma NotDone(s: Sched.State, owner: nat, done: nat, j: nat)
      requires Sched.Listed(s) && done <= |s.order| && Exiting(s, owner, done, j) && j < |order|
      ensures done < |s.order|
    {
    }

    /** The head thread has given back `done` entries, and `e` is the next one. */
    ghost predicate Releasing(s: Sched.State, done: nat, e: Off)
      requires s.threads != [] && done <= |s.threads[0].calls|
      reads this
    {
      && Valid() && threads != [] && Abs() == Released(s, done)
      && e == if lists[threads[0].root] != [] then lists[threads[0].root][0] else threads[0].root
    }

    /** One turn of the loop of `free_thread_struct`. */
    method ReleaseOne(e: Off, ghost s: Sched.State, ghost done: nat) returns (after: Off)
      requires Sched.Inv(s) && s.threads != [] && done < |s.threads[0].calls| && Releasing(s, done, e)
      modifies this`links, this`target, this`lists, this`functs
      ensures Releasing(s, done + 1, after)
    {
      HeadCallOk(s, done);
      ReleasedNext(s, done);
      EntryFacts(0, 0);
      after := RemoveEntryAt(0, e, 0);
    }

    /** `free_thread_struct` for the thread at the head of the list: gives back all its entries. */
    method FreeHeadThread()
      requires Valid() && Sched.Inv(Abs()) && threads != []
      modifies this`links, this`target, this`lists, this`functs, this`threads
      ensures Valid()
      ensures Abs() == Sched.RemoveHeadThread(old(Abs()))
    {
      ghost var s, done := Abs(), 0;
      var root := threads[0].root;
      var e := NextElement(root, root, 0);
      ReleasedStart(s);
      while e != root
        invariant threads == old(threads) && done <= |s.threads[0].calls| && Releasing(s, done, e)
        decreases |s.threads[0].calls| - done
      {
        e := ReleaseOne(e, s, done);
        done := done + 1;
      }
      RootMeansDone(e);
      DropHead(s);
    }

    lemma RootMeansDone(e: Off)
      requires Valid() && threads != [] && e == threads[0].root
      requires e == if lists[threads[0].root] != [] then lists[threads[0].root][0] else threads[0].root
      ensures Abs().threads[0].calls == []
    {
      if lists[threads[0].root] != [] {
        EntryFacts(0, 0);
      }
    }

    /** Takes the thread, whose list is now empty, off the thread list. */
    method DropHead(ghost s: Sched.State)
      requires s.threads != [] && Valid() && threads != [] && Abs() == Released(s, |s.threads[0].calls|)
      modifies this`threads
      ensures Valid() && Abs() == Sched.RemoveHeadThread(s)
    {
      ReleasedEnd(s);
      AbsTail(threads, lists, target);
      threads := threads[1..];
    }

    /** `hal_create_thread` up to the thread's entry in the thread list; `root` is in fresh memory. */
    method CreateThread(name: string, period: U64, usesFp: bool, os: Sched.Os, root: Off) returns (r: Sched.Result)
      requires Valid() && Sched.ThreadsInv(Abs()) && Sched.OsOk(os) && Loose(lists, root)
      modifies this`threads, this`basePeriod, this`links, this`lists
      ensures Valid()
      ensures (Abs(), r) == Sched.CreateThread(old(Abs()), name, period, usesFp, os)
    {
      if period == 0 || |name| > HAL_NAME_LEN {
        return Sched.Err(Sched.EINVAL);
      }
      if locked {
        return Sched.Err(Sched.EPERM);
      }
      var dup := FindThreadByName(name);
      if dup < |threads| {
        return Sched.Err(Sched.EINVAL);
      }
      if !os.memOk {
        return Sched.Err(Sched.ENOMEM);
      }
      var prevPeriod, prevPriority;
      if threads == [] {
        var curr: int := os.clockNow;
        if curr == 0 {
          curr := os.clockStarted;
          if curr < 0 {
            return Sched.Err(Sched.EINVAL);
          }
        }
        if curr > ToULong(period + period / 100) {
          return Sched.Err(Sched.EINVAL);
        }
        basePeriod := if exactBase then ToLong(period) else curr;
        prevPriority := PRIO_HIGHEST;
        prevPeriod := 0;
      } else {
        prevPeriod, prevPriority := threads[0].period, threads[0].priority;
      }
      if period < ToULong(basePeriod) {
        return Sched.Err(Sched.EINVAL);
      }
      var newPeriod := ComputePeriod(period, basePeriod);
      if newPeriod < prevPeriod || !os.taskOk {
        return Sched.Err(Sched.EINVAL);
      }
      PushThread(ThreadRec(name, usesFp, newPeriod, NextLower(prevPriority), root));
      return Sched.Ok;
    }

    /** Puts a new thread, with an empty function list, at the head of the thread list. */
    method PushThread(t: ThreadRec)
      requires Valid() && Loose(lists, t.root)
      modifies this`threads, this`links, this`lists
      ensures Valid()
      ensures Abs() == old(Abs()).(threads := [Sched.Thread(t.name, t.usesFp, t.period, t.priority, [])] + old(Abs()).threads)
    {
      NewListWellFormed(links, lists, t.root);
      AfterPush(threads, lists, target, t, freeRoot);
      links := InitEntry(links, t.root);
      lists := lists[t.root := []];
      threads := [t] + threads;
    }
  }

  /** The threads behind the head stand for the same threads. */
  lemma AbsTail(threads: seq<ThreadRec>, lists: map<Off, seq<Off>>, target: map<Off, FunctId>)
    requires threads != [] && EntriesOk(lists, target) && forall i :: 0 <= i < |threads| ==> threads[i].root in lists
    ensures AbsThreads(threads, lists, target)
         == [AbsThread(threads[0], lists, target)] + AbsThreads(threads[1..], lists, target)
  {
  }

  lemma PushRoots(threads: seq<ThreadRec>, lists: map<Off, seq<Off>>, target: map<Off, FunctId>, t: ThreadRec, freeRoot: Off)
    requires RootsOk(threads, freeRoot, lists) && EntriesOk(lists, target) && t.root !in lists
    ensures RootsOk([t] + threads, freeRoot, lists[t.root := []]) && EntriesOk(lists[t.root := []], target)
  {
  }

  lemma AfterPush(threads: seq<ThreadRec>, lists: map<Off, seq<Off>>, target: map<Off, FunctId>, t: ThreadRec, freeRoot: Off)
    requires RootsOk(threads, freeRoot, lists) && EntriesOk(lists, target) && t.root !in lists
    ensures RootsOk([t] + threads, freeRoot, lists[t.root := []]) && EntriesOk(lists[t.root := []], target)
    ensures AbsThreads([t] + threads, lists[t.root := []], target)
         == [Sched.Thread(t.name, t.usesFp, t.period, t.priority, [])] + AbsThreads(threads, lists, target)
  {
    var all, lists' := [t] + threads, lists[t.root := []];
    PushRoots(threads, lists, target, t, freeRoot);
    AbsFrame(threads, lists, target, lists', target);
    AbsTail(all, lists', target);
    assert all[1..] == threads;
    assert AbsThread(t, lists', target).calls == [];
  }

  lemma HeadCallOk(s: Sched.State, k: nat)
    requires Sched.Inv(s) && s.threads != [] && k < |s.threads[0].calls|
    ensures s.threads[0].calls[k] in s.functs && s.threads[0].calls[k] != 0
  {
    assert Sched.CallOk(s.functs, s.threads[0], s.threads[0].calls[k]);
  }

  /** The state in which the head thread has given back its first `done` entries. */
  function Released(s: Sched.State, done: nat): (s': Sched.State)
    requires s.threads != [] && done <= |s.threads[0].calls|
  {
    var calls := s.threads[0].calls;
    Sched.SetCalls(s, 0, calls[done..]).(functs := Sched.ReleaseCalls(s.functs, calls[..done]))
  }

  lemma ReleasedStart(s: Sched.State)
    requires s.threads != []
    ensures Released(s, 0) == s
  {
    assert s.threads[0].calls[0..] == s.threads[0].calls;
    assert Sched.ReleaseCalls(s.functs, s.threads[0].calls[..0]) == s.functs;
  }

  lemma ReleasedNext(s: Sched.State, done: nat)
    requires s.threads != [] && done < |s.threads[0].calls| && s.threads[0].calls[done] in s.functs
    ensures var now, f := Released(s, done), s.threads[0].calls[done];
            && now.threads[0].calls != [] && now.threads[0].calls[0] == f
            && Released(s, done + 1) == Sched.AddUsers(Sched.SetCalls(now, 0, Remove(now.threads[0].calls, 0)), f, -1)
  {
    var calls, f := s.threads[0].calls, s.threads[0].calls[done];
    assert calls[..done + 1] == calls[..done] + [f];
    ReleaseOneMore(s.functs, calls[..done], f);
    assert Remove(calls[done..], 0) == calls[done + 1..];
  }

  lemma ReleaseOneMore(functs: map<FunctId, Sched.Funct>, calls: seq<FunctId>, f: FunctId)
    requires f in functs
    ensures var r := Sched.ReleaseCalls(functs, calls);
            Sched.ReleaseCalls(functs, calls + [f]) == r[f := r[f].(users := r[f].users - 1)]
  {
  }

  lemma ReleasedEnd(s: Sched.State)
    requires s.threads != []
    ensures var r := Released(s, |s.threads[0].calls|); r.(threads := r.threads[1..]) == Sched.RemoveHeadThread(s)
  {
    var calls := s.threads[0].calls;
    assert calls[..|calls|] == calls;
  }

  /** The first `n` threads have been cleared of calls to `f`. */
  function ClearPrefix(threads: seq<Sched.Thread>, f: FunctId, n: nat): (r: seq<Sched.Thread>)
    requires n <= |threads|
  {
    Sched.ClearCalls(threads[..n], {f}) + threads[n..]
  }

  /** The state once `n` threads have been cleared and the structure of `f` is gone. */
  function FreedTo(s: Sched.State, f: FunctId, n: nat): (s': Sched.State)
    requires n <= |s.threads|
  {
    s.(threads := ClearPrefix(s.threads, f, n), functs := s.functs - {f})
  }

  /** As far as anything but the use count of `f` is concerned, `n` threads have been cleared. */
  ghost predicate Freeing(now: Sched.State, s: Sched.State, f: FunctId, n: nat)
    requires n <= |s.threads|
  {
    now.(functs := now.functs - {f}) == FreedTo(s, f, n)
  }

  lemma FreeingStart(s: Sched.State, f: FunctId)
    ensures Freeing(s, s, f, 0)
  {
    assert ClearPrefix(s.threads, f, 0) == s.threads;
  }

  lemma FreeingNext(now: Sched.State, s: Sched.State, f: FunctId, n: nat)
    requires n < |s.threads| && f in now.functs && Freeing(now, s, f, n)
    ensures |now.threads| == |s.threads|
    ensures Freeing(Partly(now, n, f, |now.threads[n].calls|), s, f, n + 1)
  {
    var now' := Partly(now, n, f, |now.threads[n].calls|);
    PartlyEnd(now, n, f);
    assert now.threads[n] == s.threads[n];
    var p, p' := ClearPrefix(s.threads, f, n), ClearPrefix(s.threads, f, n + 1);
    assert p' == p[n := s.threads[n].(calls := Without(s.threads[n].calls, {f}))];
    assert now'.functs - {f} == now.functs - {f};
  }

  lemma NothingToFree(s: Sched.State, f: FunctId)
    requires Sched.Uses(s.threads, f) == 0
    ensures Freeing(s, s, f, |s.threads|)
  {
    forall i | 0 <= i < |s.threads|
      ensures ClearPrefix(s.threads, f, |s.threads|)[i] == s.threads[i]
    {
      UsesAtLeast(s.threads, i, f);
      assert f !in multiset(s.threads[i].calls);
      WithoutAbsent(s.threads[i].calls, {f});
    }
    assert ClearPrefix(s.threads, f, |s.threads|) == s.threads;
  }

  // ------------------------------------------------------------ component exit

  /** The functions of the owner among the first `done` of the list. */
  function Gone(s: Sched.State, owner: nat, done: nat): (fs: set<FunctId>)
    requires done <= |s.order| && forall f :: f in s.order ==> f in s.functs
  {
    if done == 0 then {}
    else Gone(s, owner, done - 1)
         + if s.functs[s.order[done - 1]].owner == owner then {s.order[done - 1]} else {}
  }

  /** The state once the first `done` functions of the list have been dealt with. */
  function Exited(s: Sched.State, owner: nat, done: nat): (s': Sched.State)
    requires done <= |s.order| && forall f :: f in s.order ==> f in s.functs
  {
    s.(order := Without(s.order[..done], Sched.OwnedBy(s, owner)) + s.order[done..],
       functs := s.functs - Gone(s, owner, done),
       threads := Sched.ClearCalls(s.threads, Gone(s, owner, done)))
  }

  lemma {:induction false} GoneMembers(s: Sched.State, owner: nat, done: nat, f: FunctId)
    requires done <= |s.order| && forall g :: g in s.order ==> g in s.functs
    ensures f in Gone(s, owner, done) <==> f in s.order[..done] && s.functs[f].owner == owner
  {
    if done > 0 {
      GoneMembers(s, owner, done - 1, f);
      assert s.order[..done] == s.order[..done - 1] + [s.order[done - 1]];
    }
  }

  lemma ExitedStart(s: Sched.State, owner: nat)
    requires Sched.Listed(s)
    ensures Exited(s, owner, 0) == s && s.order[..0] == []
  {
    forall i | 0 <= i < |s.threads|
      ensures Sched.ClearCalls(s.threads, {})[i] == s.threads[i]
    {
      WithoutAbsent(s.threads[i].calls, {});
    }
    assert Sched.ClearCalls(s.threads, {}) == s.threads;
    assert s.functs - {} == s.functs;
  }

  lemma ExitedEnd(s: Sched.State, owner: nat, done: nat)
    requires Sched.Listed(s) && done <= |s.order|
    requires |Exited(s, owner, done).order| <= |Without(s.order[..done], Sched.OwnedBy(s, owner))|
    ensures Exited(s, owner, done) == Sched.ExitFuncts(s, owner)
  {
    assert done == |s.order| && s.order[..done] == s.order && s.order[done..] == [];
    assert Gone(s, owner, done) == Sched.OwnedBy(s, owner) by {
      forall f {
        GoneMembers(s, owner, done, f);
      }
    }
    var kept := Without(s.order, Sched.OwnedBy(s, owner));
    assert kept + [] == kept;
  }

  /** The next function on the list, and where the search for it stands. */
  lemma ExitedOrder(s: Sched.State, owner: nat, done: nat)
    requires Sched.Listed(s) && done < |s.order|
    ensures var now, next := Exited(s, owner, done), Exited(s, owner, done + 1);
            var owned := Sched.OwnedBy(s, owner);
            var j, j' := |Without(s.order[..done], owned)|, |Without(s.order[..done + 1], owned)|;
            && j < |now.order| && now.order[j] == s.order[done]
            && (s.order[done] in owned ==> j' == j && Remove(now.order, j) == next.order)
            && (s.order[done] !in owned ==> j' == j + 1 && now.order == next.order)
  {
    SplitNext(s.order, Sched.OwnedBy(s, owner), done);
  }

  /** The next function is still as it was, and its use count still exact. */
  lemma ExitedFunct(s: Sched.State, owner: nat, done: nat)
    requires Sched.Inv(s) && done < |s.order|
    ensures var now, f := Exited(s, owner, done), s.order[done];
            && f != 0 && f in now.functs && now.functs[f] == s.functs[f]
            && now.functs[f].users == Sched.Uses(now.threads, f)
  {
    GoneMembers(s, owner, done, s.order[done]);
    UsesOfCleared(s.threads, Gone(s, owner, done), s.order[done]);
  }

  lemma ExitedKept(s: Sched.State, owner: nat, done: nat)
    requires Sched.Listed(s) && done < |s.order| && s.functs[s.order[done]].owner != owner
    ensures Exited(s, owner, done + 1) == Exited(s, owner, done)
  {
    ExitedOrder(s, owner, done);
    assert Gone(s, owner, done + 1) == Gone(s, owner, done);
  }

  lemma ExitedFreed(s: Sched.State, owner: nat, done: nat)
    requires Sched.Listed(s) && done < |s.order| && s.functs[s.order[done]].owner == owner
    ensures var now, j := Exited(s, owner, done), |Without(s.order[..done], Sched.OwnedBy(s, owner))|;
            && j < |now.order|
            && FreedTo(now.(order := Remove(now.order, j)), s.order[done], |now.threads|) == Exited(s, owner, done + 1)
  {
    ExitedOrder(s, owner, done);
    var f, gone := s.order[done], Gone(s, owner, done);
    ExitedThreads(s.threads, gone, f);
    assert (s.functs - gone) - {f} == s.functs - (gone + {f});
  }

  lemma ExitedThreads(threads: seq<Sched.Thread>, gone: set<FunctId>, f: FunctId)
    ensures ClearPrefix(Sched.ClearCalls(threads, gone), f, |threads|) == Sched.ClearCalls(threads, gone + {f})
  {
    forall i | 0 <= i < |threads|
      ensures ClearPrefix(Sched.ClearCalls(threads, gone), f, |threads|)[i]
           == Sched.ClearCalls(threads, gone + {f})[i]
    {
      WithoutTwice(threads[i].calls, gone, {f});
    }
  }

  lemma PartlyStart(s: Sched.State, i: nat, f: FunctId)
    requires i < |s.threads| && f in s.functs
    ensures Partly(s, i, f, 0) == s
  {
    CallsSplitStart(s.threads[i].calls, f);
    assert s.functs[f := s.functs[f]] == s.functs;
  }

  lemma PartlyEnd(s: Sched.State, i: nat, f: FunctId)
    requires i < |s.threads| && f in s.functs
    ensures var calls := s.threads[i].calls;
            Partly(s, i, f, |calls|)
            == Sched.AddUsers(Sched.SetCalls(s, i, Without(calls, {f})), f, 0 - Sched.Occurrences(calls, f))
  {
    var calls := s.threads[i].calls;
    assert calls[..|calls|] == calls && calls[|calls|..] == [];
    assert Without(calls, {f}) + [] == Without(calls, {f});
  }

  lemma PartlyNext(s: Sched.State, i: nat, f: FunctId, done: nat)
    requires i < |s.threads| && f in s.functs && done < |s.threads[i].calls|
    ensures var calls := s.threads[i].calls;
            var k := |Without(calls[..done], {f})|;
            var p, p' := Partly(s, i, f, done), Partly(s, i, f, done + 1);
            && k < |p.threads[i].calls| && p.threads[i].calls[k] == calls[done]
            && p' == if calls[done] == f
                     then Sched.AddUsers(Sched.SetCalls(p, i, Remove(p.threads[i].calls, k)), f, -1)
                     else p
  {
    var calls := s.threads[i].calls;
    var w, w' := Without(calls[..done], {f}), Without(calls[..done + 1], {f});
    SplitNext(calls, {f}, done);
    CallsSplitNext(calls, f, done);
    var n := 0 - Sched.Occurrences(calls[..done], f);
    SetTwice(s, i, w + calls[done..], w' + calls[done + 1..], f, n, -1);
  }

  /** Changing a call list and a use count twice is changing them once. */
  lemma SetTwice(s: Sched.State, i: nat, c1: seq<FunctId>, c2: seq<FunctId>, f: FunctId, n: int, m: int)
    requires i < |s.threads| && f in s.functs
    ensures Sched.AddUsers(Sched.SetCalls(Sched.AddUsers(Sched.SetCalls(s, i, c1), f, n), i, c2), f, m)
         == Sched.AddUsers(Sched.SetCalls(s, i, c2), f, n + m)
    ensures Sched.AddUsers(Sched.SetCalls(s, i, c1), f, n).threads[i].calls == c1
  {
    var once := Sched.AddUsers(Sched.SetCalls(s, i, c2), f, n + m);
    var twice := Sched.AddUsers(Sched.SetCalls(Sched.AddUsers(Sched.SetCalls(s, i, c1), f, n), i, c2), f, m);
    assert twice.threads == once.threads && twice.functs == once.functs;
  }

  /** The state in which the first `done` calls of thread `i` have been searched for `f`. */
  ghost function Partly(s: Sched.State, i: nat, f: FunctId, done: nat): Sched.State
    requires i < |s.threads| && f in s.functs && done <= |s.threads[i].calls|
  {
    var calls := s.threads[i].calls;
    Sched.AddUsers(Sched.SetCalls(s, i, Without(calls[..done], {f}) + calls[done..]), f,
                   0 - Sched.Occurrences(calls[..done], f))
  }

  lemma CallsSplitStart(calls: seq<FunctId>, f: FunctId)
    ensures calls[..0] == [] && Without(calls[..0], {f}) + calls[0..] == calls
  {
  }

  /** A list that has been searched up to `done`: the kept part, then the rest. */
  lemma SplitNext(list: seq<FunctId>, fs: set<FunctId>, done: nat)
    requires done < |list|
    ensures var w, w' := Without(list[..done], fs), Without(list[..done + 1], fs);
            && w' == w + (if list[done] in fs then [] else [list[done]])
            && (w + list[done..])[|w|] == list[done]
            && (list[done] in fs ==> Remove(w + list[done..], |w|) == w' + list[done + 1..])
            && (list[done] !in fs ==> w + list[done..] == w' + list[done + 1..])
  {
    WithoutSnoc(list[..done + 1], fs);
    assert list[..done + 1][..done] == list[..done];
  }

  lemma CallsSplitNext(calls: seq<FunctId>, f: FunctId, done: nat)
    requires done < |calls|
    ensures Sched.Occurrences(calls[..done + 1], f)
         == Sched.Occurrences(calls[..done], f) + (if calls[done] == f then 1 else 0)
  {
    assert calls[..done + 1] == calls[..done] + [calls[done]];
  }

  lemma {:induction false} FirstCall(calls: seq<FunctId>, k: nat, f: FunctId)
    requires k < |calls| && calls[k] == f && f !in calls[..k]
    ensures Sched.RemoveFirst(calls, f) == Remove(calls, k)
  {
    if k > 0 {
      assert calls[..k][0] == calls[0];
      assert calls[1..][..k - 1] == calls[..k][1..];
      FirstCall(calls[1..], k - 1, f);
    }
  }

  lemma RemoveCalls(target: map<Off, FunctId>, entries: seq<Off>, k: nat)
    requires (forall x :: x in entries ==> x in target) && k < |entries|
    requires forall i, j :: 0 <= i < j < |entries| ==> entries[i] != entries[j]
    ensures forall x :: x in Remove(entries, k) ==> x in target && x != entries[k]
    ensures CallsOf(target[entries[k] := 0], Remove(entries, k)) == Remove(CallsOf(target, entries), k)
  {
    RemoveMembers(entries, k);
  }

  lemma AfterRemoval(l: Links, threads: seq<ThreadRec>, lists: map<Off, seq<Off>>, target: map<Off, FunctId>,
                     lists': map<Off, seq<Off>>, target': map<Off, FunctId>, i: nat, k: nat, e: Off, freeRoot: Off)
    requires RootsOk(threads, freeRoot, lists) && EntriesOk(lists, target)
    requires i < |threads| && k < |lists[threads[i].root]| && e == lists[threads[i].root][k]
    requires WellFormed(l, lists)
    requires lists' == lists[threads[i].root := Remove(lists[threads[i].root], k)][freeRoot := Insert(lists[freeRoot], 0, e)]
    requires target' == target[e := 0]
    ensures RootsOk(threads, freeRoot, lists') && EntriesOk(lists', target')
    ensures var ts := AbsThreads(threads, lists, target);
            AbsThreads(threads, lists', target') == ts[i := ts[i].(calls := Remove(ts[i].calls, k))]
  {
    EntriesApart(l, lists, threads[i].root);
    forall j | 0 <= j < |threads| && j != i
      ensures SameCalls(threads[j].root, lists, target, lists', target')
    {
      assert e in lists[threads[i].root] && threads[j].root != threads[i].root;
    }
    RemoveCalls(target, lists[threads[i].root], k);
    InsertMembers(lists[freeRoot], 0, e);
    AbsUpdate(threads, lists, target, lists', target', i, Remove(CallsOf(target, lists[threads[i].root]), k));
  }

  lemma InsertCalls(target: map<Off, FunctId>, entries: seq<Off>, p: nat, e: Off, f: FunctId)
    requires (forall x :: x in entries ==> x in target) && e !in entries && p <= |entries|
    ensures forall x :: x in Insert(entries, p, e) ==> x in target[e := f]
    ensures CallsOf(target[e := f], Insert(entries, p, e)) == Insert(CallsOf(target, entries), p, f)
  {
    InsertMembers(entries, p, e);
  }

  /** One thread's calls change, the others stand for what they did. */
  lemma AbsUpdate(threads: seq<ThreadRec>, lists: map<Off, seq<Off>>, target: map<Off, FunctId>,
                  lists': map<Off, seq<Off>>, target': map<Off, FunctId>, i: nat, calls: seq<FunctId>)
    requires i < |threads|
    requires forall j :: 0 <= j < |threads| ==> threads[j].root in lists && threads[j].root in lists'
    requires EntriesOk(lists, target) && EntriesOk(lists', target')
    requires forall j :: 0 <= j < |threads| && j != i ==> SameCalls(threads[j].root, lists, target, lists', target')
    requires CallsOf(target', lists'[threads[i].root]) == calls
    ensures var ts := AbsThreads(threads, lists, target);
            AbsThreads(threads, lists', target') == ts[i := ts[i].(calls := calls)]
  {
    forall j | 0 <= j < |threads| && j != i
      ensures AbsThread(threads[j], lists', target') == AbsThread(threads[j], lists, target)
    {
      assert CallsOf(target', lists'[threads[j].root]) == CallsOf(target, lists[threads[j].root]);
    }
  }
}
