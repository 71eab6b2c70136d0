/** What the scheduling operations of the HAL keep and what they undo. */
module SchedProofs {
  import opened Lists
  import opened Names
  import opened Machine
  import opened Priority
  import opened Periods
  import opened Sched

  // ------------------------------------------------------------------ counting

  lemma {:induction false} UsesOfUpdate(threads: seq<Thread>, i: nat, t: Thread, f: FunctId)
    requires i < |threads|
    ensures Uses(threads[i := t], f) == Uses(threads, f) - Occurrences(threads[i].calls, f) + Occurrences(t.calls, f)
  {
    if i == 0 {
      assert threads[0 := t][1..] == threads[1..];
    } else {
      UsesOfUpdate(threads[1..], i - 1, t, f);
      assert threads[i := t][1..] == threads[1..][i - 1 := t];
    }
  }

  lemma {:induction false} UsesAtLeast(threads: seq<Thread>, i: nat, f: FunctId)
    requires i < |threads|
    ensures Uses(threads, f) >= Occurrences(threads[i].calls, f)
  {
    if i > 0 {
      UsesAtLeast(threads[1..], i - 1, f);
    }
  }

  lemma {:induction false} NoUsesMeansNoCall(threads: seq<Thread>, f: FunctId)
    requires forall i :: 0 <= i < |threads| ==> f !in threads[i].calls
    ensures Uses(threads, f) == 0
  {
    if threads != [] {
      NoUsesMeansNoCall(threads[1..], f);
      assert f !in multiset(threads[0].calls);
    }
  }

  lemma InsertOccurrences(calls: seq<FunctId>, p: nat, f: FunctId, g: FunctId)
    requires p <= |calls|
    ensures Occurrences(Insert(calls, p, f), g) == Occurrences(calls, g) + if f == g then 1 else 0
    ensures g in Insert(calls, p, f) <==> g in calls || g == f
  {
    assert calls == calls[..p] + calls[p..];
    assert multiset(Insert(calls, p, f)) == multiset(calls) + multiset{f};
    assert g in multiset(Insert(calls, p, f)) <==> g in Insert(calls, p, f);
    assert g in multiset(calls) <==> g in calls;
  }

  lemma {:induction false} RemoveFirstOccurrences(calls: seq<FunctId>, f: FunctId)
    requires f in calls
    ensures multiset(RemoveFirst(calls, f)) == multiset(calls) - multiset{f}
  {
    assert calls == [calls[0]] + calls[1..];
    if calls[0] != f {
      RemoveFirstOccurrences(calls[1..], f);
      assert f in multiset(calls[1..]);
    }
  }

  lemma {:induction false} WithoutOccurrences(calls: seq<FunctId>, fs: set<FunctId>, g: FunctId)
    ensures Occurrences(Without(calls, fs), g) == if g in fs then 0 else Occurrences(calls, g)
    ensures g in Without(calls, fs) <==> g in calls && g !in fs
  {
    if calls != [] {
      WithoutOccurrences(calls[1..], fs, g);
      assert calls == [calls[0]] + calls[1..];
    }
  }

  lemma {:induction false} UsesOfCleared(threads: seq<Thread>, fs: set<FunctId>, g: FunctId)
    ensures Uses(ClearCalls(threads, fs), g) == if g in fs then 0 else Uses(threads, g)
  {
    if threads != [] {
      WithoutOccurrences(threads[0].calls, fs, g);
      UsesOfCleared(threads[1..], fs, g);
      assert ClearCalls(threads, fs)[1..] == ClearCalls(threads[1..], fs);
    }
  }

  // ------------------------------------------------------ the name-sorted list

  /** `idx` lists, in increasing order, the positions of the members of `order` outside `fs`. */
  ghost predicate KeptPositions(order: seq<FunctId>, fs: set<FunctId>, idx: seq<nat>) {
    && (forall k :: 0 <= k < |idx| ==> idx[k] < |order|)
    && (forall k, l :: 0 <= k < l < |idx| ==> idx[k] < idx[l])
    && (forall i :: 0 <= i < |order| ==> (order[i] !in fs <==> i in idx))
  }

  /** Removal keeps exactly the members outside `fs`, in their original order. */
  lemma {:induction false} WithoutKeepsOrder(order: seq<FunctId>, fs: set<FunctId>) returns (idx: seq<nat>)
    ensures KeptPositions(order, fs, idx) && |idx| == |Without(order, fs)|
    ensures forall k :: 0 <= k < |idx| ==> Without(order, fs)[k] == order[idx[k]]
  {
    if order == [] {
      idx := [];
    } else {
      var last := |order| - 1;
      WithoutSnoc(order, fs);
      idx := WithoutKeepsOrder(order[..last], fs);
      if order[last] !in fs {
        var front := idx;
        idx := idx + [last];
        assert forall i :: i in idx <==> i in front || i == last;
      }
    }
  }

  lemma {:induction false} WithoutSnoc(order: seq<FunctId>, fs: set<FunctId>)
    requires order != []
    ensures var last := |order| - 1;
            Without(order, fs) == Without(order[..last], fs) + if order[last] in fs then [] else [order[last]]
  {
    var last := |order| - 1;
    if last > 0 {
      WithoutSnoc(order[1..], fs);
      assert order[..last][1..] == order[1..][..last - 1];
    }
  }

  // ------------------------------------------------------- each operation keeps Inv

  lemma InsertDistinct(order: seq<FunctId>, p: nat, f: FunctId)
    requires p <= |order| && f !in order
    requires forall i, j :: 0 <= i < j < |order| ==> order[i] != order[j]
    ensures var r := Insert(order, p, f); forall i, j :: 0 <= i < j < |r| ==> r[i] != r[j]
  {
  }

  function Exported(s: State, p: nat, f: FunctId, g: Funct): State
    requires p <= |s.order|
  {
    s.(order := Insert(s.order, p, f), functs := s.functs[f := g])
  }

  lemma ExportListed(s: State, p: nat, f: FunctId, g: Funct)
    requires Listed(s) && p <= |s.order| && f != 0 && f !in s.functs
    ensures Listed(Exported(s, p, f, g))
  {
    InsertDistinct(s.order, p, f);
    forall h {
      InsertOccurrences(s.order, p, f, h);
    }
  }

  lemma ExportNames(order: seq<FunctId>, functs: map<FunctId, Funct>, p: nat, f: FunctId, g: Funct)
    requires (forall h :: h in order ==> h in functs) && p <= |order| && f !in order
    requires forall h :: h in Insert(order, p, f) ==> h in functs[f := g]
    ensures NamesOf(Insert(order, p, f), functs[f := g]) == Insert(NamesOf(order, functs), p, g.name)
  {
  }

  lemma ExportKeepsInv(s: State, f: FunctId, name: string, owner: nat, usesFp: bool, reentrant: bool)
    requires Inv(s) && f !in s.functs
    ensures Inv(ExportFunct(s, f, name, owner, usesFp, reentrant).0)
  {
    var (s', r) := ExportFunct(s, f, name, owner, usesFp, reentrant);
    if r.Ok? {
      var p, g := Place(NamesOf(s.order, s.functs), name), s'.functs[f];
      ExportListed(s, p, f, g);
      ExportNames(s.order, s.functs, p, f, g);
      InsertKeepsSorted(NamesOf(s.order, s.functs), name);
      forall i, g | 0 <= i < |s'.threads| && g in s'.threads[i].calls
        ensures CallOk(s'.functs, s'.threads[i], g) && g != f
      {
        assert CallOk(s.functs, s.threads[i], g);
      }
      NoUsesMeansNoCall(s.threads, f);
    }
  }

  lemma SameListing(s: State, s': State)
    requires Inv(s) && s'.order == s.order && s'.functs.Keys == s.functs.Keys
    requires forall f :: f in s.functs ==> s'.functs[f].name == s.functs[f].name
    ensures Listed(s') && Sorted(NamesOf(s'.order, s'.functs))
  {
    assert forall f :: f in s'.functs <==> f in s'.functs.Keys;
    assert NamesOf(s'.order, s'.functs) == NamesOf(s.order, s.functs);
  }

  lemma SameThreads(s: State, s': State)
    requires ThreadsInv(s) && s'.basePeriod == s.basePeriod && |s'.threads| == |s.threads|
    requires forall i :: 0 <= i < |s.threads| ==> s'.threads[i] == s.threads[i].(calls := s'.threads[i].calls)
    ensures ThreadsInv(s')
  {
    forall i | 0 <= i < |s'.threads|
      ensures ThreadOk(s'.threads[i])
    {
      assert ThreadOk(s.threads[i]);
    }
    forall i, j | 0 <= i < j < |s'.threads|
      ensures Before(s'.threads[i], s'.threads[j])
    {
      assert Before(s.threads[i], s.threads[j]);
    }
  }

  /** One thread's calls and one use count change together. */
  lemma ChangeCalls(s: State, i: nat, calls: seq<FunctId>, f: FunctId, n: int)
    requires CallsInv(s) && i < |s.threads| && CallOk(s.functs, s.threads[i], f)
    requires forall g :: Occurrences(calls, g) == Occurrences(s.threads[i].calls, g) + if g == f then n else 0
    requires s.functs[f].users + n <= 1 || s.functs[f].reentrant
    ensures CallsInv(AddUsers(SetCalls(s, i, calls), f, n))
  {
    var s' := AddUsers(SetCalls(s, i, calls), f, n);
    forall g | g in s.functs
      ensures s'.functs[g].users == Uses(s'.threads, g)
    {
      UsesOfUpdate(s.threads, i, s'.threads[i], g);
    }
    forall j, g | 0 <= j < |s'.threads| && g in s'.threads[j].calls
      ensures CallOk(s'.functs, s'.threads[j], g)
    {
      if j != i {
        assert CallOk(s.functs, s.threads[j], g);
      } else if g != f {
        assert g in multiset(calls);
        assert Occurrences(calls, g) == Occurrences(s.threads[i].calls, g);
        assert g in multiset(s.threads[i].calls);
        assert CallOk(s.functs, s.threads[i], g);
      }
    }
  }

  lemma AddKeepsInv(s: State, f: FunctId, i: nat, position: int)
    requires Inv(s)
    ensures Inv(AddFunct(s, f, i, position).0)
  {
    if MayAdd(s, f, i, position) {
      var s', calls := AddFunct(s, f, i, position).0, s.threads[i].calls;
      SameListing(s, s');
      SameThreads(s, s');
      var p := PositionIndex(position, |calls|);
      forall g {
        InsertOccurrences(calls, p, f, g);
      }
      ChangeCalls(s, i, Insert(calls, p, f), f, 1);
    }
  }

  lemma DelKeepsInv(s: State, f: FunctId, i: nat)
    requires Inv(s)
    ensures Inv(DelFunct(s, f, i).0)
  {
    if MayDel(s, f, i) {
      var s', calls := DelFunct(s, f, i).0, s.threads[i].calls;
      SameListing(s, s');
      SameThreads(s, s');
      assert CallOk(s.functs, s.threads[i], f);
      RemoveFirstOccurrences(calls, f);
      assert f in multiset(calls);
      ChangeCalls(s, i, RemoveFirst(calls, f), f, -1);
    }
  }

  lemma RemoveHeadKeepsInv(s: State)
    requires Inv(s) && s.threads != []
    ensures Inv(RemoveHeadThread(s))
  {
    var s' := RemoveHeadThread(s);
    SameListing(s, s');
    forall j, g | 0 <= j < |s'.threads| && g in s'.threads[j].calls
      ensures CallOk(s'.functs, s'.threads[j], g)
    {
      assert CallOk(s.functs, s.threads[j + 1], g);
    }
  }

  lemma ExitKeepsInv(s: State, owner: nat)
    requires Inv(s)
    ensures Inv(ExitFuncts(s, owner))
  {
    var s', gone := ExitFuncts(s, owner), OwnedBy(s, owner);
    ExitListing(s, owner);
    SameThreads(s, s');
    forall g | g in s'.functs
      ensures s'.functs[g].users == Uses(s'.threads, g)
    {
      UsesOfCleared(s.threads, gone, g);
    }
    forall j, g | 0 <= j < |s'.threads| && g in s'.threads[j].calls
      ensures CallOk(s'.functs, s'.threads[j], g)
    {
      WithoutOccurrences(s.threads[j].calls, gone, g);
      assert CallOk(s.functs, s.threads[j], g);
    }
  }

  lemma ExitListing(s: State, owner: nat)
    requires Inv(s)
    ensures Listed(ExitFuncts(s, owner)) && Sorted(NamesOf(ExitFuncts(s, owner).order, ExitFuncts(s, owner).functs))
  {
    var s', gone := ExitFuncts(s, owner), OwnedBy(s, owner);
    var idx := WithoutKeepsOrder(s.order, gone);
    forall f
      ensures f in s'.order <==> f in s'.functs
    {
      WithoutOccurrences(s.order, gone, f);
    }
    assert Listed(s');
    var names, names' := NamesOf(s.order, s.functs), NamesOf(s'.order, s'.functs);
    assert forall k :: 0 <= k < |idx| ==> names'[k] == names[idx[k]];
  }

  // -------------------------------------------------------------- thread order

  lemma CreateKeepsInv(s: State, name: string, period: U64, usesFp: bool, os: Os)
    requires Inv(s) && OsOk(os)
    ensures Inv(CreateThread(s, name, period, usesFp, os).0)
  {
    var (s', r) := CreateThread(s, name, period, usesFp, os);
    SameListing(s, s');
    if r.Ok? {
      var t := s'.threads[0];
      assert s'.threads[1..] == s.threads;
      forall f | f in s'.functs
        ensures s'.functs[f].users == Uses(s'.threads, f)
      {
      }
      forall j, g | 0 <= j < |s'.threads| && g in s'.threads[j].calls
        ensures CallOk(s'.functs, s'.threads[j], g)
      {
        assert CallOk(s.functs, s.threads[j - 1], g);
      }
      NewThreadFirst(s, s');
    }
  }

  lemma NewThreadFirst(s: State, s': State)
    requires ThreadsInv(s) && |s'.threads| == |s.threads| + 1 && s'.threads[1..] == s.threads
    requires s'.basePeriod != 0
    requires var t := s'.threads[0];
             && ThreadOk(t)
             && FindThread(s.threads, t.name) == |s.threads|
             && (s.threads != [] ==> t.period >= s.threads[0].period && t.priority == NextLower(s.threads[0].priority))
    ensures ThreadsInv(s')
  {
    forall i, j | 0 <= i < j < |s'.threads|
      ensures Before(s'.threads[i], s'.threads[j])
    {
      assert s'.threads[j] == s.threads[j - 1];
      if i == 0 {
        if j > 1 {
          assert Before(s.threads[0], s.threads[j - 1]);
        }
        assert ThreadOk(s.threads[j - 1]);
      } else {
        assert s'.threads[i] == s.threads[i - 1];
        assert Before(s.threads[i - 1], s.threads[j - 1]);
      }
    }
    forall i | 0 <= i < |s'.threads|
      ensures ThreadOk(s'.threads[i])
    {
      if i > 0 {
        assert s'.threads[i] == s.threads[i - 1];
        assert ThreadOk(s.threads[i - 1]);
      }
    }
  }

  // ---------------------------------------------------------------- whole runs

  datatype Op =
    | Export(f: FunctId, name: string, owner: nat, usesFp: bool, reentrant: bool)
    | Add(funct: string, thread: string, position: int)
    | Del(funct: string, thread: string)
    | Create(name: string, period: U64, usesFp: bool, os: Os)
    | RemoveHead
    | Exit(owner: nat)
    | SetLock(locked: bool)
    | SetExactBase(exact: bool)

  /** A new function gets a structure that is not in use, and a started timer has a period. */
  predicate Enabled(s: State, op: Op) {
    match op
    case Export(f, _, _, _, _) => f !in s.functs
    case Create(_, _, _, os) => OsOk(os)
    case RemoveHead => s.threads != []
    case _ => true
  }

  ghost predicate Shape(s: State) {
    Listed(s) && (s.threads != [] ==> s.basePeriod != 0)
  }

  ghost function Step(s: State, op: Op): (s': State)
    requires Shape(s) && Enabled(s, op)
  {
    match op
    case Export(f, name, owner, usesFp, reentrant) => ExportFunct(s, f, name, owner, usesFp, reentrant).0
    case Add(funct, thread, position) => AddFunctToThread(s, funct, thread, position).0
    case Del(funct, thread) => DelFunctFromThread(s, funct, thread).0
    case Create(name, period, usesFp, os) => CreateThread(s, name, period, usesFp, os).0
    case RemoveHead => RemoveHeadThread(s)
    case Exit(owner) => ExitFuncts(s, owner)
    case SetLock(locked) => s.(locked := locked)
    case SetExactBase(exact) => s.(exactBase := exact)
  }

  lemma StepKeepsInv(s: State, op: Op)
    requires Inv(s) && Enabled(s, op)
    ensures Inv(Step(s, op))
  {
    match op
    case Export(f, name, owner, usesFp, reentrant) => ExportKeepsInv(s, f, name, owner, usesFp, reentrant);
    case Add(funct, thread, position) =>
      AddKeepsInv(s, FindFunct(s, s.order, funct), FindThread(s.threads, thread), position);
    case Del(funct, thread) => DelKeepsInv(s, FindFunct(s, s.order, funct), FindThread(s.threads, thread));
    case Create(name, period, usesFp, os) => CreateKeepsInv(s, name, period, usesFp, os);
    case RemoveHead => RemoveHeadKeepsInv(s);
    case Exit(owner) => ExitKeepsInv(s, owner);
    case SetLock(_) => SameListing(s, Step(s, op));
    case SetExactBase(_) => SameListing(s, Step(s, op));
  }

  ghost predicate IsRun(states: seq<State>, ops: seq<Op>) {
    && |states| == |ops| + 1
    && states[0] == EMPTY
    && forall i :: 0 <= i < |ops| ==>
         Shape(states[i]) && Enabled(states[i], ops[i]) && states[i + 1] == Step(states[i], ops[i])
  }

  /**
   In every state of every run: use counts equal the number of entries over all threads,
   calls are to existing functions, functions that are not re-entrant have at most one entry,
   floating point functions are only in floating point threads, and from the head of the
   thread list to its tail periods never increase and priority numbers fall (unless
   saturated).
   */
  lemma {:induction false} SchedSafety(states: seq<State>, ops: seq<Op>, n: nat)
    requires IsRun(states, ops) && n <= |ops|
    ensures Inv(states[n])
  {
    if n > 0 {
      SchedSafety(states, ops, n - 1);
      StepKeepsInv(states[n - 1], ops[n - 1]);
    }
  }

  // ------------------------------------------------------------------- results

  /**
   Position +k succeeds if and only if 1 <= k <= L + 1 and makes the new entry the k-th,
   position -k under the same condition makes it the k-th from the end; the other entries
   keep their order.
   */
  lemma PositionMeaning(s: State, f: FunctId, i: nat, position: int)
    requires f in s.functs && (s.functs[f].users <= 0 || s.functs[f].reentrant)
    requires i < |s.threads| && (s.functs[f].usesFp ==> s.threads[i].usesFp)
    ensures var (s', r) := AddFunct(s, f, i, position);
            var calls, k := s.threads[i].calls, if position >= 0 then position else -position;
            && (r.Ok? <==> 1 <= k <= |calls| + 1)
            && (r.Ok? ==>
                  var calls' := s'.threads[i].calls;
                  var at := if position > 0 then k - 1 else |calls'| - k;
                  && |calls'| == |calls| + 1 && 0 <= at < |calls'|
                  && calls'[at] == f && Remove(calls', at) == calls)
            && (r.Err? ==> s' == s)
  {
    if MayAdd(s, f, i, position) {
      var calls := s.threads[i].calls;
      var p := PositionIndex(position, |calls|);
      assert Remove(Insert(calls, p, f), p) == calls;
    }
  }

  lemma InsertTail(calls: seq<FunctId>, p: nat, f: FunctId)
    requires 0 < p <= |calls|
    ensures Insert(calls, p, f) == [calls[0]] + Insert(calls[1..], p - 1, f)
  {
    assert calls == [calls[0]] + calls[1..];
  }

  lemma {:induction false} RemoveInserted(calls: seq<FunctId>, p: nat, f: FunctId)
    requires p <= |calls| && f !in calls
    ensures RemoveFirst(Insert(calls, p, f), f) == calls
  {
    if p == 0 {
      assert Insert(calls, 0, f) == [f] + calls;
    } else {
      InsertTail(calls, p, f);
      RemoveInserted(calls[1..], p - 1, f);
      assert calls[0] in calls && ([calls[0]] + Insert(calls[1..], p - 1, f))[1..] == Insert(calls[1..], p - 1, f);
    }
  }

  /** Adding a function that has no users and deleting it again restores everything. */
  lemma DelUndoesAdd(s: State, f: FunctId, i: nat, position: int)
    requires Inv(s) && f in s.functs && s.functs[f].users == 0 && AddFunct(s, f, i, position).1.Ok?
    ensures DelFunct(AddFunct(s, f, i, position).0, f, i) == (s, Ok)
  {
    var s', calls := AddFunct(s, f, i, position).0, s.threads[i].calls;
    var p := PositionIndex(position, |calls|);
    UsesAtLeast(s.threads, i, f);
    assert f !in calls by {
      assert f !in multiset(calls);
    }
    InsertOccurrences(calls, p, f, f);
    RemoveInserted(calls, p, f);
    PutBack(s, f, i, Insert(calls, p, f));
  }

  lemma PutBack(s: State, f: FunctId, i: nat, calls: seq<FunctId>)
    requires f in s.functs && i < |s.threads|
    ensures AddUsers(SetCalls(AddUsers(SetCalls(s, i, calls), f, 1), i, s.threads[i].calls), f, -1) == s
  {
    var s' := AddUsers(SetCalls(AddUsers(SetCalls(s, i, calls), f, 1), i, s.threads[i].calls), f, -1);
    assert s'.threads == s.threads;
    assert s'.functs == s.functs;
  }

  /**
   A component's exit removes exactly its functions: what is left keeps its order, its
   structures and its use counts, no thread calls a removed function, and the other calls
   of each thread keep their order.
   */
  lemma ExitExact(s: State, owner: nat)
    requires Inv(s)
    ensures var s', gone := ExitFuncts(s, owner), OwnedBy(s, owner);
            && (forall f :: f in s'.functs <==> f in s.functs && s.functs[f].owner != owner)
            && (forall f :: f in s'.functs ==> s'.functs[f] == s.functs[f] && Uses(s'.threads, f) == Uses(s.threads, f))
            && (exists idx :: KeptPositions(s.order, gone, idx) && |idx| == |s'.order|
                              && forall k :: 0 <= k < |idx| ==> s'.order[k] == s.order[idx[k]])
            && |s'.threads| == |s.threads|
            && (forall i, f :: 0 <= i < |s'.threads| && f in s'.threads[i].calls ==> f in s'.functs)
            && (forall i :: 0 <= i < |s'.threads| ==>
                  s'.threads[i] == s.threads[i].(calls := Without(s.threads[i].calls, gone)))
  {
    var s', gone := ExitFuncts(s, owner), OwnedBy(s, owner);
    var idx := WithoutKeepsOrder(s.order, gone);
    forall f | f in s'.functs
      ensures Uses(s'.threads, f) == Uses(s.threads, f)
    {
      UsesOfCleared(s.threads, gone, f);
    }
    forall i, f | 0 <= i < |s'.threads| && f in s'.threads[i].calls
      ensures f in s'.functs
    {
      WithoutOccurrences(s.threads[i].calls, gone, f);
      assert CallOk(s.functs, s.threads[i], f);
    }
  }

  // ------------------------------------------------------------------- periods

  /**
   A created thread has the name and the floating point of the request.  Its period is a positive
   multiple of the timer period within half of it of the request if and only if the number of timer
   periods fits in an `int` and their length in a `long`.
   */
  lemma CreatedPeriodIff(s: State, name: string, period: U64, usesFp: bool, os: Os)
    requires Inv(s) && OsOk(os)
    requires CreateThread(s, name, period, usesFp, os).1.Ok?
    ensures var s' := CreateThread(s, name, period, usesFp, os).0;
            && s'.threads[1..] == s.threads && s'.threads[0].name == name && s'.threads[0].calls == []
            && s'.threads[0].usesFp == usesFp
            && s'.basePeriod != 0 && s'.threads[0].period == RoundPeriod(period, s'.basePeriod)
            && (Nearest(s'.threads[0].period, period, s'.basePeriod) <==> RatioFits(period, s'.basePeriod))
  {
    RoundPeriodNearestIff(period, CreateThread(s, name, period, usesFp, os).0.basePeriod);
  }

  /** A request of almost 30 hours is accepted and the thread runs every 25 microseconds. */
  lemma TruncatedThreads()
    ensures var (s, r) := CreateThread(EMPTY, "t", 25000 * (UINT + 1), false, Os(true, 25000, 25000, true));
            r == Ok && |s.threads| == 1 && s.threads[0].period == s.basePeriod == 25000
    ensures var (s, r) := CreateThread(EMPTY, "t", 25000 * UINT, false, Os(true, 25000, 25000, true));
            r == Ok && |s.threads| == 1 && s.threads[0].period == 0
  {
    TruncationExample();
  }

  /** Threads come and go at the head of the list, so a thread is known by its place from the tail. */
  function FromTail(threads: seq<Thread>, d: nat): (t: Thread)
    requires d < |threads|
  {
    threads[|threads| - 1 - d]
  }

  /** The call goes through. */
  ghost predicate Creates(s: State, op: Op) {
    && Shape(s) && op.Create? && Enabled(s, op)
    && CreateThread(s, op.name, op.period, op.usesFp, op.os).1.Ok?
  }

  /**
   The `k`-th call made the thread that stands at place `d` from the tail after `n` calls: it went
   through when there were `d` threads, and from then on there have always been more.
   */
  ghost predicate MadeAt(states: seq<State>, ops: seq<Op>, n: nat, d: nat, k: int) {
    && |states| == |ops| + 1 && n <= |ops| && 0 <= k < n
    && Creates(states[k], ops[k]) && |states[k].threads| == d
    && forall j :: k < j <= n ==> |states[j].threads| > d
  }

  /** The thread is as the call asked; its period is nearest to the request if and only if the ratio fits. */
  ghost predicate AsRequested(t: Thread, base: S64, op: Op) {
    && op.Create? && base != 0 && t.name == op.name && t.usesFp == op.usesFp
    && t.period == RoundPeriod(op.period, base)
    && (Nearest(t.period, op.period, base) <==> RatioFits(op.period, base))
  }

  /** One of the first `n` calls made the thread at place `d` from the tail, and it is as that call asked. */
  ghost predicate Made(states: seq<State>, ops: seq<Op>, n: nat, d: nat) {
    exists k :: MadeAt(states, ops, n, d, k)
                && AsRequested(FromTail(states[n].threads, d), states[n].basePeriod, ops[k])
  }

  ghost predicate AllMade(states: seq<State>, ops: seq<Op>, n: nat)
    requires n < |states|
  {
    forall d :: 0 <= d < |states[n].threads| ==> Made(states, ops, n, d)
  }

  /** A call that creates no thread leaves the periods of those it leaves. */
  ghost predicate SamePeriods(s: State, s': State) {
    && (s'.threads != [] ==> s'.basePeriod == s.basePeriod)
    && |s'.threads| <= |s.threads|
    && forall d :: 0 <= d < |s'.threads| ==>
         && FromTail(s'.threads, d).name == FromTail(s.threads, d).name
         && FromTail(s'.threads, d).usesFp == FromTail(s.threads, d).usesFp
         && FromTail(s'.threads, d).period == FromTail(s.threads, d).period
  }

  lemma SetCallsKeepsPeriods(s: State, i: nat, calls: seq<FunctId>, f: FunctId, n: int)
    requires i < |s.threads| && f in s.functs
    ensures SamePeriods(s, AddUsers(SetCalls(s, i, calls), f, n))
  {
  }

  lemma AddDelKeepPeriods(s: State, f: FunctId, i: nat, position: int)
    ensures SamePeriods(s, AddFunct(s, f, i, position).0) && SamePeriods(s, DelFunct(s, f, i).0)
  {
    if MayAdd(s, f, i, position) {
      var calls := s.threads[i].calls;
      SetCallsKeepsPeriods(s, i, Insert(calls, PositionIndex(position, |calls|), f), f, 1);
    }
    if MayDel(s, f, i) {
      SetCallsKeepsPeriods(s, i, RemoveFirst(s.threads[i].calls, f), f, -1);
    }
  }

  lemma ListCallsKeepPeriods(s: State, op: Op)
    requires Inv(s) && Enabled(s, op) && (op.Add? || op.Del?)
    ensures SamePeriods(s, Step(s, op))
  {
    match op
    case Add(funct, thread, position) =>
      AddDelKeepPeriods(s, FindFunct(s, s.order, funct), FindThread(s.threads, thread), position);
    case Del(funct, thread) => AddDelKeepPeriods(s, FindFunct(s, s.order, funct), FindThread(s.threads, thread), 0);
  }

  lemma ExitKeepsPeriods(s: State, owner: nat)
    ensures SamePeriods(s, ExitFuncts(s, owner))
  {
  }

  lemma HeadKeepsPeriods(s: State)
    requires s.threads != []
    ensures SamePeriods(s, RemoveHeadThread(s))
  {
  }

  lemma OtherCallsKeepPeriods(s: State, op: Op)
    requires Inv(s) && Enabled(s, op) && !Creates(s, op)
    ensures SamePeriods(s, Step(s, op))
  {
    if op.Add? || op.Del? {
      ListCallsKeepPeriods(s, op);
    } else if op.Exit? {
      ExitKeepsPeriods(s, op.owner);
    } else if op.RemoveHead? {
      HeadKeepsPeriods(s);
    } else {
      assert Step(s, op).threads == s.threads;
    }
  }

  /**
   In every state of every run each thread was made by a call of the run that went through, it has
   the period computed for that call's request, and that is a positive multiple of the timer period
   within half of it of the request if and only if the ratio fitted.
   */
  lemma {:induction false} PeriodsOfRuns(states: seq<State>, ops: seq<Op>, n: nat)
    requires IsRun(states, ops) && n <= |ops|
    ensures AllMade(states, ops, n)
  {
    if n > 0 {
      var k := n - 1;
      PeriodsOfRuns(states, ops, k);
      SchedSafety(states, ops, k);
      RunGoes(states, ops, k, n);
      if Creates(states[k], ops[k]) {
        CreatedMade(states, ops, n);
      } else {
        OtherCallsKeepPeriods(states[k], ops[k]);
        KeptMade(states, ops, n);
      }
    }
  }

  lemma RunGoes(states: seq<State>, ops: seq<Op>, k: nat, n: nat)
    requires IsRun(states, ops) && n == k + 1 <= |ops|
    ensures Shape(states[k]) && Enabled(states[k], ops[k]) && states[n] == Step(states[k], ops[k])
  {
    assert states[k + 1] == Step(states[k], ops[k]);
  }

  /** A thread that is still there was made by the call that made it. */
  lemma StillMade(states: seq<State>, ops: seq<Op>, n: nat, d: nat)
    requires |states| == |ops| + 1 && 0 < n <= |ops| && d < |states[n - 1].threads| && d < |states[n].threads|
    requires Made(states, ops, n - 1, d) && states[n].basePeriod == states[n - 1].basePeriod
    requires var t, t' := FromTail(states[n - 1].threads, d), FromTail(states[n].threads, d);
             t'.name == t.name && t'.usesFp == t.usesFp && t'.period == t.period
    ensures Made(states, ops, n, d)
  {
    var m := n - 1;
    var k :| MadeAt(states, ops, m, d, k)
             && AsRequested(FromTail(states[m].threads, d), states[m].basePeriod, ops[k]);
    assert MadeAt(states, ops, n, d, k);
  }

  lemma KeptMade(states: seq<State>, ops: seq<Op>, n: nat)
    requires |states| == |ops| + 1 && 0 < n <= |ops|
    requires AllMade(states, ops, n - 1) && SamePeriods(states[n - 1], states[n])
    ensures AllMade(states, ops, n)
  {
    forall d | 0 <= d < |states[n].threads|
      ensures Made(states, ops, n, d)
    {
      assert Made(states, ops, n - 1, d);
      StillMade(states, ops, n, d);
    }
  }

  lemma PushedFromTail(head: Thread, threads: seq<Thread>)
    ensures FromTail([head] + threads, |threads|) == head
    ensures forall d :: 0 <= d < |threads| ==> FromTail([head] + threads, d) == FromTail(threads, d)
  {
  }

  lemma CreatedHead(s: State, op: Op)
    requires Inv(s) && Creates(s, op)
    ensures var s' := Step(s, op);
            && s'.threads != [] && s'.threads == [s'.threads[0]] + s.threads
            && AsRequested(s'.threads[0], s'.basePeriod, op)
            && (s.threads != [] ==> s'.basePeriod == s.basePeriod)
  {
    CreatedPeriodIff(s, op.name, op.period, op.usesFp, op.os);
  }

  /** The new thread stands one place further from the tail, and the others keep their places. */
  lemma CreatedFromTail(s: State, op: Op)
    requires Inv(s) && Creates(s, op)
    ensures var s' := Step(s, op);
            && |s'.threads| == |s.threads| + 1
            && AsRequested(FromTail(s'.threads, |s.threads|), s'.basePeriod, op)
            && (s.threads != [] ==> s'.basePeriod == s.basePeriod)
            && forall d :: 0 <= d < |s.threads| ==> FromTail(s'.threads, d) == FromTail(s.threads, d)
  {
    CreatedHead(s, op);
    PushedFromTail(Step(s, op).threads[0], s.threads);
  }

  lemma CreatedMade(states: seq<State>, ops: seq<Op>, n: nat)
    requires |states| == |ops| + 1 && 0 < n <= |ops| && AllMade(states, ops, n - 1)
    requires Inv(states[n - 1]) && Creates(states[n - 1], ops[n - 1]) && states[n] == Step(states[n - 1], ops[n - 1])
    ensures AllMade(states, ops, n)
  {
    var s, s' := states[n - 1], states[n];
    CreatedFromTail(s, ops[n - 1]);
    forall d | 0 <= d < |s'.threads|
      ensures Made(states, ops, n, d)
    {
      if d == |s.threads| {
        assert MadeAt(states, ops, n, d, n - 1);
      } else {
        assert Made(states, ops, n - 1, d);
        StillMade(states, ops, n, d);
      }
    }
  }
}
