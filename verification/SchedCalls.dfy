/**
 What each scheduling call of the HAL does with its arguments, and exactly when it succeeds
 (src/hal/hal_lib.c, `hal_export_funct`, `hal_add_funct_to_thread`, `hal_del_funct_from_thread`,
 `hal_create_thread`).
 */
module SchedCalls {
  import opened Lists
  import opened Names
  import opened Machine
  import opened Priority
  import opened Periods
  import opened Sched
  import opened SchedProofs

  // ------------------------------------------------------------------- exports

  /** `f` is a function of this name. */
  predicate Named(s: State, f: FunctId, name: string) { f in s.functs && s.functs[f].name == name }

  lemma NameListed(s: State, name: string)
    requires Listed(s)
    ensures name in NamesOf(s.order, s.functs) <==> exists f :: Named(s, f, name)
  {
    var names := NamesOf(s.order, s.functs);
    if name in names {
      var i :| 0 <= i < |names| && names[i] == name;
      assert Named(s, s.order[i], name);
    }
    forall f | Named(s, f, name)
      ensures name in names
    {
      var i :| 0 <= i < |s.order| && s.order[i] == f;
      assert names[i] == name;
    }
  }

  /** The function is as the export asked for; `f` is its structure. */
  predicate AsExported(g: Funct, name: string, owner: nat, usesFp: bool, reentrant: bool) {
    g.name == name && g.owner == owner && g.usesFp == usesFp && g.reentrant == reentrant
  }

  /** `f` has joined the list, and the others are as they were. */
  ghost predicate Joined(s: State, s': State, f: FunctId) {
    && f in s'.functs && s'.functs == s.functs[f := s'.functs[f]]
    && s' == s.(order := s'.order, functs := s'.functs)
    && exists p :: 0 <= p < |s'.order| && s'.order[p] == f && Remove(s'.order, p) == s.order
  }

  lemma ExportJoins(s: State, f: FunctId, name: string, owner: nat, usesFp: bool, reentrant: bool)
    requires Listed(s) && ExportFunct(s, f, name, owner, usesFp, reentrant).1.Ok?
    ensures var s' := ExportFunct(s, f, name, owner, usesFp, reentrant).0;
            Joined(s, s', f) && AsExported(s'.functs[f], name, owner, usesFp, reentrant) && s'.functs[f].users == 0
  {
    var s', p := ExportFunct(s, f, name, owner, usesFp, reentrant).0, Place(NamesOf(s.order, s.functs), name);
    assert s'.order[p] == f && Remove(s'.order, p) == s.order;
  }

  /** An export succeeds if and only if the name is new and not too long and there is memory. */
  lemma ExportExact(s: State, f: FunctId, name: string, owner: nat, usesFp: bool, reentrant: bool)
    requires Inv(s) && f !in s.functs
    ensures var (s', r) := ExportFunct(s, f, name, owner, usesFp, reentrant);
            && (r.Ok? <==> |name| <= HAL_NAME_LEN && f != 0 && forall g :: !Named(s, g, name))
            && (r.Err? ==> s' == s) && (r == Err(ENOMEM) <==> |name| <= HAL_NAME_LEN && f == 0)
            && (r.Ok? ==> && Joined(s, s', f) && s'.functs[f].users == 0
                          && AsExported(s'.functs[f], name, owner, usesFp, reentrant))
  {
    NameListed(s, name);
    if ExportFunct(s, f, name, owner, usesFp, reentrant).1.Ok? {
      ExportJoins(s, f, name, owner, usesFp, reentrant);
    }
  }

  /**
   What the two flags of an export mean: the function can be added to a thread if and only if the
   thread has floating point or the function needs none, and at once a second time, to any thread of
   that kind, if and only if it is also re-entrant.
   */
  lemma ExportFlags(s: State, f: FunctId, name: string, owner: nat, usesFp: bool, reentrant: bool,
                    i: nat, pos: int, j: nat, pos': int)
    requires Inv(s) && f !in s.functs && ExportFunct(s, f, name, owner, usesFp, reentrant).1.Ok?
    requires i < |s.threads| && PositionOk(pos, |s.threads[i].calls|) && j < |s.threads|
    ensures var s1 := ExportFunct(s, f, name, owner, usesFp, reentrant).0;
            var (s2, r) := AddFunct(s1, f, i, pos);
            && (r.Ok? <==> (usesFp ==> s.threads[i].usesFp))
            && (r.Ok? && PositionOk(pos', |s2.threads[j].calls|) ==>
                  (AddFunct(s2, f, j, pos').1.Ok? <==> reentrant && (usesFp ==> s.threads[j].usesFp)))
  {
  }

  // ------------------------------------------------------ names tell functions apart

  ghost predicate NamesUnique(s: State) {
    forall f, g :: f in s.functs && g in s.functs && s.functs[f].name == s.functs[g].name ==> f == g
  }

  lemma ExportKeepsNames(s: State, f: FunctId, name: string, owner: nat, usesFp: bool, reentrant: bool)
    requires Inv(s) && NamesUnique(s) && f !in s.functs
    ensures NamesUnique(ExportFunct(s, f, name, owner, usesFp, reentrant).0)
  {
    NameListed(s, name);
    assert forall g :: g in s.functs && s.functs[g].name == name ==> Named(s, g, name);
  }

  lemma OtherCallsKeepNames(s: State, op: Op)
    requires Inv(s) && Enabled(s, op) && !op.Export?
    ensures SameFuncts(s, Step(s, op))
  {
    match op
    case Add(funct, thread, position) =>
      AddDelKeepFuncts(s, FindFunct(s, s.order, funct), FindThread(s.threads, thread), position);
    case Del(funct, thread) => AddDelKeepFuncts(s, FindFunct(s, s.order, funct), FindThread(s.threads, thread), 0);
    case RemoveHead => assert SameFuncts(s, RemoveHeadThread(s));
    case Create(name, period, usesFp, os) => assert CreateThread(s, name, period, usesFp, os).0.functs == s.functs;
    case _ =>
  }

  lemma AddDelKeepFuncts(s: State, f: FunctId, i: nat, position: int)
    ensures SameFuncts(s, AddFunct(s, f, i, position).0) && SameFuncts(s, DelFunct(s, f, i).0)
  {
  }

  /** What is left of the functions differs at most in use counts. */
  ghost predicate SameFuncts(s: State, s': State) {
    forall f :: f in s'.functs ==> f in s.functs && s'.functs[f] == s.functs[f].(users := s'.functs[f].users)
  }

  lemma StepKeepsNames(s: State, op: Op)
    requires Inv(s) && NamesUnique(s) && Enabled(s, op)
    ensures NamesUnique(Step(s, op))
  {
    if op.Export? {
      ExportKeepsNames(s, op.f, op.name, op.owner, op.usesFp, op.reentrant);
    } else {
      OtherCallsKeepNames(s, op);
    }
  }

  /** In every state of every run no two functions have one name. */
  lemma {:induction false} NamesOfRuns(states: seq<State>, ops: seq<Op>, n: nat)
    requires IsRun(states, ops) && n <= |ops|
    ensures NamesUnique(states[n])
  {
    if n > 0 {
      var k := n - 1;
      NamesOfRuns(states, ops, k);
      SchedSafety(states, ops, k);
      RunGoes(states, ops, k, n);
      StepKeepsNames(states[k], ops[k]);
    }
  }

  // ------------------------------------------------------------ functions of runs

  /** The `k`-th call exported `f`, and it has been there ever since. */
  ghost predicate ExportedAt(states: seq<State>, ops: seq<Op>, n: nat, f: FunctId, k: int) {
    && |states| == |ops| + 1 && 0 <= k < n <= |ops|
    && ops[k].Export? && ops[k].f == f && f !in states[k].functs
    && forall j :: k < j <= n ==> f in states[j].functs
  }

  ghost predicate Exported(states: seq<State>, ops: seq<Op>, n: nat, f: FunctId)
    requires n < |states| && f in states[n].functs
  {
    exists k :: && ExportedAt(states, ops, n, f, k)
                && AsExported(states[n].functs[f], ops[k].name, ops[k].owner, ops[k].usesFp, ops[k].reentrant)
  }

  ghost predicate AllExported(states: seq<State>, ops: seq<Op>, n: nat)
    requires n < |states|
  {
    forall f :: f in states[n].functs ==> Exported(states, ops, n, f)
  }

  lemma StillExported(states: seq<State>, ops: seq<Op>, m: nat, n: nat, f: FunctId)
    requires |states| == |ops| + 1 && n == m + 1 <= |ops| && f in states[m].functs && Exported(states, ops, m, f)
    requires f in states[n].functs && states[n].functs[f] == states[m].functs[f].(users := states[n].functs[f].users)
    ensures Exported(states, ops, n, f)
  {
    var k :| ExportedAt(states, ops, m, f, k)
             && AsExported(states[m].functs[f], ops[k].name, ops[k].owner, ops[k].usesFp, ops[k].reentrant);
    assert ExportedAt(states, ops, n, f, k);
  }

  lemma ExportStep(s: State, op: Op, s': State)
    requires Inv(s) && Enabled(s, op) && op.Export? && s' == Step(s, op)
    ensures forall f :: f in s'.functs ==>
              if f in s.functs then s'.functs[f] == s.functs[f]
              else f == op.f && AsExported(s'.functs[f], op.name, op.owner, op.usesFp, op.reentrant)
  {
    ExportExact(s, op.f, op.name, op.owner, op.usesFp, op.reentrant);
  }

  lemma JustExported(states: seq<State>, ops: seq<Op>, m: nat, n: nat)
    requires |states| == |ops| + 1 && n == m + 1 <= |ops| && AllExported(states, ops, m) && ops[m].Export?
    requires Inv(states[m]) && Enabled(states[m], ops[m])
    requires forall f :: f in states[n].functs ==>
               if f in states[m].functs then states[n].functs[f] == states[m].functs[f]
               else f == ops[m].f && AsExported(states[n].functs[f], ops[m].name, ops[m].owner, ops[m].usesFp, ops[m].reentrant)
    ensures AllExported(states, ops, n)
  {
    forall f | f in states[n].functs
      ensures Exported(states, ops, n, f)
    {
      if f in states[m].functs {
        StillExported(states, ops, m, n, f);
      } else {
        assert ExportedAt(states, ops, n, f, m);
      }
    }
  }

  /**
   In every state of every run each function was exported by a call of the run, and has the name, the
   owner and the two flags of that call.
   */
  lemma {:induction false} FunctsOfRuns(states: seq<State>, ops: seq<Op>, n: nat)
    requires IsRun(states, ops) && n <= |ops|
    ensures AllExported(states, ops, n)
  {
    if n > 0 {
      var k := n - 1;
      FunctsOfRuns(states, ops, k);
      SchedSafety(states, ops, k);
      RunGoes(states, ops, k, n);
      if ops[k].Export? {
        ExportStep(states[k], ops[k], states[n]);
        JustExported(states, ops, k, n);
      } else {
        OtherCallsKeepNames(states[k], ops[k]);
        forall f | f in states[n].functs
          ensures Exported(states, ops, n, f)
        {
          StillExported(states, ops, k, n, f);
        }
      }
    }
  }

  // -------------------------------------------------------- adding and deleting

  lemma {:induction false} FunctFound(s: State, order: seq<FunctId>, name: string)
    requires (forall g :: g in order ==> g in s.functs) && 0 !in order
    ensures FindFunct(s, order, name) != 0 <==> exists g :: g in order && s.functs[g].name == name
  {
    if order != [] {
      FunctFound(s, order[1..], name);
      assert order == [order[0]] + order[1..];
    }
  }

  /** The function and the thread of the names given. */
  predicate Pair(s: State, funct: string, thread: string, f: FunctId, i: int) {
    Named(s, f, funct) && 0 <= i < |s.threads| && s.threads[i].name == thread
  }

  lemma LookUp(s: State, funct: string, thread: string)
    requires Inv(s) && NamesUnique(s)
    ensures var f, i := FindFunct(s, s.order, funct), FindThread(s.threads, thread);
            && (forall g, j :: Pair(s, funct, thread, g, j) ==> g == f && j == i)
            && (Pair(s, funct, thread, f, i) <==> f in s.functs && i < |s.threads|)
  {
    FunctFound(s, s.order, funct);
    var f, i := FindFunct(s, s.order, funct), FindThread(s.threads, thread);
    forall g, j | Pair(s, funct, thread, g, j)
      ensures g == f && j == i
    {
      assert g in s.order && s.functs[g].name == funct;
      assert i < |s.threads|;
      assert forall k :: 0 <= k < i ==> s.threads[k].name != thread;
      assert i < j ==> Before(s.threads[i], s.threads[j]);
    }
  }

  /** An entry may be added: the function is not in use or re-entrant, the thread can run it and the place is there. */
  predicate Fits(s: State, f: FunctId, i: int, position: int) {
    && f in s.functs && 0 <= i < |s.threads|
    && (Uses(s.threads, f) == 0 || s.functs[f].reentrant)
    && (s.functs[f].usesFp ==> s.threads[i].usesFp)
    && 1 <= (if position >= 0 then position else -position) <= |s.threads[i].calls| + 1
  }

  /** The call list of thread `i` has become `calls`, the use count of `f` has grown by `n`, and nothing else has changed. */
  predicate OneList(s: State, s': State, i: int, f: FunctId, calls: seq<FunctId>, n: int) {
    && f in s.functs && 0 <= i < |s.threads|
    && s'.functs == s.functs[f := s.functs[f].(users := s.functs[f].users + n)]
    && s'.threads == s.threads[i := s.threads[i].(calls := calls)]
    && s' == s.(functs := s'.functs, threads := s'.threads)
  }

  /** `calls` is the list with an entry for `f` at the position, counted from 1 at the front or from -1 at the back. */
  predicate EntryAt(before: seq<FunctId>, calls: seq<FunctId>, f: FunctId, position: int) {
    var at := if position > 0 then position - 1 else |calls| + position;
    0 <= at < |calls| && calls[at] == f && Remove(calls, at) == before
  }

  ghost predicate Added(s: State, s': State, f: FunctId, i: int, position: int) {
    exists calls :: OneList(s, s', i, f, calls, 1) && EntryAt(s.threads[i].calls, calls, f, position)
  }

  lemma FitsIff(s: State, f: FunctId, i: nat, position: int)
    requires CallsInv(s) && f in s.functs && i < |s.threads|
    ensures MayAdd(s, f, i, position) <==> Fits(s, f, i, position)
  {
  }

  lemma EntryInserted(calls: seq<FunctId>, f: FunctId, position: int)
    requires PositionOk(position, |calls|)
    ensures EntryAt(calls, Insert(calls, PositionIndex(position, |calls|), f), f, position)
  {
    var p := PositionIndex(position, |calls|);
    assert Remove(Insert(calls, p, f), p) == calls;
  }

  lemma AddFound(s: State, f: FunctId, i: nat, position: int)
    requires f in s.functs && i < |s.threads| && MayAdd(s, f, i, position)
    ensures Added(s, AddFunct(s, f, i, position).0, f, i, position)
  {
    var calls := s.threads[i].calls;
    EntryInserted(calls, f, position);
    assert OneList(s, AddFunct(s, f, i, position).0, i, f, Insert(calls, PositionIndex(position, |calls|), f), 1);
  }

  /** An addition succeeds if and only if nothing is locked and both are there and fit; it adds one entry at its place. */
  lemma AddExact(s: State, funct: string, thread: string, position: int)
    requires Inv(s) && NamesUnique(s)
    ensures var (s', r) := AddFunctToThread(s, funct, thread, position);
            && (r.Ok? <==> !s.locked && exists f, i :: Pair(s, funct, thread, f, i) && Fits(s, f, i, position))
            && (r.Err? ==> s' == s) && (r == Err(EPERM) <==> s.locked)
            && (r.Ok? ==> exists f, i :: Pair(s, funct, thread, f, i) && Added(s, s', f, i, position))
  {
    LookUp(s, funct, thread);
    var f, i := FindFunct(s, s.order, funct), FindThread(s.threads, thread);
    if f in s.functs && i < |s.threads| {
      FitsIff(s, f, i, position);
      if MayAdd(s, f, i, position) {
        AddFound(s, f, i, position);
      }
      assert Pair(s, funct, thread, f, i);
    }
  }

  lemma {:induction false} FirstRemoved(calls: seq<FunctId>, f: FunctId) returns (k: nat)
    requires f in calls
    ensures FirstEntryGone(calls, RemoveFirst(calls, f), f, k)
  {
    if calls[0] == f {
      k := 0;
      assert Remove(calls, 0) == calls[1..];
    } else {
      var k1 := FirstRemoved(calls[1..], f);
      k := k1 + 1;
      assert calls[..k] == [calls[0]] + calls[1..][..k1];
      assert Remove(calls, k) == [calls[0]] + Remove(calls[1..], k1);
    }
  }

  /** `calls'` is the list without its first entry for `f`, which stood at `k`. */
  predicate FirstEntryGone(calls: seq<FunctId>, calls': seq<FunctId>, f: FunctId, k: int) {
    0 <= k < |calls| && calls[k] == f && f !in calls[..k] && calls' == Remove(calls, k)
  }

  ghost predicate Deleted(s: State, s': State, f: FunctId, i: int) {
    exists calls, k :: OneList(s, s', i, f, calls, -1) && FirstEntryGone(s.threads[i].calls, calls, f, k)
  }

  lemma DelFound(s: State, f: FunctId, i: nat)
    requires Inv(s) && f in s.functs && i < |s.threads|
    ensures DelFunct(s, f, i).1.Ok? <==> f in s.threads[i].calls
    ensures f in s.threads[i].calls ==> Deleted(s, DelFunct(s, f, i).0, f, i)
  {
    var calls := s.threads[i].calls;
    if f in calls {
      UsesAtLeast(s.threads, i, f);
      assert f in multiset(calls);
      var k := FirstRemoved(calls, f);
      assert OneList(s, DelFunct(s, f, i).0, i, f, RemoveFirst(calls, f), -1);
    }
  }

  /** A deletion succeeds if and only if nothing is locked and the thread calls the function; the first entry goes. */
  lemma DelExact(s: State, funct: string, thread: string)
    requires Inv(s) && NamesUnique(s)
    ensures var (s', r) := DelFunctFromThread(s, funct, thread);
            && (r.Ok? <==> !s.locked && exists f, i :: Pair(s, funct, thread, f, i) && f in s.threads[i].calls)
            && (r.Err? ==> s' == s) && (r == Err(EPERM) <==> s.locked)
            && (r.Ok? ==> exists f, i :: Pair(s, funct, thread, f, i) && Deleted(s, s', f, i))
  {
    LookUp(s, funct, thread);
    var f, i := FindFunct(s, s.order, funct), FindThread(s.threads, thread);
    if f in s.functs && i < |s.threads| {
      DelFound(s, f, i);
      assert Pair(s, funct, thread, f, i);
    }
  }

  // ------------------------------------------------------------------- threads

  /** The timer period that counts: that of the first thread, or of the timer, running or just started. */
  function TimerPeriod(s: State, period: U64, os: Os): S64 {
    if s.threads != [] then s.basePeriod
    else if s.exactBase then ToLong(period)
    else if os.clockNow != 0 then os.clockNow else os.clockStarted
  }

  /** The timer that the first thread finds, or starts, does not run slower than asked for, but for 1%. */
  predicate TimerOk(s: State, period: U64, os: Os) {
    s.threads == [] ==>
      var timer := if os.clockNow != 0 then os.clockNow else os.clockStarted;
      0 <= timer <= ToULong(period + period / 100)
  }

  /**
   A thread is created if and only if nothing is locked, the name is new and not too long, there is
   memory, the timer will do and the task starts, and the period is at least that of the timer and,
   rounded, at least that of the newest thread.  It has the name and the floating point of the request,
   calls nothing, and ranks just below the newest thread.
   */
  lemma CreateExact(s: State, name: string, period: U64, usesFp: bool, os: Os)
    requires Inv(s) && OsOk(os)
    ensures var (s', r) := CreateThread(s, name, period, usesFp, os);
            var base := TimerPeriod(s, period, os);
            && (r.Ok? <==>
                  && period != 0 && |name| <= HAL_NAME_LEN && !s.locked && os.memOk && os.taskOk && TimerOk(s, period, os)
                  && (forall i :: 0 <= i < |s.threads| ==> s.threads[i].name != name)
                  && base != 0 && ToULong(base) <= period
                  && RoundPeriod(period, base) >= if s.threads == [] then 0 else s.threads[0].period)
            && (r.Ok? ==>
                  && s'.basePeriod == base != 0 && s'.threads != [] && s'.threads[1..] == s.threads
                  && s'.functs == s.functs && s'.order == s.order
                  && var t := s'.threads[0];
                     && t.name == name && t.usesFp == usesFp && t.calls == [] && t.period == RoundPeriod(period, base)
                     && t.priority == if s.threads == [] then PRIO_HIGHEST + 1
                                      else if s.threads[0].priority < PRIO_LOWEST then s.threads[0].priority + 1 else PRIO_LOWEST)
            && (r.Err? ==> s'.threads == s.threads && s'.functs == s.functs && s'.order == s.order)
  {
    assert s.threads != [] ==> ThreadOk(s.threads[0]);
    var i := FindThread(s.threads, name);
  }
}
