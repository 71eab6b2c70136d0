/**
 Functions and threads of the HAL (src/hal/hal_lib.c), as values: what exporting a
 function, adding it to a thread, deleting it, creating and removing threads and a
 component's exit do to the function list and to the call list of each thread.
 */
module Sched {
  import opened Machine
  import opened Priority
  import opened Periods
  import opened Lists
  import opened Names

  /** A function structure is known by its offset in shared memory, which is never 0. */
  type FunctId = nat

  datatype Funct = Funct(name: string, owner: nat, usesFp: bool, reentrant: bool, users: int)

  /** `calls` is the thread's function list in the order the functions run. */
  datatype Thread = Thread(name: string, usesFp: bool, period: int, priority: int, calls: seq<FunctId>)

  /**
   The function list in list order, the function structures, the threads in list order
   (the newest, slowest and least urgent first) and the timer period.
   */
  datatype State = State(order: seq<FunctId>, functs: map<FunctId, Funct>, threads: seq<Thread>,
                         basePeriod: S64, exactBase: bool, locked: bool)

  datatype Error = EINVAL | EPERM | ENOMEM

  datatype Result = Ok | Err(e: Error)

  const EMPTY := State([], map[], [], 0, false, false)

  // ----------------------------------------------------------------- invariant

  /** How often `f` occurs in a call list. */
  function Occurrences(calls: seq<FunctId>, f: FunctId): nat { multiset(calls)[f] }

  /** How often `f` occurs in the call lists of all the threads. */
  function Uses(threads: seq<Thread>, f: FunctId): nat {
    if threads == [] then 0 else Occurrences(threads[0].calls, f) + Uses(threads[1..], f)
  }

  /** The list holds every function structure once. */
  ghost predicate Listed(s: State) {
    && (forall f :: f in s.order <==> f in s.functs)
    && (forall i, j :: 0 <= i < j < |s.order| ==> s.order[i] != s.order[j])
    && 0 !in s.functs
  }

  /** The names of the functions, in list order. */
  function NamesOf(order: seq<FunctId>, functs: map<FunctId, Funct>): (names: seq<string>)
    requires forall f :: f in order ==> f in functs
    ensures |names| == |order| && forall i :: 0 <= i < |names| ==> names[i] == functs[order[i]].name
  {
    seq(|order|, i requires 0 <= i < |order| => functs[order[i]].name)
  }

  /** A call of `f` by `t` is to an existing function that the thread can run. */
  predicate CallOk(functs: map<FunctId, Funct>, t: Thread, f: FunctId) {
    f in functs && (functs[f].usesFp ==> t.usesFp)
  }

  /**
   What every operation keeps about functions and calls: use counts are exact, every call
   is to an existing function, a function that is not re-entrant is called from at most
   one place, and floating point functions are called only by floating point threads.
   */
  ghost predicate CallsInv(s: State) {
    && (forall f :: f in s.functs ==> s.functs[f].users == Uses(s.threads, f))
    && (forall f :: f in s.functs && !s.functs[f].reentrant ==> s.functs[f].users <= 1)
    && (forall i, f :: 0 <= i < |s.threads| && f in s.threads[i].calls ==> CallOk(s.functs, s.threads[i], f))
  }

  /** What every operation keeps about the thread list: slow and unimportant threads first. */
  ghost predicate ThreadsInv(s: State) {
    && (s.threads != [] ==> s.basePeriod != 0)
    && (forall i :: 0 <= i < |s.threads| ==> ThreadOk(s.threads[i]))
    && (forall i, j :: 0 <= i < j < |s.threads| ==> Before(s.threads[i], s.threads[j]))
  }

  predicate ThreadOk(t: Thread) {
    PRIO_HIGHEST < t.priority <= PRIO_LOWEST && t.period >= 0
  }

  /** `t` may stand before `u` in the thread list. */
  predicate Before(t: Thread, u: Thread) {
    && t.period >= u.period
    && (t.priority > u.priority || t.priority == u.priority == PRIO_LOWEST)
    && t.name != u.name
  }

  ghost predicate Inv(s: State) {
    Listed(s) && Sorted(NamesOf(s.order, s.functs)) && CallsInv(s) && ThreadsInv(s)
  }

  // -------------------------------------------------------- one call list

  /** A position counts from 1 at the front, or from -1 at the back. */
  predicate PositionOk(position: int, len: nat) {
    1 <= position <= len + 1 || 1 <= -position <= len + 1
  }

  /** The index the new entry gets. */
  function PositionIndex(position: int, len: nat): (i: nat)
    requires PositionOk(position, len)
    ensures i <= len
  {
    if position > 0 then position - 1 else len + 1 + position
  }

  /** The list without the first call of `f`. */
  function RemoveFirst(calls: seq<FunctId>, f: FunctId): (r: seq<FunctId>) {
    if calls == [] then [] else if calls[0] == f then calls[1..] else [calls[0]] + RemoveFirst(calls[1..], f)
  }

  // ---------------------------------------------------------------- operations

  /** The first function of that name in list order, or 0. */
  function FindFunct(s: State, order: seq<FunctId>, name: string): (f: FunctId)
    requires forall g :: g in order ==> g in s.functs
    ensures f != 0 ==> f in order && s.functs[f].name == name
  {
    if order == [] then 0
    else if s.functs[order[0]].name == name then order[0]
    else FindFunct(s, order[1..], name)
  }

  /** The index of the first thread of that name, or the number of threads. */
  function FindThread(threads: seq<Thread>, name: string): (i: nat)
    ensures i <= |threads|
    ensures i < |threads| ==> threads[i].name == name
    ensures forall j :: 0 <= j < i ==> threads[j].name != name
  {
    if threads == [] || threads[0].name == name then 0 else 1 + FindThread(threads[1..], name)
  }

  function SetCalls(s: State, i: nat, calls: seq<FunctId>): (s': State)
    requires i < |s.threads|
  {
    s.(threads := s.threads[i := s.threads[i].(calls := calls)])
  }

  function AddUsers(s: State, f: FunctId, n: int): (s': State)
    requires f in s.functs
  {
    s.(functs := s.functs[f := s.functs[f].(users := s.functs[f].users + n)])
  }

  /** `hal_export_funct` by a component that may export, into a fresh structure `f`, or 0 if there is no memory. */
  function ExportFunct(s: State, f: FunctId, name: string, owner: nat, usesFp: bool, reentrant: bool): (r: (State, Result))
    requires Listed(s)
  {
    if |name| > HAL_NAME_LEN then (s, Err(EINVAL))
    else if f == 0 then (s, Err(ENOMEM))
    else if name in NamesOf(s.order, s.functs) then (s, Err(EINVAL))
    else
      var p := Place(NamesOf(s.order, s.functs), name);
      (s.(order := Insert(s.order, p, f), functs := s.functs[f := Funct(name, owner, usesFp, reentrant, 0)]), Ok)
  }

  predicate MayAdd(s: State, f: FunctId, i: nat, position: int) {
    && f in s.functs
    && !(s.functs[f].users > 0 && !s.functs[f].reentrant)
    && i < |s.threads|
    && !(s.functs[f].usesFp && !s.threads[i].usesFp)
    && PositionOk(position, |s.threads[i].calls|)
  }

  /** `hal_add_funct_to_thread` once the function and the thread have been looked up. */
  function AddFunct(s: State, f: FunctId, i: nat, position: int): (r: (State, Result)) {
    if MayAdd(s, f, i, position) then
      var calls := s.threads[i].calls;
      (AddUsers(SetCalls(s, i, Insert(calls, PositionIndex(position, |calls|), f)), f, 1), Ok)
    else (s, Err(EINVAL))
  }

  predicate MayDel(s: State, f: FunctId, i: nat) {
    f in s.functs && s.functs[f].users != 0 && i < |s.threads| && f in s.threads[i].calls
  }

  /** `hal_del_funct_from_thread` once both have been looked up: removes the first entry. */
  function DelFunct(s: State, f: FunctId, i: nat): (r: (State, Result)) {
    if MayDel(s, f, i)
    then (AddUsers(SetCalls(s, i, RemoveFirst(s.threads[i].calls, f)), f, -1), Ok)
    else (s, Err(EINVAL))
  }

  function AddFunctToThread(s: State, funct: string, thread: string, position: int): (r: (State, Result))
    requires Listed(s)
  {
    if s.locked then (s, Err(EPERM))
    else AddFunct(s, FindFunct(s, s.order, funct), FindThread(s.threads, thread), position)
  }

  function DelFunctFromThread(s: State, funct: string, thread: string): (r: (State, Result))
    requires Listed(s)
  {
    if s.locked then (s, Err(EPERM))
    else DelFunct(s, FindFunct(s, s.order, funct), FindThread(s.threads, thread))
  }

  /**
   What a thread creation depends on: whether there is memory for the thread, the timer period now (0 if
   it is stopped), the period it starts with (negative on failure), and whether the task
   could be created and started.
   */
  datatype Os = Os(memOk: bool, clockNow: S64, clockStarted: S64, taskOk: bool)

  /** A running timer has a positive period, and one that has been started has a period. */
  predicate OsOk(os: Os) { os.clockNow >= 0 && os.clockStarted != 0 }

  /** The timer period that the first thread finds or starts, if it will do; 1% is allowed for rounding. */
  function SettleBase(s: State, period: U64, os: Os): (r: (bool, S64)) {
    var curr := if os.clockNow == 0 then os.clockStarted else os.clockNow;
    if s.threads != [] then (true, s.basePeriod)
    else if curr < 0 || curr > ToULong(period + period / 100) then (false, s.basePeriod)
    else (true, if s.exactBase then ToLong(period) else curr)
  }

  /** `hal_create_thread`, up to the thread's entry in the thread list. */
  function CreateThread(s: State, name: string, period: U64, usesFp: bool, os: Os): (r: (State, Result))
    requires OsOk(os) && (s.threads != [] ==> s.basePeriod != 0)
  {
    if period == 0 || |name| > HAL_NAME_LEN then (s, Err(EINVAL))
    else if s.locked then (s, Err(EPERM))
    else if FindThread(s.threads, name) < |s.threads| then (s, Err(EINVAL))
    else if !os.memOk then (s, Err(ENOMEM))
    else
      var (ok, base) := SettleBase(s, period, os);
      if !ok then (s, Err(EINVAL))
      else
        var s1 := s.(basePeriod := base);
        var (prevPeriod, prevPriority) :=
          if s.threads == [] then (0, PRIO_HIGHEST) else (s.threads[0].period, s.threads[0].priority);
        if period < ToULong(base) || RoundPeriod(period, base) < prevPeriod || !os.taskOk then (s1, Err(EINVAL))
        else
          var t := Thread(name, usesFp, RoundPeriod(period, base), NextLower(prevPriority), []);
          (s1.(threads := [t] + s.threads), Ok)
  }

  /** Takes back the uses of a thread that is going away. */
  function ReleaseCalls(functs: map<FunctId, Funct>, calls: seq<FunctId>): (r: map<FunctId, Funct>)
    ensures r.Keys == functs.Keys
  {
    map f | f in functs :: functs[f].(users := functs[f].users - Occurrences(calls, f))
  }

  /** `rtapi_app_exit` takes the thread at the head of the list and frees it. */
  function RemoveHeadThread(s: State): (s': State)
    requires s.threads != []
  {
    s.(threads := s.threads[1..], functs := ReleaseCalls(s.functs, s.threads[0].calls))
  }

  /** The functions a component owns. */
  function OwnedBy(s: State, owner: nat): (fs: set<FunctId>) {
    set f | f in s.functs && s.functs[f].owner == owner
  }

  function ClearCalls(threads: seq<Thread>, fs: set<FunctId>): (r: seq<Thread>)
    ensures |r| == |threads|
    ensures forall i :: 0 <= i < |r| ==> r[i] == threads[i].(calls := Without(threads[i].calls, fs))
  {
    seq(|threads|, i requires 0 <= i < |threads| => threads[i].(calls := Without(threads[i].calls, fs)))
  }

  /** The function part of `hal_exit`: the component's functions and every call to them go. */
  function ExitFuncts(s: State, owner: nat): (s': State) {
    var gone := OwnedBy(s, owner);
    s.(order := Without(s.order, gone), functs := s.functs - gone, threads := ClearCalls(s.threads, gone))
  }
}
