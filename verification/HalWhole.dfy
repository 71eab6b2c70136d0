/**
 The HAL as a whole (src/hal/hal_lib.c): pins, signals and components together with functions and
 threads.  A component owns both pins and functions, and its exit removes both.
 */
module HalWhole {
  import opened Lists
  import opened Names
  import Shmem
  import Hal
  import HalInv
  import HalOps
  import HalResults
  import Sched
  import SchedProofs

  datatype Whole = Whole(db: Hal.State, sched: Sched.State)

  /** Both parts are in order, they agree on the lock, and every function belongs to a listed component. */
  ghost predicate Inv(w: Whole) {
    && HalInv.Inv(w.db) && Sched.Inv(w.sched) && w.sched.locked == w.db.lockConfig
    && OwnersListed(w.sched, w.db.comps.list)
  }

  ghost predicate OwnersListed(s: Sched.State, comps: seq<Hal.Off>) {
    forall f :: f in s.functs ==> s.functs[f].owner in comps
  }

  // ---------------------------------------------------------------- operations

  /** `hal_export_funct`; `realtime` says that the component is a realtime one, `f` is its structure or 0. */
  ghost function Export(w: Whole, f: Sched.FunctId, name: string, usesFp: bool, reentrant: bool, id: int, realtime: bool)
    : (r: (Whole, Sched.Result))
    requires Inv(w)
  {
    if |name| > HAL_NAME_LEN then (w, Sched.Err(Sched.EINVAL))
    else if w.db.lockLoad then (w, Sched.Err(Sched.EPERM))
    else
      var c := Hal.FindComp(w.db.comps.list, w.db.comps.items, id);
      if c == 0 || !realtime || w.db.comps.items[c].ready then (w, Sched.Err(Sched.EINVAL))
      else
        var (sched, r) := Sched.ExportFunct(w.sched, f, name, c, usesFp, reentrant);
        (w.(sched := sched), r)
  }

  /** `hal_exit`. */
  ghost function Exit(w: Whole, id: int): (r: (Whole, Hal.Result))
    requires Inv(w)
  {
    var c := Hal.FindComp(w.db.comps.list, w.db.comps.items, id);
    if c == 0 then (w, Hal.Err(Hal.EINVAL))
    else (Whole(HalOps.CompExit(w.db, id).0, Sched.ExitFuncts(w.sched, c)), Hal.Ok)
  }

  datatype Op =
    | DbOp(db: HalResults.Op)
    | SchedOp(sched: SchedProofs.Op)
    | ExportOp(f: Sched.FunctId, name: string, usesFp: bool, reentrant: bool, id: int, realtime: bool)
    | ExitOp(id: int)
    | LockOp(load: bool, config: bool)

  /** Exits, exports and locks concern both parts; the other calls concern one. */
  predicate Enabled(w: Whole, op: Op) {
    match op
    case DbOp(o) => !o.CompExitOp? && !o.SetLocksOp?
    case SchedOp(o) => !o.Export? && !o.Exit? && !o.SetLock? && SchedProofs.Enabled(w.sched, o)
    case ExportOp(f, _, _, _, _, _) => f !in w.sched.functs
    case ExitOp(_) => true
    case LockOp(_, _) => true
  }

  ghost function Step(w: Whole, op: Op): (w': Whole)
    requires Inv(w) && Enabled(w, op)
  {
    match op
    case DbOp(o) => w.(db := HalResults.Step(w.db, o))
    case SchedOp(o) => w.(sched := SchedProofs.Step(w.sched, o))
    case ExportOp(f, name, usesFp, reentrant, id, realtime) => Export(w, f, name, usesFp, reentrant, id, realtime).0
    case ExitOp(id) => Exit(w, id).0
    case LockOp(load, config) =>
      Whole(w.db.(lockLoad := load, lockConfig := config), w.sched.(locked := config))
  }

  // ----------------------------------------------------------------- invariant

  /** Only an exit takes a component off its list, and only a change of locks changes a lock. */
  ghost predicate CompsStay(st: Hal.State, st': Hal.State) {
    (forall c :: c in st.comps.list ==> c in st'.comps.list) && st'.lockConfig == st.lockConfig
  }

  lemma {:induction false} UnlinkAllCompsStay(st: Hal.State, list: seq<Hal.Off>, s: Hal.Off)
    requires forall p :: p in list ==> Hal.CanUnlink(st, p)
    ensures CompsStay(st, Hal.UnlinkAll(st, list, s))
    decreases list
  {
    if list != [] {
      assert Hal.CanUnlink(st, list[0]);
      var st1 := if st.pins.items[list[0]].signal == s && s != 0 then Hal.UnlinkPin(st, list[0]) else st;
      UnlinkAllCompsStay(st1, list[1..], s);
    }
  }

  lemma SignalDeleteCompsStay(st: Hal.State, name: string)
    requires Hal.Unlinkable(st)
    ensures CompsStay(st, Hal.SignalDelete(st, name).0)
  {
    var s := Hal.FindSig(st.sigs.list, st.sigs.items, name);
    if s != 0 {
      var st1 := st.(sigs := Hal.Detach(st.sigs, s));
      Hal.DetachMembers(st.sigs, s);
      assert forall p :: Hal.CanUnlink(st, p) ==> Hal.CanUnlink(st1, p);
      UnlinkAllCompsStay(st1, st.pins.list, s);
    }
  }

  lemma PinNewCompsStay(st: Hal.State, name: string, typ: Hal.Type, dir: Hal.Dir, compId: int, ptrOk: bool)
    requires Hal.Unlinkable(st)
    ensures CompsStay(st, Hal.PinNew(st, name, typ, dir, compId, ptrOk).0)
  {
    assert Hal.PinNew(st, name, typ, dir, compId, ptrOk).0.comps == st.comps;
  }

  lemma PinAliasCompsStay(st: Hal.State, pinName: string, alias: Shmem.Option<string>)
    requires Hal.ListsOk(st) && Hal.OldRefs(st)
    ensures CompsStay(st, Hal.PinAlias(st, pinName, alias).0)
  {
    if alias.Some? && (|alias.value| > HAL_NAME_LEN
                       || Hal.FindPin(st.pins.list, st.pins.items, st.olds, alias.value) != 0) {
      assert Hal.PinAlias(st, pinName, alias).0 == st;
    } else {
      var (st1, o) := Hal.AllocOldName(st);
      var st2 := Hal.FreeOldName(st1, o);
      ReserveComps(st, st1, o, st2);
      if o != 0 {
        var p := Hal.FindPin(st2.pins.list, st2.pins.items, st2.olds, pinName);
        if p != 0 {
          RealiasComps(st2, p, alias);
        }
      }
    }
  }

  lemma ReserveComps(st: Hal.State, st1: Hal.State, o: Hal.Off, st2: Hal.State)
    requires Hal.OldRefs(st) && (st1, o) == Hal.AllocOldName(st) && st2 == Hal.FreeOldName(st1, o)
    ensures st1.comps == st2.comps == st.comps && st1.lockConfig == st2.lockConfig == st.lockConfig
    ensures st2.pins == st.pins && (o != 0 ==> Hal.OldRefs(st2) && st2.oldFree != 0)
  {
  }

  lemma RealiasComps(st: Hal.State, p: Hal.Off, alias: Shmem.Option<string>)
    requires Hal.PoolOk(st.pins) && p in st.pins.list && Hal.OldRefs(st) && st.oldFree != 0
    ensures var st' := Hal.Realias(st, p, alias); st'.comps == st.comps && st'.lockConfig == st.lockConfig
  {
    HalInv.RealiasMovesPin(st, p, alias);
  }

  lemma LinkingCompsStay(st: Hal.State, pinName: string, sigName: string)
    requires Hal.Unlinkable(st)
    ensures CompsStay(st, Hal.Link(st, pinName, sigName).0) && CompsStay(st, Hal.Unlink(st, pinName).0)
  {
  }

  lemma SignalNewCompsStay(st: Hal.State, name: string, typ: Hal.Type)
    requires Hal.ListsOk(st)
    ensures CompsStay(st, Hal.SignalNew(st, name, typ).0)
  {
    assert Hal.SignalNew(st, name, typ).0.comps == st.comps;
  }

  lemma CompCompsStay(st: Hal.State, name: string, id: int)
    requires Hal.ListsOk(st)
    ensures CompsStay(st, Hal.CompInit(st, name, id).0) && CompsStay(st, Hal.CompReady(st, id).0)
  {
  }

  lemma ParamCompsStay(st: Hal.State, op: HalResults.Op)
    requires HalInv.Inv(st) && HalResults.IsParamOp(op)
    ensures CompsStay(st, HalResults.Step(st, op))
  {
    assert HalResults.Step(st, op).comps == st.comps;
  }

  lemma OtherCompsStay(st: Hal.State, op: HalResults.Op)
    requires HalInv.Inv(st)
    requires op.StoreOp? || HalResults.IsMemoryOp(op)
    ensures CompsStay(st, HalResults.Step(st, op))
  {
    if HalResults.IsParamOp(op) {
      ParamCompsStay(st, op);
    } else {
      assert HalResults.Step(st, op).comps == st.comps;
    }
  }

  lemma DbStepCompsStay(st: Hal.State, op: HalResults.Op)
    requires HalInv.Inv(st) && !op.CompExitOp? && !op.SetLocksOp?
    ensures CompsStay(st, HalResults.Step(st, op))
  {
    HalInv.InvUnlinkable(st);
    match op
    case CompInitOp(name, id) => CompCompsStay(st, name, id);
    case CompReadyOp(id) => CompCompsStay(st, "", id);
    case PinNewOp(name, typ, dir, compId, ptrOk) => PinNewCompsStay(st, name, typ, dir, compId, ptrOk);
    case PinAliasOp(pinName, alias) => PinAliasCompsStay(st, pinName, alias);
    case SignalNewOp(name, typ) => SignalNewCompsStay(st, name, typ);
    case SignalDeleteOp(name) => SignalDeleteCompsStay(st, name);
    case LinkOp(pinName, sigName) => LinkingCompsStay(st, pinName, sigName);
    case UnlinkOp(pinName) => LinkingCompsStay(st, pinName, "");
    case _ => OtherCompsStay(st, op);
  }

  /** Calls other than exports and exits change no function but its use count. */
  lemma SchedStepOwners(s: Sched.State, op: SchedProofs.Op)
    requires Sched.Inv(s) && SchedProofs.Enabled(s, op) && !op.Export? && !op.Exit? && !op.SetLock?
    ensures var s' := SchedProofs.Step(s, op);
            && s'.locked == s.locked
            && SameOwners(s, s')
  {
    match op
    case Add(funct, thread, position) =>
      AddDelOwners(s, Sched.FindFunct(s, s.order, funct), Sched.FindThread(s.threads, thread), position);
    case Del(funct, thread) =>
      AddDelOwners(s, Sched.FindFunct(s, s.order, funct), Sched.FindThread(s.threads, thread), 0);
    case RemoveHead => assert SameOwners(s, Sched.RemoveHeadThread(s));
    case Create(name, period, usesFp, os) =>
      assert Sched.CreateThread(s, name, period, usesFp, os).0.functs == s.functs;
    case SetExactBase(_) =>
  }

  lemma AddDelOwners(s: Sched.State, f: Sched.FunctId, i: nat, position: int)
    ensures SameOwners(s, Sched.AddFunct(s, f, i, position).0) && SameOwners(s, Sched.DelFunct(s, f, i).0)
    ensures Sched.AddFunct(s, f, i, position).0.locked == s.locked && Sched.DelFunct(s, f, i).0.locked == s.locked
  {
  }

  ghost predicate SameOwners(s: Sched.State, s': Sched.State) {
    forall f :: f in s'.functs ==> f in s.functs && s'.functs[f].owner == s.functs[f].owner
  }

  lemma SchedStepKeeps(w: Whole, op: SchedProofs.Op)
    requires Inv(w) && SchedProofs.Enabled(w.sched, op) && !op.Export? && !op.Exit? && !op.SetLock?
    ensures Inv(w.(sched := SchedProofs.Step(w.sched, op)))
  {
    SchedProofs.StepKeepsInv(w.sched, op);
    SchedStepOwners(w.sched, op);
  }

  lemma DbStepKeeps(w: Whole, op: HalResults.Op)
    requires Inv(w) && !op.CompExitOp? && !op.SetLocksOp?
    ensures Inv(w.(db := HalResults.Step(w.db, op)))
  {
    HalResults.StepKeepsInv(w.db, op);
    DbStepCompsStay(w.db, op);
  }

  lemma ExportKeeps(w: Whole, f: Sched.FunctId, name: string, usesFp: bool, reentrant: bool, id: int, realtime: bool)
    requires Inv(w) && f !in w.sched.functs
    ensures Inv(Export(w, f, name, usesFp, reentrant, id, realtime).0)
  {
    var c := Hal.FindComp(w.db.comps.list, w.db.comps.items, id);
    SchedProofs.ExportKeepsInv(w.sched, f, name, c, usesFp, reentrant);
  }

  lemma ExitKeeps(w: Whole, id: int)
    requires Inv(w)
    ensures Inv(Exit(w, id).0)
  {
    var (w', r) := Exit(w, id);
    if r.Ok? {
      var c := Hal.FindComp(w.db.comps.list, w.db.comps.items, id);
      HalOps.CompExitKeepsInv(w.db, id);
      SchedProofs.ExitKeepsInv(w.sched, c);
      CompExitComps(w.db, id, c);
    }
  }

  lemma CompExitComps(st: Hal.State, id: int, c: Hal.Off)
    requires HalInv.Inv(st) && c == Hal.FindComp(st.comps.list, st.comps.items, id) != 0
    ensures var st' := HalOps.CompExit(st, id).0;
            && (forall d :: d in st'.comps.list <==> d in st.comps.list && d != c)
            && st'.lockConfig == st.lockConfig
  {
    HalOps.OwnedDistinct(st.pins.list, st.pins.items, c);
    HalOps.DropPinsFacts(st, Hal.Owned(st.pins.list, st.pins.items, c));
    Hal.DetachMembers(st.comps, c);
  }

  /** Freshly initialised shared memory. */
  lemma InitialInv(header: nat)
    requires 0 < header <= Shmem.HAL_SIZE
    ensures Inv(Whole(Hal.Init(header), Sched.EMPTY))
  {
    assert HalResults.Reached(header, []) == Hal.Init(header);
  }

  /** Every call, on pins and signals or on functions and threads, keeps the whole in order. */
  lemma StepKeepsInv(w: Whole, op: Op)
    requires Inv(w) && Enabled(w, op)
    ensures Inv(Step(w, op))
  {
    match op
    case DbOp(o) => DbStepKeeps(w, o);
    case SchedOp(o) => SchedStepKeeps(w, o);
    case ExportOp(f, name, usesFp, reentrant, id, realtime) => ExportKeeps(w, f, name, usesFp, reentrant, id, realtime);
    case ExitOp(id) => ExitKeeps(w, id);
    case LockOp(load, config) => LockKeeps(w, load, config);
  }

  lemma DbLockKeeps(st: Hal.State, load: bool, config: bool)
    requires HalInv.Inv(st)
    ensures HalInv.Inv(st.(lockLoad := load, lockConfig := config))
  {
  }

  lemma SchedLockKeeps(s: Sched.State, locked: bool)
    requires Sched.Inv(s)
    ensures Sched.Inv(s.(locked := locked))
  {
    SchedProofs.SameListing(s, s.(locked := locked));
  }

  lemma LockKeeps(w: Whole, load: bool, config: bool)
    requires Inv(w)
    ensures Inv(Whole(w.db.(lockLoad := load, lockConfig := config), w.sched.(locked := config)))
  {
    DbLockKeeps(w.db, load, config);
    SchedLockKeeps(w.sched, config);
  }

  ghost predicate Goes(w: Whole, op: Op, w': Whole) {
    Inv(w) && Enabled(w, op) && w' == Step(w, op)
  }

  /** A run from freshly initialised shared memory. */
  ghost predicate IsRun(header: nat, states: seq<Whole>, ops: seq<Op>) {
    && 0 < header <= Shmem.HAL_SIZE && |states| == |ops| + 1
    && states[0] == Whole(Hal.Init(header), Sched.EMPTY)
    && forall i, j :: 0 <= i && j == i + 1 && j <= |ops| ==> (Inv(states[i]) ==> Goes(states[i], ops[i], states[j]))
  }

  /** In every state of every run pins, signals, functions and threads are in order together. */
  lemma {:induction false} WholeSafety(header: nat, states: seq<Whole>, ops: seq<Op>, n: nat)
    requires IsRun(header, states, ops) && n <= |ops|
    ensures Inv(states[n])
  {
    if n == 0 {
      InitialInv(header);
    } else {
      var k := n - 1;
      WholeSafety(header, states, ops, k);
      assert Inv(states[k]) ==> Goes(states[k], ops[k], states[n]);
      GoesKeepsInv(states[k], ops[k], states[n]);
    }
  }

  lemma GoesKeepsInv(w: Whole, op: Op, w': Whole)
    requires Goes(w, op, w')
    ensures Inv(w')
  {
    StepKeepsInv(w, op);
  }

  // ---------------------------------------------------------------------- exit

  /** Nothing in the HAL refers to the component: no pin, no function, no thread entry of one. */
  ghost predicate Gone(w: Whole, c: Hal.Off) {
    && c !in w.db.comps.list
    && (forall p :: p in w.db.pins.list && p in w.db.pins.items ==> w.db.pins.items[p].owner != c)
    && (forall f :: f in w.sched.functs ==> w.sched.functs[f].owner != c)
    && (forall i, f :: 0 <= i < |w.sched.threads| && f in w.sched.threads[i].calls ==> f in w.sched.functs)
  }

  /**
   `hal_exit` removes exactly the component's pins and functions, with every thread entry of the
   functions and every count of the pins; the pins, functions and thread entries of the others keep
   their order, their links and their use counts.
   */
  lemma ExitExact(w: Whole, id: int)
    requires Inv(w) && Exit(w, id).1.Ok?
    ensures var w', c := Exit(w, id).0, Hal.FindComp(w.db.comps.list, w.db.comps.items, id);
            && Inv(w') && Gone(w', c)
            && w'.db.pins.list == HalOps.Others(w.db.pins.list, w.db.pins.items, c)
            && (forall q :: q in w'.db.pins.list ==> q in w'.db.pins.items && w'.db.pins.items[q] == w.db.pins.items[q])
            && (forall s :: s in w'.db.sigs.list ==> HalResults.SignalConsistent(w'.db, s))
            && w'.sched.order == Without(w.sched.order, Sched.OwnedBy(w.sched, c))
            && (forall f :: f in w'.sched.functs <==> f in w.sched.functs && w.sched.functs[f].owner != c)
            && (forall f :: f in w'.sched.functs ==> w'.sched.functs[f] == w.sched.functs[f])
            && |w'.sched.threads| == |w.sched.threads|
            && (forall i :: 0 <= i < |w'.sched.threads| ==>
                  w'.sched.threads[i] == w.sched.threads[i].(
                    calls := Without(w.sched.threads[i].calls, Sched.OwnedBy(w.sched, c))))
  {
    var w', c := Exit(w, id).0, Hal.FindComp(w.db.comps.list, w.db.comps.items, id);
    ExitKeeps(w, id);
    HalResults.ExitExact(w.db, id);
    SchedProofs.ExitExact(w.sched, c);
  }
}
