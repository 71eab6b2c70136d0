/**
 Exports in the HAL as a whole (src/hal/hal_lib.c, `hal_export_funct` and `hal_exit`): when they
 succeed, and that a function leaves with the component that exported it, over whole runs.
 */
module WholeCalls {
  import opened Names
  import opened HalWhole
  import Shmem
  import Hal
  import HalInv
  import HalOps
  import HalPins
  import HalPinRuns
  import Sched
  import SchedProofs
  import SchedCalls

  // ------------------------------------------------------------------- exports

  /** The function was exported with this name, these flags and this id. */
  predicate ExportedBy(w: Whole, f: Sched.FunctId, op: Op) {
    && op.ExportOp? && op.f == f && f in w.sched.functs
    && w.sched.functs[f].name == op.name && w.sched.functs[f].usesFp == op.usesFp
    && w.sched.functs[f].reentrant == op.reentrant && HalPins.HasId(w.db, w.sched.functs[f].owner, op.id)
  }

  /** The component of the id may export: it is a realtime one, there, and not ready. */
  ghost predicate MayExport(w: Whole, id: int, realtime: bool) {
    !w.db.lockLoad && HalPins.CompOpen(w.db, id) && realtime
  }

  /** The checks of an export that concern the component. */
  lemma ExportParts(w: Whole, f: Sched.FunctId, name: string, usesFp: bool, reentrant: bool, id: int, realtime: bool)
    requires Inv(w)
    ensures var c := Hal.FindComp(w.db.comps.list, w.db.comps.items, id);
            if |name| <= HAL_NAME_LEN && MayExport(w, id, realtime) then
              && HalPins.FirstComp(w.db, id, c)
              && Export(w, f, name, usesFp, reentrant, id, realtime)
                 == (w.(sched := Sched.ExportFunct(w.sched, f, name, c, usesFp, reentrant).0),
                     Sched.ExportFunct(w.sched, f, name, c, usesFp, reentrant).1)
            else
              Export(w, f, name, usesFp, reentrant, id, realtime)
              == (w, Sched.Err(if |name| <= HAL_NAME_LEN && w.db.lockLoad then Sched.EPERM else Sched.EINVAL))
  {
    HalPins.CompOpenIff(w.db, id);
    HalPins.CompLookup(w.db, id);
  }

  /** An export succeeds if and only if the component may export, the name is new and not too long and there is memory. */
  lemma ExportExact(w: Whole, f: Sched.FunctId, name: string, usesFp: bool, reentrant: bool, id: int, realtime: bool)
    requires Inv(w) && f !in w.sched.functs
    ensures var (w', r) := Export(w, f, name, usesFp, reentrant, id, realtime);
            && (r.Ok? <==> |name| <= HAL_NAME_LEN && MayExport(w, id, realtime) && f != 0
                           && forall g :: !SchedCalls.Named(w.sched, g, name))
            && (r == Sched.Err(Sched.EPERM) <==> |name| <= HAL_NAME_LEN && w.db.lockLoad)
            && (r.Err? ==> w' == w)
            && (r.Ok? ==> w'.db == w.db && SchedCalls.Joined(w.sched, w'.sched, f) && w'.sched.functs[f].users == 0
                          && ExportedBy(w', f, ExportOp(f, name, usesFp, reentrant, id, realtime))
                          && HalPins.FirstComp(w.db, id, w'.sched.functs[f].owner))
  {
    var c := Hal.FindComp(w.db.comps.list, w.db.comps.items, id);
    ExportParts(w, f, name, usesFp, reentrant, id, realtime);
    SchedCalls.ExportExact(w.sched, f, name, c, usesFp, reentrant);
  }

  /** An exit takes the functions of the component that the id stands for, and no others. */
  lemma ExitFunctions(w: Whole, id: int)
    requires Inv(w)
    ensures Exit(w, id).1.Ok? <==> HalPins.CompThere(w.db, id)
    ensures forall f :: f in Exit(w, id).0.sched.functs <==>
              f in w.sched.functs && !HalPins.FirstComp(w.db, id, w.sched.functs[f].owner)
  {
    HalPins.CompLookup(w.db, id);
    var c := Hal.FindComp(w.db.comps.list, w.db.comps.items, id);
    if c != 0 {
      HalPins.FirstCompUnique(w.db, id, c);
      SchedProofs.ExitExact(w.sched, c);
    } else {
      assert forall d :: HalPins.FirstComp(w.db, id, d) ==> d in w.db.comps.list && HalPins.HasId(w.db, d, id);
    }
  }

  /** The exit with the id that exported a function takes it, and the exit with any other id leaves it. */
  lemma ExportLeaves(w: Whole, f: Sched.FunctId, name: string, usesFp: bool, reentrant: bool, id: int, realtime: bool,
                     other: int)
    requires Inv(w) && f !in w.sched.functs && Export(w, f, name, usesFp, reentrant, id, realtime).1.Ok?
    ensures var w' := Export(w, f, name, usesFp, reentrant, id, realtime).0;
            && Inv(w') && (f in Exit(w', other).0.sched.functs <==> other != id)
            && forall g :: g in w.sched.functs ==>
                 (g in Exit(w', other).0.sched.functs <==> g in Exit(w, other).0.sched.functs)
  {
    var w' := Export(w, f, name, usesFp, reentrant, id, realtime).0;
    ExportKeeps(w, f, name, usesFp, reentrant, id, realtime);
    ExportExact(w, f, name, usesFp, reentrant, id, realtime);
    ExitFunctions(w, other);
    ExitFunctions(w', other);
    HalPins.SameComps(w.db, w'.db, id, other, w'.sched.functs[f].owner);
  }

  // ---------------------------------------------------------------- whole runs

  /** The listed components keep their ids. */
  lemma CompsKeepIds(st: Hal.State, st': Hal.State, s: Sched.State, f: Sched.FunctId, id: int)
    requires HalPinRuns.CompsKept(st.comps, st'.comps) && f in s.functs && HalPins.HasId(st, s.functs[f].owner, id)
    requires OwnersListed(s, st.comps.list) && OwnersListed(s, st'.comps.list)
    ensures HalPins.HasId(st', s.functs[f].owner, id)
  {
  }

  lemma DbGoes(w: Whole, op: Op, w': Whole, f: Sched.FunctId, o: Op)
    requires Goes(w, op, w') && Inv(w') && op.DbOp? && f in w'.sched.functs && ExportedBy(w, f, o)
    ensures ExportedBy(w', f, o)
  {
    if op.db.PinNewOp? {
      HalPinRuns.CreationAsCalled(w.db, op.db, w'.db);
    } else {
      HalPinRuns.StepKeeps(w.db, op.db);
      CompsKeepIds(w.db, w'.db, w.sched, f, o.id);
    }
  }

  lemma SchedGoes(w: Whole, op: Op, w': Whole, f: Sched.FunctId)
    requires Goes(w, op, w') && op.SchedOp? && f in w'.sched.functs
    ensures f in w.sched.functs && forall o :: ExportedBy(w, f, o) ==> ExportedBy(w', f, o)
  {
    SchedCalls.OtherCallsKeepNames(w.sched, op.sched);
  }

  lemma ExitGoes(w: Whole, op: Op, w': Whole, f: Sched.FunctId)
    requires Goes(w, op, w') && Inv(w') && op.ExitOp? && f in w'.sched.functs
    ensures f in w.sched.functs && forall o :: ExportedBy(w, f, o) ==> ExportedBy(w', f, o)
  {
    var c := Hal.FindComp(w.db.comps.list, w.db.comps.items, op.id);
    if c != 0 {
      SchedProofs.ExitExact(w.sched, c);
      HalPinRuns.ExitKeepsComps(w.db, op.id, c);
      forall o | ExportedBy(w, f, o)
        ensures ExportedBy(w', f, o)
      {
        CompsKeepIds(w.db, w'.db, w'.sched, f, o.id);
      }
    }
  }

  lemma ExportGoes(w: Whole, op: Op, w': Whole, f: Sched.FunctId)
    requires Goes(w, op, w') && op.ExportOp? && f in w'.sched.functs
    ensures f !in w.sched.functs ==> ExportedBy(w', f, op)
    ensures f in w.sched.functs ==> forall o :: ExportedBy(w, f, o) ==> ExportedBy(w', f, o)
  {
    ExportExact(w, op.f, op.name, op.usesFp, op.reentrant, op.id, op.realtime);
  }

  /** A function that comes was exported by the call, and one that stays is as it was exported. */
  lemma GoesExported(w: Whole, op: Op, w': Whole, f: Sched.FunctId)
    requires Goes(w, op, w') && Inv(w') && f in w'.sched.functs
    ensures f !in w.sched.functs ==> ExportedBy(w', f, op)
    ensures f in w.sched.functs ==> forall o :: ExportedBy(w, f, o) ==> ExportedBy(w', f, o)
  {
    match op
    case DbOp(_) =>
      forall o | f in w.sched.functs && ExportedBy(w, f, o)
        ensures ExportedBy(w', f, o)
      {
        DbGoes(w, op, w', f, o);
      }
    case SchedOp(_) => SchedGoes(w, op, w', f);
    case ExportOp(_, _, _, _, _, _) => ExportGoes(w, op, w', f);
    case ExitOp(_) => ExitGoes(w, op, w', f);
    case LockOp(_, _) =>
  }

  /** The `k`-th call exported the function, and it has been there ever since. */
  ghost predicate ExportedAt(states: seq<Whole>, ops: seq<Op>, n: nat, f: Sched.FunctId, k: int) {
    && |states| == |ops| + 1 && 0 <= k < n <= |ops| && ops[k].ExportOp? && f !in states[k].sched.functs
    && forall j :: k < j <= n ==> f in states[j].sched.functs
  }

  ghost predicate Exported(states: seq<Whole>, ops: seq<Op>, n: nat, f: Sched.FunctId) {
    exists k :: ExportedAt(states, ops, n, f, k) && ExportedBy(states[n], f, ops[k])
  }

  lemma StillExported(states: seq<Whole>, ops: seq<Op>, m: nat, n: nat, f: Sched.FunctId)
    requires |states| == |ops| + 1 && n == m + 1 <= |ops| && f in states[n].sched.functs
    requires if f in states[m].sched.functs
             then Exported(states, ops, m, f) && forall o :: ExportedBy(states[m], f, o) ==> ExportedBy(states[n], f, o)
             else ExportedBy(states[n], f, ops[m])
    ensures Exported(states, ops, n, f)
  {
    if f in states[m].sched.functs {
      var k :| ExportedAt(states, ops, m, f, k) && ExportedBy(states[m], f, ops[k]);
      assert ExportedAt(states, ops, n, f, k);
    } else {
      assert ExportedAt(states, ops, n, f, m);
    }
  }

  /**
   In every state of every run each function was exported by a call of the run, and has the name and
   the flags of that call and an owner of its id.
   */
  lemma {:induction false} FunctionsOfRuns(header: nat, states: seq<Whole>, ops: seq<Op>, n: nat, f: Sched.FunctId)
    requires IsRun(header, states, ops) && n <= |ops| && f in states[n].sched.functs
    ensures Exported(states, ops, n, f)
  {
    if n > 0 {
      var k := n - 1;
      WholeSafety(header, states, ops, k);
      WholeSafety(header, states, ops, n);
      assert Inv(states[k]) ==> Goes(states[k], ops[k], states[n]);
      GoesExported(states[k], ops[k], states[n], f);
      if f in states[k].sched.functs {
        FunctionsOfRuns(header, states, ops, k, f);
      }
      StillExported(states, ops, k, n, f);
    }
  }

  /** If ids tell components apart, an exit takes exactly the functions that calls with its id have exported. */
  lemma FunctionsLeaveWithMaker(header: nat, states: seq<Whole>, ops: seq<Op>, n: nat, f: Sched.FunctId, id: int)
    requires IsRun(header, states, ops) && n <= |ops| && f in states[n].sched.functs && HalPinRuns.IdsDistinct(states[n].db)
    ensures Inv(states[n])
    ensures exists k :: && ExportedAt(states, ops, n, f, k)
                        && (f in Exit(states[n], id).0.sched.functs <==> ops[k].id != id)
  {
    WholeSafety(header, states, ops, n);
    FunctionsOfRuns(header, states, ops, n, f);
    var k :| ExportedAt(states, ops, n, f, k) && ExportedBy(states[n], f, ops[k]);
    ExitFunctions(states[n], id);
    HalPinRuns.OnlyHolder(states[n].db, id, states[n].sched.functs[f].owner);
  }
}
