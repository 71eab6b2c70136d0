/**
 Aliases over whole runs of the HAL (src/hal/hal_lib.c): whatever else is called between an alias
 and its removal, the removal gives a pin the name it was created with, and a place that depends
 on who bears that name by then.
 */
module HalAliasRuns {
  import opened Lists
  import opened Names
  import opened Shmem
  import opened Hal
  import opened HalInv
  import opened HalOps
  import opened HalResults
  import opened HalAlias
  import opened HalStale

  /** The pin is still listed, and its original name is what it was. */
  ghost predicate KeepsName(st: State, st': State, p: Off) {
    && p in st.pins.items && p in st'.pins.items && p in st'.pins.list
    && OriginalName(st', p) == OriginalName(st, p)
  }

  /** Calls that leave the pin, and the name it has saved, alone. */
  lemma SameBinding(st: State, st': State, p: Off)
    requires p in st.pins.items && p in st'.pins.items && p in st'.pins.list
    requires st'.pins.items[p].name == st.pins.items[p].name && st'.pins.items[p].oldname == st.pins.items[p].oldname
    requires var o := st.pins.items[p].oldname;
             o != 0 ==> o in st.olds && o in st'.olds && st'.olds[o].name == st.olds[o].name
    ensures KeepsName(st, st', p)
  {
  }

  // ----------------------------------------------------------------- every call

  lemma NamelessKeepsName(st: State, op: Op, p: Off)
    requires Inv(st) && p in st.pins.list
    requires !op.CompExitOp? && !op.PinNewOp? && !op.PinAliasOp? && !IsParamOp(op)
    ensures KeepsName(st, Step(st, op), p)
  {
    NamelessRefs(st, op);
    var st' := Step(st, op);
    assert p in st'.pins.items.Keys;
    SameBinding(st, st', p);
  }

  lemma AliasKeepsName(st: State, pinName: string, alias: Option<string>, p: Off)
    requires Inv(st) && OldInv(st) && p in st.pins.list
    ensures KeepsName(st, PinAlias(st, pinName, alias).0, p)
  {
    var (st', r) := PinAlias(st, pinName, alias);
    if r.Ok? {
      AliasExact(st, pinName, alias);
      AliasedKeepsName(st, st', Resolve(st, pinName), alias, p);
    } else if AllocOldName(st).1 != 0 {
      var fs :| OldInvWith(st, fs);
      var fs2 := ReserveOwnership(st, fs);
    }
  }

  /** The pin that was found is listed again, and so are the others. */
  lemma AliasedKeepsName(st: State, st': State, q: Off, alias: Option<string>, p: Off)
    requires PoolOk(st.pins) && p in st.pins.list && Aliased(st, st', q, alias)
    ensures KeepsName(st, st', p)
  {
    DetachMembers(st.pins, q);
    DetachMembers(st'.pins, q);
    assert p in st'.pins.items.Keys;
  }

  lemma PinNewKeepsName(st: State, name: string, typ: Type, dir: Dir, compId: int, ptrOk: bool, p: Off)
    requires Inv(st) && OldInv(st) && Unlinkable(st) && p in st.pins.list
    ensures KeepsName(st, PinNew(st, name, typ, dir, compId, ptrOk).0, p)
  {
    var st' := PinNew(st, name, typ, dir, compId, ptrOk).0;
    var c := FindComp(st.comps.list, st.comps.items, compId);
    var st1, q := AllocatedHolders(st);
    AllocPinFacts(st);
    if q == 0 {
      assert st'.pins == st.pins && st'.olds == st.olds;
    } else {
      var pin := st1.pins.items[q].(name := name, owner := c, typ := typ, dir := dir);
      FinishPinKeepsName(st, st1, q, pin, p);
      assert st' == st || st' == FinishPin(st, st1, q, pin).0;
    }
  }

  lemma FinishPinKeepsName(st: State, st1: State, q: Off, pin: Pin, p: Off)
    requires PoolOk(st.pins) && p in st.pins.list && q != p && pin.signal == 0 && pin.oldname == 0
    requires q in st1.pins.items && st1.pins.items == st.pins.items[q := st1.pins.items[q]] && st1.pins.list == st.pins.list
    requires st1.olds == st.olds
    ensures KeepsName(st, FinishPin(st, st1, q, pin).0, p)
  {
    var names := PinNames(st.pins.list, st.pins.items);
    InsertMembers(st1.pins.list, Place(names, pin.name), q);
  }

  lemma ParamReserveKeepsName(st: State, p: Off)
    requires Inv(st) && OldInv(st) && p in st.pins.list
    ensures KeepsName(st, ParamReserve(st), p)
  {
    if AllocOldName(st).1 != 0 {
      var fs :| OldInvWith(st, fs);
      ReserveNames(st, fs);
    }
    SameBinding(st, ParamReserve(st), p);
  }

  /** The call is the exit of the component that owns the pin. */
  ghost predicate ExitsOwner(st: State, op: Op, p: Off)
    requires ListsOk(st) && p in st.pins.items
  {
    op.CompExitOp? && FindComp(st.comps.list, st.comps.items, op.id) == st.pins.items[p].owner
  }

  lemma ExitKeepsName(st: State, id: int, p: Off)
    requires Inv(st) && p in st.pins.list && !StaleFree(st, CompExitOp(id)) && !ExitsOwner(st, CompExitOp(id), p)
    ensures KeepsName(st, CompExit(st, id).0, p)
  {
    var (st', r) := CompExit(st, id);
    if r.Ok? {
      ExitRefs(st, id, st');
      ExitExact(st, id);
      SameBinding(st, st', p);
    }
  }

  lemma ParamSaveKeepsName(st: State, p: Off)
    requires Inv(st) && OldInv(st) && p in st.pins.list
    ensures KeepsName(st, ParamSave(st), p)
  {
    if AllocOldName(st).1 != 0 {
      var fs :| OldInvWith(st, fs);
      var fs' := AllocOldNameOwnership(st, fs);
    }
    SameBinding(st, ParamSave(st), p);
  }

  lemma ParamRestoreKeepsName(st: State, o: Off, p: Off)
    requires Inv(st) && OldInv(st) && p in st.pins.list
    ensures KeepsName(st, ParamRestore(st, o), p)
  {
    var fs :| OldInvWith(st, fs);
    SameBinding(st, ParamRestore(st, o), p);
  }

  lemma ParamStepKeepsName(st: State, op: Op, p: Off)
    requires Inv(st) && OldInv(st) && p in st.pins.list && IsParamOp(op) && !StaleFree(st, op)
    ensures KeepsName(st, Step(st, op), p)
  {
    match op
    case ParamSaveOp => ParamSaveKeepsName(st, p);
    case ParamRestoreOp(o) => ParamRestoreKeepsName(st, o, p);
    case ParamFreedOp(o) => assert ParamFreed(st, o) == st;
    case ParamReserveOp => ParamReserveKeepsName(st, p);
  }

  lemma PinStepKeepsName(st: State, op: Op, p: Off)
    requires Inv(st) && OldInv(st) && p in st.pins.list && (op.PinNewOp? || op.PinAliasOp?)
    ensures KeepsName(st, Step(st, op), p)
  {
    match op
    case PinNewOp(name, typ, dir, compId, ptrOk) => PinNewKeepsName(st, name, typ, dir, compId, ptrOk, p);
    case PinAliasOp(pinName, alias) => AliasKeepsName(st, pinName, alias, p);
  }

  /**
   A call that is neither the exit of the pin's owner nor frees a pin or a parameter that is aliased
   keeps the pin listed and its original name.
   */
  lemma StepKeepsName(st: State, op: Op, p: Off)
    requires Inv(st) && OldInv(st) && p in st.pins.list && !StaleFree(st, op) && !ExitsOwner(st, op, p)
    ensures KeepsName(st, Step(st, op), p)
  {
    InvUnlinkable(st);
    if op.CompExitOp? {
      ExitKeepsName(st, op.id, p);
    } else if op.PinNewOp? || op.PinAliasOp? {
      PinStepKeepsName(st, op, p);
    } else if IsParamOp(op) {
      ParamStepKeepsName(st, op, p);
    } else {
      NamelessKeepsName(st, op, p);
    }
  }

  // ---------------------------------------------------------------- whole runs

  ghost predicate RunStep(st: State, op: Op, p: Off, st': State) {
    && Inv(st) && p in st.pins.items && st' == Step(st, op)
    && !StaleFree(st, op) && !ExitsOwner(st, op, p)
  }

  /** Any calls at all, except the exit of the pin's owner and the freeing of aliased pins and parameters. */
  ghost predicate PinRun(states: seq<State>, ops: seq<Op>, p: Off) {
    && |states| == |ops| + 1
    && forall i, j :: 0 <= i && j == i + 1 && j <= |ops| ==> RunStep(states[i], ops[i], p, states[j])
  }

  /** What a run keeps of the state it is in. */
  ghost predicate Sound(st: State, p: Off) { Inv(st) && OldInv(st) && p in st.pins.list }

  lemma RunStepKeeps(st: State, op: Op, p: Off, st': State)
    requires Sound(st, p) && RunStep(st, op, p, st')
    ensures Sound(st', p) && KeepsName(st, st', p)
  {
    StepKeepsInv(st, op);
    StepKeepsOldInvIff(st, op);
    StepKeepsName(st, op, p);
  }

  lemma KeepsNameTwice(st: State, st1: State, st2: State, p: Off)
    requires KeepsName(st, st1, p) && KeepsName(st1, st2, p)
    ensures KeepsName(st, st2, p)
  {
  }

  lemma RunStepExtends(st: State, st1: State, op: Op, p: Off, st2: State)
    requires Sound(st1, p) && KeepsName(st, st1, p) && RunStep(st1, op, p, st2)
    ensures Sound(st2, p) && KeepsName(st, st2, p)
  {
    RunStepKeeps(st1, op, p, st2);
    KeepsNameTwice(st, st1, st2, p);
  }

  /** Whatever is called, the pin keeps its original name. */
  lemma {:induction false} RunKeepsName(states: seq<State>, ops: seq<Op>, p: Off, n: nat)
    requires PinRun(states, ops, p) && Sound(states[0], p) && n <= |ops|
    ensures Sound(states[n], p) && KeepsName(states[0], states[n], p)
  {
    if n > 0 {
      var k := n - 1;
      RunKeepsName(states, ops, p, k);
      RunStepExtends(states[0], states[k], ops[k], p, states[n]);
    }
  }

  // ---------------------------------------------------------------- positions

  /** `q` stands before `p` in the list. */
  predicate Precedes(list: seq<Off>, q: Off, p: Off) { IndexOf(list, q) < IndexOf(list, p) }

  lemma SortedSides(pins: Pool<Pin>, q: Off, p: Off)
    requires PoolOk(pins) && Sorted(PinNames(pins.list, pins.items)) && p in pins.list && q in pins.list && q != p
    ensures Precedes(pins.list, q, p) ==> AtMost(pins.items[q].name, pins.items[p].name)
    ensures !Precedes(pins.list, q, p) ==> AtMost(pins.items[p].name, pins.items[q].name)
  {
    var names, i, j := PinNames(pins.list, pins.items), IndexOf(pins.list, q), IndexOf(pins.list, p);
    assert names[i] == pins.items[q].name && names[j] == pins.items[p].name;
  }

  /** A pin that an insertion has placed stands behind exactly the pins whose names are not greater. */
  lemma PlacedSides(pins: Pool<Pin>, q: Off, p: Off)
    requires PoolOk(pins) && Sorted(PinNames(pins.list, pins.items)) && p in pins.list && q in pins.list && q != p
    requires Placed(pins, p)
    ensures Precedes(pins.list, q, p) <==> AtMost(pins.items[q].name, pins.items[p].name)
  {
    PlacedMeans(pins, p);
    SortedSides(pins, q, p);
    if !Precedes(pins.list, q, p) {
      BehindPlace(PinNames(pins.list, pins.items), IndexOf(pins.list, p), IndexOf(pins.list, q));
    }
  }

  /** Both states list the other pin, under the same name. */
  predicate Survives(st: State, st': State, p: Off, q: Off) {
    && q != p && q in st.pins.list && q in st'.pins.list && q in st.pins.items && q in st'.pins.items
    && st'.pins.items[q].name == st.pins.items[q].name
  }

  /** Every other pin that is still there stands on the same side of the pin. */
  ghost predicate OrderKept(st: State, st': State, p: Off) {
    forall q :: Survives(st, st', p, q) ==> (Precedes(st.pins.list, q, p) <==> Precedes(st'.pins.list, q, p))
  }

  /** Every pin of the same name that is still there stood before the pin. */
  ghost predicate NamesakesBefore(st: State, st': State, p: Off)
    requires p in st.pins.items
  {
    forall q :: Survives(st, st', p, q) && st.pins.items[q].name == st.pins.items[p].name ==> Precedes(st.pins.list, q, p)
  }

  lemma SideKeptIff(st: State, st': State, p: Off, q: Off)
    requires PoolOk(st.pins) && Sorted(PinNames(st.pins.list, st.pins.items)) && p in st.pins.list
    requires PoolOk(st'.pins) && Sorted(PinNames(st'.pins.list, st'.pins.items)) && p in st'.pins.list
    requires st'.pins.items[p].name == st.pins.items[p].name && Placed(st'.pins, p) && Survives(st, st', p, q)
    ensures (Precedes(st.pins.list, q, p) <==> Precedes(st'.pins.list, q, p)) <==>
            (st.pins.items[q].name == st.pins.items[p].name ==> Precedes(st.pins.list, q, p))
  {
    SortedSides(st.pins, q, p);
    PlacedSides(st'.pins, q, p);
    LessTotal(st.pins.items[q].name, st.pins.items[p].name);
    LessIrreflexive(st.pins.items[p].name);
  }

  lemma OrderKeptIff(st: State, st': State, p: Off)
    requires PoolOk(st.pins) && Sorted(PinNames(st.pins.list, st.pins.items)) && p in st.pins.list
    requires PoolOk(st'.pins) && Sorted(PinNames(st'.pins.list, st'.pins.items)) && p in st'.pins.list
    requires st'.pins.items[p].name == st.pins.items[p].name && Placed(st'.pins, p)
    ensures OrderKept(st, st', p) <==> NamesakesBefore(st, st', p)
  {
    forall q | Survives(st, st', p, q)
      ensures (Precedes(st.pins.list, q, p) <==> Precedes(st'.pins.list, q, p)) <==>
              (st.pins.items[q].name == st.pins.items[p].name ==> Precedes(st.pins.list, q, p))
    {
      SideKeptIff(st, st', p, q);
    }
  }

  // ------------------------------------------------------------------- results

  /** A pin's original name is the one it is created with. */
  lemma CreatedName(st: State, name: string, typ: Type, dir: Dir, compId: int, ptrOk: bool)
    requires Inv(st) && OldInv(st) && Unlinkable(st) && PinNew(st, name, typ, dir, compId, ptrOk).1.Ok?
    ensures var st', p := PinNew(st, name, typ, dir, compId, ptrOk).0, AllocPin(st).1;
            && p !in st.pins.list && p in st'.pins.list && p in st'.pins.items
            && st'.pins.items[p].oldname == 0 && OriginalName(st', p) == name
  {
    AllocPinHolders(st);
    AllocPinFacts(st);
    var (st1, p) := AllocPin(st);
    InsertMembers(st1.pins.list, Place(PinNames(st.pins.list, st.pins.items), name), p);
  }

  /**
   After any run, removing the alias gives the pin its original name and puts it behind exactly
   the pins whose names are not greater, so behind every pin that bears the name by then.  Every
   call keeps the invariant, so asking for it of the last state excludes nothing.
   */
  lemma RemovalAfterRun(states: seq<State>, ops: seq<Op>, p: Off, pinName: string)
    requires PinRun(states, ops, p) && Sound(states[0], p) && Inv(states[|ops|])
    requires PinAlias(states[|ops|], pinName, None).1.Ok? && Resolve(states[|ops|], pinName) == p
    ensures var st' := PinAlias(states[|ops|], pinName, None).0;
            && Sound(st', p) && Placed(st'.pins, p)
            && st'.pins.items[p].oldname == 0 && st'.pins.items[p].name == OriginalName(states[0], p)
            && (forall q :: q in st'.pins.list && q != p ==>
                  (Precedes(st'.pins.list, q, p) <==> AtMost(st'.pins.items[q].name, st'.pins.items[p].name)))
  {
    var st := states[|ops|];
    RunKeepsName(states, ops, p, |ops|);
    AliasExact(st, pinName, None);
    PinAliasKeepsInv(st, pinName, None);
    var st' := PinAlias(st, pinName, None).0;
    RemovalSides(st, st', p);
  }

  lemma RemovalSides(st: State, st': State, p: Off)
    requires Inv(st') && Aliased(st, st', p, None)
    ensures forall q :: q in st'.pins.list && q != p ==>
              (Precedes(st'.pins.list, q, p) <==> AtMost(st'.pins.items[q].name, st'.pins.items[p].name))
  {
    forall q | q in st'.pins.list && q != p
      ensures Precedes(st'.pins.list, q, p) <==> AtMost(st'.pins.items[q].name, st'.pins.items[p].name)
    {
      PlacedSides(st'.pins, q, p);
    }
  }

  /**
   For a pin that bore its original name at the start of the run, the order is restored if and only
   if every pin of the same name that is still there stood before it.
   */
  lemma RemovalRestoresOrderIff(states: seq<State>, ops: seq<Op>, p: Off, pinName: string)
    requires PinRun(states, ops, p) && Sound(states[0], p) && Inv(states[|ops|])
    requires p in states[0].pins.items && states[0].pins.items[p].oldname == 0
    requires PinAlias(states[|ops|], pinName, None).1.Ok? && Resolve(states[|ops|], pinName) == p
    ensures var st' := PinAlias(states[|ops|], pinName, None).0;
            OrderKept(states[0], st', p) <==> NamesakesBefore(states[0], st', p)
  {
    RemovalAfterRun(states, ops, p, pinName);
    OrderKeptIff(states[0], PinAlias(states[|ops|], pinName, None).0, p);
  }
}
