/**
 Saved names over whole runs of the HAL (src/hal/hal_lib.c).  `free_pin_struct` gives a pin's
 old-name structure back but leaves the reference in the freed pin, and `free_param_struct` does
 likewise, so the ownership of saved names survives every call but those that free a pin or a
 parameter while it is aliased.
 */
module HalStale {
  import opened Lists
  import opened Names
  import opened Shmem
  import opened Hal
  import opened HalInv
  import opened HalOps
  import opened HalResults
  import opened HalAlias

  /** Only listed pins hold old names. */
  ghost predicate HeldListed(st: State) {
    forall p :: p in st.pins.items && st.pins.items[p].oldname != 0 ==> p in st.pins.list
  }

  /** The saved names and who holds them are as before. */
  ghost predicate SameHolders(st: State, st': State) {
    && st'.olds == st.olds && st'.oldFree == st.oldFree && st'.held == st.held && HeldListed(st')
    && (forall p :: p in st'.pins.items && st'.pins.items[p].oldname != 0 ==>
          p in st.pins.items && st.pins.items[p].oldname == st'.pins.items[p].oldname)
  }

  lemma SameHoldersKeep(st: State, st': State)
    requires OldInv(st) && SameHolders(st, st')
    ensures OldInv(st')
  {
    var fs :| OldInvWith(st, fs);
    OldInvFrame(st, st', fs);
  }

  /** Every pin structure keeps its reference to a saved name. */
  ghost predicate SameRefs(st: State, st': State) {
    && st'.pins.items.Keys == st.pins.items.Keys
    && (forall p :: p in st.pins.items && p in st'.pins.items ==> st'.pins.items[p].oldname == st.pins.items[p].oldname)
  }

  lemma SameRefsHold(st: State, st': State)
    requires HeldListed(st) && SameRefs(st, st') && st'.pins.list == st.pins.list
    requires st'.olds == st.olds && st'.oldFree == st.oldFree && st'.held == st.held
    ensures SameHolders(st, st')
  {
    assert forall p :: p in st'.pins.items <==> p in st'.pins.items.Keys;
  }

  // ---------------------------------------------------------------------- exit

  lemma DropPinRefs(st: State, p: Off)
    requires PoolOk(st.pins) && p in st.pins.list && CanUnlink(st, p)
    ensures SameRefs(st, DropPin(st, p))
    ensures st.pins.items[p].oldname == 0 ==> DropPin(st, p).olds == st.olds && DropPin(st, p).oldFree == st.oldFree
    ensures DropPin(st, p).held == st.held
  {
  }

  /** The state after the first drop, from which the rest goes on. */
  lemma DropStepRefs(st: State, ps: seq<Off>) returns (st1: State)
    requires Inv(st) && Distinct(ps) && ps != [] && forall p :: p in ps ==> p in st.pins.list
    ensures Inv(st1) && SameRefs(st, st1) && st1.held == st.held
    ensures st.pins.items[ps[0]].oldname == 0 ==> st1.olds == st.olds && st1.oldFree == st.oldFree
    ensures Distinct(ps[1..]) && forall p :: p in ps[1..] ==> p in st1.pins.list
    ensures DropPins(st, ps) == DropPins(st1, ps[1..])
  {
    InvUnlinkable(st);
    DropPinRefs(st, ps[0]);
    DropPinKeepsInv(st, ps[0]);
    DropPinFacts(st, ps[0]);
    DropFirst(st, ps, DropPin(st, ps[0]));
    st1 := DropPin(st, ps[0]);
  }

  lemma {:induction false} DropPinsRefs(st: State, ps: seq<Off>)
    requires Inv(st) && Distinct(ps) && forall p :: p in ps ==> p in st.pins.list
    ensures var st' := DropPins(st, ps);
            && SameRefs(st, st') && st'.held == st.held
            && ((forall p :: p in ps ==> st.pins.items[p].oldname == 0) ==>
                 st'.olds == st.olds && st'.oldFree == st.oldFree)
    decreases ps
  {
    if ps != [] {
      var st1 := DropStepRefs(st, ps);
      DropPinsRefs(st1, ps[1..]);
      SameRefsTwice(st, st1, DropPins(st, ps));
      assert forall p :: p in ps[1..] ==> p in ps;
    }
  }

  lemma SameRefsTwice(st: State, st1: State, st2: State)
    requires SameRefs(st, st1) && SameRefs(st1, st2)
    ensures SameRefs(st, st2)
  {
    forall p | p in st.pins.items && p in st2.pins.items
      ensures st2.pins.items[p].oldname == st.pins.items[p].oldname
    {
      assert p in st1.pins.items.Keys;
    }
  }

  /** Some pin of the component bears an alias. */
  ghost predicate OwnsAliased(st: State, id: int)
    requires ListsOk(st)
  {
    var c := FindComp(st.comps.list, st.comps.items, id);
    c != 0 && exists p :: p in st.pins.list && st.pins.items[p].owner == c && st.pins.items[p].oldname != 0
  }

  /** What an exit does to pins and saved names. */
  lemma ExitRefs(st: State, id: int, st': State)
    requires Inv(st) && CompExit(st, id) == (st', Ok)
    ensures var c := FindComp(st.comps.list, st.comps.items, id);
            && SameRefs(st, st') && st'.held == st.held
            && (forall p :: p in st'.pins.list <==> p in st.pins.list && st.pins.items[p].owner != c)
            && (!OwnsAliased(st, id) ==> st'.olds == st.olds && st'.oldFree == st.oldFree)
  {
    var c := FindComp(st.comps.list, st.comps.items, id);
    var ps := Owned(st.pins.list, st.pins.items, c);
    OwnedDistinct(st.pins.list, st.pins.items, c);
    DropPinsRefs(st, ps);
    ExitExact(st, id);
  }

  /** Saved names stay owned across an exit if and only if the component owns no aliased pin. */
  lemma ExitKeepsOldInvIff(st: State, id: int)
    requires Inv(st) && OldInv(st)
    ensures OldInv(CompExit(st, id).0) <==> !OwnsAliased(st, id)
  {
    var (st', r) := CompExit(st, id);
    if r.Ok? {
      ExitRefs(st, id, st');
      ExitOldInvIff(st, id, st');
    }
  }

  lemma ExitOldInvIff(st: State, id: int, st': State)
    requires ListsOk(st) && OldInv(st) && SameRefs(st, st') && st'.held == st.held
    requires var c := FindComp(st.comps.list, st.comps.items, id);
             && c != 0
             && (forall p :: p in st'.pins.list <==> p in st.pins.list && st.pins.items[p].owner != c)
             && (!OwnsAliased(st, id) ==> st'.olds == st.olds && st'.oldFree == st.oldFree)
    ensures OldInv(st') <==> !OwnsAliased(st, id)
  {
    var c := FindComp(st.comps.list, st.comps.items, id);
    assert forall p :: p in st'.pins.items <==> p in st'.pins.items.Keys;
    if OwnsAliased(st, id) {
      var p :| p in st.pins.list && st.pins.items[p].owner == c && st.pins.items[p].oldname != 0;
      assert p in st'.pins.items && st'.pins.items[p].oldname != 0 && p !in st'.pins.list;
      assert !HeldListed(st');
    } else {
      assert HeldListed(st');
      SameHoldersKeep(st, st');
    }
  }

  // --------------------------------------------------------------- other calls

  /** A structure from the free list brings no saved name along. */
  lemma AllocPinHolders(st: State)
    requires Inv(st) && OldInv(st) && AllocPin(st).1 != 0
    ensures var (st1, p) := AllocPin(st);
            && p in st1.pins.items && st1.pins.items[p].oldname == 0 && st1.pins.items == st.pins.items[p := st1.pins.items[p]]
            && st1.pins.list == st.pins.list && st1.olds == st.olds && st1.oldFree == st.oldFree && st1.held == st.held
  {
    if st.pins.free != [] {
      var p := st.pins.free[0];
      assert p in st.pins.free;
    }
  }

  /** Freeing a pin structure that is on no list and holds nothing. */
  lemma FreePinHolders(st: State, p: Off)
    requires HeldListed(st) && p in st.pins.items && st.pins.items[p].signal == 0 && st.pins.items[p].oldname == 0
    ensures SameHolders(st, FreePin(st, p))
  {
  }

  lemma FinishPinHolders(st: State, st1: State, p: Off, pin: Pin)
    requires PoolOk(st.pins) && HeldListed(st) && pin.signal == 0 && pin.oldname == 0
    requires p in st1.pins.items && st1.pins.items == st.pins.items[p := st1.pins.items[p]] && st1.pins.list == st.pins.list
    requires st1.olds == st.olds && st1.oldFree == st.oldFree && st1.held == st.held
    ensures SameHolders(st, FinishPin(st, st1, p, pin).0)
  {
    var names := PinNames(st.pins.list, st.pins.items);
    if pin.name in names {
      FreePinHolders(SetPin(st1, p, pin), p);
    } else {
      InsertMembers(st1.pins.list, Place(names, pin.name), p);
    }
  }

  lemma PinNewKeepsOldInv(st: State, name: string, typ: Type, dir: Dir, compId: int, ptrOk: bool)
    requires Inv(st) && OldInv(st) && Unlinkable(st)
    ensures OldInv(PinNew(st, name, typ, dir, compId, ptrOk).0)
  {
    var r := PinNew(st, name, typ, dir, compId, ptrOk);
    var c := FindComp(st.comps.list, st.comps.items, compId);
    var st1, p := AllocatedHolders(st);
    if p == 0 {
      assert r.0 == st;
    } else {
      var pin := st1.pins.items[p].(name := name, owner := c, typ := typ, dir := dir);
      FinishPinKeepsOldInv(st, st1, p, pin);
      assert r.0 == st || r.0 == FinishPin(st, st1, p, pin).0;
    }
  }

  lemma AllocatedHolders(st: State) returns (st1: State, p: Off)
    requires Inv(st) && OldInv(st)
    ensures (st1, p) == AllocPin(st) && (p == 0 ==> st1 == st)
    ensures p != 0 ==>
              && p in st1.pins.items && st1.pins.items[p].oldname == 0 && st1.pins.items[p].signal == 0
              && st1.pins.items == st.pins.items[p := st1.pins.items[p]] && st1.pins.list == st.pins.list
              && st1.olds == st.olds && st1.oldFree == st.oldFree && st1.held == st.held
  {
    st1, p := AllocPin(st).0, AllocPin(st).1;
    AllocPinFacts(st);
    if p != 0 {
      AllocPinHolders(st);
    }
  }

  lemma FinishPinKeepsOldInv(st: State, st1: State, p: Off, pin: Pin)
    requires PoolOk(st.pins) && OldInv(st) && pin.signal == 0 && pin.oldname == 0
    requires p in st1.pins.items && st1.pins.items == st.pins.items[p := st1.pins.items[p]] && st1.pins.list == st.pins.list
    requires st1.olds == st.olds && st1.oldFree == st.oldFree && st1.held == st.held
    ensures OldInv(FinishPin(st, st1, p, pin).0)
  {
    FinishPinHolders(st, st1, p, pin);
    SameHoldersKeep(st, FinishPin(st, st1, p, pin).0);
  }

  ghost predicate SameNames(st: State, st': State) {
    forall p :: p in st.pins.items && p in st'.pins.items ==> st'.pins.items[p].name == st.pins.items[p].name
  }

  lemma SameNamesTwice(st: State, st1: State, st2: State)
    requires SameNames(st, st1) && SameNames(st1, st2) && SameRefs(st, st1)
    ensures SameNames(st, st2)
  {
    forall p | p in st.pins.items && p in st2.pins.items
      ensures st2.pins.items[p].name == st.pins.items[p].name
    {
      assert p in st1.pins.items.Keys;
    }
  }

  /** No name, no saved name, no reference to one and no position in the pin list has changed. */
  ghost predicate Untouched(st: State, st': State) {
    && SameRefs(st, st') && SameNames(st, st') && st'.pins.list == st.pins.list
    && st'.olds == st.olds && st'.oldFree == st.oldFree && st'.held == st.held
  }

  lemma UntouchedKeeps(st: State, st': State)
    requires OldInv(st) && Untouched(st, st')
    ensures OldInv(st')
  {
    SameRefsHold(st, st');
    SameHoldersKeep(st, st');
  }

  lemma {:induction false} UnlinkAllRefs(st: State, list: seq<Off>, s: Off)
    requires forall p :: p in list ==> CanUnlink(st, p)
    ensures Untouched(st, UnlinkAll(st, list, s))
    decreases list
  {
    if list != [] {
      assert CanUnlink(st, list[0]);
      var st1 := if st.pins.items[list[0]].signal == s && s != 0 then UnlinkPin(st, list[0]) else st;
      UnlinkAllRefs(st1, list[1..], s);
      SameRefsTwice(st, st1, UnlinkAll(st, list, s));
      SameNamesTwice(st, st1, UnlinkAll(st, list, s));
    }
  }

  lemma SignalDeleteRefs(st: State, name: string)
    requires Unlinkable(st)
    ensures Untouched(st, SignalDelete(st, name).0)
  {
    var s := FindSig(st.sigs.list, st.sigs.items, name);
    if s != 0 {
      var st1 := st.(sigs := Detach(st.sigs, s));
      DetachMembers(st.sigs, s);
      assert forall p :: CanUnlink(st, p) ==> CanUnlink(st1, p);
      UnlinkAllRefs(st1, st.pins.list, s);
    }
  }

  lemma UnlinkPinRefs(st: State, p: Off)
    requires CanUnlink(st, p)
    ensures Untouched(st, UnlinkPin(st, p))
  {
    UnlinkPinFrame(st, p);
  }

  lemma UnlinkRefs(st: State, pinName: string)
    requires Unlinkable(st)
    ensures Untouched(st, Unlink(st, pinName).0)
  {
    var p := FindPin(st.pins.list, st.pins.items, st.olds, pinName);
    if p != 0 {
      UnlinkPinRefs(st, p);
    }
  }

  lemma LinkPinRefs(st: State, p: Off, s: Off)
    requires p in st.pins.items && s in st.sigs.items
    ensures Untouched(st, LinkPin(st, p, s).0)
  {
  }

  lemma LinkRefs(st: State, pinName: string, sigName: string)
    requires ListsOk(st)
    ensures Untouched(st, Link(st, pinName, sigName).0)
  {
    var p := FindPin(st.pins.list, st.pins.items, st.olds, pinName);
    var s := FindSig(st.sigs.list, st.sigs.items, sigName);
    if p != 0 && s != 0 {
      LinkPinRefs(st, p, s);
    }
  }

  lemma SignalNewRefs(st: State, name: string, typ: Type)
    requires ListsOk(st)
    ensures Untouched(st, SignalNew(st, name, typ).0)
  {
    assert SignalNew(st, name, typ).0.pins == st.pins;
  }

  lemma CompRefs(st: State, name: string, id: int)
    requires ListsOk(st)
    ensures Untouched(st, CompInit(st, name, id).0) && Untouched(st, CompReady(st, id).0)
  {
    assert CompInit(st, name, id).0.pins == st.pins;
    assert CompReady(st, id).0.pins == st.pins;
  }

  lemma SetPinRefs(st: State, p: Off, pin: Pin)
    requires p in st.pins.items && pin.name == st.pins.items[p].name && pin.oldname == st.pins.items[p].oldname
    ensures Untouched(st, SetPin(st, p, pin))
  {
  }

  lemma StoreRefs(st: State, p: Off, v: Value)
    ensures Untouched(st, Store(st, p, v))
  {
    if p in st.pins.list && p in st.pins.items && st.pins.items[p].target.OwnDummy? {
      SetPinRefs(st, p, st.pins.items[p].(dummy := v));
    }
  }

  lemma CompStepRefs(st: State, op: Op)
    requires Inv(st) && (op.CompInitOp? || op.CompReadyOp? || op.StoreOp? || op.SetLocksOp? || op.MallocOp? || op.StructOp?)
    ensures Untouched(st, Step(st, op))
  {
    match op
    case CompInitOp(name, id) => CompRefs(st, name, id);
    case CompReadyOp(id) => CompRefs(st, "", id);
    case StoreOp(p, v) => StoreRefs(st, p, v);
    case SetLocksOp(_, _) =>
    case MallocOp(_) =>
    case StructOp(_) =>
  }

  /** Calls that change no name. */
  lemma NamelessRefs(st: State, op: Op)
    requires Inv(st) && !op.CompExitOp? && !op.PinNewOp? && !op.PinAliasOp? && !IsParamOp(op)
    ensures Untouched(st, Step(st, op))
  {
    InvUnlinkable(st);
    match op
    case SignalNewOp(name, typ) => SignalNewRefs(st, name, typ);
    case SignalDeleteOp(name) => SignalDeleteRefs(st, name);
    case LinkOp(pinName, sigName) => LinkRefs(st, pinName, sigName);
    case UnlinkOp(pinName) => UnlinkRefs(st, pinName);
    case _ => CompStepRefs(st, op);
  }

  lemma AliasKeepsOldInv(st: State, pinName: string, alias: Option<string>)
    requires Inv(st) && OldInv(st)
    ensures OldInv(PinAlias(st, pinName, alias).0)
  {
    var (st', r) := PinAlias(st, pinName, alias);
    if r.Ok? {
      AliasExact(st, pinName, alias);
    } else if AllocOldName(st).1 != 0 {
      var fs :| OldInvWith(st, fs);
      var fs2 := ReserveOwnership(st, fs);
    }
  }

  /** Parameters take old-name structures from the same free list and give them back to it. */
  lemma ParamSaveKeepsOldInv(st: State)
    requires Inv(st) && OldInv(st)
    ensures OldInv(ParamSave(st))
  {
    if AllocOldName(st).1 != 0 {
      var fs :| OldInvWith(st, fs);
      var fs' := AllocOldNameOwnership(st, fs);
      assert OldInvWith(ParamSave(st), fs');
    }
  }

  lemma ParamRestoreKeepsOldInv(st: State, o: Off)
    requires Inv(st) && OldInv(st)
    ensures OldInv(ParamRestore(st, o))
  {
    if o in st.held {
      var fs :| OldInvWith(st, fs);
      var st1 := st.(held := st.held - {o});
      assert OldInvWith(st1, fs);
      FreeOldNameOwnership(st1, o, fs);
    }
  }

  /** A parameter that is freed while it is aliased goes on naming a structure that is now free. */
  lemma ParamFreedKeepsOldInvIff(st: State, o: Off)
    requires Inv(st) && OldInv(st)
    ensures OldInv(ParamFreed(st, o)) <==> o !in st.held
  {
    if o in st.held {
      forall fs: seq<Off> ensures !OldInvWith(ParamFreed(st, o), fs) {
        assert ParamFreed(st, o).oldFree == o;
      }
    }
  }

  lemma ParamReserveKeepsOldInv(st: State)
    requires Inv(st) && OldInv(st)
    ensures OldInv(ParamReserve(st))
  {
    if AllocOldName(st).1 != 0 {
      var fs :| OldInvWith(st, fs);
      var fs' := ReserveChain(st, fs);
    }
  }

  /** The two calls that break the ownership of saved names: they free a pin or a parameter that is aliased. */
  ghost predicate StaleFree(st: State, op: Op)
    requires ListsOk(st)
  {
    (op.CompExitOp? && OwnsAliased(st, op.id)) || (op.ParamFreedOp? && op.o in st.held)
  }

  /** Every call keeps the ownership of saved names, except exactly the freeing of an aliased pin or parameter. */
  lemma StepKeepsOldInvIff(st: State, op: Op)
    requires Inv(st) && OldInv(st)
    ensures OldInv(Step(st, op)) <==> !StaleFree(st, op)
  {
    InvUnlinkable(st);
    match op
    case CompExitOp(id) => ExitKeepsOldInvIff(st, id);
    case PinNewOp(name, typ, dir, compId, ptrOk) => PinNewKeepsOldInv(st, name, typ, dir, compId, ptrOk);
    case PinAliasOp(pinName, alias) => AliasKeepsOldInv(st, pinName, alias);
    case ParamSaveOp => ParamSaveKeepsOldInv(st);
    case ParamRestoreOp(o) => ParamRestoreKeepsOldInv(st, o);
    case ParamFreedOp(o) => ParamFreedKeepsOldInvIff(st, o);
    case ParamReserveOp => ParamReserveKeepsOldInv(st);
    case _ =>
      NamelessRefs(st, op);
      UntouchedKeeps(st, Step(st, op));
  }

  /** No call of the run frees a pin or a parameter that is then aliased. */
  ghost predicate NoStaleFree(header: nat, ops: seq<Op>)
    requires 0 < header <= HAL_SIZE
  {
    ops == [] ||
    var n := |ops| - 1;
    NoStaleFree(header, ops[..n]) && !StaleFree(Reached(header, ops[..n]), ops[n])
  }

  lemma ReachedStep(header: nat, ops: seq<Op>)
    requires 0 < header <= HAL_SIZE && ops != []
    ensures var n := |ops| - 1; Reached(header, ops) == Step(Reached(header, ops[..n]), ops[n])
  {
  }

  lemma InitOwned(header: nat)
    requires 0 < header <= HAL_SIZE
    ensures OldInv(Init(header))
  {
    assert OldInvWith(Init(header), []);
  }

  /** In every run without such a call the saved names are owned as they should be. */
  lemma {:induction false} RunKeepsOldInv(header: nat, ops: seq<Op>)
    requires 0 < header <= HAL_SIZE && NoStaleFree(header, ops)
    ensures OldInv(Reached(header, ops))
    decreases |ops|
  {
    if ops == [] {
      InitOwned(header);
    } else {
      var n := |ops| - 1;
      RunKeepsOldInv(header, ops[..n]);
      ReachedStep(header, ops);
      StepKeepsOldInvIff(Reached(header, ops[..n]), ops[n]);
    }
  }
}
