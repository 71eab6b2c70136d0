/** The main results about pins, signals and components of the HAL. */
module HalResults {
  import opened Lists
  import opened Names
  import opened Shmem
  import opened Hal
  import opened HalInv
  import opened HalOps

  // ---------------------------------------------------------------- whole runs

  datatype Op =
    | CompInitOp(name: string, id: int)
    | CompReadyOp(id: int)
    | CompExitOp(id: int)
    | PinNewOp(name: string, typ: Type, dir: Dir, compId: int, ptrOk: bool)
    | PinAliasOp(pinName: string, alias: Option<string>)
    | SignalNewOp(name: string, typ: Type)
    | SignalDeleteOp(name: string)
    | LinkOp(pinName: string, sigName: string)
    | UnlinkOp(pinName: string)
    | StoreOp(p: Off, v: Value)
    | SetLocksOp(load: bool, config: bool)
    | MallocOp(size: nat)
    | StructOp(size: nat)
    | ParamSaveOp
    | ParamRestoreOp(o: Off)
    | ParamFreedOp(o: Off)
    | ParamReserveOp

  /** A component stores a value through the data pointer of one of its pins. */
  function Store(st: State, p: Off, v: Value): (st': State) {
    if p !in st.pins.list || p !in st.pins.items then st
    else match st.pins.items[p].target
      case OwnDummy => SetPin(st, p, st.pins.items[p].(dummy := v))
      case Cell(at) => st.(cells := st.cells[at := v])
  }

  ghost function Step(st: State, op: Op): (st': State)
    requires Inv(st)
  {
    InvUnlinkable(st);
    match op
    case CompInitOp(name, id) => CompInit(st, name, id).0
    case CompReadyOp(id) => CompReady(st, id).0
    case CompExitOp(id) => CompExit(st, id).0
    case PinNewOp(name, typ, dir, compId, ptrOk) => PinNew(st, name, typ, dir, compId, ptrOk).0
    case PinAliasOp(pinName, alias) => PinAlias(st, pinName, alias).0
    case SignalNewOp(name, typ) => SignalNew(st, name, typ).0
    case SignalDeleteOp(name) => SignalDelete(st, name).0
    case LinkOp(pinName, sigName) => Link(st, pinName, sigName).0
    case UnlinkOp(pinName) => Unlink(st, pinName).0
    case StoreOp(p, v) => Store(st, p, v)
    case SetLocksOp(load, config) => st.(lockLoad := load, lockConfig := config)
    case MallocOp(size) => st.(arena := AllocUp(st.arena, size).0)
    case StructOp(size) => st.(arena := AllocDown(st.arena, size).0)
    case ParamSaveOp => ParamSave(st)
    case ParamRestoreOp(o) => ParamRestore(st, o)
    case ParamFreedOp(o) => ParamFreed(st, o)
    case ParamReserveOp => ParamReserve(st)
  }

  lemma StoreDummyKeepsInv(st: State, p: Off, v: Value)
    requires Inv(st) && p in st.pins.list
    ensures Inv(SetPin(st, p, st.pins.items[p].(dummy := v)))
  {
    var pin' := st.pins.items[p].(dummy := v);
    SetPinKeepsListInv(st, p, pin', st.sigs, st.cells);
    var pins' := st.pins.(items := st.pins.items[p := pin']);
    CountsFrame(st.pins, pins', st.sigs);
    forall q | q in pins'.list && q in pins'.items
      ensures LinkOk(pins'.items[q], st.sigs)
    {
      assert LinkOk(st.pins.items[q], st.sigs);
    }
  }

  lemma StoreCellKeepsInv(st: State, at: Off, v: Value)
    requires Inv(st) && at in st.cells
    ensures Inv(st.(cells := st.cells[at := v]))
  {
    var cells' := st.cells[at := v];
    assert forall c :: c in cells' <==> c in st.cells;
  }

  lemma StoreKeepsInv(st: State, p: Off, v: Value)
    requires Inv(st)
    ensures Inv(Store(st, p, v))
  {
    if p in st.pins.list {
      assert LinkOk(st.pins.items[p], st.sigs);
      if st.pins.items[p].target.OwnDummy? {
        StoreDummyKeepsInv(st, p, v);
      } else {
        StoreCellKeepsInv(st, st.pins.items[p].target.at, v);
      }
    }
  }

  lemma LinkCallKeepsInv(st: State, pinName: string, sigName: string)
    requires Inv(st)
    ensures Inv(Link(st, pinName, sigName).0)
  {
    var p := FindPin(st.pins.list, st.pins.items, st.olds, pinName);
    var s := FindSig(st.sigs.list, st.sigs.items, sigName);
    if p != 0 && s != 0 {
      LinkKeepsInv(st, p, s);
    }
  }

  lemma UnlinkCallKeepsInv(st: State, pinName: string)
    requires Inv(st) && Unlinkable(st)
    ensures Inv(Unlink(st, pinName).0)
  {
    var p := FindPin(st.pins.list, st.pins.items, st.olds, pinName);
    if p != 0 {
      UnlinkKeepsInv(st, p);
    }
  }

  lemma CompStepKeepsInv(st: State, op: Op)
    requires Inv(st) && (op.CompInitOp? || op.CompReadyOp? || op.CompExitOp? || op.StoreOp? || op.SetLocksOp?)
    ensures Inv(Step(st, op))
  {
    match op
    case CompInitOp(name, id) => CompInitKeepsInv(st, name, id);
    case CompReadyOp(id) => CompReadyKeepsInv(st, id);
    case CompExitOp(id) => CompExitKeepsInv(st, id);
    case StoreOp(p, v) => StoreKeepsInv(st, p, v);
    case SetLocksOp(_, _) =>
  }

  /** Memory taken from either end of the free area. */
  lemma ArenaKeepsInv(st: State, m: Arena)
    requires Inv(st) && st.arena.bot <= m.bot <= m.top <= st.arena.top
    ensures Inv(st.(arena := m))
  {
  }

  lemma HeldKeepsInv(st: State, held: set<Off>)
    requires Inv(st) && forall o :: o in held ==> o in st.olds && o != 0
    ensures Inv(st.(held := held))
  {
  }

  lemma ParamSaveKeepsInv(st: State)
    requires Inv(st)
    ensures Inv(ParamSave(st))
  {
    var (st1, o) := AllocOldName(st);
    AllocOldNameKeepsInv(st);
    if o != 0 {
      HeldKeepsInv(st1, st1.held + {o});
    }
  }

  lemma ParamRestoreKeepsInv(st: State, o: Off)
    requires Inv(st)
    ensures Inv(ParamRestore(st, o))
  {
    if o in st.held {
      HeldKeepsInv(st, st.held - {o});
      FreeOldNameKeepsInv(st.(held := st.held - {o}), o);
    }
  }

  lemma ParamFreedKeepsInv(st: State, o: Off)
    requires Inv(st)
    ensures Inv(ParamFreed(st, o))
  {
    if o in st.held {
      FreeOldNameKeepsInv(st, o);
    }
  }

  lemma ParamReserveKeepsInv(st: State)
    requires Inv(st)
    ensures Inv(ParamReserve(st))
  {
    var (st1, o) := AllocOldName(st);
    AllocOldNameKeepsInv(st);
    if o != 0 {
      FreeOldNameKeepsInv(st1, o);
    }
  }

  /** The calls of others that use shared memory and old-name structures. */
  predicate IsMemoryOp(op: Op) {
    op.MallocOp? || op.StructOp? || IsParamOp(op)
  }

  predicate IsParamOp(op: Op) {
    op.ParamSaveOp? || op.ParamRestoreOp? || op.ParamFreedOp? || op.ParamReserveOp?
  }

  lemma ParamStepKeepsInv(st: State, op: Op)
    requires Inv(st) && IsParamOp(op)
    ensures Inv(Step(st, op))
  {
    match op
    case ParamSaveOp => ParamSaveKeepsInv(st);
    case ParamRestoreOp(o) => ParamRestoreKeepsInv(st, o);
    case ParamFreedOp(o) => ParamFreedKeepsInv(st, o);
    case ParamReserveOp => ParamReserveKeepsInv(st);
  }

  lemma MemoryStepKeepsInv(st: State, op: Op)
    requires Inv(st) && IsMemoryOp(op)
    ensures Inv(Step(st, op))
  {
    if op.MallocOp? {
      AllocUpExact(st.arena, op.size);
      ArenaKeepsInv(st, AllocUp(st.arena, op.size).0);
    } else if op.StructOp? {
      AllocDownExact(st.arena, op.size);
      ArenaKeepsInv(st, AllocDown(st.arena, op.size).0);
    } else {
      ParamStepKeepsInv(st, op);
    }
  }

  lemma StepKeepsInv(st: State, op: Op)
    requires Inv(st)
    ensures Inv(Step(st, op))
  {
    if op.PinNewOp? || op.PinAliasOp? {
      PinStepKeepsInv(st, op);
    } else if op.SignalNewOp? {
      SignalNewStep(st, op);
    } else if op.SignalDeleteOp? {
      SignalDeleteStep(st, op);
    } else if op.LinkOp? {
      LinkStep(st, op);
    } else if op.UnlinkOp? {
      UnlinkStep(st, op);
    } else if IsMemoryOp(op) {
      MemoryStepKeepsInv(st, op);
    } else {
      CompStepKeepsInv(st, op);
    }
  }

  lemma PinStepKeepsInv(st: State, op: Op)
    requires Inv(st) && (op.PinNewOp? || op.PinAliasOp?)
    ensures Inv(Step(st, op))
  {
    if op.PinNewOp? {
      InvUnlinkable(st);
      PinNewKeepsInv(st, op.name, op.typ, op.dir, op.compId, op.ptrOk);
    } else {
      PinAliasKeepsInv(st, op.pinName, op.alias);
    }
  }

  lemma SignalNewStep(st: State, op: Op)
    requires Inv(st) && op.SignalNewOp?
    ensures Inv(Step(st, op))
  {
    SignalNewKeepsInv(st, op.name, op.typ);
  }

  lemma SignalDeleteStep(st: State, op: Op)
    requires Inv(st) && op.SignalDeleteOp?
    ensures Inv(Step(st, op))
  {
    InvUnlinkable(st);
    SignalDeleteKeepsInv(st, op.name);
    DeleteIsStep(st, op, SignalDelete(st, op.name).0);
  }

  lemma DeleteIsStep(st: State, op: Op, st': State)
    requires Inv(st) && op.SignalDeleteOp? && Unlinkable(st) && st' == SignalDelete(st, op.name).0
    ensures Step(st, op) == st'
  {
  }

  lemma LinkStep(st: State, op: Op)
    requires Inv(st) && op.LinkOp?
    ensures Inv(Step(st, op))
  {
    LinkCallKeepsInv(st, op.pinName, op.sigName);
    LinkIsStep(st, op, Link(st, op.pinName, op.sigName).0);
  }

  lemma LinkIsStep(st: State, op: Op, st': State)
    requires Inv(st) && op.LinkOp? && st' == Link(st, op.pinName, op.sigName).0
    ensures Step(st, op) == st'
  {
  }

  lemma UnlinkStep(st: State, op: Op)
    requires Inv(st) && op.UnlinkOp?
    ensures Inv(Step(st, op))
  {
    InvUnlinkable(st);
    UnlinkCallKeepsInv(st, op.pinName);
  }

  /** The states a run of calls goes through, from freshly initialised shared memory. */
  ghost function Reached(header: nat, ops: seq<Op>): (st: State)
    requires 0 < header <= HAL_SIZE
    ensures Inv(st)
  {
    if ops == [] then Init(header)
    else
      StepKeepsInv(Reached(header, ops[..|ops| - 1]), ops[|ops| - 1]);
      Step(Reached(header, ops[..|ops| - 1]), ops[|ops| - 1])
  }

  /** The pins linked to a signal, as a reader of the pin list counts them. */
  ghost function LinkedPins(st: State, s: Off, dirs: set<Dir>): set<Off> {
    set p | p in st.pins.list && p in st.pins.items && st.pins.items[p].signal == s && st.pins.items[p].dir in dirs
  }

  /**
   Each signal's counts are the numbers of linked pins of each direction; it has at most
   one writer, and never a writer together with a bidirectional pin; a port has at most one
   reader and no bidirectional pin.
   */
  ghost predicate SignalConsistent(st: State, s: Off) {
    && s in st.sigs.items
    && var sig := st.sigs.items[s];
    && sig.readers == |LinkedPins(st, s, {In, Io})|
    && sig.writers == |LinkedPins(st, s, {Out})| <= 1
    && sig.bidirs == |LinkedPins(st, s, {Io})|
    && (sig.writers == 0 || sig.bidirs == 0)
    && (sig.typ == PortHandle ==> sig.readers <= 1 && sig.bidirs == 0)
  }

  lemma LinkedPinsAreGroups(st: State, s: Off)
    ensures LinkedPins(st, s, {In, Io}) == Group(st.pins, s, Reader)
    ensures LinkedPins(st, s, {Out}) == Group(st.pins, s, Writer)
    ensures LinkedPins(st, s, {Io}) == Group(st.pins, s, Bidir)
  {
  }

  lemma InvMeansConsistent(st: State, s: Off)
    requires Inv(st) && s in st.sigs.list
    ensures SignalConsistent(st, s)
  {
    assert CountOk(st.pins, s, st.sigs.items[s]) && RulesOk(st.sigs.items[s]);
    LinkedPinsAreGroups(st, s);
  }

  /** In every reachable state every signal is consistent and every linked pin names a live signal of its type. */
  lemma SignalCounts(header: nat, ops: seq<Op>)
    requires 0 < header <= HAL_SIZE
    ensures var st := Reached(header, ops);
            && (forall s :: s in st.sigs.list ==> SignalConsistent(st, s))
            && (forall p :: p in st.pins.list && p in st.pins.items && st.pins.items[p].signal != 0 ==>
                  && st.pins.items[p].signal in st.sigs.list && st.pins.items[p].signal in st.sigs.items
                  && st.sigs.items[st.pins.items[p].signal].typ == st.pins.items[p].typ)
  {
    var st := Reached(header, ops);
    forall s | s in st.sigs.list
      ensures SignalConsistent(st, s)
    {
      InvMeansConsistent(st, s);
    }
    assert forall p :: p in st.pins.list && p in st.pins.items ==> LinkOk(st.pins.items[p], st.sigs);
  }

  /**
   In every reachable state each pin structure ever made is on exactly one of the pin list
   and the free list, once; both lists are sorted or free of repetition; and no two live
   signals share a value cell, whatever structures were reused.
   */
  lemma StructuresAccounted(header: nat, ops: seq<Op>)
    requires 0 < header <= HAL_SIZE
    ensures var st := Reached(header, ops);
            && (forall p :: p in st.pins.items <==> p in st.pins.list || p in st.pins.free)
            && Distinct(st.pins.list + st.pins.free)
            && Sorted(PinNames(st.pins.list, st.pins.items))
            && (forall s, t :: s in st.sigs.list && t in st.sigs.list && s != t ==>
                  s in st.sigs.items && t in st.sigs.items && st.sigs.items[s].data != st.sigs.items[t].data)
  {
    var st := Reached(header, ops);
    var all := st.pins.list + st.pins.free;
    forall i, j | 0 <= i < j < |all|
      ensures all[i] != all[j]
    {
      if i < |st.pins.list| <= j {
        assert all[i] in st.pins.list && all[j] in st.pins.free;
      }
    }
  }

  // -------------------------------------------------------------------- values

  /** Unlinking a pin that is not a port changes the value that no pin reads, its own included. */
  lemma UnlinkKeepsValues(st: State, p: Off, q: Off)
    requires Inv(st) && p in st.pins.list && q in st.pins.list && CanUnlink(st, p)
    ensures var st' := UnlinkPin(st, p);
            && q in st'.pins.items && p in st'.pins.items
            && (st.pins.items[p].typ != PortHandle || q != p ==> Reads(st', q) == Reads(st, q))
            && (st.pins.items[p].typ == PortHandle && st.pins.items[p].signal != 0 ==> Reads(st', p) == 0)
  {
    assert LinkOk(st.pins.items[p], st.sigs);
  }

  /** Unlinking one after the other the pins of a signal that is not a port. */
  lemma {:induction false} UnlinkAllKeepsValues(st: State, list: seq<Off>, s: Off, q: Off)
    requires Inv(st) && s in st.sigs.list && st.sigs.items[s].typ != PortHandle && q in st.pins.list
    requires (forall p :: p in list ==> p in st.pins.list) && (forall p :: p in list ==> CanUnlink(st, p))
    ensures var st' := UnlinkAll(st, list, s); q in st'.pins.items && Reads(st', q) == Reads(st, q)
    decreases list
  {
    if list != [] {
      assert CanUnlink(st, list[0]);
      if st.pins.items[list[0]].signal == s {
        assert LinkOk(st.pins.items[list[0]], st.sigs);
        UnlinkKeepsInv(st, list[0]);
        UnlinkKeepsValues(st, list[0], q);
        UnlinkAllKeepsValues(UnlinkPin(st, list[0]), list[1..], s, q);
      } else {
        UnlinkAllKeepsValues(st, list[1..], s, q);
      }
    }
  }

  lemma DeleteFoundKeepsValues(st: State, s: Off, q: Off)
    requires Inv(st) && Unlinkable(st) && q in st.pins.list && s in st.sigs.list && st.sigs.items[s].typ != PortHandle
    ensures Unlinkable(st.(sigs := Detach(st.sigs, s)))
    ensures var st' := FreeSig(st.(sigs := Detach(st.sigs, s)), s); q in st'.pins.items && Reads(st', q) == Reads(st, q)
  {
    SignalDeleteSteps(st, s);
    UnlinkAllKeepsValues(st, st.pins.list, s, q);
    RetireKeepsValues(UnlinkAll(st, st.pins.list, s), s, q);
  }

  lemma RetireKeepsValues(st: State, s: Off, q: Off)
    requires s in st.sigs.list && q in st.pins.items
    ensures q in RetireSig(st, s).pins.items && Reads(RetireSig(st, s), q) == Reads(st, q)
  {
  }

  /** Deleting a signal that is not a port changes the value that no pin reads. */
  lemma DeleteKeepsValues(st: State, name: string, q: Off)
    requires Inv(st) && Unlinkable(st) && q in st.pins.list
    requires var s := FindSig(st.sigs.list, st.sigs.items, name); s != 0 ==> st.sigs.items[s].typ != PortHandle
    ensures var st' := SignalDelete(st, name).0; q in st'.pins.items && Reads(st', q) == Reads(st, q)
  {
    var r, s := SignalDelete(st, name), FindSig(st.sigs.list, st.sigs.items, name);
    if st.lockConfig || s == 0 {
      assert r.0 == st;
    } else {
      DeleteFoundKeepsValues(st, s, q);
      assert r.0 == FreeSig(st.(sigs := Detach(st.sigs, s)), s) by {
        SignalDeleteSteps(st, s);
      }
    }
  }

  /**
   Linking an unlinked pin makes it read the signal.  If its default is driven onto the
   signal it goes on reading what it read; otherwise the signal keeps its value.
   */
  lemma LinkValues(st: State, p: Off, s: Off)
    requires Inv(st) && p in st.pins.list && s in st.sigs.list
    requires st.pins.items[p].signal == 0 && LinkPin(st, p, s).1.Ok?
    ensures var st', cell := LinkPin(st, p, s).0, st.sigs.items[s].data;
            && cell in st.cells && cell in st'.cells && p in st'.pins.items
            && Reads(st', p) == st'.cells[cell]
            && (DrivesDefault(st.pins.items[p], st.sigs.items[s]) ==> Reads(st', p) == Reads(st, p))
            && (!DrivesDefault(st.pins.items[p], st.sigs.items[s]) ==> st'.cells[cell] == st.cells[cell])
  {
    assert LinkOk(st.pins.items[p], st.sigs);
  }

  /** Linking changes what another pin reads only if that pin is on the signal and the default is driven. */
  lemma LinkKeepsOtherValues(st: State, p: Off, s: Off, q: Off)
    requires Inv(st) && p in st.pins.list && s in st.sigs.list && q in st.pins.list && q != p
    requires st.pins.items[p].signal == 0 && LinkPin(st, p, s).1.Ok?
    requires st.pins.items[q].signal == s ==> !DrivesDefault(st.pins.items[p], st.sigs.items[s])
    ensures var st' := LinkPin(st, p, s).0; q in st'.pins.items && Reads(st', q) == Reads(st, q)
  {
    var other := st.pins.items[q];
    assert LinkOk(other, st.sigs);
    if other.signal != 0 && other.signal != s {
      assert st.sigs.items[other.signal].data != st.sigs.items[s].data;
    }
  }

  // ---------------------------------------------------------------------- exit

  lemma {:induction false} OthersIsWithout(list: seq<Off>, items: map<Off, Pin>, c: Off, gone: set<Off>)
    requires forall x :: x in list ==> x in items
    requires forall x :: x in list ==> (x in gone <==> items[x].owner == c)
    ensures Without(list, gone) == Others(list, items, c)
  {
    if list != [] {
      assert list[0] in list;
      OthersIsWithout(list[1..], items, c, gone);
    }
  }

  /**
   A component's exit removes exactly its pins: the others keep their order, their
   structures, their links and what they read; the removed ones are on the free list; the
   component is gone; and every signal's counts are those of the pins that are left.
   */
  lemma ExitExact(st: State, id: int)
    requires Inv(st) && CompExit(st, id).1.Ok?
    ensures var st', c := CompExit(st, id).0, FindComp(st.comps.list, st.comps.items, id);
            && st'.pins.list == Others(st.pins.list, st.pins.items, c)
            && (forall q :: q in st'.pins.list ==> q in st'.pins.items && st'.pins.items[q] == st.pins.items[q])
            && (forall p :: p in st.pins.list && st.pins.items[p].owner == c ==> p in st'.pins.free)
            && st'.cells == st.cells && st'.sigs.list == st.sigs.list
            && c !in st'.comps.list
            && (forall s :: s in st'.sigs.list ==> SignalConsistent(st', s))
  {
    var st', c := CompExit(st, id).0, FindComp(st.comps.list, st.comps.items, id);
    CompExitKeepsInv(st, id);
    var ps := Owned(st.pins.list, st.pins.items, c);
    OwnedDistinct(st.pins.list, st.pins.items, c);
    DropPinsFacts(st, ps);
    WithoutMembers(st.pins.list, ToSet(ps));
    ToSetMembers(ps);
    OthersIsWithout(st.pins.list, st.pins.items, c, ToSet(ps));
    DetachMembers(st.comps, c);
    forall s | s in st'.sigs.list
      ensures SignalConsistent(st', s)
    {
      InvMeansConsistent(st', s);
    }
    assert forall p :: p in st'.pins.items <==> p in st'.pins.items.Keys;
  }
}
