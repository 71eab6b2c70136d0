/**
 Pins over whole runs of the HAL (src/hal/hal_lib.c): every listed pin was made by a call of the run,
 has the type and the direction of that call, and leaves with the component of its id.
 */
module HalPinRuns {
  import opened Lists
  import opened Names
  import opened Shmem
  import opened Hal
  import opened HalInv
  import opened HalOps
  import opened HalResults
  import opened HalAlias
  import opened HalLinks
  import opened HalPins

  // ----------------------------------------------------------- what a call leaves

  /** The same pin, as far as its maker asked for it. */
  predicate SamePinAt(items: map<Off, Pin>, items': map<Off, Pin>, p: Off) {
    && p in items && p in items'
    && items'[p].typ == items[p].typ && items'[p].dir == items[p].dir && items'[p].owner == items[p].owner
  }

  ghost predicate PinsKept(pins: Pool<Pin>, pins': Pool<Pin>) {
    forall p :: p in pins'.list ==> p in pins.list && SamePinAt(pins.items, pins'.items, p)
  }

  predicate SameIdAt(items: map<Off, Comp>, items': map<Off, Comp>, c: Off) {
    c in items && c in items' && items'[c].id == items[c].id
  }

  ghost predicate CompsKept(comps: Pool<Comp>, comps': Pool<Comp>) {
    forall c :: c in comps.list && c in comps'.list ==> SameIdAt(comps.items, comps'.items, c)
  }

  ghost predicate NoneCame(comps: Pool<Comp>, comps': Pool<Comp>) { forall c :: c in comps'.list ==> c in comps.list }

  lemma SamePins(pins: Pool<Pin>)
    requires PoolOk(pins)
    ensures PinsKept(pins, pins)
  {
  }

  lemma SameComps(comps: Pool<Comp>)
    requires PoolOk(comps)
    ensures CompsKept(comps, comps)
  {
  }

  /** One pin has changed, but not its kind, and may stand elsewhere. */
  lemma OnePin(pins: Pool<Pin>, pins': Pool<Pin>, p: Off, pin: Pin)
    requires PoolOk(pins) && pins'.items == pins.items[p := pin] && (forall q :: q in pins'.list ==> q in pins.list)
    requires p in pins.items && SamePinAt(pins.items, pins'.items, p)
    ensures PinsKept(pins, pins')
  {
  }

  lemma InitKeeps(st: State, name: string, id: int)
    requires Inv(st)
    ensures CompsKept(st.comps, CompInit(st, name, id).0.comps) && CompInit(st, name, id).0.pins == st.pins
  {
    CompInitExact(st, name, id);
    var (st', r) := CompInit(st, name, id);
    if r.Ok? {
      var c :| CompMade(st, st', c, name, id);
      MadeKeeps(st.comps, st'.comps, c, Comp(id, name, false));
    } else {
      SameComps(st.comps);
    }
  }

  lemma MadeKeeps(comps: Pool<Comp>, comps': Pool<Comp>, c: Off, comp: Comp)
    requires PoolOk(comps) && comps'.items == comps.items[c := comp]
    requires c !in comps.list || (c in comps.items && comp.id == comps.items[c].id)
    ensures CompsKept(comps, comps')
  {
  }

  lemma ReadyKeeps(st: State, id: int)
    requires ListsOk(st)
    ensures CompsKept(st.comps, CompReady(st, id).0.comps) && CompReady(st, id).0.pins == st.pins
    ensures NoneCame(st.comps, CompReady(st, id).0.comps)
  {
    var c := FindComp(st.comps.list, st.comps.items, id);
    if CompReady(st, id).1.Ok? {
      MadeKeeps(st.comps, CompReady(st, id).0.comps, c, st.comps.items[c].(ready := true));
    }
  }

  lemma ExitKeeps(st: State, id: int)
    requires Inv(st)
    ensures PinsKept(st.pins, CompExit(st, id).0.pins) && CompsKept(st.comps, CompExit(st, id).0.comps)
    ensures NoneCame(st.comps, CompExit(st, id).0.comps)
  {
    var c := FindComp(st.comps.list, st.comps.items, id);
    if c == 0 {
      SamePins(st.pins);
      SameComps(st.comps);
    } else {
      ExitKeepsPins(st, id, c);
      ExitKeepsComps(st, id, c);
    }
  }

  lemma ExitKeepsPins(st: State, id: int, c: Off)
    requires Inv(st) && c == FindComp(st.comps.list, st.comps.items, id) != 0
    ensures PinsKept(st.pins, CompExit(st, id).0.pins)
  {
    ExitExact(st, id);
  }

  lemma ExitKeepsComps(st: State, id: int, c: Off)
    requires Inv(st) && c == FindComp(st.comps.list, st.comps.items, id) != 0
    ensures CompsKept(st.comps, CompExit(st, id).0.comps) && NoneCame(st.comps, CompExit(st, id).0.comps)
  {
    DetachMembers(st.comps, c);
    RetiredKeeps(st.comps, c);
  }

  lemma RetiredKeeps(comps: Pool<Comp>, c: Off)
    requires PoolOk(comps) && c in comps.list
    ensures CompsKept(comps, Pool(Detach(comps, c).list, [c] + comps.free, comps.items[c := Comp(0, "", false)]))
  {
    DetachMembers(comps, c);
  }

  lemma AliasKeeps(st: State, pinName: string, alias: Option<string>)
    requires Inv(st)
    ensures PinsKept(st.pins, PinAlias(st, pinName, alias).0.pins) && PinAlias(st, pinName, alias).0.comps == st.comps
  {
    var (st1, o) := AllocOldName(st);
    AllocOldNameKeepsInv(st);
    if PinAlias(st, pinName, alias).1.Ok? {
      FreeOldNameKeepsInv(st1, o);
      var st2 := FreeOldName(st1, o);
      var p := FindPin(st2.pins.list, st2.pins.items, st2.olds, pinName);
      RealiasMoves(st2, p, alias);
      MovedKeeps(st2, Realias(st2, p, alias), p);
    } else {
      RefusedAliasChangesNothing(st, pinName, alias);
      SamePins(st.pins);
    }
  }

  lemma MovedKeeps(st: State, st': State, p: Off)
    requires PoolOk(st.pins) && p in st.pins.list && Moved(st, st', p)
    ensures PinsKept(st.pins, st'.pins) && st'.comps == st.comps
  {
    var rest := Detach(st.pins, p).list;
    DetachMembers(st.pins, p);
    InsertMembers(rest, Place(PinNames(rest, st.pins.items), st'.pins.items[p].name), p);
    OnePin(st.pins, st'.pins, p, st'.pins.items[p]);
  }

  lemma LinkKeeps(st: State, pinName: string, sigName: string)
    requires ListsOk(st)
    ensures PinsKept(st.pins, Link(st, pinName, sigName).0.pins) && Link(st, pinName, sigName).0.comps == st.comps
  {
    var p := FindPin(st.pins.list, st.pins.items, st.olds, pinName);
    var s := FindSig(st.sigs.list, st.sigs.items, sigName);
    SamePins(st.pins);
    if !st.lockConfig && p != 0 && s != 0 {
      LinkPinKeeps(st, p, s);
    }
  }

  lemma LinkPinKeeps(st: State, p: Off, s: Off)
    requires PoolOk(st.pins) && p in st.pins.items && s in st.sigs.items
    ensures PinsKept(st.pins, LinkPin(st, p, s).0.pins) && LinkPin(st, p, s).0.comps == st.comps
  {
    var pins' := LinkPin(st, p, s).0.pins;
    if pins' != st.pins {
      OnePin(st.pins, pins', p, pins'.items[p]);
    }
  }

  lemma UnlinkKeeps(st: State, pinName: string)
    requires Unlinkable(st)
    ensures PinsKept(st.pins, Unlink(st, pinName).0.pins) && Unlink(st, pinName).0.comps == st.comps
  {
    var p := FindPin(st.pins.list, st.pins.items, st.olds, pinName);
    SamePins(st.pins);
    if !st.lockConfig && p != 0 {
      UnlinkPinFrame(st, p);
      var pins' := UnlinkPin(st, p).pins;
      OnePin(st.pins, pins', p, pins'.items[p]);
    }
  }

  lemma SignalNewKeeps(st: State, name: string, typ: Type)
    requires ListsOk(st)
    ensures SignalNew(st, name, typ).0.pins == st.pins && SignalNew(st, name, typ).0.comps == st.comps
  {
  }

  lemma SignalDeleteKeeps(st: State, name: string)
    requires Inv(st) && Unlinkable(st)
    ensures PinsKept(st.pins, SignalDelete(st, name).0.pins) && SignalDelete(st, name).0.comps == st.comps
  {
    SignalDeleteExact(st, name);
    var (st', r) := SignalDelete(st, name);
    if r.Ok? {
      var s :| SigNamed(st, s, name) && SigGone(st, st', s);
      GoneKeeps(st, st', s);
    } else {
      SamePins(st.pins);
    }
  }

  lemma GoneKeeps(st: State, st': State, s: Off)
    requires PoolOk(st.pins) && SigGone(st, st', s)
    ensures PinsKept(st.pins, st'.pins)
  {
    forall p | p in st'.pins.list
      ensures SamePinAt(st.pins.items, st'.pins.items, p)
    {
      assert OffSignal(st.pins.items[p], st'.pins.items[p], s);
    }
  }

  lemma StoreKeeps(st: State, p: Off, v: Value)
    requires PoolOk(st.pins)
    ensures PinsKept(st.pins, Store(st, p, v).pins) && Store(st, p, v).comps == st.comps
  {
    var pins' := Store(st, p, v).pins;
    if pins' == st.pins {
      SamePins(st.pins);
    } else {
      OnePin(st.pins, pins', p, pins'.items[p]);
    }
  }

  /** What both states have on their lists is of one kind, and no pin has come. */
  ghost predicate Kept(st: State, st': State) { PinsKept(st.pins, st'.pins) && CompsKept(st.comps, st'.comps) }

  lemma CompStepKeeps(st: State, op: Op)
    requires Inv(st) && (op.CompInitOp? || op.CompReadyOp? || op.CompExitOp?)
    ensures Kept(st, Step(st, op)) && (!op.CompInitOp? ==> NoneCame(st.comps, Step(st, op).comps))
  {
    SamePins(st.pins);
    match op
    case CompInitOp(name, id) => InitKeeps(st, name, id);
    case CompReadyOp(id) => ReadyKeeps(st, id);
    case CompExitOp(id) => ExitKeeps(st, id);
  }

  lemma PinStepKeeps(st: State, op: Op)
    requires Inv(st) && (op.PinAliasOp? || op.LinkOp? || op.UnlinkOp? || op.StoreOp?)
    ensures Kept(st, Step(st, op)) && Step(st, op).comps == st.comps
  {
    InvUnlinkable(st);
    SameComps(st.comps);
    match op
    case PinAliasOp(pinName, alias) => AliasKeeps(st, pinName, alias);
    case LinkOp(pinName, sigName) => LinkKeeps(st, pinName, sigName);
    case UnlinkOp(pinName) => UnlinkKeeps(st, pinName);
    case StoreOp(p, v) => StoreKeeps(st, p, v);
  }

  lemma SignalStepKeeps(st: State, op: Op)
    requires Inv(st) && (op.SignalNewOp? || op.SignalDeleteOp?)
    ensures Kept(st, Step(st, op)) && Step(st, op).comps == st.comps
  {
    InvUnlinkable(st);
    SamePins(st.pins);
    SameComps(st.comps);
    match op
    case SignalNewOp(name, typ) => SignalNewKeeps(st, name, typ);
    case SignalDeleteOp(name) => SignalDeleteKeeps(st, name);
  }

  lemma MemoryStepKeeps(st: State, op: Op)
    requires Inv(st) && (IsMemoryOp(op) || op.SetLocksOp?)
    ensures Kept(st, Step(st, op)) && Step(st, op).comps == st.comps
  {
    SamePins(st.pins);
    SameComps(st.comps);
    MemorySame(st, op);
  }

  lemma MemorySame(st: State, op: Op)
    requires Inv(st) && (IsMemoryOp(op) || op.SetLocksOp?)
    ensures Step(st, op).pins == st.pins && Step(st, op).comps == st.comps
  {
    if IsParamOp(op) {
      ParamSame(st, op);
    }
  }

  lemma ParamSame(st: State, op: Op)
    requires Inv(st) && IsParamOp(op)
    ensures Step(st, op).pins == st.pins && Step(st, op).comps == st.comps
  {
  }

  lemma StepKeeps(st: State, op: Op)
    requires Inv(st) && !op.PinNewOp?
    ensures Kept(st, Step(st, op)) && (!op.CompInitOp? ==> NoneCame(st.comps, Step(st, op).comps))
  {
    if op.CompInitOp? || op.CompReadyOp? || op.CompExitOp? {
      CompStepKeeps(st, op);
    } else if op.PinAliasOp? || op.LinkOp? || op.UnlinkOp? || op.StoreOp? {
      PinStepKeeps(st, op);
    } else if op.SignalNewOp? || op.SignalDeleteOp? {
      SignalStepKeeps(st, op);
    } else {
      MemoryStepKeeps(st, op);
    }
  }

  // ---------------------------------------------------------- pins come from calls

  /** The pin is as the call asked. */
  predicate AsCalled(st: State, p: Off, op: Op) { op.PinNewOp? && AsAsked(st, p, op.typ, op.dir, op.compId) }

  lemma KeptAsCalled(st: State, st': State, p: Off, op: Op)
    requires Kept(st, st') && p in st'.pins.list && AsCalled(st, p, op)
    requires OwnersOk(st.pins, st.comps) && OwnersOk(st'.pins, st'.comps)
    ensures p in st.pins.list && AsCalled(st', p, op)
  {
  }

  /** A creation leaves every pin there is, and a pin that it adds is as it asked. */
  lemma CreationAsCalled(st: State, op: Op, st': State)
    requires Inv(st) && op.PinNewOp? && st' == Step(st, op)
    ensures forall p :: p in st'.pins.list && p !in st.pins.list ==> AsCalled(st', p, op)
    ensures forall p, o :: p in st.pins.list && AsCalled(st, p, o) ==> AsCalled(st', p, o)
    ensures st'.comps == st.comps
  {
    InvUnlinkable(st);
    PinNewExact(st, op.name, op.typ, op.dir, op.compId, op.ptrOk);
    if PinNew(st, op.name, op.typ, op.dir, op.compId, op.ptrOk).1.Ok? {
      var p :| PinMade(st, st', p, op.name, op.typ, op.dir, op.compId);
      MadeAsCalled(st, st', p, op);
    }
  }

  lemma MadeAsCalled(st: State, st': State, p: Off, op: Op)
    requires op.PinNewOp? && PinMade(st, st', p, op.name, op.typ, op.dir, op.compId)
    ensures forall q :: q in st'.pins.list && q !in st.pins.list ==> AsCalled(st', q, op)
    ensures forall q, o :: q in st.pins.list && AsCalled(st, q, o) ==> AsCalled(st', q, o)
  {
    MadeGained(st, st', p, op.name, op.typ, op.dir, op.compId);
  }

  // ---------------------------------------------------------------- whole runs

  /** Whether the pin is listed after some calls. */
  ghost function OnList(header: nat, p: Off): (on: seq<Op> -> bool)
    requires 0 < header <= HAL_SIZE
  {
    (ops: seq<Op>) => p in Reached(header, ops).pins.list
  }

  /** The `k`-th call made the pin, and it has been on the list ever since. */
  ghost predicate BornAt(on: seq<Op> -> bool, ops: seq<Op>, k: int) {
    && 0 <= k < |ops| && ops[k].PinNewOp? && !on(ops[..k])
    && forall j :: k < j <= |ops| ==> on(ops[..j])
  }

  lemma BornExtends(on: seq<Op> -> bool, ops: seq<Op>, op: Op, k: int)
    requires BornAt(on, ops, k) && on(ops + [op])
    ensures BornAt(on, ops + [op], k) && (ops + [op])[k] == ops[k]
  {
    var more := ops + [op];
    assert more[..k] == ops[..k];
    forall j | k < j <= |more|
      ensures on(more[..j])
    {
      assert more[..j] == if j <= |ops| then ops[..j] else more;
    }
  }

  lemma BornNow(on: seq<Op> -> bool, ops: seq<Op>, op: Op)
    requires op.PinNewOp? && !on(ops) && on(ops + [op])
    ensures BornAt(on, ops + [op], |ops|)
  {
    var more := ops + [op];
    assert more[..|ops|] == ops && more[..|ops| + 1] == more;
  }

  /** Some call of the run made the pin, and it is as that call asked. */
  ghost predicate Born(header: nat, ops: seq<Op>, p: Off, st: State)
    requires 0 < header <= HAL_SIZE
  {
    exists k :: BornAt(OnList(header, p), ops, k) && AsCalled(st, p, ops[k])
  }

  lemma ReachedStep(header: nat, ops: seq<Op>, op: Op)
    requires 0 < header <= HAL_SIZE
    ensures Reached(header, ops + [op]) == Step(Reached(header, ops), op)
  {
    assert (ops + [op])[..|ops|] == ops;
  }

  lemma StillCalled(st: State, op: Op, st': State, p: Off, o: Op)
    requires Inv(st) && Inv(st') && st' == Step(st, op) && p in st.pins.list && p in st'.pins.list && AsCalled(st, p, o)
    ensures AsCalled(st', p, o)
  {
    if op.PinNewOp? {
      CreationAsCalled(st, op, st');
    } else {
      StepKeeps(st, op);
      KeptAsCalled(st, st', p, o);
    }
  }

  lemma NewlyCalled(st: State, op: Op, st': State, p: Off)
    requires Inv(st) && st' == Step(st, op) && p !in st.pins.list && p in st'.pins.list
    ensures AsCalled(st', p, op)
  {
    if op.PinNewOp? {
      CreationAsCalled(st, op, st');
    } else {
      StepKeeps(st, op);
    }
  }

  lemma StepBorn(header: nat, ops: seq<Op>, op: Op, p: Off, st: State, st': State)
    requires 0 < header <= HAL_SIZE && Inv(st) && Inv(st') && st' == Step(st, op) && p in st'.pins.list
    requires OnList(header, p)(ops) == (p in st.pins.list) && OnList(header, p)(ops + [op])
    requires p in st.pins.list ==> Born(header, ops, p, st)
    ensures Born(header, ops + [op], p, st')
  {
    var on := OnList(header, p);
    if p in st.pins.list {
      var k :| BornAt(on, ops, k) && AsCalled(st, p, ops[k]);
      BornExtends(on, ops, op, k);
      StillCalled(st, op, st', p, ops[k]);
    } else {
      NewlyCalled(st, op, st', p);
      BornNow(on, ops, op);
    }
  }

  /** What holds of no calls, and after one more call wherever it held, holds of all runs. */
  lemma {:induction false} ByCalls(holds: seq<Op> -> bool, ops: seq<Op>)
    requires holds([]) && forall front, last :: holds(front) ==> holds(front + [last])
    ensures holds(ops)
  {
    if ops != [] {
      var n := |ops| - 1;
      ByCalls(holds, ops[..n]);
      assert ops == ops[..n] + [ops[n]];
    }
  }

  /** The pin, if it is listed, was made by a call. */
  ghost predicate BornIfListed(header: nat, p: Off, ops: seq<Op>)
    requires 0 < header <= HAL_SIZE
  {
    OnList(header, p)(ops) ==> Born(header, ops, p, Reached(header, ops))
  }

  lemma StillBorn(header: nat, p: Off, front: seq<Op>, last: Op)
    requires 0 < header <= HAL_SIZE && BornIfListed(header, p, front)
    ensures BornIfListed(header, p, front + [last])
  {
    if OnList(header, p)(front + [last]) {
      ReachedStep(header, front, last);
      StepBorn(header, front, last, p, Reached(header, front), Reached(header, front + [last]));
    }
  }

  /** In every reached state each listed pin was made by a call of the run, and is of the kind that call asked for. */
  lemma PinsOfRuns(header: nat, ops: seq<Op>, p: Off)
    requires 0 < header <= HAL_SIZE
    ensures BornIfListed(header, p, ops)
  {
    forall front, last | BornIfListed(header, p, front)
      ensures BornIfListed(header, p, front + [last])
    {
      StillBorn(header, p, front, last);
    }
    ByCalls(ops' => BornIfListed(header, p, ops'), ops);
  }

  // --------------------------------------------------------- whose pins they are

  ghost predicate IdsDistinct(st: State) {
    forall c, d :: c in st.comps.list && d in st.comps.list && SharesId(st.comps.items, c, d) ==> c == d
  }

  predicate SharesId(items: map<Off, Comp>, c: Off, d: Off) { c in items && d in items && items[c].id == items[d].id }

  /** Every component is given an id that none on the list has, as the RTAPI gives out ids of modules. */
  ghost predicate FreshIds(header: nat, ops: seq<Op>)
    requires 0 < header <= HAL_SIZE
  {
    ops == [] ||
    (var front, last := ops[..|ops| - 1], ops[|ops| - 1];
     FreshIds(header, front) && (last.CompInitOp? ==> !CompThere(Reached(header, front), last.id)))
  }

  lemma InitKeepsIds(st: State, name: string, id: int)
    requires Inv(st) && IdsDistinct(st) && !CompThere(st, id)
    ensures IdsDistinct(CompInit(st, name, id).0)
  {
    CompInitExact(st, name, id);
    var (st', r) := CompInit(st, name, id);
    if r.Ok? {
      var c :| CompMade(st, st', c, name, id);
      MadeIds(st, st', c, name, id);
    }
  }

  lemma MadeIds(st: State, st': State, c: Off, name: string, id: int)
    requires PoolOk(st.comps) && IdsDistinct(st) && !CompThere(st, id) && CompMade(st, st', c, name, id)
    ensures IdsDistinct(st')
  {
    forall d, e | d in st'.comps.list && e in st'.comps.list && SharesId(st'.comps.items, d, e)
      ensures d == e
    {
      assert d != c && e != c ==> SharesId(st.comps.items, d, e);
      assert d == c && e != c ==> HasId(st, e, id);
      assert e == c && d != c ==> HasId(st, d, id);
    }
  }

  lemma KeptIds(st: State, st': State)
    requires IdsDistinct(st) && NoneCame(st.comps, st'.comps) && CompsKept(st.comps, st'.comps)
    ensures IdsDistinct(st')
  {
    forall d, e | d in st'.comps.list && e in st'.comps.list && SharesId(st'.comps.items, d, e)
      ensures d == e
    {
      assert SameIdAt(st.comps.items, st'.comps.items, d) && SameIdAt(st.comps.items, st'.comps.items, e);
      assert SharesId(st.comps.items, d, e);
    }
  }

  lemma InitStepIds(st: State, op: Op)
    requires Inv(st) && IdsDistinct(st) && op.CompInitOp? && !CompThere(st, op.id)
    ensures IdsDistinct(Step(st, op))
  {
    InitKeepsIds(st, op.name, op.id);
  }

  lemma CreationIds(st: State, op: Op)
    requires Inv(st) && IdsDistinct(st) && op.PinNewOp?
    ensures IdsDistinct(Step(st, op))
  {
    CreationAsCalled(st, op, Step(st, op));
  }

  lemma StepKeepsIds(st: State, op: Op)
    requires Inv(st) && IdsDistinct(st) && (op.CompInitOp? ==> !CompThere(st, op.id))
    ensures IdsDistinct(Step(st, op))
  {
    if op.CompInitOp? {
      InitStepIds(st, op);
    } else if op.PinNewOp? {
      CreationIds(st, op);
    } else {
      StepKeeps(st, op);
      KeptIds(st, Step(st, op));
    }
  }

  lemma {:induction false} IdsOfRuns(header: nat, ops: seq<Op>)
    requires 0 < header <= HAL_SIZE && FreshIds(header, ops)
    ensures IdsDistinct(Reached(header, ops))
  {
    if ops != [] {
      var front, last := ops[..|ops| - 1], ops[|ops| - 1];
      IdsOfRuns(header, front);
      StepKeepsIds(Reached(header, front), last);
    }
  }

  lemma OnlyHolder(st: State, id: int, c: Off)
    requires IdsDistinct(st) && c in st.comps.list && c in st.comps.items
    ensures FirstComp(st, id, c) <==> st.comps.items[c].id == id
  {
    if st.comps.items[c].id == id {
      forall j | 0 <= j < IndexOf(st.comps.list, c)
        ensures !HasId(st, st.comps.list[j], id)
      {
        IndexIsFirst(st.comps.list, c);
        assert HasId(st, st.comps.list[j], id) ==> SharesId(st.comps.items, st.comps.list[j], c);
      }
    }
  }

  lemma {:induction false} IndexIsFirst(list: seq<Off>, x: Off)
    ensures forall j :: 0 <= j < IndexOf(list, x) ==> list[j] != x
  {
    if list != [] && list[0] != x {
      IndexIsFirst(list[1..], x);
    }
  }

  /**
   In every reached state, if ids were given out as the RTAPI does, the exit of a component takes
   exactly those listed pins off the list that calls with its id have made.
   */
  lemma PinsLeaveWithMaker(header: nat, ops: seq<Op>, p: Off, id: int)
    requires 0 < header <= HAL_SIZE && FreshIds(header, ops) && p in Reached(header, ops).pins.list
    ensures exists k :: && BornAt(OnList(header, p), ops, k)
                        && (p in Left(Reached(header, ops), id) <==> ops[k].compId != id)
  {
    var st := Reached(header, ops);
    PinsOfRuns(header, ops, p);
    var k :| BornAt(OnList(header, p), ops, k) && AsCalled(st, p, ops[k]);
    IdsOfRuns(header, ops);
    ExitMembers(st, id);
    OnlyHolder(st, id, st.pins.items[p].owner);
  }
}
