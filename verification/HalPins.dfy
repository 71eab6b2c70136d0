/**
 What the calls on components and pins do with their arguments, and exactly when they succeed
 (src/hal/hal_lib.c, `hal_init`, `hal_ready`, `hal_exit`, `hal_pin_new`): whose pin a new pin is,
 what it can be linked to, and that this stays so over whole runs.
 */
module HalPins {
  import opened Lists
  import opened Names
  import opened Shmem
  import opened Hal
  import opened HalInv
  import opened HalOps
  import opened HalResults
  import opened HalAlias
  import opened HalLinks

  // ---------------------------------------------------------------- components

  /** The component that an id stands for: the first of the list that has it. */
  ghost predicate FirstComp(st: State, id: int, c: Off) {
    exists i :: && 0 <= i < |st.comps.list| && st.comps.list[i] == c && HasId(st, c, id)
                && forall j :: 0 <= j < i ==> !HasId(st, st.comps.list[j], id)
  }

  predicate HasId(st: State, c: Off, id: int) { c in st.comps.items && st.comps.items[c].id == id }

  ghost predicate CompThere(st: State, id: int) { exists c :: c in st.comps.list && HasId(st, c, id) }

  lemma {:induction false} CompFound(st: State, id: int, k: nat)
    requires ListsOk(st) && k <= |st.comps.list|
    requires forall j :: 0 <= j < k ==> !HasId(st, st.comps.list[j], id)
    ensures var c := FindComp(st.comps.list[k..], st.comps.items, id);
            if c == 0 then !CompThere(st, id) else FirstComp(st, id, c)
    decreases |st.comps.list| - k
  {
    if k < |st.comps.list| {
      var c := st.comps.list[k];
      assert st.comps.list[k..][1..] == st.comps.list[k + 1..];
      if !HasId(st, c, id) {
        CompFound(st, id, k + 1);
      }
    }
  }

  lemma CompLookup(st: State, id: int)
    requires ListsOk(st)
    ensures var c := FindComp(st.comps.list, st.comps.items, id);
            if c == 0 then !CompThere(st, id) else c in st.comps.list && FirstComp(st, id, c) && CompThere(st, id)
  {
    assert st.comps.list[0..] == st.comps.list;
    CompFound(st, id, 0);
  }

  /** Only the components have changed, and the memory. */
  predicate OnlyComps(st: State, st': State) { st' == st.(comps := st'.comps, arena := st'.arena) }

  /** A component that is not ready has joined the list at its head, so its id stands for it. */
  ghost predicate CompMade(st: State, st': State, c: Off, name: string, id: int) {
    && c !in st.comps.list && st'.comps.list == [c] + st.comps.list && c in st'.comps.items
    && st'.comps.items == st.comps.items[c := Comp(id, name, false)]
  }

  /** `hal_init` succeeds if and only if the id is valid, the name is new and not too long and there is memory. */
  lemma CompInitExact(st: State, name: string, id: int)
    requires Inv(st)
    ensures var (st', r) := CompInit(st, name, id);
            && (r.Ok? <==> |name| <= HAL_NAME_LEN && id >= 0 && CompRoom(st)
                           && forall c :: c in st.comps.list && c in st.comps.items ==> st.comps.items[c].name != name)
            && (r.Ok? ==> OnlyComps(st, st') && exists c :: CompMade(st, st', c, name, id) && FirstComp(st', id, c))
            && (r.Err? ==> st' == st)
  {
    AllocFacts(st.comps, st.arena, COMP_SIZE, Comp(id, name, false));
    CompRoomIff(st, Comp(id, name, false));
    var (st', r) := CompInit(st, name, id);
    if r.Ok? {
      var c := st'.comps.list[0];
      assert CompMade(st, st', c, name, id) && FirstComp(st', id, c);
    }
  }

  ghost predicate CompRoom(st: State) { st.comps.free != [] || exists at: nat :: Fits(st.arena, COMP_SIZE, at) }

  lemma CompRoomIff(st: State, comp: Comp)
    requires Inv(st)
    ensures Alloc(st.comps, st.arena, COMP_SIZE, comp).2 != 0 <==> CompRoom(st)
  {
    AllocDownExact(st.arena, COMP_SIZE);
    assert st.comps.free != [] ==> st.comps.free[0] in st.comps.free;
  }

  predicate MadeReady(st: State, st': State, c: Off) {
    && c in st.comps.items
    && st' == st.(comps := st.comps.(items := st.comps.items[c := st.comps.items[c].(ready := true)]))
  }

  /** `hal_ready` succeeds if and only if the component is there and not ready, and makes that one ready. */
  lemma CompReadyExact(st: State, id: int)
    requires Inv(st)
    ensures var (st', r) := CompReady(st, id);
            && (r.Ok? <==> exists c :: FirstComp(st, id, c) && !st.comps.items[c].ready)
            && (r.Ok? ==> exists c :: FirstComp(st, id, c) && MadeReady(st, st', c))
            && (r.Err? ==> st' == st)
  {
    CompLookup(st, id);
  }

  // ---------------------------------------------------------------------- pins

  ghost predicate PinRoom(st: State) { st.pins.free != [] || exists at: nat :: Fits(st.arena, PIN_SIZE, at) }

  lemma PinRoomIff(st: State)
    requires Inv(st)
    ensures AllocPin(st).1 != 0 <==> PinRoom(st)
  {
    AllocDownExact(st.arena, PIN_SIZE);
    assert st.pins.free != [] ==> st.pins.free[0] in st.pins.free;
  }

  /** The component of that id is there and not ready. */
  ghost predicate CompOpen(st: State, id: int) {
    exists c :: FirstComp(st, id, c) && c in st.comps.items && !st.comps.items[c].ready
  }

  predicate PinNamed(st: State, p: Off, name: string) { p in st.pins.items && st.pins.items[p].name == name }

  ghost predicate NameTaken(st: State, name: string) { exists p :: p in st.pins.list && PinNamed(st, p, name) }

  lemma NameTakenIff(st: State, name: string)
    requires PoolOk(st.pins)
    ensures name in PinNames(st.pins.list, st.pins.items) <==> NameTaken(st, name)
  {
    var names := PinNames(st.pins.list, st.pins.items);
    if name in names {
      var i :| 0 <= i < |names| && names[i] == name;
      assert st.pins.list[i] in st.pins.list && PinNamed(st, st.pins.list[i], name);
    }
    forall p | p in st.pins.list && PinNamed(st, p, name)
      ensures name in names
    {
      var i :| 0 <= i < |st.pins.list| && st.pins.list[i] == p;
      assert names[i] == name;
    }
  }

  /** The pin is what was asked for, on no signal, and belongs to the component of that id. */
  predicate AsAsked(st: State, p: Off, typ: Type, dir: Dir, id: int) {
    && p in st.pins.items && st.pins.items[p].typ == typ && st.pins.items[p].dir == dir
    && HasId(st, st.pins.items[p].owner, id)
  }

  /** A pin has joined the list; it reads 0, and nothing else has changed. */
  ghost predicate PinMade(st: State, st': State, p: Off, name: string, typ: Type, dir: Dir, id: int) {
    && p !in st.pins.list && st' == st.(pins := st'.pins, arena := st'.arena)
    && (exists i :: 0 <= i < |st'.pins.list| && st'.pins.list[i] == p && Remove(st'.pins.list, i) == st.pins.list)
    && p in st'.pins.items && st'.pins.items == st.pins.items[p := st'.pins.items[p]]
    && PinNamed(st', p, name) && st'.pins.items[p].signal == 0 && Reads(st', p) == 0
    && AsAsked(st', p, typ, dir, id) && FirstComp(st, id, st'.pins.items[p].owner)
  }

  /** A refused pin leaves every list and everything on it as it was. */
  ghost predicate PinRefused(st: State, st': State) {
    && st'.pins.list == st.pins.list && st'.sigs == st.sigs && st'.comps == st.comps && st'.cells == st.cells
    && (forall q :: q in st.pins.list && q in st.pins.items ==> q in st'.pins.items && st'.pins.items[q] == st.pins.items[q])
    && st'.held == st.held && st'.lockLoad == st.lockLoad && st'.lockConfig == st.lockConfig
  }

  lemma FinishLists(st: State, st1: State, p: Off, pin: Pin)
    requires PoolOk(st.pins) && st1.pins.list == st.pins.list && st1 == st.(pins := st1.pins, arena := st1.arena)
    requires pin.signal == 0 && pin.name !in PinNames(st.pins.list, st.pins.items)
    ensures FinishPin(st, st1, p, pin)
         == (Listed(st, st1.pins, st1.arena, Place(PinNames(st.pins.list, st.pins.items), pin.name), p, pin), Ok)
  {
  }

  lemma ListedMakes(st: State, pool: Pool<Pin>, m: Arena, i: nat, p: Off, pin: Pin, id: int)
    requires TakenFrom(st.pins, st.arena, pool, m, p) && i <= |pool.list| && FirstComp(st, id, pin.owner)
    requires pin.signal == 0 && pin.target == OwnDummy && pin.dummy == 0
    ensures PinMade(st, Listed(st, pool, m, i, p, pin), p, pin.name, pin.typ, pin.dir, id)
  {
    var st' := Listed(st, pool, m, i, p, pin);
    InsertedAt(pool.list, i, p);
    assert st'.pins.list[i] == p && Remove(st'.pins.list, i) == st.pins.list;
    assert st'.pins.items == st.pins.items[p := pin];
  }

  lemma FinishMakes(st: State, st1: State, p: Off, pin: Pin, id: int)
    requires PoolOk(st.pins) && TakenFrom(st.pins, st.arena, st1.pins, st1.arena, p)
    requires st1 == st.(pins := st1.pins, arena := st1.arena) && FirstComp(st, id, pin.owner)
    requires pin.signal == 0 && pin.target == OwnDummy && pin.dummy == 0 && !NameTaken(st, pin.name)
    ensures FinishPin(st, st1, p, pin).1.Ok?
    ensures PinMade(st, FinishPin(st, st1, p, pin).0, p, pin.name, pin.typ, pin.dir, id)
  {
    NameTakenIff(st, pin.name);
    FinishLists(st, st1, p, pin);
    ListedMakes(st, st1.pins, st1.arena, Place(PinNames(st.pins.list, st.pins.items), pin.name), p, pin, id);
  }

  lemma FinishRefuses(st: State, st1: State, p: Off, pin: Pin)
    requires Inv(st) && TakenFrom(st.pins, st.arena, st1.pins, st1.arena, p)
    requires st1 == st.(pins := st1.pins, arena := st1.arena)
    requires pin.signal == 0 && (pin.oldname != 0 ==> pin.oldname in st.olds) && NameTaken(st, pin.name)
    ensures FinishPin(st, st1, p, pin).1 == Err(EINVAL) && PinRefused(st, FinishPin(st, st1, p, pin).0)
  {
    NameTakenIff(st, pin.name);
    PinNewRefused(st, st1.pins, st1.arena, p, pin);
  }

  /** The request itself will do. */
  predicate PinAskable(name: string, typ: Type, dir: Dir) { !(typ == PortHandle && dir == Io) && |name| <= HAL_NAME_LEN }

  lemma PinNewParts(st: State, name: string, typ: Type, dir: Dir, id: int, ptrOk: bool)
    requires Inv(st) && Unlinkable(st) && PinAskable(name, typ, dir) && !st.lockLoad
    requires CompOpen(st, id) && ptrOk && PinRoom(st)
    ensures var (st', r) := PinNew(st, name, typ, dir, id, ptrOk);
            && (r.Ok? <==> !NameTaken(st, name))
            && (r.Ok? ==> exists p :: PinMade(st, st', p, name, typ, dir, id))
            && (r.Err? ==> PinRefused(st, st') && r.e == EINVAL)
  {
    CompLookup(st, id);
    PinRoomIff(st);
    AllocPinFacts(st);
    var (st1, p) := AllocPin(st);
    var c := FindComp(st.comps.list, st.comps.items, id);
    var pin := st1.pins.items[p].(name := name, owner := c, typ := typ, dir := dir);
    FirstCompUnique(st, id, c);
    assert PinNew(st, name, typ, dir, id, ptrOk) == FinishPin(st, st1, p, pin);
    if NameTaken(st, name) {
      FinishRefuses(st, st1, p, pin);
    } else {
      FinishMakes(st, st1, p, pin, id);
    }
  }

  lemma FirstCompUnique(st: State, id: int, c: Off)
    requires FirstComp(st, id, c)
    ensures forall d :: FirstComp(st, id, d) ==> d == c
  {
  }

  /** What is asked before a structure is taken. */
  ghost predicate PinAllowed(st: State, name: string, typ: Type, dir: Dir, id: int, ptrOk: bool) {
    PinAskable(name, typ, dir) && !st.lockLoad && CompOpen(st, id) && ptrOk
  }

  lemma CompOpenIff(st: State, id: int)
    requires ListsOk(st)
    ensures var c := FindComp(st.comps.list, st.comps.items, id); CompOpen(st, id) <==> c != 0 && !st.comps.items[c].ready
  {
    CompLookup(st, id);
    var c := FindComp(st.comps.list, st.comps.items, id);
    if c != 0 {
      FirstCompUnique(st, id, c);
    }
  }

  lemma PinNewNotAllowed(st: State, name: string, typ: Type, dir: Dir, id: int, ptrOk: bool)
    requires Inv(st) && Unlinkable(st) && !PinAllowed(st, name, typ, dir, id, ptrOk)
    ensures PinNew(st, name, typ, dir, id, ptrOk)
         == (st, Err(if PinAskable(name, typ, dir) && st.lockLoad then EPERM else EINVAL))
  {
    CompOpenIff(st, id);
  }

  lemma PinNewNoRoom(st: State, name: string, typ: Type, dir: Dir, id: int, ptrOk: bool)
    requires Inv(st) && Unlinkable(st) && PinAllowed(st, name, typ, dir, id, ptrOk) && !PinRoom(st)
    ensures PinNew(st, name, typ, dir, id, ptrOk) == (st, Err(ENOMEM))
  {
    CompOpenIff(st, id);
    PinRoomIff(st);
    AllocPinFacts(st);
  }

  /**
   `hal_pin_new` succeeds if and only if pins may be made, the component is there and not ready, the
   name is new and there is memory.
   */
  lemma PinNewExact(st: State, name: string, typ: Type, dir: Dir, id: int, ptrOk: bool)
    requires Inv(st) && Unlinkable(st)
    ensures var (st', r) := PinNew(st, name, typ, dir, id, ptrOk);
            && (r.Ok? <==> PinAllowed(st, name, typ, dir, id, ptrOk) && PinRoom(st) && !NameTaken(st, name))
            && (r == Err(EPERM) <==> PinAskable(name, typ, dir) && st.lockLoad)
            && (r == Err(ENOMEM) <==> PinAllowed(st, name, typ, dir, id, ptrOk) && !PinRoom(st))
            && (r.Ok? ==> exists p :: PinMade(st, st', p, name, typ, dir, id))
            && (r.Err? ==> PinRefused(st, st'))
  {
    if !PinAllowed(st, name, typ, dir, id, ptrOk) {
      PinNewNotAllowed(st, name, typ, dir, id, ptrOk);
    } else if !PinRoom(st) {
      PinNewNoRoom(st, name, typ, dir, id, ptrOk);
    } else {
      PinNewParts(st, name, typ, dir, id, ptrOk);
    }
  }

  // ------------------------------------------------------------ whose pin it is

  /** An exit takes the pins of the component that the id stands for, and no others. */
  lemma ExitMembers(st: State, id: int)
    requires Inv(st)
    ensures CompExit(st, id).1.Ok? <==> CompThere(st, id)
    ensures var st' := CompExit(st, id).0;
            forall q :: q in st.pins.list && q in st.pins.items ==>
              (q !in st'.pins.list <==> FirstComp(st, id, st.pins.items[q].owner))
    ensures forall q :: q in CompExit(st, id).0.pins.list ==> q in st.pins.list
  {
    CompLookup(st, id);
    var c := FindComp(st.comps.list, st.comps.items, id);
    if c != 0 {
      FirstCompUnique(st, id, c);
      ExitExact(st, id);
    } else {
      assert forall d :: FirstComp(st, id, d) ==> d in st.comps.list && HasId(st, d, id);
    }
  }

  ghost predicate CompLeft(comps: Pool<Comp>, comps': Pool<Comp>, c: Off) {
    && comps'.list == Without(comps.list, {c})
    && forall d :: d in comps.items && d != c ==> d in comps'.items && comps'.items[d] == comps.items[d]
  }

  /** What the end of an exit does to the components. */
  lemma RetiredLeaves(comps: Pool<Comp>, c: Off)
    requires PoolOk(comps) && c in comps.list
    ensures CompLeft(comps, Pool(Detach(comps, c).list, [c] + comps.free, comps.items[c := Comp(0, "", false)]), c)
  {
    WithoutElement(comps.list, c);
  }

  lemma ExitEnd(st: State, id: int, c: Off)
    requires Inv(st) && c == FindComp(st.comps.list, st.comps.items, id) != 0
    ensures var st', comps := CompExit(st, id).0, st.comps;
            && st'.comps == Pool(Detach(comps, c).list, [c] + comps.free, comps.items[c := Comp(0, "", false)])
            && st'.lockLoad == st.lockLoad && st'.lockConfig == st.lockConfig
  {
    OwnedDistinct(st.pins.list, st.pins.items, c);
    DropPinsFacts(st, Owned(st.pins.list, st.pins.items, c));
  }

  /** An exit takes the component that the id stands for off its list, and no other. */
  lemma ExitComps(st: State, id: int)
    requires Inv(st) && CompExit(st, id).1.Ok?
    ensures var st' := CompExit(st, id).0;
            && st'.lockLoad == st.lockLoad && st'.lockConfig == st.lockConfig
            && exists c :: FirstComp(st, id, c) && CompLeft(st.comps, st'.comps, c)
  {
    CompLookup(st, id);
    var c := FindComp(st.comps.list, st.comps.items, id);
    ExitEnd(st, id, c);
    RetiredLeaves(st.comps, c);
  }

  /** The list has `p` and what it had before. */
  ghost predicate Gained(st: State, st': State, p: Off) {
    p !in st.pins.list && forall q :: q in st'.pins.list <==> q in st.pins.list || q == p
  }

  lemma MadeGained(st: State, st': State, p: Off, name: string, typ: Type, dir: Dir, id: int)
    requires PinMade(st, st', p, name, typ, dir, id)
    ensures Gained(st, st', p)
  {
    var i :| 0 <= i < |st'.pins.list| && st'.pins.list[i] == p && Remove(st'.pins.list, i) == st.pins.list;
    CameIn(st'.pins.list, i, st.pins.list);
  }

  /** What the exit with this id leaves on the list. */
  ghost function Left(st: State, id: int): (list: seq<Off>)
    requires Inv(st)
  {
    CompExit(st, id).0.pins.list
  }

  /** The exit with the pin's id takes it, no other does, and apart from it nothing is taken that was not before. */
  ghost predicate LeavesWith(st: State, st': State, p: Off, id: int, other: int)
    requires Inv(st) && Inv(st')
  {
    forall q :: q in st'.pins.list ==> (q in Left(st', other) <==> if q == p then other != id else q in Left(st, other))
  }

  lemma MadeLeavesWith(st: State, st': State, p: Off, name: string, typ: Type, dir: Dir, id: int, other: int)
    requires Inv(st) && Inv(st') && PinMade(st, st', p, name, typ, dir, id)
    ensures LeavesWith(st, st', p, id, other)
  {
    MadeGained(st, st', p, name, typ, dir, id);
    ExitMembers(st, other);
    ExitMembers(st', other);
    SameComps(st, st', id, other, st'.pins.items[p].owner);
  }

  lemma SameComps(st: State, st': State, id: int, other: int, c: Off)
    requires st'.comps == st.comps && FirstComp(st, id, c)
    ensures forall d :: FirstComp(st', other, d) <==> FirstComp(st, other, d)
    ensures FirstComp(st, other, c) <==> other == id
  {
  }

  /**
   A new pin leaves with the component of the id that it was made with: the exit of that component
   takes it, and the exit of any other id takes what it would have taken before and leaves the pin.
   */
  lemma NewPinLeaves(st: State, name: string, typ: Type, dir: Dir, id: int, ptrOk: bool, other: int)
    requires Inv(st) && Unlinkable(st) && PinNew(st, name, typ, dir, id, ptrOk).1.Ok?
    ensures var st' := PinNew(st, name, typ, dir, id, ptrOk).0;
            Inv(st') && exists p :: Gained(st, st', p) && LeavesWith(st, st', p, id, other)
  {
    PinNewKeepsInv(st, name, typ, dir, id, ptrOk);
    PinNewExact(st, name, typ, dir, id, ptrOk);
    var st' := PinNew(st, name, typ, dir, id, ptrOk).0;
    var p :| PinMade(st, st', p, name, typ, dir, id);
    MadeGained(st, st', p, name, typ, dir, id);
    MadeLeavesWith(st, st', p, name, typ, dir, id, other);
  }

  // --------------------------------------------------------------- what it links to

  /**
   A new pin can be linked exactly to the signals of the type it was made with that a pin of its
   direction may join, and is counted there by that direction.
   */
  lemma NewPinLinks(st: State, name: string, typ: Type, dir: Dir, id: int, ptrOk: bool, s: Off, dirs: set<Dir>)
    requires Inv(st) && Unlinkable(st) && PinNew(st, name, typ, dir, id, ptrOk).1.Ok? && s in st.sigs.list
    ensures var st' := PinNew(st, name, typ, dir, id, ptrOk).0;
            exists p :: && Gained(st, st', p) && p in st'.pins.items && s in st'.sigs.items
                        && var (st2, r) := LinkPin(st', p, s);
                           && (r.Ok? <==> st.sigs.items[s].typ == typ && KindJoins(st, typ, dir, s))
                           && (r.Ok? ==> LinkedPins(st2, s, dirs) == LinkedPins(st, s, dirs) + if dir in dirs then {p} else {})
  {
    PinNewKeepsInv(st, name, typ, dir, id, ptrOk);
    PinNewExact(st, name, typ, dir, id, ptrOk);
    var st' := PinNew(st, name, typ, dir, id, ptrOk).0;
    var p :| PinMade(st, st', p, name, typ, dir, id);
    MadeGained(st, st', p, name, typ, dir, id);
    MadeLinksIff(st, st', p, name, typ, dir, id, s);
    if LinkPin(st', p, s).1.Ok? {
      MadeLinks(st, st', p, name, typ, dir, id, s, dirs);
    }
  }

  lemma MadeSets(st: State, st': State, p: Off, name: string, typ: Type, dir: Dir, id: int, s: Off, dirs: set<Dir>)
    requires PoolOk(st.pins) && PinMade(st, st', p, name, typ, dir, id) && Gained(st, st', p) && s != 0
    ensures LinkedPins(st', s, dirs) == LinkedPins(st, s, dirs)
  {
    assert forall q :: q in st.pins.list ==> (q in st'.pins.items <==> q in st.pins.items);
  }

  lemma MadeLinksIff(st: State, st': State, p: Off, name: string, typ: Type, dir: Dir, id: int, s: Off)
    requires Inv(st) && Inv(st') && PinMade(st, st', p, name, typ, dir, id) && Gained(st, st', p) && s in st.sigs.list
    ensures LinkPin(st', p, s).1.Ok? <==> st.sigs.items[s].typ == typ && KindJoins(st, typ, dir, s)
  {
    MadeSets(st, st', p, name, typ, dir, id, s, {Out, Io});
    MadeSets(st, st', p, name, typ, dir, id, s, {Out});
    MadeSets(st, st', p, name, typ, dir, id, s, {In});
    LinkOkIff(st', p, s);
  }

  lemma MadeLinks(st: State, st': State, p: Off, name: string, typ: Type, dir: Dir, id: int, s: Off, dirs: set<Dir>)
    requires Inv(st) && Inv(st') && PinMade(st, st', p, name, typ, dir, id) && Gained(st, st', p) && s in st.sigs.list
    requires LinkPin(st', p, s).1.Ok?
    ensures LinkedPins(LinkPin(st', p, s).0, s, dirs) == LinkedPins(st, s, dirs) + if dir in dirs then {p} else {}
  {
    MadeSets(st, st', p, name, typ, dir, id, s, dirs);
    assert p !in LinkedPins(st, s, dirs);
    LinkRelinks(st', p, s);
    RelinkedSets(st', LinkPin(st', p, s).0, p, s, s, dirs);
  }

  // ------------------------------------------------------------------- aliases

  /** There is an old-name structure, or memory for one. */
  ghost predicate OldRoom(st: State) { st.oldFree != 0 || exists at: nat :: Fits(st.arena, OLDNAME_SIZE, at) }

  lemma OldRoomIff(st: State)
    requires Inv(st)
    ensures AllocOldName(st).1 != 0 <==> OldRoom(st)
  {
    AllocDownExact(st.arena, OLDNAME_SIZE);
  }

  /** An alias is no longer than a name may be, and no pin answers to it. */
  ghost predicate AliasNew(st: State, alias: Option<string>) {
    alias.Some? ==> |alias.value| <= HAL_NAME_LEN && !PinThere(st, alias.value)
  }

  lemma ReservedLookup(st: State, pinName: string, fs: seq<Off>)
    requires Inv(st) && OldInvWith(st, fs) && AllocOldName(st).1 != 0
    ensures var (st1, o) := AllocOldName(st);
            var st2 := FreeOldName(st1, o);
            st2.pins == st.pins && FindPin(st.pins.list, st.pins.items, st2.olds, pinName)
                                == FindPin(st.pins.list, st.pins.items, st.olds, pinName)
  {
    var (st1, o) := AllocOldName(st);
    var fs2 := ReserveOwnership(st, fs);
    FindPinFrame(st.pins.list, st.pins.items, st.olds, FreeOldName(st1, o).olds, pinName);
  }

  lemma AliasOkIff(st: State, pinName: string, alias: Option<string>, fs: seq<Off>)
    requires Inv(st) && OldInvWith(st, fs)
    ensures PinAlias(st, pinName, alias).1.Ok? <==>
              !st.lockConfig && AliasNew(st, alias) && OldRoom(st) && PinThere(st, pinName)
  {
    OldRoomIff(st);
    PinLookup(st, pinName);
    if alias.Some? {
      PinLookup(st, alias.value);
    }
    if OldRoom(st) {
      ReservedLookup(st, pinName, fs);
    }
  }

  /**
   `hal_pin_alias` succeeds if and only if nothing is locked, the alias is new and not too long, there is
   memory to save a name and a pin answers to the name given; the first such pin is the one renamed.
   */
  lemma AliasOutcome(st: State, pinName: string, alias: Option<string>)
    requires Inv(st) && OldInv(st)
    ensures var (st', r) := PinAlias(st, pinName, alias);
            && (r.Ok? <==> !st.lockConfig && AliasNew(st, alias) && OldRoom(st) && PinThere(st, pinName))
            && (r == Err(EPERM) <==> st.lockConfig)
            && (r.Ok? ==> exists p :: FirstPin(st, pinName, p) && Aliased(st, st', p, alias))
  {
    var fs :| OldInvWith(st, fs);
    AliasOkIff(st, pinName, alias, fs);
    PinLookup(st, pinName);
    if PinAlias(st, pinName, alias).1.Ok? {
      AliasExact(st, pinName, alias);
    }
  }
}
