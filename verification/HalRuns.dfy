/**
 Runs of the HAL (src/hal/hal_lib.c) that go wrong, call by call from freshly initialised shared
 memory: two pins that end up with one name, and a saved name that outlives its pin.
 */
module HalRuns {
  import opened Lists
  import opened Names
  import opened Shmem
  import opened Hal
  import opened HalInv
  import opened HalOps
  import opened HalResults
  import opened HalAlias
  import opened HalStale
  import opened HalAliasRuns

  const HEADER: nat := 512

  /** Where the first structures go, from the top of shared memory down. */
  const COMP: Off := HAL_SIZE - 104
  const PIN: Off := HAL_SIZE - 200
  const OLD: Off := HAL_SIZE - 256
  const PIN2: Off := HAL_SIZE - 352
  const OLD2: Off := HAL_SIZE - 408

  function PinAs(name: string, oldname: Off): Pin { Pin(name, COMP, 0, 0, OwnDummy, oldname, Bit, In) }

  function Database(pins: Pool<Pin>, comps: Pool<Comp>, oldFree: Off, olds: map<Off, OldName>, top: nat): State {
    State(pins, Pool([], [], map[]), comps, map[], oldFree, olds, {}, Arena(HEADER, top), false, false)
  }

  function OneComp(name: string): Pool<Comp> { Pool([COMP], [], map[COMP := Comp(1, name, false)]) }

  // -------------------------------------------------------------- loading a pin

  const LOADED: State := Database(Pool([], [], map[]), OneComp("c"), 0, map[], COMP)
  const NAMED: State := Database(Pool([PIN], [], map[PIN := PinAs("a", 0)]), OneComp("c"), 0, map[], PIN)
  const ALIASED: State :=
    Database(Pool([PIN], [], map[PIN := PinAs("b", OLD)]), OneComp("c"), 0, map[OLD := OldName("a", 0)], OLD)

  /** The calls lead to the state. */
  ghost predicate Leads(ops: seq<Op>, st: State) { Reached(HEADER, ops) == st }

  lemma Start()
    ensures Leads([], Init(HEADER))
  {
  }

  lemma Then(ops: seq<Op>, st: State, op: Op, st': State) returns (ops': seq<Op>)
    requires Leads(ops, st) && (Inv(st) ==> Step(st, op) == st')
    ensures Leads(ops', st') && ops' == ops + [op]
  {
    ops' := ops + [op];
    assert ops'[..|ops|] == ops;
  }

  lemma PinNewStep(st: State, name: string, st': State)
    requires Unlinkable(st) ==> PinNew(st, name, Bit, In, 1, true).0 == st'
    ensures Inv(st) ==> Step(st, PinNewOp(name, Bit, In, 1, true)) == st'
  {
    if Inv(st) {
      InvUnlinkable(st);
    }
  }

  lemma AliasStep(st: State, name: string, alias: Option<string>, st': State)
    requires ListsOk(st) && OldRefs(st) ==> PinAlias(st, name, alias).0 == st'
    ensures Inv(st) ==> Step(st, PinAliasOp(name, alias)) == st'
  {
  }

  lemma FirstComp()
    ensures Inv(Init(HEADER)) ==> Step(Init(HEADER), CompInitOp("c", 1)) == LOADED
  {
    assert AllocDown(Arena(HEADER, HAL_SIZE), COMP_SIZE) == (Arena(HEADER, COMP), Some(COMP));
    var none: map<Off, Comp> := map[];
    assert none[COMP := Comp(1, "c", false)] == OneComp("c").items && [COMP] + [] == [COMP];
    assert ListsOk(Init(HEADER)) ==> CompInit(Init(HEADER), "c", 1) == (LOADED, Ok);
  }

  lemma NewPin()
    requires Unlinkable(LOADED)
    ensures PinNew(LOADED, "a", Bit, In, 1, true) == (NAMED, Ok)
  {
    var st1 := LOADED.(pins := Pool([], [], map[PIN := CLEARED_PIN]), arena := Arena(HEADER, PIN));
    assert AllocPin(LOADED) == (st1, PIN);
    assert FindComp(LOADED.comps.list, LOADED.comps.items, 1) == COMP;
    assert FinishPin(LOADED, st1, PIN, PinAs("a", 0)).1 == Ok;
    assert FinishPin(LOADED, st1, PIN, PinAs("a", 0)).0.pins == NAMED.pins;
  }

  lemma FirstPin()
    ensures Inv(LOADED) ==> Step(LOADED, PinNewOp("a", Bit, In, 1, true)) == NAMED
  {
    if Unlinkable(LOADED) {
      NewPin();
    }
    PinNewStep(LOADED, "a", NAMED);
  }

  lemma AliasPin()
    requires ListsOk(NAMED) && OldRefs(NAMED)
    ensures PinAlias(NAMED, "a", Some("b")) == (ALIASED, Ok)
  {
    var reserved := NAMED.(oldFree := OLD, olds := map[OLD := OldName("", 0)], arena := Arena(HEADER, OLD));
    assert FreeOldName(AllocOldName(NAMED).0, AllocOldName(NAMED).1) == reserved;
    assert FindPin(reserved.pins.list, reserved.pins.items, reserved.olds, "a") == PIN;
    assert Detach(reserved.pins, PIN).list == [];
    assert Realias(reserved, PIN, Some("b")) == ALIASED;
  }

  lemma FirstAlias()
    ensures Inv(NAMED) ==> Step(NAMED, PinAliasOp("a", Some("b"))) == ALIASED
  {
    if ListsOk(NAMED) && OldRefs(NAMED) {
      AliasPin();
    }
    AliasStep(NAMED, "a", Some("b"), ALIASED);
  }

  lemma NamePin() returns (ops: seq<Op>)
    ensures Leads(ops, NAMED)
  {
    Start();
    FirstComp();
    ops := Then([], Init(HEADER), CompInitOp("c", 1), LOADED);
    FirstPin();
    ops := Then(ops, LOADED, PinNewOp("a", Bit, In, 1, true), NAMED);
  }

  lemma Alias() returns (ops: seq<Op>)
    ensures Leads(ops, ALIASED)
  {
    ops := NamePin();
    FirstAlias();
    ops := Then(ops, NAMED, PinAliasOp("a", Some("b")), ALIASED);
  }

  // ------------------------------------------------------ two pins of one name

  /** A second pin takes the name that the first has saved. */
  const TAKEN: State :=
    Database(Pool([PIN2, PIN], [], map[PIN := PinAs("b", OLD), PIN2 := PinAs("a", 0)]), OneComp("c"),
             0, map[OLD := OldName("a", 0)], PIN2)
  /** The first gets its name back. */
  const NAMESAKES: State :=
    Database(Pool([PIN2, PIN], [], map[PIN := PinAs("a", 0), PIN2 := PinAs("a", 0)]), OneComp("c"),
             OLD, map[OLD := OldName("", OLD2), OLD2 := OldName("", 0)], OLD2)

  lemma NewPinTakesName()
    requires Unlinkable(ALIASED)
    ensures PinNew(ALIASED, "a", Bit, In, 1, true) == (TAKEN, Ok)
  {
    var st1 := ALIASED.(pins := Pool([PIN], [], map[PIN := PinAs("b", OLD), PIN2 := CLEARED_PIN]), arena := Arena(HEADER, PIN2));
    assert AllocPin(ALIASED) == (st1, PIN2);
    assert FindComp(ALIASED.comps.list, ALIASED.comps.items, 1) == COMP;
    assert PinNames(ALIASED.pins.list, ALIASED.pins.items) == ["b"];
    assert Place(["b"], "a") == 0 && Insert([PIN], 0, PIN2) == [PIN2, PIN];
    assert FinishPin(ALIASED, st1, PIN2, PinAs("a", 0)).0.pins == TAKEN.pins;
  }

  lemma RemoveAlias()
    requires ListsOk(TAKEN) && OldRefs(TAKEN)
    ensures PinAlias(TAKEN, "b", None) == (NAMESAKES, Ok)
  {
    var reserved := TAKEN.(oldFree := OLD2, olds := map[OLD := OldName("a", 0), OLD2 := OldName("", 0)], arena := Arena(HEADER, OLD2));
    assert FreeOldName(AllocOldName(TAKEN).0, AllocOldName(TAKEN).1) == reserved;
    assert FindPin([PIN], reserved.pins.items, reserved.olds, "b") == PIN;
    assert [PIN2, PIN][1..] == [PIN];
    assert FindPin(reserved.pins.list, reserved.pins.items, reserved.olds, "b") == PIN;
    RemoveAliasFound(reserved);
  }

  lemma RemoveAliasFound(st: State)
    requires st == TAKEN.(oldFree := OLD2, olds := map[OLD := OldName("a", 0), OLD2 := OldName("", 0)], arena := Arena(HEADER, OLD2))
    requires PoolOk(st.pins) && OldRefs(st)
    ensures Realias(st, PIN, None) == NAMESAKES
  {
    assert [PIN2, PIN][1..] == [PIN];
    assert IndexOf([PIN2, PIN], PIN) == 1;
    var rest, st1 := Detach(st.pins, PIN), NAMESAKES.(pins := NAMESAKES.pins.(list := [PIN2]));
    assert rest.list == [PIN2];
    LessIrreflexive("a");
    assert Rename(st.(pins := rest), PIN, None) == st1;
    RealiasInto(st, PIN, PIN2, "a", None, st1, 1);
  }

  lemma SecondPin()
    ensures Inv(ALIASED) ==> Step(ALIASED, PinNewOp("a", Bit, In, 1, true)) == TAKEN
  {
    if Unlinkable(ALIASED) {
      NewPinTakesName();
    }
    PinNewStep(ALIASED, "a", TAKEN);
  }

  lemma SecondAlias()
    ensures Inv(TAKEN) ==> Step(TAKEN, PinAliasOp("b", None)) == NAMESAKES
  {
    if ListsOk(TAKEN) && OldRefs(TAKEN) {
      RemoveAlias();
    }
    AliasStep(TAKEN, "b", None, NAMESAKES);
  }

  /** A run that ends with two pins of the same name: one is aliased, another takes its saved name, the alias goes. */
  lemma NamesakesReached() returns (ops: seq<Op>)
    ensures Leads(ops, NAMESAKES)
    ensures PIN != PIN2 && NAMESAKES.pins.list == [PIN2, PIN]
    ensures NAMESAKES.pins.items[PIN].name == NAMESAKES.pins.items[PIN2].name == "a"
  {
    ops := Alias();
    SecondPin();
    ops := Then(ops, ALIASED, PinNewOp("a", Bit, In, 1, true), TAKEN);
    SecondAlias();
    ops := Then(ops, TAKEN, PinAliasOp("b", None), NAMESAKES);
  }

  /** The other pin is given an alias in its turn. */
  const MOVED: State :=
    Database(Pool([PIN, PIN2], [], map[PIN := PinAs("a", 0), PIN2 := PinAs("z", OLD)]), OneComp("c"),
             OLD2, map[OLD := OldName("a", 0), OLD2 := OldName("", 0)], OLD2)
  /** Its removal leaves the two in the other order. */
  const SWAPPED: State := NAMESAKES.(pins := NAMESAKES.pins.(list := [PIN, PIN2]))

  lemma AliasOther()
    requires ListsOk(NAMESAKES) && OldRefs(NAMESAKES)
    ensures PinAlias(NAMESAKES, "a", Some("z")) == (MOVED, Ok)
  {
    assert [PIN2, PIN][1..] == [PIN];
    assert FindPin([PIN], NAMESAKES.pins.items, NAMESAKES.olds, "z") == 0;
    assert FindPin([PIN2, PIN], NAMESAKES.pins.items, NAMESAKES.olds, "z") == 0;
    assert FreeOldName(AllocOldName(NAMESAKES).0, AllocOldName(NAMESAKES).1) == NAMESAKES;
    assert FindPin([PIN2, PIN], NAMESAKES.pins.items, NAMESAKES.olds, "a") == PIN2;
    AliasOtherFound(NAMESAKES);
  }

  /** Putting a pin back into a list of one. */
  lemma RealiasInto(st: State, p: Off, other: Off, name: string, alias: Option<string>, st1: State, at: nat)
    requires PoolOk(st.pins) && p in st.pins.list && OldRefs(st) && st.oldFree != 0
    requires Detach(st.pins, p).list == [other] && other in st.pins.items && st.pins.items[other].name == name
    requires Rename(st.(pins := Detach(st.pins, p)), p, alias) == st1 && p in st1.pins.items
    requires at == (if Less(st1.pins.items[p].name, name) then 0 else 1)
    ensures Realias(st, p, alias) == st1.(pins := st1.pins.(list := Insert([other], at, p)))
  {
    DetachMembers(st.pins, p);
    assert PinNames([other], st.pins.items) == [name];
    assert [name][1..] == [];
  }

  lemma AliasOtherFound(st: State)
    requires st == NAMESAKES && PoolOk(st.pins) && OldRefs(st)
    ensures Realias(st, PIN2, Some("z")) == MOVED
  {
    assert IndexOf([PIN2, PIN], PIN2) == 0;
    var rest, st1 := Detach(st.pins, PIN2), MOVED.(pins := MOVED.pins.(list := [PIN]));
    assert rest.list == [PIN];
    assert Rename(st.(pins := rest), PIN2, Some("z")) == st1;
    RealiasInto(st, PIN2, PIN, "a", Some("z"), st1, 1);
  }

  lemma RemoveOther()
    requires ListsOk(MOVED) && OldRefs(MOVED)
    ensures PinAlias(MOVED, "z", None) == (SWAPPED, Ok)
  {
    assert [PIN, PIN2][1..] == [PIN2];
    assert FreeOldName(AllocOldName(MOVED).0, AllocOldName(MOVED).1) == MOVED;
    assert FindPin([PIN2], MOVED.pins.items, MOVED.olds, "z") == PIN2;
    assert FindPin([PIN, PIN2], MOVED.pins.items, MOVED.olds, "z") == PIN2;
    RemoveOtherFound(MOVED);
  }

  lemma RemoveOtherFound(st: State)
    requires st == MOVED && PoolOk(st.pins) && OldRefs(st)
    ensures Realias(st, PIN2, None) == SWAPPED
  {
    assert [PIN, PIN2][1..] == [PIN2];
    assert IndexOf([PIN, PIN2], PIN2) == 1;
    var rest, st1 := Detach(st.pins, PIN2), SWAPPED.(pins := SWAPPED.pins.(list := [PIN]));
    assert rest.list == [PIN];
    LessIrreflexive("a");
    assert Rename(st.(pins := rest), PIN2, None) == st1;
    RealiasInto(st, PIN2, PIN, "a", None, st1, 1);
  }

  lemma OtherAliasStep()
    ensures Inv(NAMESAKES) ==> Step(NAMESAKES, PinAliasOp("a", Some("z"))) == MOVED
  {
    if ListsOk(NAMESAKES) && OldRefs(NAMESAKES) {
      AliasOther();
    }
    AliasStep(NAMESAKES, "a", Some("z"), MOVED);
  }

  lemma OtherRemovalStep()
    ensures Inv(MOVED) ==> Step(MOVED, PinAliasOp("z", None)) == SWAPPED
  {
    if ListsOk(MOVED) && OldRefs(MOVED) {
      RemoveOther();
    }
    AliasStep(MOVED, "z", None, SWAPPED);
  }

  lemma SwapAfter(before: seq<Op>) returns (after: seq<Op>)
    requires Leads(before, NAMESAKES)
    ensures after == before + [PinAliasOp("a", Some("z")), PinAliasOp("z", None)] && Leads(after, SWAPPED)
  {
    OtherAliasStep();
    OtherRemovalStep();
    after := ThenTwice(before, NAMESAKES, PinAliasOp("a", Some("z")), MOVED, PinAliasOp("z", None), SWAPPED);
  }

  lemma ThenTwice(ops: seq<Op>, st: State, op: Op, st1: State, op1: Op, st2: State) returns (ops': seq<Op>)
    requires Leads(ops, st) && (Inv(st) ==> Step(st, op) == st1) && (Inv(st1) ==> Step(st1, op1) == st2)
    ensures Leads(ops', st2) && ops' == ops + [op, op1]
  {
    var ops1 := Then(ops, st, op, st1);
    ops' := Then(ops1, st1, op1, st2);
    OneByOne(ops, op, op1);
  }

  lemma OneByOne(ops: seq<Op>, op: Op, op1: Op)
    ensures ops + [op] + [op1] == ops + [op, op1]
  {
  }

  /** The two states differ in the order of the two pins, of which the other stood behind `PIN2`. */
  ghost predicate OrderLost(st: State, st': State, p: Off) {
    && st'.pins.items == st.pins.items && st'.pins.list != st.pins.list && p in st.pins.items
    && !OrderKept(st, st', p) && !NamesakesBefore(st, st', p)
  }

  lemma SwappedOrder()
    ensures OrderLost(NAMESAKES, SWAPPED, PIN2)
  {
    assert NAMESAKES.pins.list[0] != SWAPPED.pins.list[0];
    assert [PIN2, PIN][1..] == [PIN] && [PIN, PIN2][1..] == [PIN2];
    assert IndexOf([PIN2, PIN], PIN2) == 0 && IndexOf([PIN2, PIN], PIN) == 1;
    assert IndexOf([PIN, PIN2], PIN) == 0 && IndexOf([PIN, PIN2], PIN2) == 1;
    assert Survives(NAMESAKES, SWAPPED, PIN2, PIN);
    assert !Precedes(NAMESAKES.pins.list, PIN, PIN2) && Precedes(SWAPPED.pins.list, PIN, PIN2);
  }

  /**
   From there an alias and its removal restore every pin, but not the order of the list: the other pin
   of that name stood behind the pin, and now stands before it.
   */
  lemma OrderLostReached() returns (before: seq<Op>, after: seq<Op>)
    ensures Leads(before, NAMESAKES)
    ensures after == before + [PinAliasOp("a", Some("z")), PinAliasOp("z", None)] && Leads(after, SWAPPED)
    ensures OrderLost(NAMESAKES, SWAPPED, PIN2)
  {
    before := NamesakesReached();
    after := SwapAfter(before);
    SwappedOrder();
  }

  // --------------------------------------------------------------- a stale name

  /** The component of an aliased pin has gone: the freed pin goes on naming the freed structure. */
  const EXITED: State :=
    Database(Pool([], [PIN], map[PIN := CLEARED_PIN.(oldname := OLD)]), Pool([], [COMP], map[COMP := Comp(0, "", false)]),
             OLD, map[OLD := OldName("", 0)], OLD)
  const RELOADED: State := EXITED.(comps := OneComp("d"))
  /** A new pin is built on the freed one and holds a structure that is on the free list. */
  const REUSED: State := RELOADED.(pins := Pool([PIN], [], map[PIN := PinAs("x", OLD)]))
  /** Its alias saves no name. */
  const RENAMED: State := RELOADED.(pins := Pool([PIN], [], map[PIN := PinAs("y", OLD)]))
  /** Removing the alias leaves the pin without a name and the free list going round in a circle. */
  const LOST: State :=
    RELOADED.(pins := Pool([PIN], [], map[PIN := PinAs("", 0)]), olds := map[OLD := OldName("", OLD)])

  lemma DropAliased()
    requires PoolOk(ALIASED.pins) && CanUnlink(ALIASED, PIN)
    ensures DropPin(ALIASED, PIN) == EXITED.(comps := ALIASED.comps)
  {
    assert IndexOf([PIN], PIN) == 0 && Remove([PIN], 0) == [];
  }

  lemma DropOne(st: State, p: Off, st1: State)
    requires Inv(st) && p in st.pins.list && (CanUnlink(st, p) ==> DropPin(st, p) == st1)
    ensures Distinct([p]) && DropPins(st, [p]) == st1
  {
    InvUnlinkable(st);
    DropPinKeepsInv(st, p);
    assert [p][1..] == [];
  }

  lemma ExitOf(st: State, id: int, c: Off, ps: seq<Off>, st1: State)
    requires Inv(st) && FindComp(st.comps.list, st.comps.items, id) == c != 0
    requires Owned(st.pins.list, st.pins.items, c) == ps && Distinct(ps) && DropPins(st, ps) == st1
    ensures CompExit(st, id).0 == WithoutComp(st1, st.comps, c)
  {
  }

  /** The exit of a component that owns one pin. */
  lemma ExitOne(st: State, id: int, c: Off, p: Off, st1: State, st': State)
    requires ListsOk(st) && FindComp(st.comps.list, st.comps.items, id) == c != 0
    requires p in st.pins.list && Owned(st.pins.list, st.pins.items, c) == [p]
    requires CanUnlink(st, p) ==> DropPin(st, p) == st1
    requires st' == WithoutComp(st1, st.comps, c)
    ensures Inv(st) ==> Step(st, CompExitOp(id)) == st'
  {
    if Inv(st) {
      DropOne(st, p, st1);
      ExitOf(st, id, c, [p], st1);
      ExitIsStep(st, id);
    }
  }

  lemma ExitIsStep(st: State, id: int)
    requires Inv(st)
    ensures Step(st, CompExitOp(id)) == CompExit(st, id).0
  {
  }

  lemma AliasedLists()
    ensures ListsOk(ALIASED)
  {
  }

  lemma ExitStep()
    ensures Inv(ALIASED) ==> Step(ALIASED, CompExitOp(1)) == EXITED
  {
    AliasedLists();
    assert FindComp(ALIASED.comps.list, ALIASED.comps.items, 1) == COMP;
    assert Owned(ALIASED.pins.list, ALIASED.pins.items, COMP) == [PIN];
    if CanUnlink(ALIASED, PIN) {
      DropAliased();
    }
    assert IndexOf([COMP], COMP) == 0 && Remove([COMP], 0) == [];
    var dropped := EXITED.(comps := ALIASED.comps);
    assert WithoutComp(dropped, ALIASED.comps, COMP) == EXITED;
    ExitOne(ALIASED, 1, COMP, PIN, dropped, EXITED);
  }

  lemma ReloadStep()
    ensures Inv(EXITED) ==> Step(EXITED, CompInitOp("d", 1)) == RELOADED
  {
    assert [COMP][1..] == [] && [COMP] + [] == [COMP];
    assert EXITED.comps.items[COMP := Comp(1, "d", false)] == OneComp("d").items;
    assert ListsOk(EXITED) ==> CompInit(EXITED, "d", 1) == (RELOADED, Ok);
  }

  lemma ReusePin()
    requires Unlinkable(RELOADED)
    ensures PinNew(RELOADED, "x", Bit, In, 1, true) == (REUSED, Ok)
  {
    assert [PIN][1..] == [];
    assert RELOADED.pins.items[PIN := CLEARED_PIN.(oldname := OLD)] == RELOADED.pins.items;
    var st1 := RELOADED.(pins := Pool([], [], map[PIN := CLEARED_PIN.(oldname := OLD)]));
    assert AllocPin(RELOADED) == (st1, PIN);
    assert FindComp(RELOADED.comps.list, RELOADED.comps.items, 1) == COMP;
    assert FinishPin(RELOADED, st1, PIN, PinAs("x", OLD)).1 == Ok;
    assert FinishPin(RELOADED, st1, PIN, PinAs("x", OLD)).0.pins == REUSED.pins;
  }

  lemma ReuseStep()
    ensures Inv(RELOADED) ==> Step(RELOADED, PinNewOp("x", Bit, In, 1, true)) == REUSED
  {
    if Unlinkable(RELOADED) {
      ReusePin();
    }
    PinNewStep(RELOADED, "x", REUSED);
  }

  lemma AliasSavesNothing()
    requires ListsOk(REUSED) && OldRefs(REUSED)
    ensures PinAlias(REUSED, "x", Some("y")) == (RENAMED, Ok)
  {
    assert FreeOldName(AllocOldName(REUSED).0, AllocOldName(REUSED).1) == REUSED;
    assert FindPin(REUSED.pins.list, REUSED.pins.items, REUSED.olds, "x") == PIN;
    assert Detach(REUSED.pins, PIN).list == [];
    assert Realias(REUSED, PIN, Some("y")) == RENAMED;
  }

  lemma ReuseAliasStep()
    ensures Inv(REUSED) ==> Step(REUSED, PinAliasOp("x", Some("y"))) == RENAMED
  {
    if ListsOk(REUSED) && OldRefs(REUSED) {
      AliasSavesNothing();
    }
    AliasStep(REUSED, "x", Some("y"), RENAMED);
  }

  lemma RemovalLosesName()
    requires ListsOk(RENAMED) && OldRefs(RENAMED)
    ensures PinAlias(RENAMED, "y", None) == (LOST, Ok)
  {
    assert FreeOldName(AllocOldName(RENAMED).0, AllocOldName(RENAMED).1) == RENAMED;
    assert FindPin(RENAMED.pins.list, RENAMED.pins.items, RENAMED.olds, "y") == PIN;
    assert Detach(RENAMED.pins, PIN).list == [];
    assert Realias(RENAMED, PIN, None) == LOST;
  }

  lemma RemovalStep()
    ensures Inv(RENAMED) ==> Step(RENAMED, PinAliasOp("y", None)) == LOST
  {
    if ListsOk(RENAMED) && OldRefs(RENAMED) {
      RemovalLosesName();
    }
    AliasStep(RENAMED, "y", None, LOST);
  }

  /** The exit of an aliased pin's owner is reached by a run, and breaks the ownership of saved names. */
  lemma StaleExitReached() returns (ops: seq<Op>)
    ensures Leads(ops, EXITED) && !OldInv(EXITED)
    ensures EXITED.pins.items[PIN].oldname == EXITED.oldFree != 0
  {
    ops := Alias();
    ExitStep();
    ops := Then(ops, ALIASED, CompExitOp(1), EXITED);
    assert PIN in EXITED.pins.items && PIN !in EXITED.pins.list;
  }

  /**
   What comes of it: the next pin holds a structure that is on the free list, an alias of it
   saves nothing, removing that alias takes its name away, and the free list never ends.
   */
  lemma StaleNameHarms() returns (ops: seq<Op>)
    ensures Leads(ops, LOST)
    ensures LOST.pins.items[LOST.pins.list[0]].name == ""
    ensures LOST.oldFree != 0 && LOST.olds[LOST.oldFree].next == LOST.oldFree
  {
    ops := StaleExitReached();
    ReloadStep();
    ops := Then(ops, EXITED, CompInitOp("d", 1), RELOADED);
    ReuseStep();
    ops := Then(ops, RELOADED, PinNewOp("x", Bit, In, 1, true), REUSED);
    ReuseAliasStep();
    ops := Then(ops, REUSED, PinAliasOp("x", Some("y")), RENAMED);
    RemovalStep();
    ops := Then(ops, RENAMED, PinAliasOp("y", None), LOST);
  }

  // ------------------------------------------------------ a stale name of a parameter

  /** A parameter has saved its name. */
  const PARAM_SAVED: State := NAMED.(olds := map[OLD := OldName("", 0)], held := {OLD}, arena := Arena(HEADER, OLD))
  /** It has been freed, and its structure is free but still named. */
  const PARAM_FREED: State := PARAM_SAVED.(oldFree := OLD)
  /** The pin's alias takes that structure. */
  const SHARED: State :=
    PARAM_SAVED.(pins := Pool([PIN], [], map[PIN := PinAs("b", OLD)]), olds := map[OLD := OldName("a", 0)])
  /** Removing the alias of a parameter built on the freed one frees the structure that the pin holds. */
  const ROBBED: State := SHARED.(olds := map[OLD := OldName("", 0)], oldFree := OLD, held := {})
  /** Removing the pin's alias leaves it without a name. */
  const NAMELESS: State :=
    ROBBED.(pins := Pool([PIN], [], map[PIN := PinAs("", 0)]), olds := map[OLD := OldName("", OLD)])

  lemma SaveStep()
    ensures Inv(NAMED) ==> Step(NAMED, ParamSaveOp) == PARAM_SAVED
  {
    var none: map<Off, OldName> := map[];
    assert AllocDown(NAMED.arena, OLDNAME_SIZE) == (Arena(HEADER, OLD), Some(OLD));
    assert none[OLD := OldName("", 0)] == PARAM_SAVED.olds;
    assert ParamSave(NAMED) == PARAM_SAVED;
  }

  lemma FreedStep()
    ensures Inv(PARAM_SAVED) ==> Step(PARAM_SAVED, ParamFreedOp(OLD)) == PARAM_FREED
  {
    assert ParamFreed(PARAM_SAVED, OLD) == PARAM_FREED;
  }

  lemma RobStep()
    ensures Inv(SHARED) ==> Step(SHARED, ParamRestoreOp(OLD)) == ROBBED
  {
    assert ParamRestore(SHARED, OLD) == ROBBED;
  }

  lemma AliasTakesFreed()
    requires ListsOk(PARAM_FREED) && OldRefs(PARAM_FREED)
    ensures PinAlias(PARAM_FREED, "a", Some("b")) == (SHARED, Ok)
  {
    assert FreeOldName(AllocOldName(PARAM_FREED).0, AllocOldName(PARAM_FREED).1) == PARAM_FREED;
    assert FindPin(PARAM_FREED.pins.list, PARAM_FREED.pins.items, PARAM_FREED.olds, "a") == PIN;
    assert Detach(PARAM_FREED.pins, PIN).list == [];
    assert Realias(PARAM_FREED, PIN, Some("b")) == SHARED;
  }

  lemma RemovalFindsNothing()
    requires ListsOk(ROBBED) && OldRefs(ROBBED)
    ensures PinAlias(ROBBED, "b", None) == (NAMELESS, Ok)
  {
    assert FreeOldName(AllocOldName(ROBBED).0, AllocOldName(ROBBED).1) == ROBBED;
    assert FindPin(ROBBED.pins.list, ROBBED.pins.items, ROBBED.olds, "b") == PIN;
    assert Detach(ROBBED.pins, PIN).list == [];
    assert Realias(ROBBED, PIN, None) == NAMELESS;
  }

  lemma SharedStep()
    ensures Inv(PARAM_FREED) ==> Step(PARAM_FREED, PinAliasOp("a", Some("b"))) == SHARED
  {
    if ListsOk(PARAM_FREED) && OldRefs(PARAM_FREED) {
      AliasTakesFreed();
    }
    AliasStep(PARAM_FREED, "a", Some("b"), SHARED);
  }

  lemma NamelessStep()
    ensures Inv(ROBBED) ==> Step(ROBBED, PinAliasOp("b", None)) == NAMELESS
  {
    if ListsOk(ROBBED) && OldRefs(ROBBED) {
      RemovalFindsNothing();
    }
    AliasStep(ROBBED, "b", None, NAMELESS);
  }

  lemma ShareName() returns (ops: seq<Op>)
    ensures Leads(ops, SHARED)
  {
    ops := NamePin();
    SaveStep();
    FreedStep();
    ops := ThenTwice(ops, NAMED, ParamSaveOp, PARAM_SAVED, ParamFreedOp(OLD), PARAM_FREED);
    SharedStep();
    ops := Then(ops, PARAM_FREED, PinAliasOp("a", Some("b")), SHARED);
  }

  /**
   A parameter freed while aliased does the same harm to a pin that nothing was done to: no component
   with an aliased pin has exited, and yet the removal of the pin's alias takes its name away.
   */
  lemma StaleParamHarms() returns (ops: seq<Op>)
    ensures Leads(ops, NAMELESS) && NAMED.pins.items[PIN].name == "a"
    ensures NAMELESS.pins.list == [PIN] && NAMELESS.pins.items[PIN].name == ""
    ensures NAMELESS.oldFree != 0 && NAMELESS.olds[NAMELESS.oldFree].next == NAMELESS.oldFree
  {
    ops := ShareName();
    RobStep();
    NamelessStep();
    ops := ThenTwice(ops, SHARED, ParamRestoreOp(OLD), ROBBED, PinAliasOp("b", None), NAMELESS);
  }
}
