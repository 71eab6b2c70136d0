/** Signals, components and whole runs of the HAL database: what each call keeps. */
module HalOps {
  import opened Lists
  import opened Names
  import opened Shmem
  import opened Hal
  import opened HalInv

  // ------------------------------------------------------------------- signals

  /** The listed signals are the same ones, up to names. */
  ghost predicate SameListedSigs(sigs: Pool<Sig>, sigs': Pool<Sig>, s: Off) {
    && sigs'.items.Keys >= sigs.items.Keys
    && (forall t :: t in sigs.list && t in sigs.items && t != s ==> t in sigs'.list && sigs'.items[t] == sigs.items[t])
    && (forall t :: t in sigs'.list && t != s ==> t in sigs.list && t in sigs.items)
  }

  /** Signals that no pin is linked to may come and go. */
  lemma SigChangeKeepsLinkInv(pins: Pool<Pin>, sigs: Pool<Sig>, sigs': Pool<Sig>, cells: map<Off, Value>,
                              cells': map<Off, Value>, s: Off)
    requires LinkInv(pins, sigs, cells) && PoolOk(pins) && SameListedSigs(sigs, sigs', s)
    requires forall p :: p in pins.list ==> pins.items[p].signal != s || s == 0
    requires forall c :: c in cells ==> c in cells'
    requires s in sigs'.list && s in sigs'.items ==>
               && sigs'.items[s].readers == sigs'.items[s].writers == sigs'.items[s].bidirs == 0
               && sigs'.items[s].data in cells' && sigs'.items[s].data !in cells && s != 0
    ensures LinkInv(pins, sigs', cells')
  {
    forall p | p in pins.list && p in pins.items
      ensures LinkOk(pins.items[p], sigs')
    {
      assert LinkOk(pins.items[p], sigs);
    }
    forall t | t in sigs'.list && t in sigs'.items
      ensures CountOk(pins, t, sigs'.items[t])
    {
      if t == s {
        assert Group(pins, s, Reader) == {} && Group(pins, s, Writer) == {} && Group(pins, s, Bidir) == {};
      } else {
        assert CountOk(pins, t, sigs.items[t]);
      }
    }
  }

  /** No listed pin is linked to a signal that is not on the list. */
  lemma OnlyListedSigsLinked(st: State, s: Off)
    requires Inv(st) && s !in st.sigs.list
    ensures forall p :: p in st.pins.list ==> st.pins.items[p].signal != s || s == 0
  {
    forall p | p in st.pins.list
      ensures st.pins.items[p].signal != s || s == 0
    {
      assert LinkOk(st.pins.items[p], st.sigs);
    }
  }

  lemma SigNamesFrame(list: seq<Off>, items: map<Off, Sig>, s: Off, sig: Sig)
    requires (forall x :: x in list ==> x in items) && s !in list
    ensures SigNames(list, items[s := sig]) == SigNames(list, items)
  {
  }

  lemma SigNamesInsert(list: seq<Off>, items: map<Off, Sig>, i: nat, s: Off)
    requires (forall x :: x in list ==> x in items) && i <= |list| && s in items
    ensures SigNames(Insert(list, i, s), items) == Insert(SigNames(list, items), i, items[s].name)
  {
  }

  lemma SigNamesRemove(list: seq<Off>, items: map<Off, Sig>, i: nat)
    requires (forall x :: x in list ==> x in items) && i < |list|
    ensures SigNames(Remove(list, i), items) == Remove(SigNames(list, items), i)
  {
  }

  /** Memory for a signal: a value cell from below, a structure from the free list or from above. */
  ghost predicate SigMemory(st: State, pool: Pool<Sig>, m: Arena, s: Off, cell: nat) {
    && 0 < st.arena.bot <= cell < m.bot <= m.top <= st.arena.top
    && exists m1 :: TakenFrom(st.sigs, m1, pool, m, s) && m1.top == st.arena.top
  }

  lemma FinishSigPool(st: State, pool: Pool<Sig>, m: Arena, s: Off, sig: Sig)
    requires ListInv(st) && SigMemory(st, pool, m, s, sig.data)
    ensures var st' := FinishSig(st, pool, m, s, sig);
            && st'.sigs.items == st.sigs.items[s := sig]
            && (forall t :: t in st'.sigs.list <==> t in st.sigs.list || t == s)
            && PoolOk(st'.sigs) && Sorted(SigNames(st'.sigs.list, st'.sigs.items))
  {
    var names := SigNames(st.sigs.list, st.sigs.items);
    var i := Place(names, sig.name);
    InsertMembers(pool.list, i, s);
    PoolAfterInsert(pool, i, s);
    SigNamesFrame(st.sigs.list, st.sigs.items, s, sig);
    SigNamesInsert(st.sigs.list, st.sigs.items[s := sig], i, s);
    InsertKeepsSorted(names, sig.name);
    assert pool.items[s := sig] == st.sigs.items[s := sig];
  }

  lemma FinishSigKeepsInv(st: State, pool: Pool<Sig>, m: Arena, s: Off, sig: Sig)
    requires Inv(st) && SigMemory(st, pool, m, s, sig.data)
    requires sig.readers == sig.writers == sig.bidirs == 0
    ensures Inv(FinishSig(st, pool, m, s, sig))
  {
    var st' := FinishSig(st, pool, m, s, sig);
    FinishSigKeepsListInv(st, pool, m, s, sig);
    FinishSigPool(st, pool, m, s, sig);
    OnlyListedSigsLinked(st, s);
    SigChangeKeepsLinkInv(st.pins, st.sigs, st'.sigs, st.cells, st'.cells, s);
  }

  lemma FinishSigKeepsListInv(st: State, pool: Pool<Sig>, m: Arena, s: Off, sig: Sig)
    requires ListInv(st) && SigMemory(st, pool, m, s, sig.data)
    ensures ListInv(FinishSig(st, pool, m, s, sig))
  {
    FinishSigPool(st, pool, m, s, sig);
  }

  /** A failed `hal_signal_new` may have taken memory but leaves every list as it was. */
  lemma LostSigKeepsInv(st: State, pool: Pool<Sig>, m: Arena)
    requires Inv(st) && PoolOk(pool) && pool.list == st.sigs.list
    requires 0 < st.arena.bot <= m.bot <= m.top <= st.arena.top
    requires pool.items.Keys >= st.sigs.items.Keys && (forall t :: t in pool.items ==> m.top <= t)
    requires forall t :: t in st.sigs.list ==> pool.items[t] == st.sigs.items[t]
    ensures Inv(st.(sigs := pool, arena := m))
  {
    assert SigNames(pool.list, pool.items) == SigNames(st.sigs.list, st.sigs.items);
    SigChangeKeepsLinkInv(st.pins, st.sigs, pool, st.cells, st.cells, 0);
  }

  lemma SignalMemory(st: State)
    requires Inv(st)
    ensures var (m1, cell) := AllocUp(st.arena, CELL_SIZE);
            var (pool, m2, s) := Alloc(st.sigs, m1, SIG_SIZE, Sig("", 0, Bit, 0, 0, 0));
            && 0 < st.arena.bot <= m2.bot <= m2.top <= st.arena.top
            && PoolOk(pool) && pool.list == st.sigs.list && pool.items.Keys >= st.sigs.items.Keys
            && (forall t :: t in pool.items ==> m2.top <= t)
            && (forall t :: t in st.sigs.list ==> pool.items[t] == st.sigs.items[t])
            && (cell.Some? && s != 0 ==> SigMemory(st, pool, m2, s, cell.value))
  {
    var (m1, cell) := AllocUp(st.arena, CELL_SIZE);
    AllocUpExact(st.arena, CELL_SIZE);
    AllocFacts(st.sigs, m1, SIG_SIZE, Sig("", 0, Bit, 0, 0, 0));
  }

  lemma SignalNewKeepsInv(st: State, name: string, typ: Type)
    requires Inv(st)
    ensures Inv(SignalNew(st, name, typ).0)
  {
    var r := SignalNew(st, name, typ);
    if |name| > HAL_NAME_LEN || st.lockConfig || FindSig(st.sigs.list, st.sigs.items, name) != 0 {
      assert r.0 == st;
    } else {
      var (m1, cell) := AllocUp(st.arena, CELL_SIZE);
      var (pool, m2, s) := Alloc(st.sigs, m1, SIG_SIZE, Sig("", 0, Bit, 0, 0, 0));
      SignalMemory(st);
      if cell.None? || s == 0 {
        assert r.0 == st.(sigs := pool, arena := m2);
        LostSigKeepsInv(st, pool, m2);
      } else {
        var sig := Sig(name, cell.value, typ, 0, 0, 0);
        assert r.0 == FinishSig(st, pool, m2, s, sig);
        FinishSigKeepsInv(st, pool, m2, s, sig);
      }
    }
  }

  // ------------------------------------------------------------ deleting a signal

  /** What unlinking the listed pins of a signal does to the pins: only those on the signal change. */
  lemma {:induction false} UnlinkAllEffect(st: State, list: seq<Off>, s: Off)
    requires s != 0 && forall p :: p in list ==> CanUnlink(st, p)
    ensures var st' := UnlinkAll(st, list, s);
            && st'.pins.list == st.pins.list && st'.pins.items.Keys == st.pins.items.Keys && st'.cells == st.cells
            && (forall p :: p in list ==> p in st'.pins.items && st'.pins.items[p].signal != s)
            && (forall p :: p in st.pins.items && st.pins.items[p].signal != s ==> st'.pins.items[p] == st.pins.items[p])
    decreases list
  {
    if list != [] {
      assert CanUnlink(st, list[0]);
      var st1 := if st.pins.items[list[0]].signal == s then UnlinkPin(st, list[0]) else st;
      UnlinkAllEffect(st1, list[1..], s);
      assert st1.pins.items[list[0]].signal != s;
    }
  }

  lemma {:induction false} UnlinkAllKeepsInv(st: State, list: seq<Off>, s: Off)
    requires Inv(st) && (forall p :: p in list ==> p in st.pins.list)
    requires forall p :: p in list ==> CanUnlink(st, p)
    ensures Inv(UnlinkAll(st, list, s))
    decreases list
  {
    if list != [] {
      assert CanUnlink(st, list[0]);
      if st.pins.items[list[0]].signal == s && s != 0 {
        UnlinkKeepsInv(st, list[0]);
        UnlinkAllKeepsInv(UnlinkPin(st, list[0]), list[1..], s);
      } else {
        UnlinkAllKeepsInv(st, list[1..], s);
      }
    }
  }

  /** Unlinking does not look at the signal list. */
  lemma {:induction false} UnlinkAllFrame(st: State, list: seq<Off>, s: Off, sigList: seq<Off>)
    requires forall p :: p in list ==> CanUnlink(st, p)
    ensures var st1 := st.(sigs := st.sigs.(list := sigList));
            && (forall p :: p in list ==> CanUnlink(st1, p))
            && var st' := UnlinkAll(st, list, s);
               UnlinkAll(st1, list, s) == st'.(sigs := st'.sigs.(list := sigList))
    decreases list
  {
    var st1 := st.(sigs := st.sigs.(list := sigList));
    assert forall p :: CanUnlink(st, p) ==> CanUnlink(st1, p);
    if list != [] {
      assert CanUnlink(st, list[0]);
      if st.pins.items[list[0]].signal == s && s != 0 {
        assert UnlinkPin(st1, list[0]) == UnlinkPin(st, list[0]).(sigs := UnlinkPin(st, list[0]).sigs.(list := sigList));
        UnlinkAllFrame(UnlinkPin(st, list[0]), list[1..], s, sigList);
      } else {
        UnlinkAllFrame(st, list[1..], s, sigList);
      }
    }
  }

  /** Taking a signal without pins off the list and putting it on the free list. */
  function RetireSig(st: State, s: Off): State
    requires s in st.sigs.list
  {
    st.(sigs := Pool(Detach(st.sigs, s).list, [s] + st.sigs.free, st.sigs.items[s := Sig("", 0, Bit, 0, 0, 0)]))
  }

  lemma RetireSigKeepsListInv(st: State, s: Off)
    requires ListInv(st) && s in st.sigs.list
    ensures ListInv(RetireSig(st, s))
  {
    var sig := Sig("", 0, Bit, 0, 0, 0);
    PoolAfterRetire(st.sigs, s, sig);
    SigNamesFrame(Detach(st.sigs, s).list, st.sigs.items, s, sig);
    SigNamesRemove(st.sigs.list, st.sigs.items, IndexOf(st.sigs.list, s));
    SortedAfterRemove(SigNames(st.sigs.list, st.sigs.items), IndexOf(st.sigs.list, s));
  }

  lemma RetireSigKeepsInv(st: State, s: Off)
    requires Inv(st) && s in st.sigs.list && forall p :: p in st.pins.list ==> st.pins.items[p].signal != s
    ensures Inv(RetireSig(st, s))
  {
    RetireSigKeepsListInv(st, s);
    PoolAfterRetire(st.sigs, s, Sig("", 0, Bit, 0, 0, 0));
    SigChangeKeepsLinkInv(st.pins, st.sigs, RetireSig(st, s).sigs, st.cells, st.cells, s);
  }

  /** Deleting a signal is unlinking all its pins and then retiring it. */
  lemma SignalDeleteSteps(st: State, s: Off)
    requires Inv(st) && s in st.sigs.list && Unlinkable(st)
    ensures var st1 := UnlinkAll(st, st.pins.list, s);
            && st1.sigs.list == st.sigs.list
            && Unlinkable(st.(sigs := Detach(st.sigs, s)))
            && FreeSig(st.(sigs := Detach(st.sigs, s)), s) == RetireSig(st1, s)
  {
    DetachMembers(st.sigs, s);
    UnlinkAllFrame(st, st.pins.list, s, Detach(st.sigs, s).list);
    assert forall p :: CanUnlink(st, p) ==> CanUnlink(st.(sigs := Detach(st.sigs, s)), p);
  }

  lemma SignalDeleteKeepsInv(st: State, name: string)
    requires Inv(st) && Unlinkable(st)
    ensures Inv(SignalDelete(st, name).0)
  {
    var r, s := SignalDelete(st, name), FindSig(st.sigs.list, st.sigs.items, name);
    if st.lockConfig || s == 0 {
      assert r.0 == st;
    } else {
      SignalDeleteSteps(st, s);
      UnlinkAllEffect(st, st.pins.list, s);
      UnlinkAllKeepsInv(st, st.pins.list, s);
      RetireSigKeepsInv(UnlinkAll(st, st.pins.list, s), s);
    }
  }

  // ---------------------------------------------------------------- components

  /** Components may be added and changed as long as the listed ones stay listed. */
  lemma CompChangeKeepsInv(st: State, comps: Pool<Comp>, m: Arena)
    requires Inv(st) && PoolOk(comps)
    requires forall c :: c in st.comps.list ==> c in comps.list
    requires 0 < m.bot <= m.top <= st.arena.top && m.bot == st.arena.bot
    requires forall c :: c in comps.items ==> m.top <= c
    ensures Inv(st.(comps := comps, arena := m))
  {
  }

  lemma CompInitKeepsInv(st: State, name: string, id: int)
    requires Inv(st)
    ensures Inv(CompInit(st, name, id).0)
  {
    var r := CompInit(st, name, id);
    if |name| > HAL_NAME_LEN || id < 0 || CompNameTaken(st.comps.list, st.comps.items, name) {
      assert r.0 == st;
    } else {
      var comp := Comp(id, name, false);
      var (pool, m, c) := Alloc(st.comps, st.arena, COMP_SIZE, comp);
      AllocFacts(st.comps, st.arena, COMP_SIZE, comp);
      if c == 0 {
        assert r.0 == st;
      } else {
        PoolAfterInsert(pool, 0, c);
        assert Insert(pool.list, 0, c) == [c] + pool.list;
        CompChangeKeepsInv(st, pool.(list := [c] + pool.list), m);
      }
    }
  }

  lemma CompReadyKeepsInv(st: State, id: int)
    requires Inv(st)
    ensures Inv(CompReady(st, id).0)
  {
    var c := FindComp(st.comps.list, st.comps.items, id);
    if c != 0 && !st.comps.items[c].ready {
      CompChangeKeepsInv(st, st.comps.(items := st.comps.items[c := st.comps.items[c].(ready := true)]), st.arena);
    }
  }

  // ---------------------------------------------------------------------- exit

  lemma {:induction false} WithoutElement(list: seq<Off>, x: Off)
    requires Distinct(list) && x in list
    ensures Remove(list, IndexOf(list, x)) == Without(list, {x})
  {
    if list[0] == x {
      assert forall y :: y in list[1..] ==> y != x;
      WithoutAbsent(list[1..], {x});
      assert Remove(list, 0) == list[1..];
      assert [] + list[1..] == list[1..];
    } else {
      WithoutElement(list[1..], x);
      var i := IndexOf(list[1..], x);
      assert Remove(list, i + 1) == [list[0]] + Remove(list[1..], i);
    }
  }

  /**
   The pins in `gone` have been dropped: the others keep their order and their structures,
   and values, signals' cells, components and locks are as they were.
   */
  ghost predicate Dropped(st: State, st': State, gone: set<Off>) {
    && st'.pins.list == Without(st.pins.list, gone)
    && st'.pins.items.Keys == st.pins.items.Keys
    && (forall q :: q in st.pins.items && q !in gone ==> q in st'.pins.items && st'.pins.items[q] == st.pins.items[q])
    && st'.comps == st.comps && st'.sigs.list == st.sigs.list && st'.cells == st.cells
    && st'.sigs.items.Keys == st.sigs.items.Keys
    && st'.lockLoad == st.lockLoad && st'.lockConfig == st.lockConfig && st'.arena == st.arena
  }

  lemma DroppedTwice(st: State, st1: State, st2: State, p: Off, gone: set<Off>)
    requires Dropped(st, st1, {p}) && Dropped(st1, st2, gone)
    ensures Dropped(st, st2, {p} + gone)
  {
    WithoutTwice(st.pins.list, {p}, gone);
  }

  lemma DropPinFrame(st: State, p: Off)
    requires PoolOk(st.pins) && p in st.pins.list && CanUnlink(st, p)
    ensures var st' := DropPin(st, p);
            && st'.pins.list == Detach(st.pins, p).list && st'.pins.items.Keys == st.pins.items.Keys
            && (forall q :: q in st.pins.items && q != p ==> q in st'.pins.items && st'.pins.items[q] == st.pins.items[q])
            && st' == st.(pins := st'.pins, sigs := st'.sigs, olds := st'.olds, oldFree := st'.oldFree)
            && st'.sigs == st.sigs.(items := st'.sigs.items) && st'.sigs.items.Keys == st.sigs.items.Keys
  {
    var st0 := st.(pins := Detach(st.pins, p));
    UnlinkPinFrame(st0, p);
    FreedFrame(st0, UnlinkPin(st0, p), p);
  }

  /** The rest of `free_pin_struct`. */
  lemma FreedFrame(st: State, st1: State, p: Off)
    requires CanUnlink(st, p) && st1 == UnlinkPin(st, p) && p in st1.pins.items
    ensures var st' := FreePin(st, p);
            && st'.pins.list == st1.pins.list && p in st'.pins.items
            && st'.pins.items == st1.pins.items[p := st'.pins.items[p]]
            && st' == st1.(pins := st'.pins, olds := st'.olds, oldFree := st'.oldFree)
  {
  }

  lemma UnlinkPinFrame(st: State, p: Off)
    requires CanUnlink(st, p)
    ensures var st' := UnlinkPin(st, p);
            && st'.pins == st.pins.(items := st'.pins.items) && st'.pins.items.Keys == st.pins.items.Keys
            && p in st'.pins.items && st'.pins.items == st.pins.items[p := st'.pins.items[p]]
            && st' == st.(pins := st'.pins, sigs := st'.sigs)
            && st'.sigs == st.sigs.(items := st'.sigs.items) && st'.sigs.items.Keys == st.sigs.items.Keys
  {
    assert st.pins.items[p := st.pins.items[p]] == st.pins.items;
  }

  lemma DropPinFacts(st: State, p: Off)
    requires PoolOk(st.pins) && p in st.pins.list && CanUnlink(st, p)
    ensures Dropped(st, DropPin(st, p), {p})
  {
    DropPinFrame(st, p);
    WithoutElement(st.pins.list, p);
  }

  /** Dropping the first of several pins leaves the others to be dropped. */
  lemma DropFirst(st: State, ps: seq<Off>, st1: State)
    requires Distinct(ps) && ps != [] && Dropped(st, st1, {ps[0]}) && forall p :: p in ps ==> p in st.pins.list
    ensures Distinct(ps[1..]) && forall p :: p in ps[1..] ==> p in st1.pins.list
  {
    WithoutMembers(st.pins.list, {ps[0]});
    assert forall p :: p in ps[1..] ==> p in ps && p != ps[0];
  }

  /** Drops the pins one after the other. */
  ghost function DropPins(st: State, ps: seq<Off>): (st': State)
    requires Inv(st) && Distinct(ps) && forall p :: p in ps ==> p in st.pins.list
    ensures Inv(st')
    decreases ps
  {
    if ps == [] then st
    else
      DropPinKeepsInv(st, ps[0]);
      DropPinFacts(st, ps[0]);
      DropFirst(st, ps, DropPin(st, ps[0]));
      DropPins(DropPin(st, ps[0]), ps[1..])
  }

  /** The state after the first drop, from which the rest goes on. */
  lemma DropPinsStep(st: State, ps: seq<Off>) returns (st1: State)
    requires Inv(st) && Distinct(ps) && ps != [] && forall p :: p in ps ==> p in st.pins.list
    ensures Inv(st1) && Dropped(st, st1, {ps[0]})
    ensures Distinct(ps[1..]) && forall p :: p in ps[1..] ==> p in st1.pins.list
    ensures DropPins(st, ps) == DropPins(st1, ps[1..])
  {
    DropPinKeepsInv(st, ps[0]);
    DropPinFacts(st, ps[0]);
    DropFirst(st, ps, DropPin(st, ps[0]));
    st1 := DropPin(st, ps[0]);
  }

  lemma {:induction false} OwnedDistinct(list: seq<Off>, items: map<Off, Pin>, c: Off)
    requires (forall x :: x in list ==> x in items) && Distinct(list)
    ensures Distinct(Owned(list, items, c))
  {
    if list != [] {
      OwnedDistinct(list[1..], items, c);
    }
  }

  /** The component has left its list and is on the free list. */
  function WithoutComp(st: State, comps: Pool<Comp>, c: Off): (st': State)
    requires c in comps.list
  {
    st.(comps := Pool(Detach(comps, c).list, [c] + comps.free, comps.items[c := Comp(0, "", false)]))
  }

  /** `hal_exit`, as far as pins, signals and components go. */
  ghost function CompExit(st: State, id: int): (r: (State, Result))
    requires Inv(st)
  {
    var c := FindComp(st.comps.list, st.comps.items, id);
    if c == 0 then (st, Err(EINVAL))
    else
      OwnedDistinct(st.pins.list, st.pins.items, c);
      var st1 := DropPins(st, Owned(st.pins.list, st.pins.items, c));
      (WithoutComp(st1, st.comps, c), Ok)
  }

  /** The members of a list. */
  function ToSet(ps: seq<Off>): (s: set<Off>) {
    if ps == [] then {} else {ps[0]} + ToSet(ps[1..])
  }

  lemma {:induction false} ToSetMembers(ps: seq<Off>)
    ensures forall p :: p in ToSet(ps) <==> p in ps
  {
    if ps != [] {
      ToSetMembers(ps[1..]);
      assert ps == [ps[0]] + ps[1..];
    }
  }

  lemma {:induction false} DropPinsFacts(st: State, ps: seq<Off>)
    requires Inv(st) && Distinct(ps) && forall p :: p in ps ==> p in st.pins.list
    ensures Dropped(st, DropPins(st, ps), ToSet(ps))
    decreases ps
  {
    if ps == [] {
      WithoutAbsent(st.pins.list, {});
    } else {
      var st1 := DropPinsStep(st, ps);
      DropPinsFacts(st1, ps[1..]);
      DroppedTwice(st, st1, DropPins(st, ps), ps[0], ToSet(ps[1..]));
    }
  }

  /** The order-preserving filter that an exit leaves of the pin list. */
  function Others(list: seq<Off>, items: map<Off, Pin>, c: Off): (ps: seq<Off>)
    requires forall x :: x in list ==> x in items
    ensures forall p :: p in ps <==> p in list && items[p].owner != c
  {
    if list == [] then []
    else (if items[list[0]].owner == c then [] else [list[0]]) + Others(list[1..], items, c)
  }

  lemma CompExitKeepsInv(st: State, id: int)
    requires Inv(st)
    ensures Inv(CompExit(st, id).0)
  {
    var c := FindComp(st.comps.list, st.comps.items, id);
    if c != 0 {
      var ps := Owned(st.pins.list, st.pins.items, c);
      OwnedDistinct(st.pins.list, st.pins.items, c);
      var st1 := DropPins(st, ps);
      DropPinsFacts(st, ps);
      WithoutMembers(st.pins.list, ToSet(ps));
      ToSetMembers(ps);
      PoolAfterRetire(st.comps, c, Comp(0, "", false));
      RetireCompKeepsInv(st1, c);
    }
  }

  lemma RetireCompKeepsInv(st: State, c: Off)
    requires Inv(st) && c in st.comps.list && forall p :: p in st.pins.list ==> st.pins.items[p].owner != c
    ensures Inv(WithoutComp(st, st.comps, c))
  {
    PoolAfterRetire(st.comps, c, Comp(0, "", false));
  }
}
